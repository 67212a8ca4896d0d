/**
  `detection_time` of waco/analyzer.py: for every (observing node, injection
  scenario) pair, the time of the first row of that node whose concentration in
  that scenario is strictly above the sensibility, or a non-detection time.
 */
module Detection {
  import opened Wrappers
  import opened Tables

  /** `last` and `prev` are the indices of rows holding the largest and the
      second-largest distinct times of the trace. */
  ghost predicate LastTwoTimes(tr: Trace, last: int, prev: int) {
    && 0 <= last < |tr.rows| && 0 <= prev < |tr.rows|
    && tr.rows[prev].time < tr.rows[last].time
    && (forall k :: 0 <= k < |tr.rows| ==> tr.rows[k].time <= tr.rows[last].time)
    && (forall k :: 0 <= k < |tr.rows| && tr.rows[k].time < tr.rows[last].time ==> tr.rows[k].time <= tr.rows[prev].time)
  }

  /** The sentinel used when no non-detection value is given: the last distinct
      time plus the last time step. Fewer than two distinct times is an error. */
  function DefaultNonDetection(tr: Trace): (r: Result<int, Error>)
    ensures r.Failure? <==> forall a, b :: 0 <= a < |tr.rows| && 0 <= b < |tr.rows| ==> tr.rows[a].time == tr.rows[b].time
    ensures r.Failure? ==> r.error == TooFewTimes
    ensures r.Success? ==> exists last, prev ::
      LastTwoTimes(tr, last, prev) && r.value == tr.rows[last].time + (tr.rows[last].time - tr.rows[prev].time)
    ensures r.Success? ==> forall k :: 0 <= k < |tr.rows| ==> tr.rows[k].time < r.value
  {
    match MaxTime(tr.rows)
    case None => Failure(TooFewTimes)
    case Some(last) =>
      match TimeBelow(tr.rows, last)
      case None => Failure(TooFewTimes)
      case Some(prev) =>
        var a :| 0 <= a < |tr.rows| && tr.rows[a].time == last;
        var b :| 0 <= b < |tr.rows| && tr.rows[b].time == prev;
        assert LastTwoTimes(tr, a, b);
        Success(last + (last - prev))
  }

  /** The non-detection value actually used: the caller's, or the default sentinel. */
  function NonDetectionValue(tr: Trace, nonDetection: Option<real>): (r: Result<real, Error>)
    ensures nonDetection.Some? ==> r == Success(nonDetection.value)
    ensures nonDetection.None? ==> r.Failure? == DefaultNonDetection(tr).Failure?
    ensures nonDetection.None? && r.Success? ==> r.value == DefaultNonDetection(tr).value as real
  {
    match nonDetection
    case Some(v) => Success(v)
    case None =>
      match DefaultNonDetection(tr)
      case Failure(e) => Failure(e)
      case Success(v) => Success(v as real)
  }

  /** Row `k` belongs to `node` and its concentration in scenario `j` exceeds `sens`. */
  predicate Detects(tr: Trace, k: nat, node: NodeId, j: nat, sens: real) {
    k < |tr.rows| && j < |tr.rows[k].values| && tr.rows[k].node == node && tr.rows[k].values[j] > sens
  }

  /** The index labels, in table order, of the rows among the first `n` that
      belong to `node` and exceed `sens` in scenario `j`: the filtered group series. */
  function Exceedances(tr: Trace, node: NodeId, j: nat, sens: real, n: nat): (r: seq<nat>)
    requires n <= |tr.rows|
    ensures forall i :: 0 <= i < |r| ==> r[i] < n && Detects(tr, r[i], node, j, sens)
    ensures forall i, i' :: 0 <= i < i' < |r| ==> r[i] < r[i']
    ensures forall k :: 0 <= k < n && Detects(tr, k, node, j, sens) ==> k in r
  {
    if n == 0 then []
    else
      var before := Exceedances(tr, node, j, sens, n - 1);
      if Detects(tr, n - 1, node, j, sens) then before + [n - 1] else before
  }

  /** Row `k` is the first row, in table order, of `node` whose value in scenario `j`
      is strictly above `sens`; every earlier row of `node` is at or below it. */
  ghost predicate IsFirstDetection(tr: Trace, k: int, node: NodeId, j: nat, sens: real)
    requires WellFormed(tr) && j < |tr.scenarios|
  {
    && 0 <= k < |tr.rows| && tr.rows[k].node == node && tr.rows[k].values[j] > sens
    && forall k' :: 0 <= k' < k && tr.rows[k'].node == node ==> tr.rows[k'].values[j] <= sens
  }

  /** No row of `node` is strictly above `sens` in scenario `j`. */
  ghost predicate NeverDetected(tr: Trace, node: NodeId, j: nat, sens: real)
    requires WellFormed(tr) && j < |tr.scenarios|
  {
    forall k :: 0 <= k < |tr.rows| && tr.rows[k].node == node ==> tr.rows[k].values[j] <= sens
  }

  /** `first_T_greater_than` before the time lookup: the index of the first
      element of the filtered series, if there is one. */
  function FirstExceedance(tr: Trace, node: NodeId, j: nat, sens: real): (r: Option<nat>)
    requires WellFormed(tr) && j < |tr.scenarios|
    ensures r.Some? ==> IsFirstDetection(tr, r.value, node, j, sens)
    ensures r.None? ==> NeverDetected(tr, node, j, sens)
  {
    var hits := Exceedances(tr, node, j, sens, |tr.rows|);
    if |hits| == 0 then
      assert NeverDetected(tr, node, j, sens) by {
        forall k | 0 <= k < |tr.rows| && tr.rows[k].node == node ensures tr.rows[k].values[j] <= sens {
          assert k !in hits;
          assert !Detects(tr, k, node, j, sens);
        }
      }
      None
    else
      assert IsFirstDetection(tr, hits[0], node, j, sens) by {
        assert Detects(tr, hits[0], node, j, sens);
        assert forall i :: 0 <= i < |hits| ==> hits[0] <= hits[i];
        forall k | 0 <= k < hits[0] && tr.rows[k].node == node ensures tr.rows[k].values[j] <= sens {
          assert k !in hits;
          assert !Detects(tr, k, node, j, sens);
        }
      }
      Some(hits[0])
  }

  /** The detection time reported for (`node`, scenario `j`): the time of the
      first exceeding row, or `fill` when there is none (the `fillna`). */
  function DetectedTime(tr: Trace, sens: real, fill: real, node: NodeId, j: nat): real
    requires WellFormed(tr) && j < |tr.scenarios|
  {
    match FirstExceedance(tr, node, j, sens)
    case Some(k) =>
      assert !NeverDetected(tr, node, j, sens);
      tr.rows[k].time as real
    case None => fill
  }

  /** The reported time is the first exceeding row's time, or `fill` when the node never exceeds `sens`. */
  lemma DetectedTimeMeaning(tr: Trace, sens: real, fill: real, node: NodeId, j: nat)
    requires WellFormed(tr) && j < |tr.scenarios|
    ensures
      || (exists k :: IsFirstDetection(tr, k, node, j, sens) && DetectedTime(tr, sens, fill, node, j) == tr.rows[k].time as real)
      || (NeverDetected(tr, node, j, sens) && DetectedTime(tr, sens, fill, node, j) == fill)
  {
    match FirstExceedance(tr, node, j, sens)
    case Some(k) =>
      assert IsFirstDetection(tr, k, node, j, sens);
    case None =>
  }

  /** Inserts `x` into a strictly increasing sequence, unless it is already there. */
  function Insert(s: seq<NodeId>, x: NodeId): (r: seq<NodeId>)
    requires StrictlyIncreasing(s)
    ensures StrictlyIncreasing(r)
    ensures forall y :: y in r <==> y in s || y == x
  {
    if |s| == 0 then [x]
    else if x < s[0] then [x] + s
    else if x == s[0] then s
    else
      var t := Insert(s[1..], x);
      assert forall b :: 0 <= b < |t| ==> s[0] < t[b] by {
        forall b | 0 <= b < |t| ensures s[0] < t[b] {
          assert t[b] in t;
        }
      }
      [s[0]] + t
  }

  /** The group keys of `groupby("node")`: the distinct observing nodes, ascending. */
  function ObserverNodes(rows: seq<Row>): (r: seq<NodeId>)
    ensures StrictlyIncreasing(r)
    ensures forall x :: x in r <==> exists k :: 0 <= k < |rows| && rows[k].node == x
  {
    if |rows| == 0 then []
    else
      var rest := ObserverNodes(rows[1..]);
      assert forall x :: x in rest <==> exists k :: 1 <= k < |rows| && rows[k].node == x by {
        forall x | x in rest ensures exists k :: 1 <= k < |rows| && rows[k].node == x {
          var k' :| 0 <= k' < |rows| - 1 && rows[1..][k'].node == x;
          assert rows[k' + 1].node == x;
        }
        forall x, k | 1 <= k < |rows| && rows[k].node == x ensures x in rest {
          assert rows[1..][k - 1].node == x;
        }
      }
      Insert(rest, rows[0].node)
  }

  /** The detection rows of one observing node, one per scenario column, in column order. */
  function Block(tr: Trace, sens: real, fill: real, node: NodeId): seq<DetRow>
    requires WellFormed(tr)
  {
    seq(|tr.scenarios|, j requires 0 <= j < |tr.scenarios| =>
      DetRow(node, tr.scenarios[j], DetectedTime(tr, sens, fill, node, j)))
  }

  /** `stack()` of the aggregated frame: the blocks of the nodes, one after the other. */
  function Stacked(tr: Trace, sens: real, fill: real, nodes: seq<NodeId>): seq<DetRow>
    requires WellFormed(tr)
  {
    if |nodes| == 0 then [] else Block(tr, sens, fill, nodes[0]) + Stacked(tr, sens, fill, nodes[1..])
  }

  /** `detection_time(trace, sensibility, non_detection_value)`, with the source's defaults. */
  function DetectionTime(tr: Trace, sens: real := 1.0, nonDetection: Option<real> := None): (r: Result<seq<DetRow>, Error>)
    requires WellFormed(tr)
    ensures r.Failure? <==> (nonDetection.None? &&
      forall a, b :: 0 <= a < |tr.rows| && 0 <= b < |tr.rows| ==> tr.rows[a].time == tr.rows[b].time)
    ensures r.Failure? ==> r.error == TooFewTimes
  {
    match NonDetectionValue(tr, nonDetection)
    case Failure(e) => Failure(e)
    case Success(fill) => Success(Stacked(tr, sens, fill, ObserverNodes(tr.rows)))
  }

  // ---------------------------------------------------------------------------
  // The layout of the stacked table

  lemma {:induction false} StackedLength(tr: Trace, sens: real, fill: real, nodes: seq<NodeId>)
    requires WellFormed(tr)
    ensures |Stacked(tr, sens, fill, nodes)| == |nodes| * |tr.scenarios|
  {
    if |nodes| > 0 {
      StackedLength(tr, sens, fill, nodes[1..]);
      assert |nodes| * |tr.scenarios| == |tr.scenarios| + (|nodes| - 1) * |tr.scenarios|;
    }
  }

  /** Row `i * m + j` of the stacked table is the pair (node `i`, scenario `j`). */
  lemma {:induction false} StackedAt(tr: Trace, sens: real, fill: real, nodes: seq<NodeId>, i: nat, j: nat)
    requires WellFormed(tr) && i < |nodes| && j < |tr.scenarios|
    ensures i * |tr.scenarios| + j < |Stacked(tr, sens, fill, nodes)|
    ensures Stacked(tr, sens, fill, nodes)[i * |tr.scenarios| + j] ==
      DetRow(nodes[i], tr.scenarios[j], DetectedTime(tr, sens, fill, nodes[i], j))
  {
    var m := |tr.scenarios|;
    if i > 0 {
      StackedAt(tr, sens, fill, nodes[1..], i - 1, j);
      assert i * m + j == m + ((i - 1) * m + j);
    }
  }

  /** Every row of the stacked table is the pair of some node `i` and scenario `j`. */
  lemma {:induction false} StackedRow(tr: Trace, sens: real, fill: real, nodes: seq<NodeId>, p: nat)
    returns (i: nat, j: nat)
    requires WellFormed(tr) && p < |Stacked(tr, sens, fill, nodes)|
    ensures i < |nodes| && j < |tr.scenarios| && p == i * |tr.scenarios| + j
    ensures Stacked(tr, sens, fill, nodes)[p] ==
      DetRow(nodes[i], tr.scenarios[j], DetectedTime(tr, sens, fill, nodes[i], j))
  {
    var m := |tr.scenarios|;
    if p < m {
      i, j := 0, p;
    } else {
      var i', j' := StackedRow(tr, sens, fill, nodes[1..], p - m);
      i, j := i' + 1, j';
      assert (i' + 1) * m == i' * m + m;
      assert |Block(tr, sens, fill, nodes[0])| == m;
      assert Stacked(tr, sens, fill, nodes)[p] == Stacked(tr, sens, fill, nodes[1..])[p - m];
      assert nodes[1..][i'] == nodes[i];
    }
  }

  /** Every row of the stacked table belongs to a node that comes no earlier than
      the nodes of the rows before it. */
  lemma {:induction false} StackedSorted(tr: Trace, sens: real, fill: real, nodes: seq<NodeId>, p: nat, q: nat)
    requires WellFormed(tr) && StrictlyIncreasing(nodes) && p <= q < |Stacked(tr, sens, fill, nodes)|
    ensures Stacked(tr, sens, fill, nodes)[p].node <= Stacked(tr, sens, fill, nodes)[q].node
  {
    var m := |tr.scenarios|;
    var rest := Stacked(tr, sens, fill, nodes[1..]);
    assert |Block(tr, sens, fill, nodes[0])| == m;
    if q < m {
      assert Stacked(tr, sens, fill, nodes)[p].node == nodes[0] == Stacked(tr, sens, fill, nodes)[q].node;
    } else if p < m {
      var i, j := StackedRow(tr, sens, fill, nodes[1..], q - m);
      assert Stacked(tr, sens, fill, nodes)[q] == rest[q - m];
      assert nodes[1..][i] == nodes[i + 1];
    } else {
      StackedSorted(tr, sens, fill, nodes[1..], p - m, q - m);
      assert Stacked(tr, sens, fill, nodes)[p] == rest[p - m];
      assert Stacked(tr, sens, fill, nodes)[q] == rest[q - m];
    }
  }

  // ---------------------------------------------------------------------------
  // Properties of detection_time

  /** The table has one row per (observing node, scenario column) pair. */
  lemma DetectionTimeLength(tr: Trace, sens: real, nonDetection: Option<real>)
    requires WellFormed(tr) && DetectionTime(tr, sens, nonDetection).Success?
    ensures |DetectionTime(tr, sens, nonDetection).value| == |ObserverNodes(tr.rows)| * |tr.scenarios|
  {
    StackedLength(tr, sens, NonDetectionValue(tr, nonDetection).value, ObserverNodes(tr.rows));
  }

  /** Totality: every observing node of the trace has a row for every scenario column. */
  lemma DetectionTimeTotal(tr: Trace, sens: real, nonDetection: Option<real>, det: seq<DetRow>, k: nat, j: nat)
    requires WellFormed(tr) && DetectionTime(tr, sens, nonDetection) == Success(det)
    requires k < |tr.rows| && j < |tr.scenarios|
    ensures exists p :: 0 <= p < |det| && det[p].node == tr.rows[k].node && det[p].injNode == tr.scenarios[j]
  {
    var nodes := ObserverNodes(tr.rows);
    var fill := NonDetectionValue(tr, nonDetection).value;
    assert tr.rows[k].node in nodes;
    var i :| 0 <= i < |nodes| && nodes[i] == tr.rows[k].node;
    StackedAt(tr, sens, fill, nodes, i, j);
    assert det == Stacked(tr, sens, fill, nodes);
    var p := i * |tr.scenarios| + j;
    assert det[p].node == tr.rows[k].node && det[p].injNode == tr.scenarios[j];
  }

  /** No (observing node, scenario column) pair has two rows. */
  lemma DetectionTimeUnique(tr: Trace, sens: real, nonDetection: Option<real>, p: nat, q: nat)
    requires WellFormed(tr) && DetectionTime(tr, sens, nonDetection).Success?
    requires p < |DetectionTime(tr, sens, nonDetection).value| && q < |DetectionTime(tr, sens, nonDetection).value|
    requires DetectionTime(tr, sens, nonDetection).value[p].node == DetectionTime(tr, sens, nonDetection).value[q].node
    requires DetectionTime(tr, sens, nonDetection).value[p].injNode == DetectionTime(tr, sens, nonDetection).value[q].injNode
    ensures p == q
  {
    var nodes := ObserverNodes(tr.rows);
    var fill := NonDetectionValue(tr, nonDetection).value;
    var ip, jp := StackedRow(tr, sens, fill, nodes, p);
    var iq, jq := StackedRow(tr, sens, fill, nodes, q);
    assert ip == iq;
    assert jp == jq;
  }

  /** The rows come grouped by observing node, in ascending node order. */
  lemma DetectionTimeSorted(tr: Trace, sens: real, nonDetection: Option<real>, p: nat, q: nat)
    requires WellFormed(tr) && DetectionTime(tr, sens, nonDetection).Success?
    requires p <= q < |DetectionTime(tr, sens, nonDetection).value|
    ensures DetectionTime(tr, sens, nonDetection).value[p].node <= DetectionTime(tr, sens, nonDetection).value[q].node
  {
    StackedSorted(tr, sens, NonDetectionValue(tr, nonDetection).value, ObserverNodes(tr.rows), p, q);
  }

  /** Row `p`, whose scenario column is `j`: an observing node of the trace, and the
      time of that node's first row strictly above `sens`, or the non-detection value
      when no row of the node is. */
  lemma DetectionTimeRow(tr: Trace, sens: real, nonDetection: Option<real>, det: seq<DetRow>, p: nat, j: nat)
    requires WellFormed(tr) && DetectionTime(tr, sens, nonDetection) == Success(det)
    requires p < |det| && j < |tr.scenarios| && tr.scenarios[j] == det[p].injNode
    ensures exists k :: 0 <= k < |tr.rows| && tr.rows[k].node == det[p].node
    ensures
      || (exists k :: IsFirstDetection(tr, k, det[p].node, j, sens) && det[p].time == tr.rows[k].time as real)
      || (NeverDetected(tr, det[p].node, j, sens) && det[p].time == NonDetectionValue(tr, nonDetection).value)
  {
    var nodes := ObserverNodes(tr.rows);
    var fill := NonDetectionValue(tr, nonDetection).value;
    assert det == Stacked(tr, sens, fill, nodes);
    var i, j' := StackedRow(tr, sens, fill, nodes, p);
    assert j' == j;
    assert nodes[i] in nodes;
    DetectedTimeMeaning(tr, sens, fill, nodes[i], j);
  }

  /** Every reported time is the time of a row of the trace, or the non-detection value. */
  lemma DetectionTimeValues(tr: Trace, sens: real, nonDetection: Option<real>, p: nat)
    requires WellFormed(tr) && DetectionTime(tr, sens, nonDetection).Success?
    requires p < |DetectionTime(tr, sens, nonDetection).value|
    ensures DetectionTime(tr, sens, nonDetection).value[p].injNode in tr.scenarios
    ensures
      || (exists k :: 0 <= k < |tr.rows| && DetectionTime(tr, sens, nonDetection).value[p].time == tr.rows[k].time as real)
      || DetectionTime(tr, sens, nonDetection).value[p].time == NonDetectionValue(tr, nonDetection).value
  {
    var i, j := StackedRow(tr, sens, NonDetectionValue(tr, nonDetection).value, ObserverNodes(tr.rows), p);
  }

  /** Detection is strict: a pair whose values never rise above `sens` (a value
      equal to it included) is reported with the non-detection value. */
  lemma ThresholdIsStrict(tr: Trace, sens: real, nonDetection: Option<real>, p: nat, j: nat)
    requires WellFormed(tr) && DetectionTime(tr, sens, nonDetection).Success?
    requires p < |DetectionTime(tr, sens, nonDetection).value|
    requires j < |tr.scenarios| && tr.scenarios[j] == DetectionTime(tr, sens, nonDetection).value[p].injNode
    requires forall k :: 0 <= k < |tr.rows| && tr.rows[k].node == DetectionTime(tr, sens, nonDetection).value[p].node ==>
      tr.rows[k].values[j] <= sens
    ensures DetectionTime(tr, sens, nonDetection).value[p].time == NonDetectionValue(tr, nonDetection).value
  {
    var det := DetectionTime(tr, sens, nonDetection).value;
    var node := det[p].node;
    DetectionTimeRow(tr, sens, nonDetection, det, p, j);
    assert !exists k :: IsFirstDetection(tr, k, node, j, sens);
  }
}
