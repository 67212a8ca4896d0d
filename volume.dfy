/**
  `contaminated_volume` of waco/analyzer.py: the contaminated water consumed in
  the timestep of detection, for every row of a detection-time table.

  The trace and the demand table are aligned by row position. The method
  `ContaminatedVolume` works on the caller's detection-time frame as the source
  does: it truncates that frame's time column in place, copies out and clamps
  the (time, injection node) index array in place, and looks the pairs up in the
  per-timestep volume table.
 */
module Volume {
  import opened Wrappers
  import opened Tables

  /** `astype(int)` applied to a float: truncation toward zero. */
  function Trunc(x: real): (r: int)
    ensures 0.0 <= x ==> r as real <= x < r as real + 1.0
    ensures x < 0.0 ==> r as real - 1.0 < x <= r as real
  {
    if x >= 0.0 then x.Floor else -((-x).Floor)
  }

  /** The detection-time rows with their time column truncated to integers. */
  function TruncateTimes(rows: seq<DetRow>): (r: seq<DetRow>)
    ensures |r| == |rows|
    ensures forall k :: 0 <= k < |rows| ==>
      r[k].node == rows[k].node && r[k].injNode == rows[k].injNode && r[k].time == Trunc(rows[k].time) as real
  {
    seq(|rows|, k requires 0 <= k < |rows| => rows[k].(time := Trunc(rows[k].time) as real))
  }

  /** The `[time, inj_node]` columns as an index array (`to_numpy`): one key per
      row, in row order. The time column holds whole numbers by then, which the
      array keeps as they are. */
  function TimeKeys(rows: seq<DetRow>): (r: seq<Key>)
    ensures |r| == |rows|
    ensures forall k :: 0 <= k < |rows| ==> r[k].injNode == rows[k].injNode
    ensures forall k :: 0 <= k < |rows| && rows[k].time == Trunc(rows[k].time) as real ==> r[k].time == Trunc(rows[k].time)
  {
    seq(|rows|, k requires 0 <= k < |rows| => Key(rows[k].time.Floor, rows[k].injNode))
  }

  /** One row of the index array after clamping: a time beyond the last
      simulated time becomes that time; an empty trace (no maximum) clamps nothing. */
  function Clamp(key: Key, maxTime: Option<int>): (r: Key)
    ensures r.injNode == key.injNode
    ensures maxTime.None? ==> r == key
    ensures maxTime.Some? ==> r.time <= maxTime.value && r.time <= key.time
    ensures maxTime.Some? ==> r.time == key.time || r.time == maxTime.value
  {
    if maxTime.Some? && key.time > maxTime.value then key.(time := maxTime.value) else key
  }

  /** The whole index array after clamping: every row clamped on its own, none
      added, dropped or moved. */
  function ClampAll(keys: seq<Key>, maxTime: Option<int>): (r: seq<Key>)
    ensures |r| == |keys|
    ensures forall k :: 0 <= k < |keys| ==> r[k] == Clamp(keys[k], maxTime)
  {
    if |keys| == 0 then [] else [Clamp(keys[0], maxTime)] + ClampAll(keys[1..], maxTime)
  }

  /** Clamping a clamped array changes nothing. */
  lemma {:induction false} ClampAllIdempotent(keys: seq<Key>, maxTime: Option<int>)
    ensures ClampAll(ClampAll(keys, maxTime), maxTime) == ClampAll(keys, maxTime)
  {
    if |keys| > 0 {
      ClampAllIdempotent(keys[1..], maxTime);
    }
  }

  /** The clamping step of analyzer.py:98, done in place: every index row whose
      time is later than the last simulated time gets that time instead. */
  method ClampKeys(idxs: array<Key>, maxTime: Option<int>)
    modifies idxs
    ensures idxs[..] == ClampAll(old(idxs[..]), maxTime)
  {
    ghost var before := idxs[..];
    var i := 0;
    while i < idxs.Length
      invariant 0 <= i <= idxs.Length
      invariant forall k :: 0 <= k < i ==> idxs[k] == Clamp(before[k], maxTime)
      invariant forall k :: i <= k < idxs.Length ==> idxs[k] == before[k]
    {
      if maxTime.Some? && idxs[i].time > maxTime.value {
        idxs[i] := idxs[i].(time := maxTime.value);
      }
      i := i + 1;
    }
    assert idxs[..] == ClampAll(before, maxTime);
  }

  /** The position of the scenario column named `x`. */
  function ColumnOf(scenarios: seq<NodeId>, x: NodeId): (r: nat)
    requires x in scenarios
    ensures r < |scenarios| && scenarios[r] == x
    ensures forall j :: 0 <= j < r ==> scenarios[j] != x
  {
    if scenarios[0] == x then 0 else 1 + ColumnOf(scenarios[1..], x)
  }

  /** The contaminated volume consumed in scenario `j` at time `t` by the first `n`
      rows: each row's trace value times 0.01 times the demand at the same position,
      summed over every row (every node) whose time is `t`. A time at which none of
      these rows was simulated has no contaminated volume. */
  function StepVolume(tr: Trace, demand: seq<DemandRow>, t: int, j: nat, n: nat): (r: real)
    requires WellFormed(tr) && j < |tr.scenarios| && n <= |tr.rows| && n <= |demand|
    ensures (forall k :: 0 <= k < n ==> tr.rows[k].time != t) ==> r == 0.0
  {
    if n == 0 then 0.0
    else
      StepVolume(tr, demand, t, j, n - 1) +
      (if tr.rows[n - 1].time == t then tr.rows[n - 1].values[j] * (0.01 * demand[n - 1].demand) else 0.0)
  }

  /** Non-negative concentrations and demands give a non-negative volume. */
  lemma {:induction false} StepVolumeNonNegative(tr: Trace, demand: seq<DemandRow>, t: int, j: nat, n: nat)
    requires WellFormed(tr) && j < |tr.scenarios| && n <= |tr.rows| && n <= |demand|
    requires forall k :: 0 <= k < n ==> tr.rows[k].values[j] >= 0.0 && demand[k].demand >= 0.0
    ensures StepVolume(tr, demand, t, j, n) >= 0.0
  {
    if n > 0 {
      StepVolumeNonNegative(tr, demand, t, j, n - 1);
      var v, d := tr.rows[n - 1].values[j], demand[n - 1].demand;
      assert v * (0.01 * d) >= 0.0 by {
        assert 0.01 * d >= 0.0;
      }
    }
  }

  /** The key is an entry of the per-timestep volume table. */
  ghost predicate InTable(tr: Trace, key: Key) {
    IsTraceTime(tr, key.time) && key.injNode in tr.scenarios
  }

  /** The index of the per-timestep table after grouping by time and stacking:
      every time of the trace paired with every scenario column, and nothing else. */
  function TableKeys(tr: Trace): (r: set<Key>)
    ensures forall key :: key in r <==> InTable(tr, key)
  {
    var keys := set k, j | 0 <= k < |tr.rows| && 0 <= j < |tr.scenarios| :: Key(tr.rows[k].time, tr.scenarios[j]);
    assert forall key :: InTable(tr, key) ==> key in keys by {
      forall key | InTable(tr, key) ensures key in keys {
        var k :| 0 <= k < |tr.rows| && tr.rows[k].time == key.time;
        var j :| 0 <= j < |tr.scenarios| && tr.scenarios[j] == key.injNode;
        assert key == Key(tr.rows[k].time, tr.scenarios[j]);
      }
    }
    keys
  }

  /** The per-timestep volume table, keyed by (time, injection node). */
  function VolumeTable(tr: Trace, demand: seq<DemandRow>): (table: map<Key, real>)
    requires WellFormed(tr) && |demand| == |tr.rows|
    ensures forall key :: key in table <==> InTable(tr, key)
    ensures forall key, j :: key in table && 0 <= j < |tr.scenarios| && tr.scenarios[j] == key.injNode ==>
      table[key] == StepVolume(tr, demand, key.time, j, |tr.rows|)
  {
    map key | key in TableKeys(tr) ::
      StepVolume(tr, demand, key.time, ColumnOf(tr.scenarios, key.injNode), |tr.rows|)
  }

  /** The lookup of analyzer.py:99-102 and the frame built from it: one volume
      per index row, labelled with that row's node and injection node. An empty
      index cannot be built; a missing pair fails the whole lookup. */
  function Select(table: map<Key, real>, rows: seq<DetRow>, keys: seq<Key>): (r: Result<seq<VolumeRow>, Error>)
    requires |keys| == |rows|
    ensures r.Success? <==> |keys| > 0 && forall k :: 0 <= k < |keys| ==> keys[k] in table
    ensures r.Failure? ==> r.error == (if |keys| == 0 then EmptyIndex else KeyError)
    ensures r.Success? ==> |r.value| == |keys| && forall k :: 0 <= k < |keys| ==>
      keys[k] in table && r.value[k] == VolumeRow(rows[k].node, rows[k].injNode, table[keys[k]])
  {
    if |keys| == 0 then Failure(EmptyIndex)
    else if forall k :: 0 <= k < |keys| ==> keys[k] in table then
      Success(seq(|keys|, k requires 0 <= k < |keys| && keys[k] in table =>
        VolumeRow(rows[k].node, rows[k].injNode, table[keys[k]])))
    else Failure(KeyError)
  }

  /** The volume-table key looked up for a detection row: its truncated time,
      clamped to the last simulated time, and its injection node. */
  function LookupKey(tr: Trace, row: DetRow): (r: Key)
    ensures r.injNode == row.injNode
    ensures MaxTime(tr.rows).None? ==> r.time == Trunc(row.time)
    ensures MaxTime(tr.rows).Some? ==> r.time <= MaxTime(tr.rows).value && r.time <= Trunc(row.time)
    ensures MaxTime(tr.rows).Some? ==> r.time == Trunc(row.time) || r.time == MaxTime(tr.rows).value
  {
    Clamp(Key(Trunc(row.time), row.injNode), MaxTime(tr.rows))
  }

  /** Truncation leaves integral times, so truncating a second time changes nothing;
      integral times are left as they are. */
  lemma TruncateTimesIntegral(rows: seq<DetRow>)
    ensures forall k :: 0 <= k < |rows| ==> TruncateTimes(rows)[k].time == TruncateTimes(rows)[k].time.Floor as real
    ensures TruncateTimes(TruncateTimes(rows)) == TruncateTimes(rows)
    ensures (forall k :: 0 <= k < |rows| ==> rows[k].time == rows[k].time.Floor as real) ==> TruncateTimes(rows) == rows
  {
    var once := TruncateTimes(rows);
    assert forall k :: 0 <= k < |rows| ==> Trunc(once[k].time) == Trunc(rows[k].time);
    assert TruncateTimes(once) == once;
    if forall k :: 0 <= k < |rows| ==> rows[k].time == rows[k].time.Floor as real {
      assert forall k :: 0 <= k < |rows| ==> once[k] == rows[k];
    }
  }

  /** The clamped index array holds the lookup key of every detection row. */
  lemma LookupKeys(tr: Trace, det: seq<DetRow>)
    ensures |ClampAll(TimeKeys(TruncateTimes(det)), MaxTime(tr.rows))| == |det|
    ensures forall k :: 0 <= k < |det| ==> ClampAll(TimeKeys(TruncateTimes(det)), MaxTime(tr.rows))[k] == LookupKey(tr, det[k])
  {
    var unclamped := TimeKeys(TruncateTimes(det));
    forall k | 0 <= k < |det|
      ensures unclamped[k] == Key(Trunc(det[k].time), det[k].injNode)
    {
      assert TruncateTimes(det)[k].time == Trunc(det[k].time) as real;
    }
  }

  /** `contaminated_volume(trace, demand, det_time)` as a value. */
  function VolumeRows(tr: Trace, demand: seq<DemandRow>, det: seq<DetRow>): (r: Result<seq<VolumeRow>, Error>)
    requires WellFormed(tr) && |demand| == |tr.rows|
    ensures r.Success? <==> |det| > 0 && forall k :: 0 <= k < |det| ==> InTable(tr, LookupKey(tr, det[k]))
    ensures r.Failure? ==> r.error == (if |det| == 0 then EmptyIndex else KeyError)
    ensures r.Success? ==> |r.value| == |det|
    ensures r.Success? ==> forall k, j :: 0 <= k < |det| && 0 <= j < |tr.scenarios| && tr.scenarios[j] == det[k].injNode ==>
      r.value[k] == VolumeRow(det[k].node, det[k].injNode, StepVolume(tr, demand, LookupKey(tr, det[k]).time, j, |tr.rows|))
  {
    LookupKeys(tr, det);
    Select(VolumeTable(tr, demand), TruncateTimes(det), ClampAll(TimeKeys(TruncateTimes(det)), MaxTime(tr.rows)))
  }

  /** The caller's detection-time frame, whose time column the analysis overwrites. */
  class DetFrame {
    var rows: seq<DetRow>

    constructor (rows: seq<DetRow>)
      ensures this.rows == rows
    {
      this.rows := rows;
    }
  }

  /** `contaminated_volume(trace, demand, det_time)`: truncates `detTime`'s time
      column in place (and nothing else of it), then returns the volume rows or the
      error of the lookup. */
  method ContaminatedVolume(tr: Trace, demand: seq<DemandRow>, detTime: DetFrame) returns (r: Result<seq<VolumeRow>, Error>)
    requires WellFormed(tr) && |demand| == |tr.rows|
    modifies detTime
    ensures detTime.rows == TruncateTimes(old(detTime.rows))
    ensures r == VolumeRows(tr, demand, old(detTime.rows))
  {
    var maxSimTime := MaxTime(tr.rows);
    detTime.rows := TruncateTimes(detTime.rows);
    var contamVol := VolumeTable(tr, demand);
    var keys := TimeKeys(detTime.rows);
    var idxs := new Key[|keys|](i requires 0 <= i < |keys| => keys[i]);
    assert idxs[..] == keys;
    ClampKeys(idxs, maxSimTime);
    r := Select(contamVol, detTime.rows, idxs[..]);
  }
}
