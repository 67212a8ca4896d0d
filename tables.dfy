/**
  The tables the analyzer works on.

  A contaminant trace has one row per (timestep, observing node), a `time`
  and a `node` column, and one concentration column per injection scenario;
  each scenario column is named after the node where the contaminant was
  injected. The rows are indexed by their position, as the simulator driver
  resets the index of the table it builds.
 */
module Tables {
  import opened Wrappers

  /** A node of the water network (junction, tank, ...), by its identifier. */
  type NodeId = int

  /** One row of a trace: the time in seconds, the observing node and one
      concentration per injection scenario, in column order. */
  datatype Row = Row(time: int, node: NodeId, values: seq<real>)

  /** A trace: the names of the scenario columns (the injection nodes) and the rows. */
  datatype Trace = Trace(scenarios: seq<NodeId>, rows: seq<Row>)

  /** One row of the demand table; only `demand` is consulted, by position. */
  datatype DemandRow = DemandRow(time: int, node: NodeId, demand: real)

  /** One row of the detection-time table. The time column is a float one (the
      pairs never detected hold NaN until the fill replaces it), hence `real`. */
  datatype DetRow = DetRow(node: NodeId, injNode: NodeId, time: real)

  /** A (time, injection node) pair: a row of the index array, and the key
      of the per-timestep volume table. */
  datatype Key = Key(time: int, injNode: NodeId)

  /** One row of the contaminated-volume table. */
  datatype VolumeRow = VolumeRow(node: NodeId, injNode: NodeId, volume: real)

  /** The exceptions the analyzer can raise on well-shaped input. */
  datatype Error =
    | TooFewTimes   // fewer than two distinct times when the sentinel is derived
    | KeyError      // a (time, injection node) pair missing from the volume table
    | EmptyIndex    // a multi-index built from no pairs at all

  /** Every row has one value per scenario column, and column names are distinct. */
  predicate WellFormed(tr: Trace) {
    && (forall k :: 0 <= k < |tr.rows| ==> |tr.rows[k].values| == |tr.scenarios|)
    && (forall a, b :: 0 <= a < b < |tr.scenarios| ==> tr.scenarios[a] != tr.scenarios[b])
  }

  /** `t` is the time of some row of the trace. */
  ghost predicate IsTraceTime(tr: Trace, t: int) {
    exists k :: 0 <= k < |tr.rows| && tr.rows[k].time == t
  }

  /** Strictly increasing sequences: sorted and free of duplicates. */
  predicate StrictlyIncreasing(s: seq<int>) {
    forall a, b :: 0 <= a < b < |s| ==> s[a] < s[b]
  }

  /** The largest time of the rows (`trace["time"].max()`), `None` for no rows. */
  function MaxTime(rows: seq<Row>): (r: Option<int>)
    ensures r.None? <==> |rows| == 0
    ensures r.Some? ==> exists k :: 0 <= k < |rows| && rows[k].time == r.value
    ensures r.Some? ==> forall k :: 0 <= k < |rows| ==> rows[k].time <= r.value
  {
    if |rows| == 0 then None
    else
      var rest := MaxTime(rows[1..]);
      if rest.None? || rows[0].time >= rest.value then Some(rows[0].time) else rest
  }

  /** The largest time of the rows that is strictly below `bound`, `None` if there is none. */
  function TimeBelow(rows: seq<Row>, bound: int): (r: Option<int>)
    ensures r.None? <==> forall k :: 0 <= k < |rows| ==> rows[k].time >= bound
    ensures r.Some? ==> r.value < bound && exists k :: 0 <= k < |rows| && rows[k].time == r.value
    ensures r.Some? ==> forall k :: 0 <= k < |rows| && rows[k].time < bound ==> rows[k].time <= r.value
  {
    if |rows| == 0 then None
    else
      var rest := TimeBelow(rows[1..], bound);
      if rows[0].time < bound && (rest.None? || rows[0].time >= rest.value) then Some(rows[0].time)
      else rest
  }
}
