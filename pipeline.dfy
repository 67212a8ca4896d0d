/**
  The two analyses composed as the library is meant to be used: the
  detection-time table of a trace, with the default non-detection value, fed
  to the contaminated-volume computation on the same trace.
 */
module Pipeline {
  import opened Wrappers
  import opened Tables
  import opened Detection
  import opened Volume

  /** The default sentinel lies beyond every simulated time, so clamping turns it
      into the last simulated time. */
  lemma SentinelClampsToLastTime(tr: Trace, row: DetRow)
    requires DefaultNonDetection(tr).Success?
    requires row.time == DefaultNonDetection(tr).value as real
    ensures MaxTime(tr.rows).Some?
    ensures LookupKey(tr, row) == Key(MaxTime(tr.rows).value, row.injNode)
  {
    var last := MaxTime(tr.rows).value;
    var k :| 0 <= k < |tr.rows| && tr.rows[k].time == last;
    assert Trunc(row.time) == DefaultNonDetection(tr).value;
  }

  /** The lookup key of a detection row whose time is a trace time is that same time. */
  lemma TraceTimeIsItsOwnKey(tr: Trace, row: DetRow, k: nat)
    requires k < |tr.rows| && row.time == tr.rows[k].time as real
    ensures LookupKey(tr, row) == Key(tr.rows[k].time, row.injNode)
    ensures InTable(tr, LookupKey(tr, row)) <==> row.injNode in tr.scenarios
  {
    assert Trunc(row.time) == tr.rows[k].time;
  }

  /** With the default non-detection value, no lookup fails: detected pairs carry
      a trace time and undetected ones are clamped to the last simulated time. */
  lemma DefaultDetectionHasVolumes(tr: Trace, demand: seq<DemandRow>, sens: real, det: seq<DetRow>)
    requires WellFormed(tr) && |demand| == |tr.rows| && |tr.scenarios| > 0
    requires DetectionTime(tr, sens, None) == Success(det)
    ensures VolumeRows(tr, demand, det).Success?
  {
    DetectionTimeTotal(tr, sens, None, det, 0, 0);
    forall p | 0 <= p < |det|
      ensures InTable(tr, LookupKey(tr, det[p]))
    {
      DetectionTimeValues(tr, sens, None, p);
      if exists k :: 0 <= k < |tr.rows| && det[p].time == tr.rows[k].time as real {
        var k :| 0 <= k < |tr.rows| && det[p].time == tr.rows[k].time as real;
        TraceTimeIsItsOwnKey(tr, det[p], k);
      } else {
        SentinelClampsToLastTime(tr, det[p]);
      }
    }
  }

  /** With the default non-detection value, the volume of row `p` (scenario column `j`)
      is the volume of the timestep of first detection, or of the last simulated
      timestep when the pair is never detected. It is one timestep's volume, not a
      sum over the timesteps before detection. */
  lemma DefaultDetectionVolumeAt(tr: Trace, demand: seq<DemandRow>, sens: real, det: seq<DetRow>, p: nat, j: nat)
    requires WellFormed(tr) && |demand| == |tr.rows| && |tr.scenarios| > 0
    requires DetectionTime(tr, sens, None) == Success(det)
    requires p < |det| && j < |tr.scenarios| && tr.scenarios[j] == det[p].injNode
    ensures VolumeRows(tr, demand, det).Success?
    ensures MaxTime(tr.rows).Some?
    ensures NeverDetected(tr, det[p].node, j, sens) ==>
      VolumeRows(tr, demand, det).value[p].volume == StepVolume(tr, demand, MaxTime(tr.rows).value, j, |tr.rows|)
    ensures forall k :: IsFirstDetection(tr, k, det[p].node, j, sens) ==>
      VolumeRows(tr, demand, det).value[p].volume == StepVolume(tr, demand, tr.rows[k].time, j, |tr.rows|)
  {
    DefaultDetectionHasVolumes(tr, demand, sens, det);
    DetectionTimeRow(tr, sens, None, det, p, j);
    if exists k :: IsFirstDetection(tr, k, det[p].node, j, sens) && det[p].time == tr.rows[k].time as real {
      var k :| IsFirstDetection(tr, k, det[p].node, j, sens) && det[p].time == tr.rows[k].time as real;
      TraceTimeIsItsOwnKey(tr, det[p], k);
      assert forall k' :: IsFirstDetection(tr, k', det[p].node, j, sens) ==> tr.rows[k'].time == tr.rows[k].time by {
        forall k' | IsFirstDetection(tr, k', det[p].node, j, sens) ensures tr.rows[k'].time == tr.rows[k].time {
          assert k' == k;
        }
      }
      assert !NeverDetected(tr, det[p].node, j, sens);
    } else {
      SentinelClampsToLastTime(tr, det[p]);
      assert forall k :: !IsFirstDetection(tr, k, det[p].node, j, sens);
    }
  }
}
