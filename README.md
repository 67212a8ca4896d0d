# waco analyzer, modelled in Dafny

waco analyses contaminant-injection simulations of a water distribution
network. An external hydraulic and water-quality simulator produces two
tables:

- a contaminant trace: one row per (timestep, observing node), holding the
  concentration seen at that node for each injection scenario;
- a demand table: the water drawn at each node in each timestep.

The analyzer derives two things from them:

- `detection_time`: for every (observing node, injection node) pair, the first
  time the concentration at the observing node is strictly above a
  sensibility threshold. A pair that is never detected gets a non-detection
  time. By default that time is the last simulated time plus the last time step.
- `contaminated_volume`: for every row of a detection-time table, the volume of
  contaminated water consumed in the timestep looked up for that row. Each trace
  value is multiplied by 0.01 times the demand at the same row position. The
  products are summed over all nodes, per timestep and scenario. The row's
  detection time, truncated to an integer and clamped to the last simulated
  time, then selects one of these sums.

Files:

- `wrappers.dfy`: `Option` and `Result`.
- `tables.dfy` (module `Tables`): rows, traces, the result rows, the error
  kinds, and the largest and second-largest trace times.
- `detection.dfy` (module `Detection`): `detection_time` as pure functions (a
  filter, a first element, a group-by over sorted node keys, a fill and a
  stack), with lemmas on the table it returns.
- `volume.dfy` (module `Volume`): `contaminated_volume`. The caller's
  detection-time frame is a class (`DetFrame`) whose rows the method
  `ContaminatedVolume` overwrites in place. The index array is an `array<Key>`
  that `ClampKeys` clamps in place with a loop. Both are proved against the pure
  specification `VolumeRows`.
- `pipeline.dfy` (module `Pipeline`): the two analyses composed, with the
  default non-detection value.

Modelling choices:

- Times are `int` seconds.
- Concentrations and demands are `real`: there is no floating-point rounding.
- The detection-time column is `real`: it is a float column, because the pairs
  never detected hold NaN until `fillna` replaces it. `astype(int)` is truncation
  toward zero.
- Nodes are integer identifiers. `groupby("node")` sorts its keys, so observer
  nodes come out in ascending identifier order.
- Trace rows are indexed by position. The simulator driver resets the index of
  the table it builds, so the index labels are 0, 1, 2, ...
- The errors the source raises are `Result` failures:
  - `TooFewTimes`: the `IndexError` of `times[-1]`/`times[-2]` when the trace has fewer than
    two distinct times and no non-detection value is given.
  - `KeyError`: a (time, injection node) pair missing from the volume table.
  - `EmptyIndex`: the `TypeError` of `MultiIndex.from_tuples` on an empty
    detection table.
- The in-place truncation of the caller's table happens before the lookup that
  may fail, and the model keeps that order.

The docstring of `contaminated_volume` says "volume of contaminated water
consumed prior to detection". The code returns the volume of one timestep: the
timestep of detection, or the last simulated timestep for a pair never
detected. The model follows the code (see `Pipeline.DefaultDetectionVolumeAt`).

## Model

| member | source | states |
|---|---|---|
| `Tables.WellFormed` | waco/sim.py:59-60 | the shape of the trace the simulator driver builds: one value per scenario column in every row, distinct column names |
| `Tables.MaxTime` | waco/analyzer.py:87 | the maximum trace time: attained by some row, at least every row's time; none for an empty trace |
| `Tables.TimeBelow` | waco/analyzer.py:34-35 | the largest trace time strictly below a bound, attained by a row; none exactly when no time is below the bound |
| `Detection.DefaultNonDetection` | waco/analyzer.py:33-35 | fails with `TooFewTimes` exactly when all trace times are equal (fewer than two distinct times); otherwise it is last + (last − second-to-last distinct time), strictly above every trace time |
| `Detection.NonDetectionValue` | waco/analyzer.py:33-35 | the caller's non-detection value when one is given, otherwise the default sentinel (and its failure) |
| `Detection.Exceedances` | waco/analyzer.py:38 | the filtered group series: exactly the rows of the node whose value in the scenario is strictly above the sensibility, in increasing table order |
| `Detection.FirstExceedance` | waco/analyzer.py:37-39 | the first element of the filtered series: a row of the node above the sensibility with every earlier row of the node at or below it; none when no row of the node is above it |
| `Detection.DetectedTime` | waco/analyzer.py:37-39 | computes one cell of the aggregated frame after `fillna` (line 45): the time of the first exceeding row, or the fill value; its contract is `Detection.DetectedTimeMeaning` |
| `Detection.DetectedTimeMeaning` | waco/analyzer.py:37-45 | the aggregated time of a pair is the first exceeding row's time, or the fill value when the node never exceeds the sensibility |
| `Detection.ObserverNodes` | waco/analyzer.py:41 | the group keys: strictly increasing, and exactly the nodes occurring in the trace |
| `Detection.Block` | waco/analyzer.py:45 | computes the stacked rows of one observing node: one per scenario column, in column order; their layout is stated by `Detection.StackedAt` and `Detection.StackedRow` |
| `Detection.Stacked` | waco/analyzer.py:45 | computes `stack()`: the blocks of the observing nodes one after the other; its layout is stated by `Detection.StackedLength`, `Detection.StackedAt`, `Detection.StackedRow` and `Detection.StackedSorted` |
| `Detection.DetectionTime` | waco/analyzer.py:33-47 | fails, with `TooFewTimes`, exactly when no non-detection value is given and the trace has fewer than two distinct times |
| `Detection.StackedLength` | waco/analyzer.py:45 | the stacked table has one row per node per scenario column |
| `Detection.StackedAt` | waco/analyzer.py:45-46 | row i·m + j of the stacked table is (node i, scenario column j, its detected time) |
| `Detection.StackedRow` | waco/analyzer.py:45-46 | every row of the stacked table is (node i, scenario column j, its detected time) at position i·m + j |
| `Detection.StackedSorted` | waco/analyzer.py:41-45 | the stacked rows are ordered by node |
| `Detection.DetectionTimeLength` | waco/analyzer.py:41-46 | the result has (number of distinct observing nodes) × (number of injection columns) rows |
| `Detection.DetectionTimeTotal` | waco/analyzer.py:41-46 | every observing node of the trace has a row for every injection column |
| `Detection.DetectionTimeUnique` | waco/analyzer.py:41-46 | no (node, injection node) pair occurs in two rows |
| `Detection.DetectionTimeSorted` | waco/analyzer.py:41 | rows come in ascending observing-node order |
| `Detection.DetectionTimeRow` | waco/analyzer.py:37-46 | each row's node occurs in the trace, and its time is that of the node's first row strictly above the sensibility in that scenario, or the non-detection value when no row of the node is |
| `Detection.DetectionTimeValues` | waco/analyzer.py:39-46 | each row's injection node is a scenario column, and its time is a trace time or the non-detection value |
| `Detection.ThresholdIsStrict` | waco/analyzer.py:38-45 | values at or equal to the sensibility are not a detection: such a pair gets the non-detection value |
| `Volume.Trunc` | waco/analyzer.py:88 | `astype(int)` truncates toward zero: within one of the value, on the side of zero |
| `Volume.TruncateTimes` | waco/analyzer.py:88 | the time column becomes its truncation; node and injection-node columns are unchanged |
| `Volume.TruncateTimesIntegral` | waco/analyzer.py:88 | truncated times are integral, truncation is idempotent, and a table of integral times is left unchanged |
| `Volume.TimeKeys` | waco/analyzer.py:97 | one (time, injection node) key per detection row, in row order, keeping the injection node and, on the truncated column, the time |
| `Volume.Clamp` | waco/analyzer.py:98 | the clamped time is the smaller of the row's time and the maximum (so times at or below the maximum are unchanged); the injection node is kept; an empty trace (NaN maximum) clamps nothing |
| `Volume.ClampAll` | waco/analyzer.py:98 | the clamped index array has the same length, and row k is row k clamped on its own |
| `Volume.ClampAllIdempotent` | waco/analyzer.py:98 | clamping twice is clamping once |
| `Volume.ClampKeys` | waco/analyzer.py:97-98 | the index array is clamped in place: its new contents are the clamped old contents |
| `Volume.ColumnOf` | waco/analyzer.py:89-93 | the scenario column holding a given injection-node label, and the first such |
| `Volume.StepVolume` | waco/analyzer.py:93-95 | the sum, over the rows at one time, of trace value × 0.01 × demand at the same position, for one scenario column; zero at a time no row was simulated at |
| `Volume.StepVolumeNonNegative` | waco/analyzer.py:93-95 | non-negative traces and demands give a non-negative per-timestep volume |
| `Volume.TableKeys` | waco/analyzer.py:95 | the index of the grouped, stacked table: exactly the (trace time, scenario column) pairs |
| `Volume.VolumeTable` | waco/analyzer.py:93-95 | keys are exactly (trace time, scenario column) pairs; each value is the sum over all rows at that time of trace × 0.01 × demand at the same position |
| `Volume.Select` | waco/analyzer.py:99-102 | succeeds exactly when the index is non-empty and every pair is in the table; row k carries row k's node and injection node and the table value at pair k |
| `Volume.LookupKey` | waco/analyzer.py:88-98 | the key looked up for one detection row: its injection node, and the smaller of its truncated time and the last simulated time (the truncated time for an empty trace) |
| `Volume.LookupKeys` | waco/analyzer.py:88-98 | index row k is detection row k's truncated, clamped time with its injection node |
| `Volume.VolumeRows` | waco/analyzer.py:87-102 | fails with `EmptyIndex` on an empty table and with `KeyError` when some truncated, clamped time is not a trace time or some injection node is not a column; otherwise output row k carries det row k's node and injection node, and the per-timestep volume at (clamped time k, injection node k) |
| `Volume.DetFrame.constructor` | waco/analyzer.py:53 | the caller's `det_time` frame holds exactly the given rows |
| `Volume.ContaminatedVolume` | waco/analyzer.py:87-102 | overwrites the caller's time column with its truncation and nothing else, and returns the result of `VolumeRows` |
| `Pipeline.SentinelClampsToLastTime` | waco/analyzer.py:97-98 | the default sentinel is clamped to the last simulated time |
| `Pipeline.DefaultDetectionHasVolumes` | waco/analyzer.py:97-99 | with the default sentinel and at least one injection column, no lookup fails |
| `Pipeline.DefaultDetectionVolumeAt` | waco/analyzer.py:97-102 | with the default sentinel, a row's volume is that of the first-detection timestep, or of the last simulated timestep for an undetected pair: one timestep, not a cumulative sum |

## Left out

- waco/sim.py `contamination` and `water_demand` only drive the external EPANET simulator and reshape its output. They are not modelled. Their output shape is stated as preconditions instead: every trace row has one value per scenario column, the column names are distinct, and the demand table has as many rows as the trace.
- waco/sim.py `_set_config` sets options on a foreign network-model object. It is not modelled.
- waco/sim.py `_clean_tmp` deletes files, which is I/O. It is not modelled.
- setup.py holds packaging metadata only.
- Floating-point arithmetic is not modelled: the 0.01 scaling and the sums are exact over `real`, with no rounding and no summation-order effects.
- Volume.Trunc: does not model the 64-bit overflow of `astype(int)` on huge non-detection values, because integers are unbounded here.
- Volume.VolumeRows: demand rows are paired with trace rows by position and the demand table must be as long as the trace. The NaN rows that pandas index alignment would introduce for tables of different lengths are not modelled.
- Detection.DetectionTime: on a trace without injection columns the model returns an empty table. What pandas does when given an empty aggregation is not modelled.
- Detection.ObserverNodes: node labels are integers ordered numerically. pandas sorts string labels lexicographically, and that order is not modelled.
- NaN concentrations or demands are not modelled. The analyzer's inputs come from the simulator and hold none.
