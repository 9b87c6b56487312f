/**
  The pure helpers of the IMU/camera synchronisation engine: signal
  extraction, per-stream baselines (mean and deviation threshold), their
  exponential smoothing, and detection of the first over-threshold sample
  of every stream with the resulting time offsets.
 */
module SyncSignal {
  import opened Wrappers
  import opened Strings
  import opened Numeric

  /** Crossing detection is attempted only this long (seconds) after the first sample. */
  const MIN_SYNC_T: real := 3.0
  /** The threshold is this multiple of the raw deviation range. */
  const BASELINE_MULT: real := 2.0
  /** Weight of the fresh baseline when smoothing. */
  const ALPHA: real := 0.7
  /** Relative floor of the deviation range: a fraction of the mean. */
  const SPREAD_FLOOR: real := 0.01

  /** The keys of the synchroniser's window: on-device IMU, external IMU, camera motion. */
  datatype StreamId = Main | Ext | Cam

  /** A window entry, the tuple (ingest time, event time, name, signal value). */
  datatype Sample = Sample(ingest: real, event: real, name: string, value: real)

  /** The pair (m, s): the centre of a stream and its deviation threshold. */
  datatype Baseline = Baseline(mean: real, spread: real)

  type Window = map<StreamId, seq<Sample>>
  type Baselines = map<StreamId, Baseline>

  /** `to_sync_signal`: only accelerometer labels give a signal, the norm of the vector. */
  function ToSyncSignal(name: string, xyz: seq<real>, norm: seq<real> -> real): (r: Option<real>)
    ensures r.Some? ==> r.value == norm(xyz)
  {
    if !Contains(name, "accelerometer") then None else Some(norm(xyz))
  }

  /** A sample is a sync input exactly when "accelerometer" occurs somewhere in its label. */
  lemma SyncSignalIffAccelerometer(name: string, xyz: seq<real>, norm: seq<real> -> real)
    ensures ToSyncSignal(name, xyz, norm).Some? <==> exists i :: OccursAt(name, "accelerometer", i)
  {
    ContainsIff(name, "accelerometer");
  }

  function RMax(x: real, y: real): real {
    if x < y then y else x
  }

  /** The signal values of a window, `[v[-1] for v in a]`. */
  function Values(a: seq<Sample>): seq<real> {
    seq(|a|, i requires 0 <= i < |a| => a[i].value)
  }

  function Sum(v: seq<real>): real
    decreases |v|
  {
    if |v| == 0 then 0.0 else Sum(v[..|v| - 1]) + v[|v| - 1]
  }

  function Mean(v: seq<real>): real
    requires |v| > 0
  {
    Sum(v) / (|v| as real)
  }

  /** `np.max`. */
  function Max(v: seq<real>): real
    requires |v| > 0
    decreases |v|
  {
    if |v| == 1 then v[0] else RMax(Max(v[..|v| - 1]), v[|v| - 1])
  }

  /** The maximum bounds every element and is one of them. */
  lemma {:induction false} MaxSpec(v: seq<real>)
    requires |v| > 0
    ensures forall i :: 0 <= i < |v| ==> v[i] <= Max(v)
    ensures exists i :: 0 <= i < |v| && v[i] == Max(v)
    decreases |v|
  {
    if |v| == 1 {
      assert v[0] == Max(v);
    } else {
      var init := v[..|v| - 1];
      MaxSpec(init);
      assert forall i :: 0 <= i < |init| ==> init[i] == v[i];
      var j :| 0 <= j < |init| && init[j] == Max(init);
      if Max(v) == Max(init) {
        assert v[j] == Max(v);
      } else {
        assert v[|v| - 1] == Max(v);
      }
    }
  }

  lemma {:induction false} SumBounded(v: seq<real>, bound: real)
    requires forall i :: 0 <= i < |v| ==> v[i] <= bound
    ensures Sum(v) <= (|v| as real) * bound
    decreases |v|
  {
    if |v| > 0 {
      var init := v[..|v| - 1];
      assert forall i :: 0 <= i < |init| ==> init[i] == v[i];
      SumBounded(init, bound);
      assert (|v| as real) * bound == (|init| as real) * bound + bound;
    }
  }

  lemma MeanBoundedBy(v: seq<real>, bound: real)
    requires |v| > 0
    requires forall i :: 0 <= i < |v| ==> v[i] <= bound
    ensures Mean(v) <= bound
  {
    SumBounded(v, bound);
    DivideBound(Sum(v), bound, |v| as real);
  }

  /** The mean of a window never exceeds its maximum. */
  lemma MeanAtMostMax(v: seq<real>)
    requires |v| > 0
    ensures Mean(v) <= Max(v)
  {
    MaxSpec(v);
    MeanBoundedBy(v, Max(v));
  }

  lemma DivideBound(a: real, b: real, n: real)
    requires n > 0.0 && a <= n * b
    ensures a / n <= b
  {
    var q := a / n;
    assert q * n == a;
    if q > b {
      assert (q - b) * n > 0.0;
    }
  }

  /**
    The baseline of one non-empty window: `m` is the mean of the values and
    `s = 2 * max(max(vv) - m, 0.01 * m)`.
   */
  function BaselineOf(a: seq<Sample>): Baseline
    requires |a| > 0
  {
    var vv := Values(a);
    var m := Mean(vv);
    Baseline(m, RMax(Max(vv) - m, m * SPREAD_FLOOR) * BASELINE_MULT)
  }

  /**
    The threshold is the larger of the two candidates, hence never negative,
    and no sample of the window lies more than half of it above the mean.
   */
  lemma BaselineOfSpec(a: seq<Sample>)
    requires |a| > 0
    ensures var b := BaselineOf(a);
      && b.mean == Mean(Values(a))
      && (b.spread == BASELINE_MULT * (Max(Values(a)) - b.mean)
          || b.spread == BASELINE_MULT * SPREAD_FLOOR * b.mean)
      && b.spread >= BASELINE_MULT * (Max(Values(a)) - b.mean)
      && b.spread >= BASELINE_MULT * SPREAD_FLOOR * b.mean
      && b.spread >= 0.0
      && WellFormed(b)
      && forall i :: 0 <= i < |a| ==> a[i].value - b.mean <= b.spread / 2.0
  {
    var vv := Values(a);
    MaxSpec(vv);
    MeanAtMostMax(vv);
    assert forall i :: 0 <= i < |a| ==> vv[i] == a[i].value;
  }

  /** A baseline whose threshold keeps the floor and is never negative. */
  predicate WellFormed(b: Baseline) {
    b.spread >= 0.0 && b.spread >= BASELINE_MULT * SPREAD_FLOOR * b.mean
  }

  predicate AllWellFormed(bs: Baselines) {
    forall k :: k in bs ==> WellFormed(bs[k])
  }

  /** `compute_baselines`: one baseline for each non-empty window. */
  function ComputeBaselines(data: Window): Baselines {
    map k | k in data && |data[k]| > 0 :: BaselineOf(data[k])
  }

  /** Exactly the non-empty windows get a baseline, and every one is well formed. */
  lemma ComputeBaselinesSpec(data: Window)
    ensures var r := ComputeBaselines(data);
      && (forall k :: k in r <==> k in data && |data[k]| > 0)
      && (forall k :: k in r ==> r[k] == BaselineOf(data[k]))
      && AllWellFormed(r)
  {
    forall k | k in data && |data[k]| > 0 {
      BaselineOfSpec(data[k]);
    }
  }

  function Smooth(x: real, prev: real): real {
    ALPHA * x + (1.0 - ALPHA) * prev
  }

  /**
    `merge_baselines`: the keys of the fresh estimate `b2`, each smoothed
    towards its previous value in `b1` (a key new in `b2` smooths against itself).
   */
  function MergeBaselines(b1: Baselines, b2: Baselines): Baselines {
    map k | k in b2 ::
      var prev := if k in b1 then b1[k] else b2[k];
      Baseline(Smooth(b2[k].mean, prev.mean), Smooth(b2[k].spread, prev.spread))
  }

  /** The fresh keys are kept; an old key is smoothed, a new one copied. */
  lemma MergeBaselinesSpec(b1: Baselines, b2: Baselines)
    ensures var r := MergeBaselines(b1, b2);
      && r.Keys == b2.Keys
      && (forall k :: k in r && k !in b1 ==> r[k] == b2[k])
      && (forall k :: k in r && k in b1 ==>
            r[k] == Baseline(Smooth(b2[k].mean, b1[k].mean), Smooth(b2[k].spread, b1[k].spread)))
  {
  }

  /** Each merged component lies between the old value and the new one. */
  lemma MergeIsBetween(b1: Baselines, b2: Baselines, k: StreamId)
    requires k in b1 && k in b2
    ensures var r := MergeBaselines(b1, b2)[k];
      && (b1[k].mean <= r.mean <= b2[k].mean || b2[k].mean <= r.mean <= b1[k].mean)
      && (b1[k].spread <= r.spread <= b2[k].spread || b2[k].spread <= r.spread <= b1[k].spread)
  {
  }

  /** Smoothing keeps the threshold floor: well-formed inputs give a well-formed merge. */
  lemma MergeKeepsWellFormed(b1: Baselines, b2: Baselines)
    requires AllWellFormed(b1) && AllWellFormed(b2)
    ensures AllWellFormed(MergeBaselines(b1, b2))
  {
    MergeBaselinesSpec(b1, b2);
  }

  /** `|v - m| > s`: the sample departs from the baseline beyond its threshold. */
  predicate Crosses(s: Sample, b: Baseline) {
    Abs(s.value - b.mean) > b.spread
  }

  ghost predicate IsFirstCrossing(a: seq<Sample>, b: Baseline, i: int) {
    0 <= i < |a| && Crosses(a[i], b) && forall j :: 0 <= j < i ==> !Crosses(a[j], b)
  }

  /** The first crossing at or after index `from`. */
  function FirstCrossingFrom(a: seq<Sample>, b: Baseline, from: nat): Option<nat>
    requires from <= |a|
    decreases |a| - from
  {
    if from == |a| then None
    else if Crosses(a[from], b) then Some(from)
    else FirstCrossingFrom(a, b, from + 1)
  }

  /** The scan from `from` finds the first crossing at or after it, or reports there is none. */
  lemma {:induction false} FirstCrossingFromSpec(a: seq<Sample>, b: Baseline, from: nat)
    requires from <= |a|
    ensures var r := FirstCrossingFrom(a, b, from);
      && (r.Some? ==> from <= r.value < |a| && Crosses(a[r.value], b)
                      && forall j :: from <= j < r.value ==> !Crosses(a[j], b))
      && (r.None? ==> forall j :: from <= j < |a| ==> !Crosses(a[j], b))
    decreases |a| - from
  {
    if from < |a| && !Crosses(a[from], b) {
      FirstCrossingFromSpec(a, b, from + 1);
    }
  }

  /** `np.flatnonzero(over)[0]`: the index of the first crossing sample, if any. */
  function FirstCrossing(a: seq<Sample>, b: Baseline): Option<nat> {
    FirstCrossingFrom(a, b, 0)
  }

  /** A found index is the first crossing; finding none means no sample crosses. */
  lemma FirstCrossingSpec(a: seq<Sample>, b: Baseline)
    ensures var r := FirstCrossing(a, b);
      && (r.Some? ==> IsFirstCrossing(a, b, r.value))
      && (r.None? ==> forall j :: 0 <= j < |a| ==> !Crosses(a[j], b))
  {
    FirstCrossingFromSpec(a, b, 0);
  }

  /** At most one index is the first crossing. */
  lemma FirstCrossingUnique(a: seq<Sample>, b: Baseline, i: int, j: int)
    requires IsFirstCrossing(a, b, i) && IsFirstCrossing(a, b, j)
    ensures i == j
  {
  }

  /**
    The outcome of `try_sync`; `MissingReference` stands for the `KeyError` on
    `t[main]`, raised only when the offset comprehension has a stream to visit.
   */
  datatype SyncAttempt = NotYet | Offsets(offsets: map<StreamId, real>) | MissingReference

  /** The reference stream: `main` when it has a baseline, `cam` otherwise. */
  function Reference(baselines: Baselines): StreamId {
    if Main in baselines then Main else Cam
  }

  /** Every window has a baseline and a crossing sample. */
  predicate AllCrossed(data: Window, baselines: Baselines) {
    forall k :: k in data ==> k in baselines && FirstCrossing(data[k], baselines[k]).Some?
  }

  /** The event time (tuple index 1) of the first crossing of stream `k`. */
  function CrossingTime(data: Window, baselines: Baselines, k: StreamId): real
    requires AllCrossed(data, baselines) && k in data
  {
    FirstCrossingSpec(data[k], baselines[k]);
    data[k][FirstCrossing(data[k], baselines[k]).value].event
  }

  /**
    `try_sync`: not yet when some window lacks a baseline or a crossing,
    otherwise every non-reference stream mapped to the reference's crossing
    time minus its own. With no windows at all the comprehension is empty and
    the result is the empty offset map.
   */
  function TrySync(data: Window, baselines: Baselines): SyncAttempt {
    if !AllCrossed(data, baselines) then NotYet
    else
      var ref := Reference(baselines);
      if ref !in data && data.Keys != {} then MissingReference
      else
        var t := map k | k in data :: CrossingTime(data, baselines, k);
        Offsets(map k | k in data && k != ref :: t[ref] - t[k])
  }

  /**
    The three outcomes: not yet exactly when some window lacks a baseline or
    a crossing; a missing reference exactly when all crossed, some stream has
    a window and the reference has none (impossible while `main` has one);
    no windows at all give no offsets; otherwise one offset per non-reference
    stream, the reference's crossing time minus its own.
   */
  lemma TrySyncSpec(data: Window, baselines: Baselines)
    ensures var r := TrySync(data, baselines);
      && (r.NotYet? <==> exists k :: k in data && (k !in baselines || FirstCrossing(data[k], baselines[k]).None?))
      && (r.MissingReference? <==> AllCrossed(data, baselines) && Reference(baselines) !in data && data.Keys != {})
      && (data == map[] ==> r == Offsets(map[]))
      && (r.Offsets? && data.Keys != {} ==> Reference(baselines) in data)
      && (r.Offsets? ==>
            && AllCrossed(data, baselines)
            && r.offsets.Keys == data.Keys - {Reference(baselines)}
            && (forall k :: k in r.offsets ==>
                  r.offsets[k] == CrossingTime(data, baselines, Reference(baselines)) - CrossingTime(data, baselines, k)))
      && (Main in data ==> !r.MissingReference?)
      && (Main in data && r.Offsets? ==> Reference(baselines) == Main)
  {
  }

  /**
    The offsets in terms of the crossings themselves: for any first crossing
    `i` of the reference and `j` of stream `k`, the offset is the difference of
    their event times, so shifting stream `k`'s crossing by it lands on the
    reference's crossing.
   */
  lemma TrySyncOffsetMeaning(data: Window, baselines: Baselines, k: StreamId, i: int, j: int)
    requires TrySync(data, baselines).Offsets? && k in TrySync(data, baselines).offsets
    requires var ref := Reference(baselines);
      ref in data && ref in baselines && IsFirstCrossing(data[ref], baselines[ref], i)
    requires k in data && k in baselines && IsFirstCrossing(data[k], baselines[k], j)
    ensures var ref := Reference(baselines);
      TrySync(data, baselines).offsets[k] == data[ref][i].event - data[k][j].event
      && data[k][j].event + TrySync(data, baselines).offsets[k] == data[ref][i].event
  {
    var ref := Reference(baselines);
    TrySyncSpec(data, baselines);
    FirstCrossingSpec(data[ref], baselines[ref]);
    FirstCrossingSpec(data[k], baselines[k]);
    FirstCrossingUnique(data[ref], baselines[ref], i, FirstCrossing(data[ref], baselines[ref]).value);
    FirstCrossingUnique(data[k], baselines[k], j, FirstCrossing(data[k], baselines[k]).value);
  }

  /** An empty window never crosses, so synchronisation waits for data on every stream. */
  lemma EmptyWindowBlocksSync(data: Window, baselines: Baselines, k: StreamId)
    requires k in data && data[k] == []
    ensures TrySync(data, baselines).NotYet?
  {
    TrySyncSpec(data, baselines);
    if k in baselines {
      FirstCrossingSpec(data[k], baselines[k]);
    }
  }
}
