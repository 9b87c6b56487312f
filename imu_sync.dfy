/**
  The stateful synchroniser `ImuSyncrhonizer`: per-stream retention windows,
  the hand-off buffer filled by the external-IMU reader, eviction of stale
  samples, and the `_trySync` state machine with its cooldown and its
  one-way latch.  The pure functions here specify what each method does to
  the object's fields; the lemmas and the functions' own contracts state
  what the synchroniser promises.
 */
module ImuSync {
  import opened Wrappers
  import opened SyncSignal

  /** Added to every optical-flow magnitude so that a still camera does not give a zero baseline. */
  const MIN_FLOW: real := 0.1

  /** An external sample as handed over by the reader thread: (time, type, values). */
  datatype ExtSample = ExtSample(time: real, name: string, xyz: seq<real>)

  /** The fields that `_trySync` reads and writes. */
  datatype SyncState = SyncState(
    baselines: Option<Baselines>,
    lastSyncT: Option<real>,
    syncSuccess: bool,
    syncResult: Option<map<StreamId, real>>,
    offsetExtImu: real,
    offsetCam: real)

  function OffsetOr(res: map<StreamId, real>, k: StreamId, otherwise: real): real {
    if k in res then res[k] else otherwise
  }

  /** The cooldown: an evaluation needs a full window length since the previous one. */
  predicate CooledDown(lastSyncT: Option<real>, t: real, windowLength: real) {
    lastSyncT.None? || t >= lastSyncT.value + windowLength
  }

  /**
    `_trySync(t)` on the state `st`, with `window` the current windows and
    `t0` the first sample time.  Once latched nothing changes; otherwise,
    after the cooldown, fresh baselines are computed and either adopted (the
    first time) or, once `MIN_SYNC_T` has passed, used for a detection
    attempt against the running baselines before being merged into them.
   */
  function TrySyncStep(st: SyncState, window: Window, t0: real, t: real, windowLength: real): (r: SyncState)
    requires Main in window
  {
    if st.syncSuccess then st
    else if !CooledDown(st.lastSyncT, t, windowLength) then st
    else
      var b := ComputeBaselines(window);
      if st.baselines.None? then st.(lastSyncT := Some(t), baselines := Some(b))
      else
        var attempt := if t - t0 > MIN_SYNC_T then TrySync(window, st.baselines.value) else NotYet;
        var merged := MergeBaselines(st.baselines.value, b);
        if attempt.Offsets? then
          SyncState(Some(merged), Some(t), true, Some(attempt.offsets),
                    OffsetOr(attempt.offsets, Ext, st.offsetExtImu), OffsetOr(attempt.offsets, Cam, st.offsetCam))
        else st.(lastSyncT := Some(t), baselines := Some(merged))
  }

  /** What one `_trySync` call promises. */
  lemma TrySyncStepSpec(st: SyncState, window: Window, t0: real, t: real, windowLength: real)
    requires Main in window
    ensures var r := TrySyncStep(st, window, t0, t, windowLength);
      // the latch: a synchronised state never changes again
      && (st.syncSuccess ==> r == st)
      // success exactly when a prior baseline exists, the cooldown and MIN_SYNC_T have passed and a crossing is found
      && (r.syncSuccess <==>
        || st.syncSuccess
        || (&& st.baselines.Some? && CooledDown(st.lastSyncT, t, windowLength) && t - t0 > MIN_SYNC_T
            && TrySync(window, st.baselines.value).Offsets?))
      && (!st.syncSuccess && r.syncSuccess ==>
        && r.syncResult == Some(TrySync(window, st.baselines.value).offsets)
        && r.offsetExtImu == OffsetOr(r.syncResult.value, Ext, st.offsetExtImu)
        && r.offsetCam == OffsetOr(r.syncResult.value, Cam, st.offsetCam))
      && (!r.syncSuccess ==>
        r.syncResult == st.syncResult && r.offsetExtImu == st.offsetExtImu && r.offsetCam == st.offsetCam)
      // during the cooldown nothing is evaluated
      && (!CooledDown(st.lastSyncT, t, windowLength) ==> r == st)
      // an evaluation restarts the cooldown and updates the running baselines
      && (!st.syncSuccess && CooledDown(st.lastSyncT, t, windowLength) ==>
        && r.lastSyncT == Some(t)
        && r.baselines == Some(if st.baselines.None? then ComputeBaselines(window)
                               else MergeBaselines(st.baselines.value, ComputeBaselines(window))))
      // the running baselines keep their threshold floor
      && ((st.baselines.Some? ==> AllWellFormed(st.baselines.value)) ==>
        (r.baselines.Some? ==> AllWellFormed(r.baselines.value)))
  {
    ComputeBaselinesSpec(window);
    if !st.syncSuccess && CooledDown(st.lastSyncT, t, windowLength) && st.baselines.Some?
       && AllWellFormed(st.baselines.value) {
      MergeKeepsWellFormed(st.baselines.value, ComputeBaselines(window));
    }
  }

  /**
    What the synchroniser keeps true of the `_trySync` fields: `syncSuccess`
    is set exactly when a result was latched or nothing was to be
    synchronised, the offsets are those of the latched result (0 before),
    the running baselines keep their threshold floor, and without IMU sync
    the `main` stream never has a baseline and nothing latches.
   */
  predicate SyncInvariant(st: SyncState, syncImu: bool, syncCam: bool) {
    && (st.syncSuccess <==> st.syncResult.Some? || (!syncCam && !syncImu))
    && (st.syncResult.None? ==> st.offsetExtImu == 0.0 && st.offsetCam == 0.0)
    && (st.syncResult.Some? ==>
          && st.offsetExtImu == OffsetOr(st.syncResult.value, Ext, 0.0)
          && st.offsetCam == OffsetOr(st.syncResult.value, Cam, 0.0))
    && (st.baselines.Some? ==> AllWellFormed(st.baselines.value))
    && (!syncImu ==> (st.baselines.Some? ==> Main !in st.baselines.value) && st.syncResult.None?)
  }

  /** `_trySync` keeps the invariant, provided the `main` window is empty whenever IMU sync is off. */
  lemma TrySyncStepKeepsInvariant(st: SyncState, window: Window, t0: real, t: real, windowLength: real,
                                  syncImu: bool, syncCam: bool, next: SyncState)
    requires Main in window && (!syncImu ==> window[Main] == [])
    requires SyncInvariant(st, syncImu, syncCam)
    requires next == TrySyncStep(st, window, t0, t, windowLength)
    ensures SyncInvariant(next, syncImu, syncCam)
  {
    TrySyncStepSpec(st, window, t0, t, windowLength);
    ComputeBaselinesSpec(window);
    if st.baselines.Some? {
      MergeBaselinesSpec(st.baselines.value, ComputeBaselines(window));
    }
    if !syncImu && st.baselines.Some? {
      EmptyWindowBlocksSync(window, st.baselines.value, Main);
    }
  }

  /** Appends the sync signal of one reading to window `k`, when the reading has one. */
  function AppendSignal(w: Window, k: StreamId, ingest: real, event: real, name: string, xyz: seq<real>,
                        norm: seq<real> -> real): (r: Window)
    requires k in w
    ensures r.Keys == w.Keys
    ensures forall j :: j in w && j != k ==> r[j] == w[j]
    ensures ToSyncSignal(name, xyz, norm).None? ==> r[k] == w[k]
    ensures ToSyncSignal(name, xyz, norm).Some? ==> r[k] == w[k] + [Sample(ingest, event, name + "-sync", norm(xyz))]
  {
    match ToSyncSignal(name, xyz, norm)
    case None => w
    case Some(v) => w[k := w[k] + [Sample(ingest, event, name + "-sync", v)]]
  }

  /** The on-device reading enters the `main` window (ingest and event time `t`) when IMU sync is on. */
  function IngestMain(w: Window, enabled: bool, t: real, name: string, xyz: seq<real>, norm: seq<real> -> real): Window
    requires Main in w
  {
    if enabled then AppendSignal(w, Main, t, t, name, xyz, norm) else w
  }

  /**
    The drained external readings enter the `ext` window in order, each with
    ingest time `t` (the current on-device time) and its own time as event time.
   */
  function IngestExternal(w: Window, enabled: bool, t: real, batch: seq<ExtSample>, norm: seq<real> -> real): (r: Window)
    requires Ext in w || batch == [] || !enabled
    ensures r.Keys == w.Keys
    ensures forall j :: j in w && j != Ext ==> r[j] == w[j]
    ensures !enabled ==> r == w
    decreases |batch|
  {
    if batch == [] || !enabled then w
    else
      var e := batch[|batch| - 1];
      AppendSignal(IngestExternal(w, enabled, t, batch[..|batch| - 1], norm), Ext, t, e.time, e.name, e.xyz, norm)
  }

  /** The `ext` sample a drained reading yields: one when it has a sync signal, none otherwise. */
  function SignalOf(t: real, e: ExtSample, norm: seq<real> -> real): seq<Sample> {
    if ToSyncSignal(e.name, e.xyz, norm).Some? then [Sample(t, e.time, e.name + "-sync", norm(e.xyz))] else []
  }

  /** The `ext` samples a drained batch yields, reading by reading from the front. */
  function Signals(t: real, batch: seq<ExtSample>, norm: seq<real> -> real): seq<Sample>
    decreases |batch|
  {
    if batch == [] then [] else SignalOf(t, batch[0], norm) + Signals(t, batch[1..], norm)
  }

  /** The samples of a batch are those of all but its last reading, then the last one's. */
  lemma {:induction false} SignalsSnoc(t: real, batch: seq<ExtSample>, norm: seq<real> -> real)
    requires batch != []
    ensures Signals(t, batch, norm)
         == Signals(t, batch[..|batch| - 1], norm) + SignalOf(t, batch[|batch| - 1], norm)
    decreases |batch|
  {
    var n := |batch|;
    if n == 1 {
      assert batch[1..] == [];
      assert batch[..0] == [];
    } else {
      var tail := batch[1..];
      SignalsSnoc(t, tail, norm);
      assert tail[..|tail| - 1] == batch[..n - 1][1..];
      assert batch[..n - 1][0] == batch[0];
      assert tail[|tail| - 1] == batch[n - 1];
      calc {
        Signals(t, batch, norm);
        SignalOf(t, batch[0], norm) + Signals(t, tail, norm);
        SignalOf(t, batch[0], norm) + (Signals(t, batch[..n - 1][1..], norm) + SignalOf(t, batch[n - 1], norm));
        (SignalOf(t, batch[0], norm) + Signals(t, batch[..n - 1][1..], norm)) + SignalOf(t, batch[n - 1], norm);
        Signals(t, batch[..n - 1], norm) + SignalOf(t, batch[n - 1], norm);
      }
    }
  }

  /**
    With sync on, `ext` gains exactly the samples of the drained readings that
    have a sync signal, in drain order, each as `(t, t1, name1 + '-sync', norm)`;
    with sync off it is unchanged.
   */
  lemma {:induction false} IngestExternalAppends(w: Window, enabled: bool, t: real, batch: seq<ExtSample>,
                                                 norm: seq<real> -> real)
    requires Ext in w
    ensures IngestExternal(w, enabled, t, batch, norm)[Ext]
         == if enabled then w[Ext] + Signals(t, batch, norm) else w[Ext]
    decreases |batch|
  {
    if batch == [] {
      assert w[Ext] + [] == w[Ext];
    } else if enabled {
      var init := batch[..|batch| - 1];
      var e := batch[|batch| - 1];
      IngestExternalAppends(w, enabled, t, init, norm);
      SignalsSnoc(t, batch, norm);
      var prev := IngestExternal(w, enabled, t, init, norm);
      assert IngestExternal(w, enabled, t, batch, norm)[Ext] == prev[Ext] + SignalOf(t, e, norm);
      assert w[Ext] + Signals(t, init, norm) + SignalOf(t, e, norm)
          == w[Ext] + (Signals(t, init, norm) + SignalOf(t, e, norm));
    }
  }

  /** The samples returned to the caller: time shifted by the external offset, type and values kept. */
  function Corrected(batch: seq<ExtSample>, offset: real): (r: seq<ExtSample>)
    ensures |r| == |batch|
    ensures forall i :: 0 <= i < |batch| ==>
      r[i].time == batch[i].time + offset && r[i].name == batch[i].name && r[i].xyz == batch[i].xyz
  {
    seq(|batch|, i requires 0 <= i < |batch| => ExtSample(batch[i].time + offset, batch[i].name, batch[i].xyz))
  }

  /** Correcting one more sample appends its shifted copy. */
  lemma CorrectedSnoc(batch: seq<ExtSample>, i: nat, offset: real)
    requires i < |batch|
    ensures Corrected(batch[..i + 1], offset)
         == Corrected(batch[..i], offset) + [ExtSample(batch[i].time + offset, batch[i].name, batch[i].xyz)]
  {
  }

  /** The end of the run of stale samples that starts at index `i`. */
  function StaleFrom(q: seq<Sample>, tMin: real, i: nat): (n: nat)
    requires i <= |q|
    ensures i <= n <= |q|
    decreases |q| - i
  {
    if i < |q| && q[i].ingest < tMin then StaleFrom(q, tMin, i + 1) else i
  }

  lemma {:induction false} StaleFromSpec(q: seq<Sample>, tMin: real, i: nat)
    requires i <= |q|
    ensures var n := StaleFrom(q, tMin, i);
      && (forall j :: i <= j < n ==> q[j].ingest < tMin)
      && (n < |q| ==> q[n].ingest >= tMin)
    decreases |q| - i
  {
    if i < |q| && q[i].ingest < tMin {
      StaleFromSpec(q, tMin, i + 1);
    }
  }

  /** How many samples the front-only eviction of one window drops: the leading run older than `tMin`. */
  function StaleCount(q: seq<Sample>, tMin: real): (n: nat)
    ensures n <= |q|
  {
    StaleFrom(q, tMin, 0)
  }

  /** Every dropped sample was stale, and the new front (if any) is not. */
  lemma StaleCountSpec(q: seq<Sample>, tMin: real)
    ensures var n := StaleCount(q, tMin);
      && (forall i :: 0 <= i < n ==> q[i].ingest < tMin)
      && (n < |q| ==> q[n].ingest >= tMin)
  {
    StaleFromSpec(q, tMin, 0);
  }

  /** The front-only eviction of one window: drop the oldest sample while it is older than `tMin`. */
  function EvictStale(q: seq<Sample>, tMin: real): seq<Sample> {
    var n := StaleCount(q, tMin);
    seq(|q| - n, i requires 0 <= i < |q| - n => q[n + i])
  }

  /** The eviction keeps the suffix after the stale run. */
  lemma EvictStaleSuffix(q: seq<Sample>, tMin: real)
    ensures EvictStale(q, tMin) == q[StaleCount(q, tMin)..]
  {
  }

  predicate IngestSorted(q: seq<Sample>) {
    forall i, j :: 0 <= i < j < |q| ==> q[i].ingest <= q[j].ingest
  }

  /**
    With non-decreasing ingest times, eviction keeps exactly the samples
    that are not stale.
   */
  lemma EvictStaleSorted(q: seq<Sample>, tMin: real)
    requires IngestSorted(q)
    ensures var r := EvictStale(q, tMin);
      && (forall i :: 0 <= i < |r| ==> r[i].ingest >= tMin)
      && (forall i :: 0 <= i < |q| ==> (q[i].ingest >= tMin <==> i >= |q| - |r|))
  {
    StaleCountSpec(q, tMin);
    var d := StaleCount(q, tMin);
    var r := EvictStale(q, tMin);
    forall i | d <= i < |q| ensures q[i].ingest >= tMin {
      assert q[d].ingest <= q[i].ingest || i == d;
    }
    forall i | 0 <= i < |r| ensures r[i].ingest >= tMin {
      assert r[i] == q[d + i];
    }
  }

  lemma EvictStaleIdempotent(q: seq<Sample>, tMin: real)
    ensures EvictStale(EvictStale(q, tMin), tMin) == EvictStale(q, tMin)
  {
    StaleCountSpec(q, tMin);
    var d := StaleCount(q, tMin);
    var r := EvictStale(q, tMin);
    if |r| > 0 {
      assert r[0] == q[d];
    }
    assert StaleCount(r, tMin) == 0;
  }

  function EvictAll(w: Window, tMin: real): (r: Window)
    ensures r.Keys == w.Keys
    ensures forall k :: k in w ==> r[k] == EvictStale(w[k], tMin)
  {
    map k | k in w :: EvictStale(w[k], tMin)
  }

  function Size(w: Window, k: StreamId): nat {
    if k in w then |w[k]| else 0
  }

  /** The number of samples in all windows together. */
  function WindowSize(w: Window): nat {
    Size(w, Main) + Size(w, Ext) + Size(w, Cam)
  }

  lemma SizeAfterUpdate(w: Window, k: StreamId, q: seq<Sample>)
    requires k in w
    ensures WindowSize(w[k := q]) == WindowSize(w) - |w[k]| + |q|
  {
  }

  /** `n_removed` is positive exactly when eviction changed some window. */
  lemma EvictionCount(w: Window, tMin: real)
    ensures WindowSize(EvictAll(w, tMin)) <= WindowSize(w)
    ensures WindowSize(EvictAll(w, tMin)) == WindowSize(w) <==> EvictAll(w, tMin) == w
  {
    var r := EvictAll(w, tMin);
    forall j ensures Size(r, j) <= Size(w, j) {
      if j in w {
        assert r[j] == EvictStale(w[j], tMin);
      }
    }
    if WindowSize(r) == WindowSize(w) {
      forall k | k in w ensures r[k] == w[k] {
        assert Size(r, k) == Size(w, k) by {
          assert Size(r, Main) <= Size(w, Main) && Size(r, Ext) <= Size(w, Ext) && Size(r, Cam) <= Size(w, Cam);
          if k == Main {
          } else if k == Ext {
          } else {
            assert k == Cam;
          }
        }
        assert |r[k]| == |w[k]|;
      }
    }
  }

  /**
    The loop of `pushSensor` over the drained external samples: each enters
    the `ext` window when sync is on, and, once `ready`, is also returned
    with its time shifted by `offset`.
   */
  method IngestBatch(w: Window, enabled: bool, t: real, batch: seq<ExtSample>, norm: seq<real> -> real,
                     ready: bool, offset: real)
    returns (r: Window, out: seq<ExtSample>)
    requires Ext in w || batch == [] || !enabled
    ensures r == IngestExternal(w, enabled, t, batch, norm)
    ensures out == if ready then Corrected(batch, offset) else []
  {
    r := w;
    out := [];
    for i := 0 to |batch|
      invariant r == IngestExternal(w, enabled, t, batch[..i], norm)
      invariant out == if ready then Corrected(batch[..i], offset) else []
    {
      var e := batch[i];
      assert batch[..i + 1][..i] == batch[..i];
      CorrectedSnoc(batch, i, offset);
      if enabled {
        r := AppendSignal(r, Ext, t, e.time, e.name, e.xyz, norm);
      }
      if ready {
        out := out + [ExtSample(e.time + offset, e.name, e.xyz)];
      }
    }
    assert batch[..|batch|] == batch;
  }

  /** `while len(q) > 0 and q[0][0] < t_min: q.pop(0)` on one window `q`. */
  method EvictStream(q: seq<Sample>, tMin: real) returns (kept: seq<Sample>, n: nat)
    ensures kept == EvictStale(q, tMin)
    ensures n == |q| - |kept|
  {
    StaleCountSpec(q, tMin);
    kept := q;
    n := 0;
    while |kept| > 0 && kept[0].ingest < tMin
      invariant n <= StaleCount(q, tMin) && kept == q[n..]
      decreases |kept|
    {
      kept := kept[1..];
      n := n + 1;
    }
    EvictStaleSuffix(q, tMin);
  }

  /** Eviction of window `k` alone. */
  function EvictOne(w: Window, k: StreamId, tMin: real): (r: Window)
    ensures r.Keys == w.Keys
  {
    if k in w then w[k := EvictStale(w[k], tMin)] else w
  }

  /** The windows after the eviction loop has visited the streams `ks`, in order. */
  function EvictVisited(w: Window, ks: seq<StreamId>, tMin: real): (r: Window)
    ensures r.Keys == w.Keys
    decreases |ks|
  {
    if ks == [] then w else EvictOne(EvictVisited(w, ks[..|ks| - 1], tMin), ks[|ks| - 1], tMin)
  }

  /** Visiting every stream once evicts every window. */
  lemma EvictVisitedAll(w: Window, tMin: real)
    ensures EvictVisited(w, [Main, Ext, Cam], tMin) == EvictAll(w, tMin)
  {
    var w1 := EvictOne(w, Main, tMin);
    var w2 := EvictOne(w1, Ext, tMin);
    var w3 := EvictOne(w2, Cam, tMin);
    var k1, k2, k3 := [Main], [Main, Ext], [Main, Ext, Cam];
    assert k1[..0] == [];
    assert EvictVisited(w, k1, tMin) == w1;
    assert k2[..1] == k1;
    assert EvictVisited(w, k2, tMin) == w2;
    assert k3[..2] == k2;
    assert EvictVisited(w, k3, tMin) == w3;
    var r := EvictAll(w, tMin);
    forall k | k in w ensures w3[k] == r[k] {
      if k == Main {
        assert w3[k] == w1[k];
      } else if k == Ext {
        assert w3[k] == w2[k] && w2[k] == EvictStale(w1[k], tMin) && w1[k] == w[k];
      } else {
        assert w3[k] == EvictStale(w2[k], tMin) && w2[k] == w[k];
      }
    }
  }

  /** The eviction loop over every window, in the order `syncWindow` lists them. */
  method EvictWindows(orig: Window, tMin: real) returns (w: Window, nRemoved: nat)
    ensures w == EvictAll(orig, tMin)
    ensures nRemoved == WindowSize(orig) - WindowSize(w)
  {
    nRemoved := 0;
    w := orig;
    var streams := [Main, Ext, Cam];
    for i := 0 to |streams|
      invariant w == EvictVisited(orig, streams[..i], tMin)
      invariant nRemoved + WindowSize(w) == WindowSize(orig)
    {
      var k := streams[i];
      assert streams[..i + 1][..i] == streams[..i];
      if k in w {
        var kept, n := EvictStream(w[k], tMin);
        SizeAfterUpdate(w, k, kept);
        w := w[k := kept];
        nRemoved := nRemoved + n;
      }
    }
    assert streams[..|streams|] == streams;
    EvictVisitedAll(orig, tMin);
  }

  /**
    The windows `__init__` creates: `main` always, `ext` with an external
    IMU, `cam` with camera sync; and `main` stays empty without IMU sync.
   */
  predicate WindowShape(w: Window, ext: bool, cam: bool, imu: bool) {
    && Main in w && (Ext in w <==> ext) && (Cam in w <==> cam)
    && (!imu ==> w[Main] == [])
  }

  /** Ingestion keeps the windows' shape: no window appears or disappears, and `main` fills only with IMU sync. */
  lemma IngestKeepsShape(w: Window, ext: bool, cam: bool, imu: bool, t: real, name: string, xyz: seq<real>,
                         batch: seq<ExtSample>, norm: seq<real> -> real)
    requires WindowShape(w, ext, cam, imu) && (ext || batch == [])
    ensures WindowShape(IngestExternal(IngestMain(w, imu, t, name, xyz, norm), imu || cam, t, batch, norm),
                        ext, cam, imu)
  {
    var m := IngestMain(w, imu, t, name, xyz, norm);
    assert m.Keys == w.Keys;
  }

  /** Eviction keeps the windows' shape. */
  lemma EvictKeepsShape(w: Window, ext: bool, cam: bool, imu: bool, tMin: real)
    requires WindowShape(w, ext, cam, imu)
    ensures WindowShape(EvictAll(w, tMin), ext, cam, imu)
  {
  }

  /** The synchroniser of the on-device IMU, an optional external IMU and camera motion. */
  class ImuSynchronizer {
    /** `syncWindow`: the retention window of each enabled stream. */
    var syncWindow: Window
    /** `externalSamples`: the hand-off buffer the reader appends to. */
    var externalSamples: seq<ExtSample>
    /** `externalReader is not None`: an external IMU file was given. */
    const hasExternalReader: bool
    /** `externalImuFile is not None`. */
    var externalFileOpen: bool
    const syncWindowLengthSec: real
    const syncCam: bool
    const syncImu: bool
    var t0: Option<real>
    /** `prevMat is not None`: a camera frame has been seen. */
    var hasPrevFrame: bool
    /** `baselines`, `lastSyncT`, `syncSuccess`, `syncResult`, `offsetExtImu`, `offsetCam`: the fields `_trySync` owns. */
    var sync: SyncState
    /** The vector norm used to score accelerometer readings. */
    const norm: seq<real> -> real

    /** Every sample ever handed over, and every sample ever drained, in order. */
    ghost var appended: seq<ExtSample>
    ghost var drained: seq<ExtSample>
    /** How often the external file has been closed. */
    ghost var fileCloses: nat

    /** The windows: one per enabled stream, and `main` stays empty without IMU sync. */
    ghost predicate WindowsValid()
      reads this`syncWindow
    {
      WindowShape(syncWindow, hasExternalReader, syncCam, syncImu)
    }

    /** Taking each append and each drain as one step, the hand-off buffer loses nothing and duplicates nothing. */
    ghost predicate BufferValid()
      reads this`appended, this`drained, this`externalSamples
    {
      appended == drained + externalSamples
    }

    /** The external file is closed at most once. */
    ghost predicate FileValid()
      reads this`fileCloses, this`externalFileOpen
    {
      fileCloses + (if externalFileOpen then 1 else 0) == (if hasExternalReader then 1 else 0)
    }

    ghost predicate Valid()
      reads this`syncWindow, this`appended, this`drained, this`externalSamples, this`fileCloses, this`externalFileOpen,
            this`sync
    {
      && syncImu == (syncWindowLengthSec > 0.0 && hasExternalReader)
      && WindowsValid() && BufferValid() && FileValid()
      && SyncInvariant(sync, syncImu, syncCam)
    }

    /** `ImuSyncrhonizer(external_imu_file, plot, sync_imu_and_camera, sync_window_length_sec)`. */
    constructor (externalImuFile: bool, syncImuAndCamera: bool, syncWindowLengthSec: real, norm: seq<real> -> real)
      ensures Valid()
      ensures hasExternalReader == externalImuFile && externalFileOpen == externalImuFile && fileCloses == 0
      ensures this.syncWindowLengthSec == syncWindowLengthSec && this.norm == norm
      ensures syncCam == syncImuAndCamera && syncImu == (syncWindowLengthSec > 0.0 && externalImuFile)
      ensures forall k :: k in syncWindow ==> syncWindow[k] == []
      ensures externalSamples == [] && appended == [] && drained == []
      ensures t0.None? && !hasPrevFrame
      ensures sync.lastSyncT.None? && sync.baselines.None? && sync.syncResult.None?
      ensures sync.offsetCam == 0.0 && sync.offsetExtImu == 0.0
      // already synchronised exactly when neither camera nor external sync was asked for
      ensures sync.syncSuccess <==> !syncImuAndCamera && !(syncWindowLengthSec > 0.0 && externalImuFile)
    {
      var w: Window := map[Main := []];
      if externalImuFile {
        w := w[Ext := []];
      }
      if syncImuAndCamera {
        w := w[Cam := []];
      }
      syncWindow := w;
      externalSamples := [];
      hasExternalReader := externalImuFile;
      externalFileOpen := externalImuFile;
      this.syncWindowLengthSec := syncWindowLengthSec;
      syncCam := syncImuAndCamera;
      syncImu := syncWindowLengthSec > 0.0 && externalImuFile;
      t0 := None;
      hasPrevFrame := false;
      sync := SyncState(None, None, !syncImuAndCamera && !(syncWindowLengthSec > 0.0 && externalImuFile), None, 0.0, 0.0);
      this.norm := norm;
      appended := [];
      drained := [];
      fileCloses := 0;
    }

    /** `ready()`: synchronised, or no synchronisation was requested. */
    function Ready(): (r: bool)
      requires Valid()
      reads this
      ensures r <==> sync.syncResult.Some? || (!syncCam && !syncImu)
      // camera sync without IMU sync never completes: `main` stays empty and has no baseline
      ensures syncCam && !syncImu ==> !r
    {
      sync.syncSuccess
    }

    /** `pushFrame(t, frame)`, with `meanFlow` the norm of the mean optical flow against the previous frame. */
    method PushFrame(t: real, meanFlow: real)
      requires Valid()
      modifies this`syncWindow, this`hasPrevFrame
      ensures Valid()
      ensures !syncCam ==> syncWindow == old(syncWindow) && hasPrevFrame == old(hasPrevFrame)
      ensures syncCam ==> hasPrevFrame
      ensures syncCam ==> syncWindow == if old(hasPrevFrame)
        then old(syncWindow)[Cam := old(syncWindow)[Cam] + [Sample(t, t, "camFlow", meanFlow + MIN_FLOW)]]
        else old(syncWindow)
    {
      if !syncCam {
        return;
      }
      if hasPrevFrame {
        syncWindow := syncWindow[Cam := syncWindow[Cam] + [Sample(t, t, "camFlow", meanFlow + MIN_FLOW)]];
      }
      hasPrevFrame := true;
    }

    /** `pushExternalSensor`: the reader thread hands one sample over. */
    method PushExternalSensor(t: real, name: string, xyz: seq<real>)
      requires Valid()
      modifies this`externalSamples, this`appended
      ensures Valid()
      ensures externalSamples == old(externalSamples) + [ExtSample(t, name, xyz)]
      ensures appended == old(appended) + [ExtSample(t, name, xyz)]
    {
      externalSamples := externalSamples + [ExtSample(t, name, xyz)];
      appended := appended + [ExtSample(t, name, xyz)];
    }

    /** `_pollExternalSensors`: take everything handed over since the last drain and empty the buffer. */
    method PollExternalSensors() returns (r: seq<ExtSample>)
      requires Valid()
      modifies this`externalSamples, this`drained
      ensures Valid()
      ensures r == if hasExternalReader then old(externalSamples) else []
      ensures externalSamples == if hasExternalReader then [] else old(externalSamples)
      ensures drained == old(drained) + r
    {
      if !hasExternalReader {
        return [];
      }
      r := externalSamples;
      externalSamples := [];
      drained := drained + r;
    }

    /** `_trySync(t)`: the fields it owns take the values `TrySyncStep` gives them. */
    method TrySyncAt(t: real)
      requires Valid() && t0.Some?
      modifies this`sync
      ensures Valid()
      ensures sync == TrySyncStep(old(sync), syncWindow, t0.value, t, syncWindowLengthSec)
    {
      sync := TrySyncStep(sync, syncWindow, t0.value, t, syncWindowLengthSec);
      TrySyncStepKeepsInvariant(old(sync), syncWindow, t0.value, t, syncWindowLengthSec, syncImu, syncCam, sync);
    }

    /**
      The ingestion half of `pushSensor`: the reading's sync signal enters
      `main` (with IMU sync), the external buffer is drained and each drained
      sample's signal enters `ext` (with any sync); once synchronised the
      drained samples come back shifted by the external offset.
     */
    method Ingest(t: real, name: string, xyz: seq<real>) returns (extOut: seq<ExtSample>)
      requires Valid()
      modifies this`syncWindow, this`externalSamples, this`drained
      ensures Valid()
      ensures var batch := if hasExternalReader then old(externalSamples) else [];
        && externalSamples == (if hasExternalReader then [] else old(externalSamples))
        && drained == old(drained) + batch
        && syncWindow == IngestExternal(IngestMain(old(syncWindow), syncImu, t, name, xyz, norm),
                                        syncImu || syncCam, t, batch, norm)
        // external samples come out only once synchronised, shifted by the latched offset
        && extOut == (if sync.syncSuccess then Corrected(batch, sync.offsetExtImu) else [])
    {
      var w := IngestMain(syncWindow, syncImu, t, name, xyz, norm);
      var batch := PollExternalSensors();
      IngestKeepsShape(syncWindow, hasExternalReader, syncCam, syncImu, t, name, xyz, batch, norm);
      w, extOut := IngestBatch(w, syncImu || syncCam, t, batch, norm, sync.syncSuccess, sync.offsetExtImu);
      syncWindow := w;
    }

    /** The eviction half of `pushSensor`: every window drops its stale front; the result is `n_removed`. */
    method EvictAllStale(tMin: real) returns (nRemoved: nat)
      requires Valid()
      modifies this`syncWindow
      ensures Valid()
      ensures syncWindow == EvictAll(old(syncWindow), tMin)
      ensures nRemoved == WindowSize(old(syncWindow)) - WindowSize(syncWindow)
      // something was removed exactly when some window changed
      ensures nRemoved > 0 <==> syncWindow != old(syncWindow)
    {
      var w;
      w, nRemoved := EvictWindows(syncWindow, tMin);
      EvictionCount(syncWindow, tMin);
      EvictKeepsShape(syncWindow, hasExternalReader, syncCam, syncImu, tMin);
      syncWindow := w;
    }

    /** The tail of `pushSensor`: eviction, then `_trySync` when eviction removed something. */
    method EvictAndTrySync(t: real)
      requires Valid() && t0.Some?
      modifies this`syncWindow, this`sync
      ensures Valid()
      ensures syncWindow == EvictAll(old(syncWindow), t - syncWindowLengthSec)
      ensures sync == if syncWindow != old(syncWindow)
                      then TrySyncStep(old(sync), syncWindow, t0.value, t, syncWindowLengthSec)
                      else old(sync)
    {
      var nRemoved := EvictAllStale(t - syncWindowLengthSec);
      if nRemoved > 0 {
        TrySyncAt(t);
      }
    }

    /** `pushSensor(t, name, xyz)`: one on-device reading; returns the corrected external samples. */
    method PushSensor(t: real, name: string, xyz: seq<real>) returns (extOut: seq<ExtSample>, ghost batch: seq<ExtSample>, ghost ingested: Window)
      requires Valid()
      modifies this`t0, this`syncWindow, this`externalSamples, this`drained, this`sync
      ensures Valid()
      ensures t0 == if old(t0).None? then Some(t) else old(t0)
      ensures batch == if hasExternalReader then old(externalSamples) else []
      ensures externalSamples == (if hasExternalReader then [] else old(externalSamples))
      ensures drained == old(drained) + batch
      ensures extOut == if old(sync.syncSuccess) then Corrected(batch, old(sync.offsetExtImu)) else []
      ensures ingested == IngestExternal(IngestMain(old(syncWindow), syncImu, t, name, xyz, norm),
                                         syncImu || syncCam, t, batch, norm)
      ensures syncWindow == EvictAll(ingested, t - syncWindowLengthSec)
        // `_trySync` runs only when eviction removed something
      ensures sync == if syncWindow != ingested
                      then TrySyncStep(old(sync), syncWindow, t0.value, t, syncWindowLengthSec)
                      else old(sync)
    {
      if t0.None? {
        t0 := Some(t);
      }
      batch := if hasExternalReader then externalSamples else [];
      extOut := Ingest(t, name, xyz);
      ingested := syncWindow;
      EvictAndTrySync(t);
    }

    /** `close()`: close the external file if it is still open. */
    method Close()
      requires Valid()
      modifies this`externalFileOpen, this`fileCloses
      ensures Valid()
      ensures !externalFileOpen
      ensures fileCloses == old(fileCloses) + (if old(externalFileOpen) then 1 else 0)
      ensures fileCloses <= 1
    {
      if externalFileOpen {
        externalFileOpen := false;
        fileCloses := fileCloses + 1;
      }
    }
  }
}
