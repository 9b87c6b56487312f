# IMU/camera synchronisation and recording helpers, modelled in Dafny

This project models the host-side logic of an OAK-D recording tool.

- **The synchronisation engine (`sync.py`).** The engine scores accelerometer
  readings, keeps a retention window per stream and evicts stale samples
  from the front. It estimates a baseline (mean and threshold) per stream,
  smooths it, and finds the first over-threshold sample of every stream.
  Once every stream has crossed, it latches one time offset per non-reference stream (`ext`, `cam`). The
  pure helpers are functions in module `SyncSignal`. The class
  `ImuSyncrhonizer` is the Dafny class `ImuSync.ImuSynchronizer`, whose
  methods update its fields. Each method is specified by a pure function of
  the old state: `TrySyncStep` for `_trySync`, and `IngestMain`,
  `IngestExternal` and `EvictAll` for `pushSensor`. Lemmas about those
  functions state what the engine promises:
  - the latch;
  - the cooldown;
  - the threshold floor;
  - suffix-preserving eviction;
  - hand-off without loss or duplication (sequential model);
  - the offset correction of returned external samples.
- **The recorder (`record.py`).**
  - The frame synchroniser `StereoSynchronizer` is a class whose queues are a `seq` field.
  - The stream and file naming rules are functions, with injectivity lemmas.
  - The guards of `manualExposure` and `manualFocus` are functions returning the command that would be sent, with lemmas giving the exact acceptance ranges.
- **`pick_sensor.py`.** Type-label rewriting is a function. The record filter
  is a method with a loop, specified by a function. Lemmas state that the
  output is an order-preserving subsequence of the rewritten input.
- **`sort_jsonl.py`.** A stable insertion sort by a numeric key, proved
  sorted, a permutation (multiset equality) and stable. Stability means the
  records with any one key keep their input order.

Module layout:

- `wrappers.dfy`: `Option`.
- `numeric.dfy`: `abs` on reals.
- `strings.dfy`: the Python string operations used, namely `in`, `replace(p, '')`, `capitalize` and `'%d'`.
- `sync_signal.dfy`: the pure helpers of `sync.py`.
- `imu_sync.dfy`: the synchroniser class and its specification functions.
- `recording.dfy`: `record.py`.
- `jsonl.dfy`: the record datatype.
- `pick_sensor.dfy` and `sort_jsonl.dfy`: the two tools.

Modelling decisions:

- Windows are created in `__init__`, never lazily on first push: `main` always, `ext` with an external IMU file and `cam` with camera sync.
- The `main` window only ever receives samples when IMU sync is on, meaning an external file was given and the window length is positive. Camera-only synchronisation therefore never completes: `main` has no baseline, so `try_sync` always returns `None`. The fallback reference `cam` is never used by the class. `ImuSync.ImuSynchronizer.Ready` and the invariant `SyncInvariant` prove this.
- The six fields `_trySync` owns (`baselines`, `lastSyncT`, `syncSuccess`, `syncResult`, `offsetExtImu`, `offsetCam`) are held as one record field `sync` of type `SyncState`.
- `pushSensor` is `PushSensor`, which composes two methods. `Ingest` covers the main append, the drain and the external loop. `EvictAndTrySync` covers eviction and then `_trySync`.
- `np.linalg.norm` is a function parameter `norm` of the class.
- The optical-flow magnitude of a frame is a parameter of `PushFrame`.
- `try_sync`'s `KeyError` on `t[main]` is the outcome `MissingReference`. It arises only when every window has crossed, some stream has a window and the reference has none; with no windows at all `try_sync` returns the empty offset map. It is proved unreachable while `main` has a window, which the class always has.

## Model

| member | source | states |
|---|---|---|
| `SyncSignal.ToSyncSignal` | sync.py:23-26 | a signal, when there is one, is the norm of the reading's values |
| `SyncSignal.SyncSignalIffAccelerometer` | sync.py:25 | a reading gives a signal exactly when "accelerometer" occurs somewhere in its label |
| `SyncSignal.MaxSpec` | sync.py:88 | `np.max` bounds every value and is one of them |
| `SyncSignal.BaselineOf` | sync.py:85-89 | `(m, s)` of one non-empty window; its properties are `BaselineOfSpec` |
| `SyncSignal.MeanAtMostMax` | sync.py:87-88 | the mean of a window never exceeds its maximum, so `max(vv) - m >= 0` |
| `SyncSignal.BaselineOfSpec` | sync.py:86-89 | `m` is the mean; `s` is twice the larger of `max(vv) - m` and `0.01 * m`, so `s >= 0.02 * m` and `s >= 0`, and no sample lies more than `s / 2` above `m` |
| `SyncSignal.ComputeBaselinesSpec` | sync.py:81-90 | a baseline exists exactly for each non-empty window, is that window's baseline, and is well formed |
| `SyncSignal.ComputeBaselines` | sync.py:81-90 | `compute_baselines`: one baseline per non-empty window, as `ComputeBaselinesSpec` states |
| `SyncSignal.MergeBaselinesSpec` | sync.py:92-99 | the merged keys are exactly the fresh keys; a key new in `b2` keeps `b2`'s pair; an old key gets `0.7 * new + 0.3 * old` in both components |
| `SyncSignal.MergeIsBetween` | sync.py:94-98 | each smoothed component lies between the old and the new value |
| `SyncSignal.MergeKeepsWellFormed` | sync.py:92-99 | smoothing well-formed baselines keeps the threshold non-negative and above its floor |
| `SyncSignal.MergeBaselines` | sync.py:92-99 | `merge_baselines`: smoothing over the fresh keys, as `MergeBaselinesSpec` states |
| `SyncSignal.FirstCrossingFromSpec` | sync.py:111-115 | the scan returns the first index at or after its start whose value departs from the mean by more than the threshold, or reports that none does |
| `SyncSignal.FirstCrossingSpec` | sync.py:111-115 | `np.flatnonzero(over)[0]` is the first crossing; no result means no sample crosses |
| `SyncSignal.FirstCrossingUnique` | sync.py:115 | the first crossing is unique |
| `SyncSignal.FirstCrossing` | sync.py:110-115 | the index `np.flatnonzero(over)[0]`, or none when no sample is over; see `FirstCrossingSpec` |
| `SyncSignal.TrySync` | sync.py:101-119 | `try_sync`: not yet, the `KeyError`, or the offsets, as `TrySyncSpec` and `TrySyncOffsetMeaning` state |
| `SyncSignal.TrySyncSpec` | sync.py:101-119 | not yet exactly when some window lacks a baseline or a crossing; the `KeyError` exactly when all crossed, some stream has a window and the reference has none; no windows give no offsets; otherwise keys are all windows but the reference, each mapped to the reference's crossing event time minus its own; the reference is `main` when `main` has a window and a result |
| `SyncSignal.TrySyncOffsetMeaning` | sync.py:115-119 | for any first crossings `i` of the reference and `j` of stream `k`, the offset is their event-time difference, so the shifted crossing of `k` lands on the reference's |
| `SyncSignal.EmptyWindowBlocksSync` | sync.py:110-114 | an empty window never crosses, so detection waits for data on every stream |
| `ImuSync.TrySyncStepSpec` | sync.py:224-247 | once latched nothing changes; success exactly when a prior baseline exists, the cooldown and `MIN_SYNC_T` have passed and `try_sync` gives a result; the offsets then take the result's `ext` / `cam` entries or keep their values; an evaluation sets `lastSyncT` and adopts or merges the fresh baselines; the threshold floor is kept |
| `ImuSync.TrySyncStepKeepsInvariant` | sync.py:224-247 | `_trySync` keeps the class invariant: success iff a latched result or nothing to synchronise, offsets those of the result (0 before), well-formed baselines, no `main` baseline and no result without IMU sync |
| `ImuSync.TrySyncStep` | sync.py:224-247 | the `_trySync` fields after one call; its properties are `TrySyncStepSpec` and `TrySyncStepKeepsInvariant` |
| `ImuSync.AppendSignal` | sync.py:184-186 | only the chosen window changes, gaining `(ingest, event, name + '-sync', norm)` exactly when the reading has a signal |
| `ImuSync.IngestMain` | sync.py:183-186 | the on-device reading enters `main` as `(t, t, name + '-sync', norm)` exactly when IMU sync is on and it has a signal, through `AppendSignal` |
| `ImuSync.IngestExternal` | sync.py:189-193 | only `ext` changes, and nothing changes with sync off |
| `ImuSync.IngestExternalAppends` | sync.py:189-193 | with sync on, `ext` gains exactly `(t, t1, name1 + '-sync', norm(xyz1))` for each drained reading with a signal, in drain order and nothing else; with sync off it is unchanged |
| `ImuSync.Signals` | sync.py:189-193 | the `ext` samples a drained batch yields, one per reading with a signal, read from the front; the partner of `IngestExternal` in `IngestExternalAppends` |
| `ImuSync.SignalsSnoc` | sync.py:189 | the batch's samples are those of all but the last reading followed by the last reading's |
| `ImuSync.Corrected` | sync.py:194-195 | one output per drained reading, time shifted by the offset, type and values unchanged |
| `ImuSync.StaleCountSpec` | sync.py:200-202 | every dropped sample is older than `t_min`, and the new front (if any) is not |
| `ImuSync.StaleCount` | sync.py:201-203 | the number of `pop(0)` steps on one window, characterised by `StaleCountSpec` |
| `ImuSync.EvictStale` | sync.py:200-202 | one window after its stale front is popped; see `EvictStaleSuffix`, `EvictStaleSorted`, `EvictStaleIdempotent` |
| `ImuSync.EvictStaleSuffix` | sync.py:200-202 | eviction leaves a suffix of the window |
| `ImuSync.EvictStaleSorted` | sync.py:197-202 | with non-decreasing ingest times, exactly the samples with ingest time `>= t_min` are kept |
| `ImuSync.EvictStaleIdempotent` | sync.py:200-202 | evicting twice with the same bound removes nothing more |
| `ImuSync.EvictAll` | sync.py:197-202 | every window is evicted, and no window appears or disappears |
| `ImuSync.EvictionCount` | sync.py:198-205 | eviction never adds samples, and `n_removed` is zero exactly when no window changed |
| `ImuSync.IngestBatch` | sync.py:188-195 | the loop over the drained readings computes `IngestExternal`, and returns the corrected readings exactly when ready |
| `ImuSync.EvictStream` | sync.py:200-202 | the `pop(0)` loop computes the eviction of one window and counts what it dropped |
| `ImuSync.EvictVisitedAll` | sync.py:199-202 | visiting `main`, `ext`, `cam` once each evicts every window |
| `ImuSync.EvictWindows` | sync.py:197-202 | the loop over all windows computes `EvictAll`, and `n_removed` is the number of samples dropped |
| `ImuSync.IngestKeepsShape` | sync.py:183-193 | ingestion keeps the set of windows, and `main` fills only with IMU sync |
| `ImuSync.EvictKeepsShape` | sync.py:197-202 | eviction keeps the set of windows |
| `ImuSync.ImuSynchronizer.constructor` | sync.py:122-162 | windows `main`, `ext` iff a file, `cam` iff camera sync, all empty; IMU sync iff positive window and a file; already synchronised exactly when neither kind of sync is on; offsets 0 |
| `ImuSync.ImuSynchronizer.Ready` | sync.py:258-259 | ready exactly when a result is latched or nothing is to be synchronised; camera sync without IMU sync is never ready |
| `ImuSync.ImuSynchronizer.PushFrame` | sync.py:164-179 | without camera sync nothing changes; otherwise the first frame only marks a previous frame and later frames append `(t, t, 'camFlow', flow + 0.1)` to `cam` |
| `ImuSync.ImuSynchronizer.PushExternalSensor` | sync.py:213-215 | the sample is appended to the hand-off buffer and to the history of handed-over samples |
| `ImuSync.ImuSynchronizer.PollExternalSensors` | sync.py:217-222 | a drain returns everything handed over since the previous drain, in order, and empties the buffer; without a reader it returns nothing; each sample is drained exactly once |
| `ImuSync.ImuSynchronizer.TrySyncAt` | sync.py:224-247 | the `_trySync` fields take the values `TrySyncStep` gives, and the invariant is kept |
| `ImuSync.ImuSynchronizer.Ingest` | sync.py:183-195 | the main append, the drain, the external loop and the corrected output, as the specification functions give them |
| `ImuSync.ImuSynchronizer.EvictAllStale` | sync.py:197-203 | the windows become `EvictAll` of the old ones; `n_removed` is the number dropped, positive exactly when some window changed |
| `ImuSync.ImuSynchronizer.EvictAndTrySync` | sync.py:197-206 | eviction, then `_trySync` exactly when eviction removed something |
| `ImuSync.ImuSynchronizer.PushSensor` | sync.py:181-211 | `t0` is set by the first reading; the drained batch, the windows after ingestion and eviction, the returned corrected samples and the `_trySync` state, as functions of the old state |
| `ImuSync.ImuSynchronizer.Close` | sync.py:252-256 | the external file ends closed, and is closed at most once over the object's life |
| `Recording.AllNonEmpty` | record.py:154 | `all([len(q) > 0 ...])` holds exactly when every queue is non-empty |
| `Recording.HeadSeqNosSingleton` | record.py:157 | with all queues non-empty, the head sequence numbers form a singleton exactly when all heads agree |
| `Recording.StereoSynchronizer.constructor` | record.py:142-144 | `n` empty queues |
| `Recording.StereoSynchronizer.Push` | record.py:146-147 | queue `index` gains `[seqNo, obj]` at its back; the other queues are unchanged |
| `Recording.StereoSynchronizer.Has` | record.py:153-154 | true exactly when every queue is non-empty |
| `Recording.StereoSynchronizer.Get` | record.py:156-161 | returns the old head object of each queue in order, each queue loses exactly its head, and the warning is raised exactly when the heads' sequence numbers differ and warnings are not ignored |
| `Recording.ParseWhichCam` | record.py:32-50 | `color` selects the colour camera, `left` / `right` a mono one, and anything else fails |
| `Recording.StreamName` | record.py:53 | `'ve%dOut' % index`; see `StreamNameInjective` |
| `Recording.StreamSuffix` | record.py:36-43 | `h265` for the colour camera, `h264` otherwise; see `StreamSuffixIsH265` |
| `Recording.StreamFileName` | record.py:58 | `'video%d.%s' % (index, streamSuffix)`; see `StreamFileNameInjective` |
| `Recording.OutFileName` | record.py:59-61 | `data`, the index unless it is 1, then `.mp4`; see `OutFileNameShape` and `OutFileNameInjective` |
| `Recording.StreamNameInjective` | record.py:53 | different indices give different stream names `ve<i>Out` |
| `Recording.StreamFileNameInjective` | record.py:58 | the raw file name `video<i>.<suffix>` determines the index and the encoding |
| `Recording.StreamSuffixIsH265` | record.py:36-43 | the suffix is `h265` exactly for the colour camera, `h264` otherwise |
| `Recording.OutFileNameShape` | record.py:59-61 | index 1 muxes to `data.mp4` and only index 1 does; any other index to `data<i>.mp4` |
| `Recording.OutFileNameInjective` | record.py:59-61 | different indices never mux into the same file |
| `Recording.RoundHalfEven` | record.py:169 | Python's `round`: within one half of the argument, ties to the even integer |
| `Recording.ManualExposureCommand` | record.py:167-181 | the command `manualExposure` sends, none, or an assertion failure; see `ManualExposureSpec` and `ManualExposureAcceptsRange` |
| `Recording.ManualFocusCommand` | record.py:183-189 | the command `manualFocus` sends, none, or an assertion failure; see `ManualFocusSpec` |
| `Recording.ManualExposureSpec` | record.py:167-181 | no command exactly for a non-positive time; a command exactly when the ISO is in [100, 1600] and the rounded time in [1, 33000] us; it carries the ISO and a time within half a microsecond of the request |
| `Recording.ManualExposureAcceptsRange` | record.py:167-177 | every request from 0.001 ms to 33 ms at a valid ISO is sent |
| `Recording.ManualFocusSpec` | record.py:183-189 | no command for a negative position, an assertion failure above 255, and the position itself sent for 0 to 255 |
| `PickSensor.ChangeTypeDefault` | pick_sensor.py:7-9 | with `default`, a label is dropped exactly when `Internal` or `External` occurs in it, and is otherwise kept unchanged |
| `PickSensor.ChangeType` | pick_sensor.py:6-15 | `change_type`; see `ChangeTypeDefault`, `ChangeTypeTarget` and `ChangeTypeChoices` |
| `PickSensor.ChangeTypeTarget` | pick_sensor.py:10-15 | with another target, a label survives exactly when the capitalised target occurs in it, and then has every copy removed, becoming shorter by at least the target's length |
| `PickSensor.ChangeTypeChoices` | pick_sensor.py:11-13 | the choices `internal` / `external` select and strip `Internal` / `External` |
| `PickSensor.RoundTimeSpec` | pick_sensor.py:20-21 | rounding changes only the time: a present time becomes 0 exactly when within 0.01 of zero, and a missing time stays missing |
| `PickSensor.RoundTime` | pick_sensor.py:20-21 | the `round_ts` snapping of one record; see `RoundTimeSpec` |
| `PickSensor.ProcessSpec` | pick_sensor.py:19-26 | a record without a sensor is always written, sensor untouched; a sensor record is dropped exactly when its type rewrites to `None`, and otherwise carries the rewritten type; other members never change |
| `PickSensor.Process` | pick_sensor.py:19-26 | one loop iteration: the record written, or none when it is skipped; see `ProcessSpec` |
| `PickSensor.Filtered` | pick_sensor.py:17-26 | the records `filter_jsonl_stream` writes; see `FilteredIsSubsequence` |
| `PickSensor.FilteredIsSubsequence` | pick_sensor.py:18-26 | the output is the processed input at increasing kept positions; every record not dropped is kept |
| `PickSensor.FilterJsonlStream` | pick_sensor.py:17-26 | the loop writes exactly the records of the specification, in order |
| `SortJsonl.InsertSorted` | sort_jsonl.py:12 | inserting into a sorted sequence keeps it sorted |
| `SortJsonl.Insert` | sort_jsonl.py:12 | places one record after every record whose key is not larger; see `InsertSorted` |
| `SortJsonl.SortBy` | sort_jsonl.py:12 | `sorted(..., key=key)` as an insertion sort; see `SortBySorted`, `SortByPermutation`, `SortByStable` |
| `SortJsonl.SortBySorted` | sort_jsonl.py:12 | the result of the sort is in key order |
| `SortJsonl.SortByPermutation` | sort_jsonl.py:12 | the result has the same records, each as often as in the input |
| `SortJsonl.SortByStable` | sort_jsonl.py:12 | records with equal keys keep their input order |
| `SortJsonl.SortJsonlByTimeSpec` | sort_jsonl.py:6-20 | with the default key `time`, the sort fails exactly when some record has no time; otherwise the result is time-ordered, a permutation of the input, and stable |
| `SortJsonl.SortJsonlByTime` | sort_jsonl.py:6-20 | sorting by the default key `time`, failing on a record without one; see `SortJsonlByTimeSpec` |
| `Strings.ContainsIff` | pick_sensor.py:8 | Python's `sub in s` holds exactly when `sub` occurs at some position |
| `Strings.Contains` | pick_sensor.py:8 | `sub in s` as a scan of start positions; see `ContainsIff` |
| `Strings.RemoveAllShortens` | pick_sensor.py:13 | removing a non-empty pattern that occurs deletes at least one copy |
| `Strings.RemoveAllAbsent` | pick_sensor.py:13 | removing a pattern that does not occur changes nothing |
| `Strings.RemoveAll` | pick_sensor.py:13 | `s.replace(p, '')`, never longer than `s`; see `RemoveAllShortens` and `RemoveAllAbsent` |
| `Strings.Capitalize` | pick_sensor.py:11 | first letter upper case, all the others lower case, same length |
| `Strings.IntToStringRoundTrip` | record.py:53 | `'%d' % i` reads back as `i` |
| `Strings.IntToStringInjective` | record.py:58 | different integers print differently |
| `Strings.IntToString` | record.py:53 | `'%d' % i`, never empty; see `IntToStringRoundTrip` |

## Left out

- The reader thread `external_imu_reader` and `threading.Lock` are not modelled. The model is sequential: each append and each drain is one step, and the ghost histories `appended` / `drained` state that nothing is lost or duplicated. That holds only in the sequential model. In the source, each call takes a fresh `threading.Lock()`, which excludes nothing, and the drain copies the buffer and clears it in two separate steps. A sample the reader thread appends between the copy and the clear is lost.
- JSON parsing of the external feed is not modelled. The same holds for its `KeyError` on a record without `time` or `type`, and for `KeyboardInterrupt`.
- `plotter` and every call to it are not modelled: they are matplotlib UI with wall-clock throttling.
- The `print` calls are not modelled (`READY, waiting for sync cue`, `sync results`, `closing external IMU file`). In `get`, the warning is returned as the flag `warned` instead of being printed.
- `cv2` resizing and Farneback optical flow in `pushFrame` are foreign numerics. `meanFlow` is a parameter, and `prevMat` is the flag `hasPrevFrame`. The `flow` buffer is not modelled.
- `np.linalg.norm` is an arbitrary function parameter; no property relies on it being non-negative.
- All floating-point arithmetic is over `real`, with no rounding.
- ImuSync.ImuSynchronizer.Close: closing the file is the flag `externalFileOpen` and a ghost close counter. The file handle itself is not modelled.
- `getCloseables` is not modelled: it returns the object itself.
- File and console I/O is not modelled: opening, reading and writing lines, `os.system` calls to ffmpeg, and `os.remove`. The tools take and return record sequences.
- JSON serialisation is not modelled.
- In `filter_jsonl_stream`, `d['time'] = 0` writes the integer `0`. The model stores the real `0.0`.
- PickSensor.FilterJsonlStream: a `sensor` object without `type` (a `KeyError` in the source) is not representable. The record datatype always carries a type label.
- Strings.Capitalize: models `str.capitalize` on ASCII letters only; Unicode case mapping is not modelled.
- SortJsonl.SortJsonlByTimeSpec: covers only the default key `time` with numeric values. Other `--field` keys, and Python's ordering of strings or of mixed types, are not modelled. The generic `SortBy` takes any real-valued key function.
- Writing the sorted result over its own input file is not modelled as I/O: the model takes the whole input as one value, which is what reading every record before writing gives.
- Recording.StereoSynchronizer.Push: requires `0 <= index < n`. The source would accept Python's negative indices and raise `IndexError` beyond the list; neither is modelled.
- Recording.StereoSynchronizer.Get: requires `has()`. The source raises `IndexError` on an empty queue, and its only caller checks `has()` first.
- Recording.StereoSynchronizer.constructor: takes a natural `n`. A negative `n` in Python gives no queues but keeps the negative `self.n`.
- Everything of `record.py` outside the synchroniser, the naming rules and the two guards is not modelled: the `Camera` and `Imu` pipeline construction through depthai, the resolution tables, `link`, `setupOutputQueue`, `poll`, `record()`, `curTimeIso8601Dash` (a clock) and `controlQueue.send`. The guards return the command value that would be sent.
- argparse and the `__main__` blocks are CLI plumbing and are not modelled.
