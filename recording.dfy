/**
  The host-side logic of the recorder: the frame synchroniser that pairs
  one frame from each camera of a set, the names of each camera's stream and
  files, and the bounds checks applied before a manual exposure or focus
  command is sent to the device.
 */
module Recording {
  import opened Wrappers
  import opened Strings

  /** A queued entry `[seqNo, obj]`. */
  datatype Entry<T> = Entry(seqNo: int, obj: T)

  /** Every queue holds at least one entry: the list comprehension of `has()`. */
  function AllNonEmpty<T>(qs: seq<seq<Entry<T>>>): (r: bool)
    ensures r <==> forall i :: 0 <= i < |qs| ==> |qs[i]| > 0
  {
    if |qs| == 0 then true
    else |qs[0]| > 0 && AllNonEmpty(qs[1..])
  }

  /** `{ q[0][0] for q in self.queues if len(q) > 0 }`: the sequence numbers at the heads. */
  function HeadSeqNos<T>(qs: seq<seq<Entry<T>>>): set<int> {
    set i | 0 <= i < |qs| && |qs[i]| > 0 :: qs[i][0].seqNo
  }

  /** The heads agree when all of them carry one and the same sequence number. */
  predicate HeadsAgree<T>(qs: seq<seq<Entry<T>>>)
    requires forall i :: 0 <= i < |qs| ==> |qs[i]| > 0
  {
    forall i :: 0 <= i < |qs| ==> qs[i][0].seqNo == qs[0][0].seqNo
  }

  /**
    With every queue non-empty and at least one queue, the set of head
    sequence numbers is a singleton exactly when all heads agree.
   */
  lemma HeadSeqNosSingleton<T>(qs: seq<seq<Entry<T>>>)
    requires |qs| > 0 && forall i :: 0 <= i < |qs| ==> |qs[i]| > 0
    ensures |HeadSeqNos(qs)| == 1 <==> HeadsAgree(qs)
  {
    var s := HeadSeqNos(qs);
    var h := qs[0][0].seqNo;
    assert h in s;
    if HeadsAgree(qs) {
      assert s == {h};
    } else {
      var i :| 0 <= i < |qs| && qs[i][0].seqNo != h;
      assert qs[i][0].seqNo in s;
      assert {h, qs[i][0].seqNo} <= s;
      assert |{h, qs[i][0].seqNo}| == 2;
      SubsetCard({h, qs[i][0].seqNo}, s);
    }
  }

  lemma SubsetCard(a: set<int>, b: set<int>)
    requires a <= b
    ensures |a| <= |b|
  {
    assert b == a + (b - a);
  }

  /** `StereoSynchronizer(n)`: one FIFO queue of `[seqNo, obj]` per camera of a set. */
  class StereoSynchronizer<T> {
    const n: nat
    var queues: seq<seq<Entry<T>>>

    ghost predicate Valid()
      reads this
    {
      |queues| == n
    }

    constructor (n: nat)
      ensures Valid() && this.n == n
      ensures forall i :: 0 <= i < n ==> queues[i] == []
    {
      this.n := n;
      queues := seq(n, _ => []);
    }

    /** `push(index, seqNo, obj)`: queue `index` gains the entry at its back, the others stay as they are. */
    method Push(index: nat, seqNo: int, obj: T)
      requires Valid() && index < n
      modifies this
      ensures Valid()
      ensures queues[index] == old(queues[index]) + [Entry(seqNo, obj)]
      ensures forall i :: 0 <= i < n && i != index ==> queues[i] == old(queues[i])
    {
      queues := queues[index := queues[index] + [Entry(seqNo, obj)]];
    }

    /** `has()`: a frame is waiting from every camera. */
    function Has(): (r: bool)
      requires Valid()
      reads this
      ensures r <==> forall i :: 0 <= i < n ==> |queues[i]| > 0
    {
      AllNonEmpty(queues)
    }

    /**
      `get(ignore_warnings)`: pops the head of every queue and returns
      their objects in camera order.  `warned` stands for the printed
      warning about unequal sequence numbers; it affects nothing else.
     */
    method Get(ignoreWarnings: bool) returns (frames: seq<T>, warned: bool)
      requires Valid() && Has()
      modifies this
      ensures Valid()
      ensures |frames| == n
      ensures forall i :: 0 <= i < n ==> frames[i] == old(queues[i][0].obj)
      ensures forall i :: 0 <= i < n ==> queues[i] == old(queues[i][1..])
      ensures warned <==> |HeadSeqNos(old(queues))| != 1 && !ignoreWarnings
    {
      warned := |HeadSeqNos(queues)| != 1 && !ignoreWarnings;
      frames := [];
      var i := 0;
      while i < n
        invariant 0 <= i <= n && |queues| == n
        invariant |frames| == i
        invariant forall j :: 0 <= j < i ==> frames[j] == old(queues[j][0].obj)
        invariant forall j :: 0 <= j < i ==> queues[j] == old(queues[j][1..])
        invariant forall j :: i <= j < n ==> queues[j] == old(queues[j])
      {
        frames := frames + [queues[i][0].obj];
        queues := queues[i := queues[i][1..]];
        i := i + 1;
      }
    }
  }

  /** The two kinds of camera of `Camera(..., whichCam, ...)`; any other name fails its assertion. */
  datatype CameraKind = Color | Left | Right

  function ParseWhichCam(whichCam: string): (r: Option<CameraKind>)
    ensures r == Some(Color) <==> whichCam == "color"
    ensures r.None? <==> whichCam != "color" && whichCam != "left" && whichCam != "right"
  {
    if whichCam == "color" then Some(Color)
    else if whichCam == "left" then Some(Left)
    else if whichCam == "right" then Some(Right)
    else None
  }

  /** `'ve%dOut' % index`: the device-side stream name. */
  function StreamName(index: int): string {
    "ve" + IntToString(index) + "Out"
  }

  /** `'h265'` for the colour camera, `'h264'` for a mono one. */
  function StreamSuffix(kind: CameraKind): string {
    if kind == Color then "h265" else "h264"
  }

  /** `'video%d.%s' % (index, streamSuffix)`: the raw bitstream file. */
  function StreamFileName(index: int, kind: CameraKind): string {
    "video" + IntToString(index) + "." + StreamSuffix(kind)
  }

  /** `'data' + (str(index) if index != 1) + '.mp4'`: the muxed video file. */
  function OutFileName(index: int): string {
    "data" + (if index != 1 then IntToString(index) else "") + ".mp4"
  }

  /** The middle of `pre + m + post` is recovered by slicing off the known ends. */
  lemma MiddleOf(pre: string, m1: string, m2: string, post1: string, post2: string)
    requires pre + m1 + post1 == pre + m2 + post2 && |post1| == |post2|
    ensures m1 == m2 && post1 == post2
  {
    var s := pre + m1 + post1;
    assert |m1| == |m2|;
    assert m1 == s[|pre|..|pre| + |m1|];
    assert m2 == (pre + m2 + post2)[|pre|..|pre| + |m2|];
    assert post1 == s[|pre| + |m1|..];
    assert post2 == (pre + m2 + post2)[|pre| + |m2|..];
  }

  /** Different cameras of a set get different stream names. */
  lemma StreamNameInjective(i: int, j: int)
    requires StreamName(i) == StreamName(j)
    ensures i == j
  {
    MiddleOf("ve", IntToString(i), IntToString(j), "Out", "Out");
    IntToStringInjective(i, j);
  }

  /**
    The bitstream file name determines the camera index and its encoding:
    no two cameras write the same raw file.
   */
  lemma StreamFileNameInjective(i: int, ki: CameraKind, j: int, kj: CameraKind)
    requires StreamFileName(i, ki) == StreamFileName(j, kj)
    ensures i == j && StreamSuffix(ki) == StreamSuffix(kj)
  {
    assert StreamFileName(i, ki) == "video" + IntToString(i) + ("." + StreamSuffix(ki));
    assert StreamFileName(j, kj) == "video" + IntToString(j) + ("." + StreamSuffix(kj));
    MiddleOf("video", IntToString(i), IntToString(j), "." + StreamSuffix(ki), "." + StreamSuffix(kj));
    IntToStringInjective(i, j);
    assert StreamSuffix(ki) == ("." + StreamSuffix(ki))[1..];
  }

  /** The colour camera, and only it, writes H.265. */
  lemma StreamSuffixIsH265(kind: CameraKind)
    ensures StreamSuffix(kind) == "h265" <==> kind == Color
  {
  }

  /** Index 1 muxes to `data.mp4`; every other index puts its number in the name. */
  lemma OutFileNameShape(index: int)
    ensures index == 1 ==> OutFileName(index) == "data.mp4"
    ensures index != 1 ==> OutFileName(index) == "data" + IntToString(index) + ".mp4"
    ensures OutFileName(index) == "data.mp4" <==> index == 1
  {
    if index != 1 {
      var d := IntToString(index);
      assert |OutFileName(index)| == 8 + |d|;
    }
  }

  /** Different camera indices never mux into the same file. */
  lemma OutFileNameInjective(i: int, j: int)
    requires OutFileName(i) == OutFileName(j)
    ensures i == j
  {
    OutFileNameShape(i);
    OutFileNameShape(j);
    if i != 1 && j != 1 {
      MiddleOf("data", IntToString(i), IntToString(j), ".mp4", ".mp4");
      IntToStringInjective(i, j);
    }
  }

  /** What a control helper does: send nothing, fail an assertion, or send a command. */
  datatype Control = NoCommand | AssertionFailed | ManualExposure(expTimeUs: int, sensIso: int) | ManualFocus(focus: int)

  const MIN_ISO: int := 100
  const MAX_ISO: int := 1600
  const MIN_EXP_TIME_US: int := 1
  const MAX_EXP_TIME_US: int := 33000

  /** Python's `round` on a number: to the nearest integer, ties to the even one. */
  function RoundHalfEven(x: real): (r: int)
    ensures x - 0.5 <= r as real <= x + 0.5
    ensures (r as real - x == 0.5 || x - r as real == 0.5) ==> r % 2 == 0
  {
    var f := x.Floor;
    var d := x - f as real;
    if d < 0.5 then f
    else if d > 0.5 then f + 1
    else if f % 2 == 0 then f else f + 1
  }

  /**
    `manualExposure(controlQueue, expTimeMs, sensIso)`: nothing for a
    non-positive time; otherwise the time is rounded to microseconds and
    both values must lie within the sensor's limits.
   */
  function ManualExposureCommand(expTimeMs: real, sensIso: int): Control {
    if expTimeMs <= 0.0 then NoCommand
    else
      var expTimeUs := RoundHalfEven(expTimeMs * 1000.0);
      if sensIso < MIN_ISO || sensIso > MAX_ISO || expTimeUs < MIN_EXP_TIME_US || expTimeUs > MAX_EXP_TIME_US
         || sensIso <= 0
      then AssertionFailed
      else ManualExposure(expTimeUs, sensIso)
  }

  /**
    A command is sent exactly when the time is positive, the ISO in
    [100, 1600] and the rounded time in [1, 33000] microseconds; the sent
    time is within half a microsecond of the request.
   */
  lemma ManualExposureSpec(expTimeMs: real, sensIso: int)
    ensures var c := ManualExposureCommand(expTimeMs, sensIso);
      && (c.NoCommand? <==> expTimeMs <= 0.0)
      && (c.ManualExposure? <==>
            expTimeMs > 0.0 && MIN_ISO <= sensIso <= MAX_ISO
            && MIN_EXP_TIME_US <= RoundHalfEven(expTimeMs * 1000.0) <= MAX_EXP_TIME_US)
      && (c.ManualExposure? ==>
            c.sensIso == sensIso && expTimeMs * 1000.0 - 0.5 <= c.expTimeUs as real <= expTimeMs * 1000.0 + 0.5)
      && !c.ManualFocus?
  {
  }

  /** Any positive request of at most 33 ms (and at least a microsecond) at a valid ISO is accepted. */
  lemma ManualExposureAcceptsRange(expTimeMs: real, sensIso: int)
    requires 0.001 <= expTimeMs <= 33.0 && MIN_ISO <= sensIso <= MAX_ISO
    ensures ManualExposureCommand(expTimeMs, sensIso) == ManualExposure(RoundHalfEven(expTimeMs * 1000.0), sensIso)
  {
    var us := RoundHalfEven(expTimeMs * 1000.0);
    assert 1.0 <= expTimeMs * 1000.0 <= 33000.0;
    assert 0.5 <= us as real <= 33000.5;
  }

  /** `manualFocus(controlQueue, focus)`: nothing for a negative lens position, otherwise at most 255. */
  function ManualFocusCommand(focus: int): Control {
    if focus < 0 then NoCommand
    else if !(focus >= 0 && focus <= 255) then AssertionFailed
    else ManualFocus(focus)
  }

  /** The three outcomes of `manualFocus`, by range of the lens position. */
  lemma ManualFocusSpec(focus: int)
    ensures var c := ManualFocusCommand(focus);
      && (c.NoCommand? <==> focus < 0)
      && (c.AssertionFailed? <==> focus > 255)
      && (c.ManualFocus? <==> 0 <= focus <= 255)
      && (c.ManualFocus? ==> c.focus == focus)
  {
  }
}
