/**
  Picking one IMU out of a recording: sensor type labels are rewritten
  for the chosen IMU (or the on-device one) and records of the other IMUs
  are dropped; near-zero timestamps can be snapped to zero.
 */
module PickSensor {
  import opened Wrappers
  import opened Strings
  import opened Jsonl
  import opened Numeric

  /**
    `change_type(orig_type, target_type)`: for `'default'`, labels of the
    internal or external IMU are dropped and the others kept; for any other
    target, the capitalised target must occur in the label and is removed
    from it.
   */
  function ChangeType(origType: string, targetType: string): Option<string> {
    if targetType == "default" then
      if Contains(origType, "Internal") || Contains(origType, "External") then None
      else Some(origType)
    else
      var t := Capitalize(targetType);
      if Contains(origType, t) then Some(RemoveAll(origType, t)) else None
  }

  /** With the default target a label survives, unchanged, exactly when it names neither IMU. */
  lemma ChangeTypeDefault(origType: string)
    ensures var r := ChangeType(origType, "default");
      && (r.None? <==> (exists i :: OccursAt(origType, "Internal", i)) || (exists i :: OccursAt(origType, "External", i)))
      && (r.Some? ==> r.value == origType)
  {
    ContainsIff(origType, "Internal");
    ContainsIff(origType, "External");
  }

  /**
    With any other target a label survives exactly when the capitalised
    target occurs in it, and then loses every copy of it, so the result is
    shorter by at least the target's length.
   */
  lemma ChangeTypeTarget(origType: string, targetType: string)
    requires targetType != "default"
    ensures var t := Capitalize(targetType);
      var r := ChangeType(origType, targetType);
      && (r.Some? <==> exists i :: OccursAt(origType, t, i))
      && (r.Some? ==> r.value == RemoveAll(origType, t) && |r.value| <= |origType| - |t|)
  {
    var t := Capitalize(targetType);
    ContainsIff(origType, t);
    if Contains(origType, t) && |t| > 0 {
      var i :| OccursAt(origType, t, i);
      RemoveAllShortens(origType, t, i);
    }
  }

  /** The command line's choices `internal` and `external` select the labels containing `Internal` / `External`. */
  lemma ChangeTypeChoices(origType: string)
    ensures ChangeType(origType, "internal") == if Contains(origType, "Internal") then Some(RemoveAll(origType, "Internal")) else None
    ensures ChangeType(origType, "external") == if Contains(origType, "External") then Some(RemoveAll(origType, "External")) else None
  {
    assert Capitalize("internal") == "Internal";
    assert Capitalize("external") == "External";
  }

  /** Timestamps closer to zero than this are snapped to zero. */
  const ROUND_TS_EPS: real := 0.01

  /** The `time` stand-in of `d.get('time', 100)` for a record without one. */
  const MISSING_TIME: real := 100.0

  /** `if abs(d.get('time', 100)) < 0.01: d['time'] = 0`. */
  function RoundTime(d: Record): Record {
    if Abs(if d.time.Some? then d.time.value else MISSING_TIME) < ROUND_TS_EPS then d.(time := Some(0.0)) else d
  }

  /**
    Rounding touches only the time: a record with a time keeps one, which
    becomes zero exactly when it was within the tolerance of zero; a record
    without a time is left without one.
   */
  lemma RoundTimeSpec(d: Record)
    ensures var r := RoundTime(d);
      && r.sensor == d.sensor && r.rest == d.rest
      && (d.time.None? ==> r.time.None?)
      && (d.time.Some? ==> r.time.Some? && (r.time.value == 0.0 <==> -ROUND_TS_EPS < d.time.value < ROUND_TS_EPS))
      && (d.time.Some? && r.time.value != 0.0 ==> r.time == d.time)
  {
  }

  /** The body of the loop of `filter_jsonl_stream` for one record: `None` is the `continue`. */
  function Process(d: Record, targetType: string, roundTs: bool): Option<Record> {
    var d1 := if roundTs then RoundTime(d) else d;
    match d1.sensor
    case None => Some(d1)
    case Some(s) =>
      var t := ChangeType(s.kind, targetType);
      if t.None? then None else Some(d1.(sensor := Some(s.(kind := t.value))))
  }

  /**
    Records without a sensor are always written with their sensor part
    untouched; a sensor record is dropped exactly when its type rewrites to
    nothing and otherwise carries the rewritten type; times change only by
    rounding, and the other members never change.
   */
  lemma ProcessSpec(d: Record, targetType: string, roundTs: bool)
    ensures var r := Process(d, targetType, roundTs);
      && (d.sensor.None? ==> r.Some? && r.value.sensor.None?)
      && (d.sensor.Some? ==> (r.None? <==> ChangeType(d.sensor.value.kind, targetType).None?))
      && (r.Some? && d.sensor.Some? ==>
            r.value.sensor == Some(Sensor(ChangeType(d.sensor.value.kind, targetType).value, d.sensor.value.values)))
      && (r.Some? ==> r.value.rest == d.rest
                      && r.value.time == (if roundTs then RoundTime(d).time else d.time))
  {
  }

  /** What `filter_jsonl_stream` writes for the records `input`, one line per kept record. */
  function Filtered(input: seq<Record>, targetType: string, roundTs: bool): seq<Record>
    decreases |input|
  {
    if |input| == 0 then []
    else
      var d := Process(input[|input| - 1], targetType, roundTs);
      Filtered(input[..|input| - 1], targetType, roundTs) + (if d.Some? then [d.value] else [])
  }

  /** The input positions of the records that are kept. */
  function KeptIndices(input: seq<Record>, targetType: string, roundTs: bool): seq<nat>
    decreases |input|
  {
    if |input| == 0 then []
    else
      KeptIndices(input[..|input| - 1], targetType, roundTs)
      + (if Process(input[|input| - 1], targetType, roundTs).Some? then [|input| - 1] else [])
  }

  /**
    The output is a subsequence of the processed input in the original
    order: its k-th record is the processed record at the k-th kept
    position, the kept positions increase, and every record not dropped by
    `Process` has its position among them.
   */
  lemma {:induction false} FilteredIsSubsequence(input: seq<Record>, targetType: string, roundTs: bool)
    ensures var out := Filtered(input, targetType, roundTs);
      var idx := KeptIndices(input, targetType, roundTs);
      && |idx| == |out| <= |input|
      && (forall k :: 0 <= k < |idx| ==> idx[k] < |input| && Process(input[idx[k]], targetType, roundTs) == Some(out[k]))
      && (forall k, l :: 0 <= k < l < |idx| ==> idx[k] < idx[l])
      && (forall i :: 0 <= i < |input| && Process(input[i], targetType, roundTs).Some? ==> i in idx)
    decreases |input|
  {
    if |input| > 0 {
      var init := input[..|input| - 1];
      FilteredIsSubsequence(init, targetType, roundTs);
      assert forall i :: 0 <= i < |init| ==> init[i] == input[i];
    }
  }

  /** `filter_jsonl_stream(input_stream, output_stream, type, round_ts)`: the records written, in order. */
  method FilterJsonlStream(input: seq<Record>, targetType: string, roundTs: bool) returns (output: seq<Record>)
    ensures output == Filtered(input, targetType, roundTs)
  {
    output := [];
    for i := 0 to |input|
      invariant output == Filtered(input[..i], targetType, roundTs)
    {
      assert input[..i + 1][..i] == input[..i];
      var d := input[i];
      if roundTs {
        if Abs(if d.time.Some? then d.time.value else MISSING_TIME) < ROUND_TS_EPS {
          d := d.(time := Some(0.0));
        }
      }
      if d.sensor.Some? {
        var s := d.sensor.value;
        var t := ChangeType(s.kind, targetType);
        if t.None? {
          continue;
        }
        d := d.(sensor := Some(s.(kind := t.value)));
      }
      output := output + [d];
    }
    assert input[..|input|] == input;
  }
}
