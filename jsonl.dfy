/**
  One line of a JSONL recording, as the filtering and sorting tools see it:
  the optional `time` and `sensor` members, and every other member kept
  exactly as it was read.
 */
module Jsonl {
  import opened Wrappers

  /** The `sensor` object of a record: its `type` label and its `values`. */
  datatype Sensor = Sensor(kind: string, values: seq<real>)

  /** A decoded record; `rest` holds the other members, name and encoded value, in order. */
  datatype Record = Record(time: Option<real>, sensor: Option<Sensor>, rest: seq<(string, string)>)
}
