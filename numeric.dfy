/** Real-number helpers shared by the synchroniser and the JSONL tools. */
module Numeric {

  /** Python's `abs` on a float. */
  function Abs(x: real): real {
    if x < 0.0 then -x else x
  }
}
