/** Result shapes shared by the query model. */
module Outcomes {

  /** The conventional Some/None datatype, used for a value that may be absent
      (a null column, a prefix that does not parse). */
  datatype Option<+T> = None | Some(value: T)

  /** What an endpoint hands back: the "not found" message, a runtime fault
      the Python code would raise, or a structured answer. */
  datatype Answer<+T> = NotFound | Fault | Found(value: T)

  /** A recommendation percentage kept as the exact fraction hits/total;
      `total == 0` is the 0/0 case, which pandas turns into NaN. */
  datatype Ratio = Ratio(hits: nat, total: nat)
}
