/** Results shared by the readers and parsers of the model. */
module Outcomes {

  datatype Option<+T> = None | Some(value: T)

  /** One run of a character reader. `used` is the number of units read so far. Running out of units is
      whatever the caller's read expression does; here it is an outcome of its own. */
  datatype Decoded =
    | Value(value: nat, used: nat)
    | Invalid(used: nat)
    | EndOfInput

  /** A reader run until its input is used up. */
  datatype Text = Text(values: seq<nat>) | Malformed
}
