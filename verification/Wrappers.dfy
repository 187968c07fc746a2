/** Option for Go's nil-able errors and (value, ok) pairs; Read for the decoders. */
module Wrappers {
  datatype Option<+T> = None | Some(value: T)

  // The outcome of a reader: what was read and the text behind it, or nothing readable.
  datatype Read<+T> = Bad | Got(value: T, rest: string)

  /** What a reader found, with c in front. */
  function Prepend(c: char, r: Read<string>): Read<string> {
    if r.Bad? then Bad else Got([c] + r.value, r.rest)
  }
}
