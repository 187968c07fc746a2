/** The append-only text buffer (bytes.Buffer, strings.Builder) the printers share. */
module Buffers {
  class Buffer {
    var text: string

    constructor ()
      ensures text == ""
    {
      text := "";
    }

    method Append(s: string)
      modifies this
      ensures text == old(text) + s
    {
      text := text + s;
    }
  }
}
