/** An output text stream (the `f_c` handle), seen as the sequence of strings written to it. */
module OutputStream {

  class Writer {
    var written: seq<string>

    constructor ()
      ensures written == []
    {
      written := [];
    }

    /** `write(s)`: appends one chunk and changes nothing else. */
    method Write(s: string)
      modifies this
      ensures written == old(written) + [s]
    {
      written := written + [s];
    }
  }
}
