/** `Vec<u8>`, as far as the program uses it. */
module ByteVecs {
  import opened Bytes

  class ByteVec {
    var contents: bytes

    constructor ()
      ensures contents == []
    {
      contents := [];
    }

    method Extend(s: bytes)
      modifies this
      ensures contents == old(contents) + s
    {
      contents := contents + s;
    }

    /** `drain(..n)`. */
    method DrainFront(n: nat)
      requires n <= |contents|
      modifies this
      ensures contents == old(contents)[n..]
    {
      contents := contents[n..];
    }
  }
}
