/**
  Well-formed UTF-8 as section 4 of RFC 3629 gives it. A Rust `String` is
  always well-formed, so text is modelled as its bytes.
  */
module Utf8 {
  import opened Bytes

  predicate Tail(b: byte) {
    0x80 <= b <= 0xBF
  }

  /** The length of the first encoded scalar of `s`, or 0 if there is none. */
  function FirstLength(s: bytes): (n: nat)
    ensures n <= |s|
  {
    if |s| >= 1 && s[0] <= 0x7F then 1
    else if |s| >= 2 && 0xC2 <= s[0] <= 0xDF && Tail(s[1]) then 2
    else if |s| >= 3 && SecondOfThree(s[0], s[1]) && Tail(s[2]) then 3
    else if |s| >= 4 && SecondOfFour(s[0], s[1]) && Tail(s[2]) && Tail(s[3]) then 4
    else 0
  }

  predicate SecondOfThree(b: byte, c: byte) {
    || (b == 0xE0 && 0xA0 <= c <= 0xBF)
    || (0xE1 <= b <= 0xEC && Tail(c))
    || (b == 0xED && 0x80 <= c <= 0x9F)
    || (0xEE <= b <= 0xEF && Tail(c))
  }

  predicate SecondOfFour(b: byte, c: byte) {
    || (b == 0xF0 && 0x90 <= c <= 0xBF)
    || (0xF1 <= b <= 0xF3 && Tail(c))
    || (b == 0xF4 && 0x80 <= c <= 0x8F)
  }

  predicate Valid(s: bytes)
    decreases |s|
  {
    s == [] || (FirstLength(s) > 0 && Valid(s[FirstLength(s)..]))
  }

  type Text = s: bytes | Valid(s)

  /** ASCII bytes are always well-formed. */
  lemma {:induction false} AsciiValid(s: bytes)
    requires forall i :: 0 <= i < |s| ==> s[i] < 0x80
    ensures Valid(s)
    decreases |s|
  {
    if s != [] {
      assert FirstLength(s) == 1;
      AsciiValid(s[1..]);
    }
  }

  function AsciiByte(c: char): (b: byte)
    ensures b < 0x80
  {
    if c < 128 as char then c as int else 0x3F
  }

  /** The bytes of ASCII text. */
  function Ascii(s: string): (t: Text)
    ensures |t| == |s|
    ensures forall i :: 0 <= i < |s| && s[i] < 128 as char ==> t[i] == s[i] as int
  {
    var t := seq(|s|, i requires 0 <= i < |s| => AsciiByte(s[i]));
    AsciiValid(t);
    t
  }
}
