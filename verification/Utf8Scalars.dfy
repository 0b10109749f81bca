/**
  Text by what it means: a string is well-formed UTF-8 if and only if it is
  the encodings of Unicode scalar values one after the other (section 3 of
  RFC 3629).
  */
module Utf8Scalars {
  import opened Bytes
  import opened Utf8
  import opened Wire

  predicate IsScalar(c: nat) {
    c <= 0xD7FF || 0xE000 <= c <= 0x10FFFF
  }

  type Scalar = c: nat | IsScalar(c)

  /** The lowest six bits of each byte, and of the first what is left, make up the scalar. */
  function EncodeScalar(c: Scalar): bytes {
    assert IsScalar(c);
    var low, c1 := c % 0x40, c / 0x40;
    var mid, c2 := c1 % 0x40, c1 / 0x40;
    if c < 0x80 then [c]
    else if c < 0x800 then [0xC0 + c1, 0x80 + low]
    else if c < 0x1_0000 then [0xE0 + c2, 0x80 + mid, 0x80 + low]
    else [0xF0 + c2 / 0x40, 0x80 + c2 % 0x40, 0x80 + mid, 0x80 + low]
  }

  function EncodeAll(cs: seq<Scalar>): bytes {
    if cs == [] then [] else EncodeScalar(cs[0]) + EncodeAll(cs[1..])
  }

  /** The parser finds the end of an encoded scalar, whatever follows. */
  lemma FirstIsScalar(c: Scalar, tail: bytes)
    ensures FirstLength(EncodeScalar(c) + tail) == |EncodeScalar(c)| > 0
    ensures (EncodeScalar(c) + tail)[|EncodeScalar(c)|..] == tail
  {
    var e := EncodeScalar(c);
    var s := e + tail;
    assert IsScalar(c);
    assert forall i :: 0 <= i < |e| ==> s[i] == e[i];
  }

  /** The scalar behind the bytes the parser takes. */
  lemma ScalarOfFirst(s: bytes) returns (c: Scalar)
    requires FirstLength(s) > 0
    ensures s[..FirstLength(s)] == EncodeScalar(c)
  {
    var n := FirstLength(s);
    if n == 1 {
      c := s[0];
      assert s[..1] == [s[0]];
    } else if n == 2 {
      c := TwoBytes(s[0], s[1]);
      assert s[..2] == [s[0], s[1]];
    } else if n == 3 {
      c := ThreeBytes(s[0], s[1], s[2]);
      assert s[..3] == [s[0], s[1], s[2]];
    } else {
      c := FourBytes(s[0], s[1], s[2], s[3]);
      assert s[..4] == [s[0], s[1], s[2], s[3]];
    }
  }

  lemma SixBits(high: nat, low: nat)
    requires low < 0x40
    ensures (high * 0x40 + low) / 0x40 == high && (high * 0x40 + low) % 0x40 == low
  {
  }

  lemma TwoBytes(a: byte, b: byte) returns (c: Scalar)
    requires 0xC2 <= a <= 0xDF && Tail(b)
    ensures EncodeScalar(c) == [a, b]
  {
    c := (a - 0xC0) * 0x40 + (b - 0x80);
    SixBits(a - 0xC0, b - 0x80);
  }

  lemma ThreeBytes(a: byte, b: byte, d: byte) returns (c: Scalar)
    requires SecondOfThree(a, b) && Tail(d)
    ensures EncodeScalar(c) == [a, b, d]
  {
    var c1 := (a - 0xE0) * 0x40 + (b - 0x80);
    SixBits(a - 0xE0, b - 0x80);
    SixBits(c1, d - 0x80);
    c := c1 * 0x40 + (d - 0x80);
  }

  lemma FourBytes(a: byte, b: byte, d: byte, e: byte) returns (c: Scalar)
    requires SecondOfFour(a, b) && Tail(d) && Tail(e)
    ensures EncodeScalar(c) == [a, b, d, e]
  {
    var c2 := (a - 0xF0) * 0x40 + (b - 0x80);
    var c1 := c2 * 0x40 + (d - 0x80);
    SixBits(a - 0xF0, b - 0x80);
    SixBits(c2, d - 0x80);
    SixBits(c1, e - 0x80);
    c := c1 * 0x40 + (e - 0x80);
  }

  lemma {:induction false} EncodedValid(cs: seq<Scalar>)
    ensures Valid(EncodeAll(cs))
  {
    hide EncodeScalar, FirstLength;
    if cs != [] {
      FirstIsScalar(cs[0], EncodeAll(cs[1..]));
      EncodedValid(cs[1..]);
    }
  }

  lemma {:induction false} ValidEncoded(s: bytes) returns (cs: seq<Scalar>)
    requires Valid(s)
    ensures EncodeAll(cs) == s
    decreases |s|
  {
    hide EncodeScalar, FirstLength;
    if s == [] {
      cs := [];
    } else {
      var c := ScalarOfFirst(s);
      var rest := ValidEncoded(s[FirstLength(s)..]);
      cs := [c] + rest;
      assert s == s[..FirstLength(s)] + s[FirstLength(s)..];
    }
  }

  /** Text is what scalar values encode to, and nothing else is. */
  lemma ValidExactly(s: bytes)
    ensures Valid(s) <==> exists cs :: EncodeAll(cs) == s
  {
    hide Valid, EncodeAll;
    if Valid(s) {
      var cs := ValidEncoded(s);
    }
    if cs :| EncodeAll(cs) == s {
      EncodedValid(cs);
    }
  }

  lemma {:induction false} EncodeScalarInjective(c: Scalar, d: Scalar, s: bytes, t: bytes)
    requires EncodeScalar(c) + s == EncodeScalar(d) + t
    ensures c == d && s == t
  {
    FirstIsScalar(c, s);
    FirstIsScalar(d, t);
    var e, f := EncodeScalar(c), EncodeScalar(d);
    assert (e + s)[..|e|] == e && (f + t)[..|f|] == f;
    assert e == f;
    hide FirstLength;
    SameScalar(c, d);
  }

  lemma SameScalar(c: Scalar, d: Scalar)
    requires EncodeScalar(c) == EncodeScalar(d)
    ensures c == d
  {
    var e, f := EncodeScalar(c), EncodeScalar(d);
    var n := |e|;
    assert e[n - 1] == f[n - 1];
    if n >= 2 {
      assert e[n - 2] == f[n - 2];
      assert c % 0x40 == d % 0x40;
    }
    if n >= 3 {
      assert e[n - 3] == f[n - 3];
      assert c / 0x40 % 0x40 == d / 0x40 % 0x40;
    }
    if n == 4 {
      assert e[0] == f[0];
      assert c / 0x40 / 0x40 % 0x40 == d / 0x40 / 0x40 % 0x40;
      assert c / 0x40 / 0x40 / 0x40 == d / 0x40 / 0x40 / 0x40;
    }
  }

  /** And only one list of scalar values encodes to it. */
  lemma {:induction false} OneReading(cs: seq<Scalar>, ds: seq<Scalar>)
    requires EncodeAll(cs) == EncodeAll(ds)
    ensures cs == ds
    decreases |cs|
  {
    hide EncodeScalar;
    if cs == [] || ds == [] {
      NothingEncoded(cs);
      NothingEncoded(ds);
    } else {
      EncodeScalarInjective(cs[0], ds[0], EncodeAll(cs[1..]), EncodeAll(ds[1..]));
      OneReading(cs[1..], ds[1..]);
      assert cs == [cs[0]] + cs[1..] && ds == [ds[0]] + ds[1..];
    }
  }

  lemma NothingEncoded(cs: seq<Scalar>)
    ensures EncodeAll(cs) == [] <==> cs == []
  {
  }

  /**
    A string field is read if and only if its bytes, at most 4096, encode
    scalar values; any other bytes of that length are refused as not UTF-8.
    */
  lemma StrExactly(s: bytes, tail: bytes)
    requires |s| <= 4096
    ensures Str([|s| % 0x100, |s| / 0x100] + s + tail) ==
            if exists cs :: EncodeAll(cs) == s then Done(s, tail) else Fail(Utf8Error)
  {
    ValidExactly(s);
    LengthBytes(|s|);
    hide Valid, EncodeAll;
    assert [|s| % 0x100, |s| / 0x100] + s + tail == Put16(|s|, s + tail);
    TakeAppended(s, tail);
  }

  lemma LengthBytes(n: nat)
    requires n < 0x1_0000
    ensures ToLE(n, 2) == [n % 0x100, n / 0x100]
  {
    assert ToLE(n, 2) == [n % 0x100] + ToLE(n / 0x100, 1);
    assert ToLE(n / 0x100, 1) == [n / 0x100 % 0x100] + ToLE(n / 0x100 / 0x100, 0);
  }

  /** A longer length is refused, whatever follows. */
  lemma StrTooLong(n: nat, tail: bytes)
    requires 4096 < n < 0x1_0000
    ensures Str([n % 0x100, n / 0x100] + tail) == Fail(Invalid)
  {
    LengthBytes(n);
    assert [n % 0x100, n / 0x100] + tail == Put16(n, tail);
  }
}
