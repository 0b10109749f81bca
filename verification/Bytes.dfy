/**
  Machine integers as bounded mathematical ones, and their little-endian bytes.
  */
module Bytes {
  type byte = b: int | 0 <= b < 0x100
  type bytes = seq<byte>

  type u16 = x: int | 0 <= x < 0x1_0000
  type u32 = x: int | 0 <= x < 0x1_0000_0000
  type u64 = x: int | 0 <= x < 0x1_0000_0000_0000_0000
  type i32 = x: int | -0x8000_0000 <= x < 0x8000_0000

  /** The contents of a file: its length is a `u64`. */
  type file = s: bytes | |s| < 0x1_0000_0000_0000_0000

  datatype Option<+T> = None | Some(value: T)

  /** The number of values `n` bytes can hold. */
  ghost function Range(n: nat): nat {
    if n == 0 then 1 else 0x100 * Range(n - 1)
  }

  lemma Ranges()
    ensures Range(2) == 0x1_0000
    ensures Range(4) == 0x1_0000_0000
    ensures Range(8) == 0x1_0000_0000_0000_0000
  {
    assert Range(1) == 0x100;
    assert Range(2) == 0x1_0000;
    assert Range(3) == 0x100_0000;
    assert Range(4) == 0x1_0000_0000;
    assert Range(5) == 0x100_0000_0000;
    assert Range(6) == 0x1_0000_0000_0000;
    assert Range(7) == 0x100_0000_0000_0000;
  }

  /** The low `n` bytes of `v`, least significant first. */
  function ToLE(v: nat, n: nat): (s: bytes)
    ensures |s| == n
  {
    if n == 0 then [] else [v % 0x100] + ToLE(v / 0x100, n - 1)
  }

  function FromLE(s: bytes): nat {
    if s == [] then 0 else s[0] + 0x100 * FromLE(s[1..])
  }

  lemma {:induction false} FromLEBound(s: bytes)
    ensures FromLE(s) < Range(|s|)
  {
    if s != [] {
      FromLEBound(s[1..]);
    }
  }

  lemma {:induction false} FromToLE(v: nat, n: nat)
    requires v < Range(n)
    ensures FromLE(ToLE(v, n)) == v
  {
    if n > 0 {
      FromToLE(v / 0x100, n - 1);
      assert ToLE(v, n)[1..] == ToLE(v / 0x100, n - 1);
    }
  }

  lemma LowByte(low: byte, high: nat)
    ensures (low + 0x100 * high) % 0x100 == low && (low + 0x100 * high) / 0x100 == high
  {
  }

  lemma {:induction false} ToFromLE(s: bytes)
    ensures ToLE(FromLE(s), |s|) == s
  {
    if s != [] {
      ToFromLE(s[1..]);
      LowByte(s[0], FromLE(s[1..]));
      assert ToLE(FromLE(s), |s|) == [s[0]] + ToLE(FromLE(s[1..]), |s| - 1);
      hide ToLE, FromLE;
      assert s == [s[0]] + s[1..];
    }
  }

  /** The lowest byte comes first. */
  lemma LittleEndian2(v: nat)
    requires v < 0x1_0000
    ensures ToLE(v, 2) == [v % 256, v / 256]
  {
    assert ToLE(v, 2) == [v % 0x100] + ToLE(v / 0x100, 1);
    assert ToLE(v / 0x100, 1) == [v / 0x100 % 0x100] + ToLE(v / 0x100 / 0x100, 0);
  }

  lemma LittleEndian4(v: nat)
    requires v < 0x1_0000_0000
    ensures ToLE(v, 4) == [v % 256, v / 256 % 256, v / 65536 % 256, v / 16_777_216]
  {
    var a, b := v / 0x100, v / 0x1_0000;
    assert a / 0x100 == b && b / 0x100 == v / 0x100_0000;
    assert ToLE(v, 4) == [v % 0x100] + ToLE(a, 3);
    assert ToLE(a, 3) == [a % 0x100] + ToLE(b, 2);
    LittleEndian2(b);
    hide ToLE;
  }

  /** The value without its `i` lowest bytes. */
  function Shifted(v: nat, i: nat): nat {
    if i == 0 then v else Shifted(v / 256, i - 1)
  }

  lemma {:induction false} LittleEndian(v: nat, n: nat, i: nat)
    requires i < n
    ensures ToLE(v, n)[i] == Shifted(v, i) % 256
  {
    if i > 0 {
      LittleEndian(v / 256, n - 1, i - 1);
    }
  }

  /** A negative number is written as its two's complement. */
  lemma TwosComplement(x: i32)
    ensures CastU32(x) == (if x < 0 then 4_294_967_296 + x else x) && CastI32(CastU32(x)) == x
  {
  }

  /** The `as u32` cast of an `i32`, and back. */
  function CastU32(x: i32): u32 {
    if x < 0 then x + 0x1_0000_0000 else x
  }

  function CastI32(x: u32): i32 {
    if x < 0x8000_0000 then x else x - 0x1_0000_0000
  }

  function Min(a: int, b: int): int {
    if a <= b then a else b
  }

  function Max(a: int, b: int): int {
    if a <= b then b else a
  }

  function Concat(parts: seq<bytes>): bytes {
    if parts == [] then [] else parts[0] + Concat(parts[1..])
  }

  lemma AppendThree(a: bytes, b: bytes, c: bytes)
    ensures a + (b + c) == a + b + c
  {
  }

  lemma {:induction false} ConcatAppend(a: seq<bytes>, c: seq<bytes>)
    ensures Concat(a + c) == Concat(a) + Concat(c)
    decreases |a|
  {
    if a == [] {
      assert a + c == c;
    } else {
      ConcatAppend(a[1..], c);
      assert (a + c)[1..] == a[1..] + c;
    }
  }
}
