/**
  The names a received file may take in the download directory, as bytes of a
  Unix path. A character outside ASCII is bytes of 0x80 and more only, so
  filtering characters and filtering bytes is the same.
  */
module FileNames {
  import opened Bytes
  import opened Utf8

  const DOT: byte := 0x2E
  const SLASH: byte := 0x2F
  const MAX_NAME: nat := 120

  /** "file.bin" */
  const FALLBACK: bytes := [0x66, 0x69, 0x6C, 0x65, DOT, 0x62, 0x69, 0x6E]
  /** ".partial" */
  const PARTIAL: bytes := [DOT, 0x70, 0x61, 0x72, 0x74, 0x69, 0x61, 0x6C]

  /** ASCII letters, digits, `.`, `-` and `_`. */
  predicate Safe(b: byte) {
    || 0x30 <= b <= 0x39
    || 0x41 <= b <= 0x5A
    || 0x61 <= b <= 0x7A
    || b == DOT || b == 0x2D || b == 0x5F
  }

  // ------------------------------------------------------- Path::file_name

  /** What follows the last slash. */
  function AfterSlash(s: bytes): (r: bytes)
    ensures |r| <= |s|
    ensures |r| < |s| ==> s[|s| - |r| - 1] == SLASH
  {
    if s == [] || s[|s| - 1] == SLASH then [] else AfterSlash(s[..|s| - 1]) + [s[|s| - 1]]
  }

  /** The last path component that is neither empty nor `.`, if there is one. */
  function LastComponent(s: bytes): bytes
    decreases |s|
  {
    var last := AfterSlash(s);
    if last != [] && last != [DOT] then last
    else if |last| == |s| then []
    else LastComponent(s[..|s| - |last| - 1])
  }

  /** `Path::file_name`: nothing for an empty path, for a root and for `..`. */
  function FileName(s: bytes): Option<bytes> {
    var last := LastComponent(s);
    if last == [] || last == [DOT, DOT] then None else Some(last)
  }

  // ---------------------------------------------------- sanitize_file_name

  function KeepSafe(s: bytes): (r: bytes)
    ensures forall b :: b in r ==> Safe(b)
  {
    if s == [] then []
    else (if Safe(s[0]) then [s[0]] else []) + KeepSafe(s[1..])
  }

  function TrimStart(s: bytes): bytes {
    if s != [] && s[0] == DOT then TrimStart(s[1..]) else s
  }

  function TrimEnd(s: bytes): bytes {
    if s != [] && s[|s| - 1] == DOT then TrimEnd(s[..|s| - 1]) else s
  }

  /** The first 120 safe bytes of the last segment. */
  function SafePart(name: bytes): bytes {
    var base := match FileName(name) case Some(s) => s case None => FALLBACK;
    var kept := KeepSafe(base);
    kept[..Min(|kept|, MAX_NAME)]
  }

  /** `sanitize_file_name`. */
  function Sanitize(name: bytes): bytes {
    var clean := TrimEnd(TrimStart(SafePart(name)));
    if clean == [] then FALLBACK else clean
  }

  /** The partial file a receiver writes before it renames it. */
  function PartialName(name: bytes, id: nat): bytes {
    [DOT] + name + [DOT] + Decimal(id) + PARTIAL
  }

  function Decimal(n: nat): (s: bytes)
    ensures s != [] && forall b :: b in s ==> 0x30 <= b <= 0x39
  {
    if n < 10 then [0x30 + n] else Decimal(n / 10) + [0x30 + n % 10]
  }

  // ------------------------------------------------------------ properties

  /** One visible path segment of harmless characters: nothing can leave the directory. */
  predicate Clean(s: bytes) {
    && 0 < |s| <= MAX_NAME
    && (forall b :: b in s ==> Safe(b))
    && s[0] != DOT && s[|s| - 1] != DOT
  }

  lemma {:induction false} TrimStartClean(s: bytes)
    ensures var r := TrimStart(s);
            |r| <= |s| && r == s[|s| - |r|..] && (r != [] ==> r[0] != DOT)
  {
    if s != [] && s[0] == DOT {
      TrimStartClean(s[1..]);
    }
  }

  lemma {:induction false} TrimEndClean(s: bytes)
    ensures var r := TrimEnd(s);
            |r| <= |s| && r == s[..|r|] && (r != [] ==> r[|r| - 1] != DOT)
  {
    if s != [] && s[|s| - 1] == DOT {
      TrimEndClean(s[..|s| - 1]);
    }
  }

  lemma TrimClean(s: bytes)
    requires |s| <= MAX_NAME && forall b :: b in s ==> Safe(b)
    ensures var r := TrimEnd(TrimStart(s)); r == [] || Clean(r)
  {
    hide Safe;
    var t := TrimStart(s);
    TrimStartClean(s);
    TrimEndClean(t);
    assert forall b :: b in t ==> b in s;
  }

  lemma CleanAscii(s: bytes)
    requires Clean(s)
    ensures Valid(s)
  {
    forall i | 0 <= i < |s| ensures s[i] < 0x80 {
      assert s[i] in s;
    }
    AsciiValid(s);
  }

  /** Whatever a peer offers, the name used is clean. */
  lemma SanitizeClean(name: bytes)
    ensures Clean(Sanitize(name))
    ensures Valid(Sanitize(name))
  {
    hide FileName, KeepSafe, TrimStart, TrimEnd;
    var base := match FileName(name) case Some(s) => s case None => FALLBACK;
    var kept := KeepSafe(base);
    var cut := kept[..Min(|kept|, MAX_NAME)];
    assert forall b :: b in cut ==> b in kept;
    TrimClean(cut);
    assert Clean(FALLBACK);
    CleanAscii(Sanitize(name));
  }

  lemma {:induction false} KeepSafeAll(s: bytes)
    requires forall b :: b in s ==> Safe(b)
    ensures KeepSafe(s) == s
  {
    if s != [] {
      KeepSafeAll(s[1..]);
      assert s == [s[0]] + s[1..];
    }
  }

  lemma {:induction false} NoSlash(s: bytes)
    requires SLASH !in s
    ensures AfterSlash(s) == s
  {
    if s != [] {
      NoSlash(s[..|s| - 1]);
      assert s == s[..|s| - 1] + [s[|s| - 1]];
    }
  }

  /**
    A name is kept as it is exactly when it is clean. So the receiver saves
    under the very name the sender put in its offer.
    */
  lemma SanitizeKeeps(s: bytes)
    ensures Sanitize(s) == s <==> Clean(s)
  {
    if Clean(s) {
      NoSlash(s);
      KeepSafeAll(s);
      assert s[..|s|] == s;
    }
    SanitizeClean(s);
  }

  lemma SanitizeIdempotent(name: bytes)
    ensures Sanitize(Sanitize(name)) == Sanitize(name)
  {
    SanitizeClean(name);
    SanitizeKeeps(Sanitize(name));
  }

  lemma {:induction false} AfterSlashAppended(dir: bytes, s: bytes)
    requires SLASH !in s
    ensures AfterSlash(dir + [SLASH] + s) == s
    decreases |s|
  {
    var all := dir + [SLASH] + s;
    if s != [] {
      AfterSlashAppended(dir, s[..|s| - 1]);
      assert all[..|all| - 1] == dir + [SLASH] + s[..|s| - 1];
      assert s == s[..|s| - 1] + [s[|s| - 1]];
    }
  }

  /** Directories before the last segment do not count, and slashes after it do not either. */
  lemma LastSegmentOnly(dir: bytes, s: bytes)
    requires SLASH !in s && s != [] && s != [DOT]
    ensures Sanitize(dir + [SLASH] + s) == Sanitize(s)
    ensures Sanitize(s + [SLASH]) == Sanitize(s)
  {
    AfterSlashAppended(dir, s);
    NoSlash(s);
    assert (s + [SLASH])[..|s|] == s;
    assert AfterSlash(s + [SLASH]) == [];
    assert LastComponent(s + [SLASH]) == LastComponent(s);
    hide KeepSafe, TrimStart, TrimEnd;
  }

  /** Each byte of a segment is kept or dropped by itself: kept if and only if it is safe. */
  lemma {:induction false} KeepSafeEach(a: bytes, b: byte, c: bytes)
    ensures KeepSafe(a + [b] + c) == KeepSafe(a) + (if Safe(b) then [b] else []) + KeepSafe(c)
    decreases |a|
  {
    hide Safe;
    var s := a + [b] + c;
    if a == [] {
      assert s[0] == b && s[1..] == c;
    } else {
      KeepSafeEach(a[1..], b, c);
      var head := if Safe(a[0]) then [a[0]] else [];
      assert s[0] == a[0] && s[1..] == a[1..] + [b] + c;
      assert KeepSafe(s) == head + KeepSafe(s[1..]) && KeepSafe(a) == head + KeepSafe(a[1..]);
      hide KeepSafe;
      var mid := if Safe(b) then [b] else [];
      AppendThree(head, KeepSafe(a[1..]) + mid, KeepSafe(c));
      AppendThree(head, KeepSafe(a[1..]), mid);
    }
  }

  /** Of a segment, unsafe bytes are dropped first and 120 of the others are kept. */
  lemma SafePartOf(s: bytes)
    requires SLASH !in s && s != [] && s != [DOT] && s != [DOT, DOT]
    ensures SafePart(s) == KeepSafe(s)[..Min(|KeepSafe(s)|, 120)]
  {
    NoSlash(s);
    hide KeepSafe;
  }

  ghost predicate Dots(s: bytes) {
    forall i :: 0 <= i < |s| ==> s[i] == DOT
  }

  /** The name is the safe part without the dots at its two ends. */
  lemma SanitizeShape(name: bytes) returns (front: bytes, middle: bytes, back: bytes)
    ensures SafePart(name) == front + middle + back && Dots(front) && Dots(back)
    ensures middle != [] ==> middle[0] != DOT && middle[|middle| - 1] != DOT
    ensures Sanitize(name) == if middle == [] then FALLBACK else middle
  {
    hide SafePart, FALLBACK;
    var cut := SafePart(name);
    var t := TrimStart(cut);
    middle := TrimEnd(t);
    TrimStartClean(cut);
    TrimEndClean(t);
    front := DotsBefore(cut);
    back := DotsAfter(t);
    hide TrimStart, TrimEnd;
    assert front + (middle + back) == front + middle + back;
  }

  lemma {:induction false} DotsBefore(s: bytes) returns (front: bytes)
    ensures s == front + TrimStart(s) && Dots(front)
  {
    if s != [] && s[0] == DOT {
      assert TrimStart(s) == TrimStart(s[1..]);
      var rest := DotsBefore(s[1..]);
      hide TrimStart;
      front := [DOT] + rest;
      assert s == [DOT] + s[1..];
      AppendThree([DOT], rest, TrimStart(s));
    } else {
      front := [];
    }
  }

  lemma {:induction false} DotsAfter(s: bytes) returns (back: bytes)
    ensures s == TrimEnd(s) + back && Dots(back)
  {
    if s != [] && s[|s| - 1] == DOT {
      assert TrimEnd(s) == TrimEnd(s[..|s| - 1]);
      var rest := DotsAfter(s[..|s| - 1]);
      hide TrimEnd;
      back := rest + [DOT];
      assert s == s[..|s| - 1] + [DOT];
      AppendThree(TrimEnd(s), rest, [DOT]);
    } else {
      back := [];
    }
  }

  /** The fallback, and a name that has nothing to keep. */
  lemma FallbackName()
    ensures FALLBACK == Ascii("file.bin")
    ensures Sanitize([]) == Ascii("file.bin")
  {
    assert FALLBACK == Ascii("file.bin");
    NothingToKeep([], FALLBACK);
    hide Sanitize, Ascii, FALLBACK;
  }

  lemma FallbackKept()
    ensures Sanitize(FALLBACK) == Ascii("file.bin")
  {
    hide Sanitize, Clean, Ascii, FALLBACK;
    FallbackName();
    FallbackClean(FALLBACK);
    SanitizeKeeps(FALLBACK);
  }

  lemma FallbackClean(fallback: bytes)
    requires fallback == FALLBACK
    ensures Clean(fallback)
  {
  }

  /** Where there is no name, the fallback is used. */
  lemma NothingToKeep(name: bytes, fallback: bytes)
    requires name == [] && fallback == FALLBACK
    ensures Sanitize(name) == fallback
  {
    assert Clean(fallback);
    KeepSafeAll(fallback);
    hide FALLBACK, Safe, KeepSafe;
    assert AfterSlash(name) == [];
    assert FileName(name) == None;
    hide FileName;
    assert fallback[..|fallback|] == fallback;
    assert SafePart(name) == fallback;
  }

  /** Which names are kept, in numbers: 1 to 120 ASCII letters, digits, dots, dashes and underscores, no dot at an end. */
  lemma KeptByNumbers(s: bytes)
    ensures Sanitize(s) == s <==>
            && 1 <= |s| <= 120
            && (forall b :: b in s ==>
                  48 <= b <= 57 || 65 <= b <= 90 || 97 <= b <= 122 || b == 46 || b == 45 || b == 95)
            && s[0] != 46 && s[|s| - 1] != 46
  {
    SanitizeKeeps(s);
    hide Sanitize;
  }

  /** The partial file: a dot, the name, a dot, the id in decimal and ".partial". */
  lemma PartialBytes(name: bytes, id: nat)
    ensures PartialName(name, id) == [46] + name + [46] + Decimal(id) + Ascii(".partial")
    ensures DecimalValue(Decimal(id)) == id && (Decimal(id)[0] == 48 ==> id == 0)
  {
    assert Ascii(".partial") == PARTIAL;
    DecimalReads(id);
    hide Decimal;
  }

  function DecimalValue(s: bytes): int {
    if s == [] then 0 else 10 * DecimalValue(s[..|s| - 1]) + s[|s| - 1] - 48
  }

  lemma {:induction false} DecimalReads(n: nat)
    ensures DecimalValue(Decimal(n)) == n && (Decimal(n)[0] == 48 ==> n == 0)
  {
    var s := Decimal(n);
    if n >= 10 {
      DecimalReads(n / 10);
      assert s[..|s| - 1] == Decimal(n / 10);
      assert s[0] == Decimal(n / 10)[0];
    } else {
      assert s[..0] == [];
    }
  }

  /** A last segment that is a single dot does not count. */
  lemma DotSegment(s: bytes)
    requires SLASH !in s && s != [] && s != [DOT]
    ensures Sanitize(s + [47, 46]) == Sanitize(s)
  {
    AfterSlashAppended(s, [DOT]);
    NoSlash(s);
    assert s + [47, 46] == s + [SLASH] + [DOT];
    assert (s + [47, 46])[..|s|] == s;
    hide KeepSafe, TrimStart, TrimEnd;
  }

  lemma {:induction false} DecimalInjective(m: nat, n: nat)
    requires Decimal(m) == Decimal(n)
    ensures m == n
  {
    var s, t := Decimal(m), Decimal(n);
    assert s[|s| - 1] == t[|t| - 1];
    if m >= 10 && n >= 10 {
      assert s[..|s| - 1] == Decimal(m / 10) && t[..|t| - 1] == Decimal(n / 10);
      DecimalInjective(m / 10, n / 10);
    }
  }

  /** What follows the last dot. */
  ghost function AfterDot(s: bytes): bytes {
    if s == [] || s[|s| - 1] == DOT then [] else AfterDot(s[..|s| - 1]) + [s[|s| - 1]]
  }

  lemma {:induction false} AfterDotAppended(s: bytes, d: bytes)
    requires DOT !in d
    ensures AfterDot(s + [DOT] + d) == d
    decreases |d|
  {
    var all := s + [DOT] + d;
    if d != [] {
      AfterDotAppended(s, d[..|d| - 1]);
      assert all[..|all| - 1] == s + [DOT] + d[..|d| - 1];
      assert d == d[..|d| - 1] + [d[|d| - 1]];
    }
  }

  lemma SplitAtDot(s1: bytes, d1: bytes, s2: bytes, d2: bytes)
    requires DOT !in d1 && DOT !in d2 && s1 + [DOT] + d1 == s2 + [DOT] + d2
    ensures s1 == s2 && d1 == d2
  {
    AfterDotAppended(s1, d1);
    AfterDotAppended(s2, d2);
    var all := s1 + [DOT] + d1;
    assert all[..|s1|] == s1 && all[..|s2|] == s2;
  }

  /** Two transfers never share a partial file unless they share name and id. */
  lemma PartialInjective(name1: bytes, id1: nat, name2: bytes, id2: nat)
    requires PartialName(name1, id1) == PartialName(name2, id2)
    ensures name1 == name2 && id1 == id2
  {
    var d1, d2 := Decimal(id1), Decimal(id2);
    var p := PartialName(name1, id1);
    var middle := p[1..|p| - |PARTIAL|];
    assert DOT !in d1 && DOT !in d2;
    hide Decimal;
    assert middle == name1 + [DOT] + d1;
    assert middle == name2 + [DOT] + d2;
    SplitAtDot(name1, d1, name2, d2);
    DecimalInjective(id1, id2);
  }

  /** A partial file is never mistaken for a saved one. */
  lemma PartialNotFinal(name: bytes, id: nat, final: bytes)
    requires Clean(final)
    ensures PartialName(name, id) != final
  {
    assert PartialName(name, id)[0] == DOT;
  }
}
