/**
  Start codes in an Annex-B byte stream (section B.1 of ITU-T H.264) and the
  NAL units between them.
  */
module AnnexB {
  import opened Bytes

  /** The three bytes of a start code, at `p`. */
  predicate Prefix3(b: bytes, p: nat) {
    p + 2 < |b| && b[p] == 0 && b[p + 1] == 0 && b[p + 2] == 1
  }

  predicate Prefix4(b: bytes, p: nat) {
    p + 3 < |b| && b[p] == 0 && b[p + 1] == 0 && b[p + 2] == 0 && b[p + 3] == 1
  }

  /** A start code begins at `p`; a zero byte before a short one belongs to it. */
  predicate IsStart(b: bytes, p: nat) {
    Prefix4(b, p) || (Prefix3(b, p) && (p == 0 || b[p - 1] != 0))
  }

  /** All start codes from position `i` on. */
  function Starts(b: bytes, i: nat): seq<nat>
    decreases |b| - i
  {
    if i + 2 >= |b| then []
    else (if IsStart(b, i) then [i] else []) + Starts(b, i + 1)
  }

  /** The bytes from each position to the next one. */
  function Cut(b: bytes, ss: seq<nat>): seq<bytes>
    requires Ascending(ss, |b|)
  {
    if |ss| < 2 then [] else [b[ss[0]..ss[1]]] + Cut(b, ss[1..])
  }

  predicate Ascending(ss: seq<nat>, bound: nat) {
    && (forall j :: 0 <= j < |ss| ==> ss[j] < bound)
    && (forall j, k :: 0 <= j < k < |ss| ==> ss[j] < ss[k])
  }

  /** `nal_type` of a unit that begins with its start code: 0 if there is no header. */
  function Kind(nal: bytes): nat {
    var header := if |nal| > 2 && nal[2] == 1 then 3 else 4;
    if header < |nal| then nal[header] % 0x20 else 0
  }

  // ---------------------------------------------------------- the scanner

  /** `start_codes`: skips over each code it finds. */
  method StartCodes(buf: bytes) returns (out: seq<nat>)
    ensures out == Starts(buf, 0)
  {
    hide Starts;
    out := [];
    var i := 0;
    while i + 2 < |buf|
      invariant out + Starts(buf, i) == Starts(buf, 0)
      invariant 0 < i && Prefix3(buf, i) ==> buf[i - 1] != 0
      decreases |buf| - i
    {
      if buf[i] == 0 && buf[i + 1] == 0 && buf[i + 2] == 1 {
        SkipCode(buf, out, i, 3);
        out := out + [i];
        i := i + 3;
        continue;
      }
      if i + 3 < |buf| && buf[i] == 0 && buf[i + 1] == 0 && buf[i + 2] == 0 && buf[i + 3] == 1 {
        SkipCode(buf, out, i, 4);
        out := out + [i];
        i := i + 4;
        continue;
      }
      SkipNone(buf, i, i + 1);
      i := i + 1;
    }
    NoneLeft(buf, i);
  }

  lemma NoneLeft(b: bytes, i: nat)
    requires i + 2 >= |b|
    ensures Starts(b, i) == []
  {
  }

  lemma StartCounts(b: bytes, i: nat)
    requires IsStart(b, i)
    ensures Starts(b, i) == [i] + Starts(b, i + 1)
  {
  }

  lemma SkipCode(b: bytes, sofar: seq<nat>, i: nat, n: nat)
    requires IsStart(b, i)
    requires (n == 3 && Prefix3(b, i)) || (n == 4 && Prefix4(b, i))
    ensures sofar + Starts(b, i) == sofar + [i] + Starts(b, i + n)
  {
    StartCounts(b, i);
    hide Starts;
    SkipNone(b, i + 1, i + n);
    assert sofar + ([i] + Starts(b, i + n)) == sofar + [i] + Starts(b, i + n);
  }

  lemma {:induction false} SkipNone(b: bytes, i: nat, j: nat)
    requires i <= j && forall p :: i <= p < j ==> !IsStart(b, p)
    ensures Starts(b, i) == Starts(b, j)
    decreases j - i
  {
    if i < j {
      SkipNone(b, i + 1, j);
    }
  }

  // ------------------------------------------------ what the scanner finds

  lemma {:induction false} StartsAscend(b: bytes, i: nat)
    ensures Ascending(Starts(b, i), |b|)
    ensures forall j :: 0 <= j < |Starts(b, i)| ==> i <= Starts(b, i)[j]
    decreases |b| - i
  {
    if i + 2 < |b| {
      StartsAscend(b, i + 1);
      var rest := Starts(b, i + 1);
      assert Starts(b, i) == if IsStart(b, i) then [i] + rest else rest;
    }
  }

  /** Every start code is found and nothing else is. */
  lemma {:induction false} StartsExactly(b: bytes, i: nat, p: nat)
    ensures p in Starts(b, i) <==> i <= p && IsStart(b, p)
    decreases |b| - i
  {
    if i + 2 < |b| {
      StartsExactly(b, i + 1, p);
    }
  }

  /** A start code is 00 00 01, or 00 00 00 01 whole; every one is found and nothing else is. */
  lemma StartBytes(b: bytes, p: nat)
    ensures p in Starts(b, 0) <==>
            || (p + 4 <= |b| && b[p..p + 4] == [0, 0, 0, 1])
            || (p + 3 <= |b| && b[p..p + 3] == [0, 0, 1] && (p == 0 || b[p - 1] != 0))
  {
    StartsExactly(b, 0, p);
    hide Starts;
    if p + 4 <= |b| {
      FourBytes(b, p);
    }
    if p + 3 <= |b| {
      ThreeBytes(b, p);
    }
  }

  lemma FourBytes(b: bytes, p: nat)
    requires p + 4 <= |b|
    ensures b[p..p + 4] == [0, 0, 0, 1] <==> b[p] == 0 && b[p + 1] == 0 && b[p + 2] == 0 && b[p + 3] == 1
  {
    var s := b[p..p + 4];
    assert s[0] == b[p] && s[1] == b[p + 1] && s[2] == b[p + 2] && s[3] == b[p + 3];
    assert s == [s[0], s[1], s[2], s[3]];
  }

  lemma ThreeBytes(b: bytes, p: nat)
    requires p + 3 <= |b|
    ensures b[p..p + 3] == [0, 0, 1] <==> b[p] == 0 && b[p + 1] == 0 && b[p + 2] == 1
  {
    var s := b[p..p + 3];
    assert s[0] == b[p] && s[1] == b[p + 1] && s[2] == b[p + 2];
    assert s == [s[0], s[1], s[2]];
  }

  /** Prefix stability: more bytes never change the codes already found. */
  lemma {:induction false} StartsExtend(b: bytes, c: bytes, i: nat) returns (more: seq<nat>)
    ensures Starts(b + c, i) == Starts(b, i) + more
    decreases |b| - i
  {
    if i + 2 >= |b| {
      more := Starts(b + c, i);
    } else if i + 3 == |b| && !IsStart(b, i) {
      more := Starts(b + c, i);
      assert Starts(b, i) == [];
    } else {
      more := StartsExtend(b, c, i + 1);
      assert IsStart(b + c, i) == IsStart(b, i);
    }
  }

  ghost predicate AllFrom(ss: seq<nat>, k: nat) {
    forall j :: 0 <= j < |ss| ==> k <= ss[j]
  }

  ghost function Shift(ss: seq<nat>, k: nat): (r: seq<nat>)
    requires AllFrom(ss, k)
    ensures |r| == |ss| && forall j :: 0 <= j < |ss| ==> r[j] == ss[j] - k
  {
    if ss == [] then [] else [ss[0] - k] + Shift(ss[1..], k)
  }

  lemma SameStart(b: bytes, k: nat, i: nat)
    requires k <= i && k <= |b| && IsStart(b, k)
    ensures IsStart(b[k..], i - k) == IsStart(b, i)
  {
  }

  /** Restart stability: scanning again from a code finds the same codes. */
  lemma {:induction false} StartsRestart(b: bytes, k: nat, i: nat)
    requires k <= i && k <= |b| && IsStart(b, k)
    ensures AllFrom(Starts(b, i), k)
    ensures Starts(b[k..], i - k) == Shift(Starts(b, i), k)
    decreases |b| - i
  {
    hide IsStart, Starts, Ascending;
    StartsAscend(b, i);
    if i + 2 >= |b| {
      NoneLeft(b, i);
      NoneLeft(b[k..], i - k);
    } else {
      var c, j, rest := b[k..], i - k, Starts(b, i + 1);
      SameStart(b, k, i);
      StartsRestart(b, k, i + 1);
      if IsStart(b, i) {
        StartCounts(b, i);
        StartCounts(c, j);
        assert ([i] + rest)[1..] == rest;
      } else {
        SkipNone(b, i, i + 1);
        SkipNone(c, j, j + 1);
      }
    }
  }

  /** The codes from the `j`-th on are the codes from its position on. */
  lemma {:induction false} StartsFrom(b: bytes, i: nat, j: nat)
    requires j < |Starts(b, i)|
    ensures Starts(b, Starts(b, i)[j]) == Starts(b, i)[j..]
    ensures IsStart(b, Starts(b, i)[j])
    decreases |b| - i
  {
    if i + 2 < |b| {
      if IsStart(b, i) {
        if j > 0 {
          StartsFrom(b, i + 1, j - 1);
        }
      } else {
        StartsFrom(b, i + 1, j);
      }
    }
  }

  // ------------------------------------------------------------- cutting

  lemma {:induction false} CutJoin(b: bytes, ss: seq<nat>, tt: seq<nat>)
    requires ss != [] && Ascending(ss + tt, |b|)
    ensures Ascending(ss, |b|) && Ascending([ss[|ss| - 1]] + tt, |b|)
    ensures Cut(b, ss + tt) == Cut(b, ss) + Cut(b, [ss[|ss| - 1]] + tt)
    decreases |ss|
  {
    AscendingParts(ss, tt, |b|);
    if |ss| == 1 {
      assert ss == [ss[0]];
      assert Cut(b, ss) == [];
    } else {
      assert (ss + tt)[1..] == ss[1..] + tt;
      AscendingTail(ss + tt, |b|);
      CutJoin(b, ss[1..], tt);
      var first := [b[ss[0]..ss[1]]];
      assert first + Cut(b, ss[1..]) + Cut(b, [ss[|ss| - 1]] + tt)
          == first + (Cut(b, ss[1..]) + Cut(b, [ss[|ss| - 1]] + tt));
    }
  }

  lemma AscendingTail(ss: seq<nat>, bound: nat)
    requires ss != [] && Ascending(ss, bound)
    ensures Ascending(ss[1..], bound)
  {
  }

  lemma AscendingParts(ss: seq<nat>, tt: seq<nat>, bound: nat)
    requires ss != [] && Ascending(ss + tt, bound)
    ensures Ascending(ss, bound) && Ascending([ss[|ss| - 1]] + tt, bound)
  {
    var all := ss + tt;
    assert forall j :: 0 <= j < |ss| ==> ss[j] == all[j];
    var last := [ss[|ss| - 1]] + tt;
    assert forall j :: 0 <= j < |last| ==> last[j] == all[|ss| - 1 + j];
  }

  lemma {:induction false} CutCount(b: bytes, ss: seq<nat>)
    requires Ascending(ss, |b|)
    ensures |Cut(b, ss)| == Max(0, |ss| - 1)
    decreases |ss|
  {
    if |ss| >= 2 {
      CutCount(b, ss[1..]);
    }
  }

  lemma {:induction false} CutDrop(b: bytes, ss: seq<nat>, j: nat)
    requires Ascending(ss, |b|) && j < |ss|
    ensures Ascending(ss[j..], |b|)
    ensures |Cut(b, ss)| == |ss| - 1 && Cut(b, ss)[j..] == Cut(b, ss[j..])
    decreases j
  {
    CutCount(b, ss);
    if j == 0 {
      assert ss[0..] == ss;
    } else {
      AscendingTail(ss, |b|);
      CutDrop(b, ss[1..], j - 1);
      assert ss[j..] == ss[1..][j - 1..];
    }
  }

  /** Cutting only looks at the bytes up to the last position. */
  lemma {:induction false} CutExtend(b: bytes, c: bytes, ss: seq<nat>)
    requires Ascending(ss, |b|)
    ensures Ascending(ss, |b + c|) && Cut(b + c, ss) == Cut(b, ss)
    decreases |ss|
  {
    if |ss| >= 2 {
      CutExtend(b, c, ss[1..]);
      assert (b + c)[ss[0]..ss[1]] == b[ss[0]..ss[1]];
    }
  }

  lemma {:induction false} CutShift(b: bytes, ss: seq<nat>, k: nat)
    requires Ascending(ss, |b|) && k <= |b| && AllFrom(ss, k)
    ensures Ascending(Shift(ss, k), |b[k..]|) && Cut(b[k..], Shift(ss, k)) == Cut(b, ss)
    decreases |ss|
  {
    AscendingShift(ss, |b|, k);
    if |ss| >= 2 {
      AscendingTail(ss, |b|);
      ShiftTail(ss, k);
      hide Ascending;
      CutShift(b, ss[1..], k);
      assert b[k..][ss[0] - k..ss[1] - k] == b[ss[0]..ss[1]];
    }
  }

  lemma AscendingShift(ss: seq<nat>, bound: nat, k: nat)
    requires Ascending(ss, bound) && k <= bound && AllFrom(ss, k)
    ensures Ascending(Shift(ss, k), bound - k)
    ensures |ss| >= 2 ==> k <= ss[0] < ss[1] < bound
  {
  }

  lemma ShiftTail(ss: seq<nat>, k: nat)
    requires ss != [] && AllFrom(ss, k)
    ensures AllFrom(ss[1..], k) && Shift(ss, k)[1..] == Shift(ss[1..], k) && Shift(ss, k)[0] == ss[0] - k
  {
  }

  /** The pieces lie side by side. */
  lemma {:induction false} CutContiguous(b: bytes, ss: seq<nat>)
    requires Ascending(ss, |b|) && ss != []
    ensures ss[0] <= ss[|ss| - 1]
    ensures Concat(Cut(b, ss)) == b[ss[0]..ss[|ss| - 1]]
    decreases |ss|
  {
    if |ss| >= 2 {
      CutContiguous(b, ss[1..]);
      assert b[ss[0]..ss[1]] + b[ss[1]..ss[|ss| - 1]] == b[ss[0]..ss[|ss| - 1]];
    }
  }

  // --------------------------------------------------- Annex-B round trip

  /** A NAL unit as an encoder writes it (section 7.4.1), with its choice of start code. */
  datatype Unit = Unit(long: bool, nal: bytes) {
    function Code(): bytes {
      if long then [0, 0, 0, 1] else [0, 0, 1]
    }

    function Piece(): bytes {
      Code() + nal
    }

    predicate Legal() {
      && nal != [] && nal[|nal| - 1] != 0
      && forall p: nat | p < |nal| :: !Prefix3(nal, p)
    }
  }

  function Written(us: seq<Unit>): bytes {
    if us == [] then [] else us[0].Piece() + Written(us[1..])
  }

  /** Where the start codes of `us` go when the first is written at `at`. */
  function Positions(us: seq<Unit>, at: nat): seq<nat> {
    if us == [] then [] else [at] + Positions(us[1..], at + |us[0].Piece()|)
  }

  /** Between the start code of one unit and that of the next there is no other. */
  lemma NoOtherStart(pre: bytes, u: Unit, post: bytes, p: nat)
    requires u.Legal() && (post == [] || post[0] == 0)
    requires |pre| < p < |pre| + |u.Piece()|
    ensures !IsStart(pre + u.Piece() + post, p)
  {
    var b := pre + u.Piece() + post;
    var at := |pre| + |u.Code()|;
    var end := |pre| + |u.Piece()|;
    assert forall j :: |pre| <= j < at ==> b[j] == u.Code()[j - |pre|];
    assert forall j :: at <= j < end ==> b[j] == u.nal[j - at];
    assert b[end - 1] != 0;
    if p >= at {
      if p + 2 < end {
        assert !Prefix3(u.nal, p - at);
      }
      if p + 3 < end {
        assert !Prefix3(u.nal, p + 1 - at);
      }
    }
  }

  lemma StartHere(pre: bytes, u: Unit, post: bytes)
    requires pre == [] || pre[|pre| - 1] != 0
    ensures IsStart(pre + u.Piece() + post, |pre|)
  {
    var b := pre + u.Piece() + post;
    assert forall j :: 0 <= j < |u.Code()| ==> b[|pre| + j] == u.Code()[j];
  }

  lemma NoneWithin(pre: bytes, u: Unit, post: bytes, b: bytes, end: nat)
    requires u.Legal() && (post == [] || post[0] == 0)
    requires b == pre + u.Piece() + post && end == |pre| + |u.Piece()|
    ensures forall p :: |pre| < p < end ==> !IsStart(b, p)
  {
    hide IsStart, Unit.Legal, Unit.Piece;
    forall p | |pre| < p < end ensures !IsStart(b, p) {
      NoOtherStart(pre, u, post, p);
    }
  }

  lemma UnitFound(pre: bytes, u: Unit, post: bytes, b: bytes)
    requires pre == [] || pre[|pre| - 1] != 0
    requires u.Legal() && (post == [] || post[0] == 0)
    requires b == pre + u.Piece() + post
    ensures Starts(b, |pre|) == [|pre|] + Starts(b, |pre| + |u.Piece()|)
  {
    UnitEnds(u);
    StartHere(pre, u, post);
    hide IsStart, Starts, Unit.Legal, Unit.Piece;
    var end := |pre| + |u.Piece()|;
    NoneWithin(pre, u, post, b, end);
    StartCounts(b, |pre|);
    SkipNone(b, |pre| + 1, end);
  }

  /** A unit starts with a zero and ends with something else. */
  lemma UnitEnds(u: Unit)
    requires u.Legal()
    ensures u.Piece() != [] && u.Piece()[0] == 0 && u.Piece()[|u.Piece()| - 1] != 0
  {
  }

  lemma {:induction false} FoundExactly(pre: bytes, us: seq<Unit>)
    requires pre == [] || pre[|pre| - 1] != 0
    requires forall u :: u in us ==> u.Legal()
    ensures Starts(pre + Written(us), |pre|) == Positions(us, |pre|)
    decreases |us|
  {
    hide IsStart, Unit.Legal, Unit.Piece;
    if us == [] {
      assert Starts(pre + Written(us), |pre|) == [];
    } else {
      var u, post := us[0], Written(us[1..]);
      assert u in us;
      UnitEnds(u);
      if us[1..] != [] {
        assert us[1] in us;
        UnitEnds(us[1]);
      }
      var b, pre' := pre + Written(us), pre + u.Piece();
      assert b == pre' + post;
      UnitFound(pre, u, post, b);
      hide Starts;
      FoundExactly(pre', us[1..]);
    }
  }

  /** The whole units, each with its start code. */
  function Pieces(us: seq<Unit>): (r: seq<bytes>)
    ensures |r| == |us|
  {
    if us == [] then [] else [us[0].Piece()] + Pieces(us[1..])
  }

  lemma {:induction false} PositionsAfter(us: seq<Unit>, at: nat)
    ensures |Positions(us, at)| == |us|
    ensures us != [] ==> Positions(us, at)[0] == at
    ensures Ascending(Positions(us, at), at + |Written(us)|) && AllFrom(Positions(us, at), at)
    decreases |us|
  {
    if us != [] {
      var next := at + |us[0].Piece()|;
      PositionsAfter(us[1..], next);
      assert Positions(us, at) == [at] + Positions(us[1..], next);
    }
  }

  lemma {:induction false} PositionsCut(pre: bytes, us: seq<Unit>)
    requires us != []
    ensures Ascending(Positions(us, |pre|), |pre + Written(us)|)
    ensures Cut(pre + Written(us), Positions(us, |pre|)) == Pieces(us[..|us| - 1])
    decreases |us|
  {
    hide Unit.Piece, AllFrom, Unit.Legal;
    var u, rest := us[0], us[1..];
    var b, ss := pre + Written(us), Positions(us, |pre|);
    PositionsAfter(us, |pre|);
    if rest == [] {
      assert us[..|us| - 1] == [];
    } else {
      var next := |pre| + |u.Piece()|;
      PositionsCut(pre + u.Piece(), rest);
      assert b == pre + u.Piece() + Written(rest);
      PositionsAfter(rest, next);
      hide Written, Ascending;
      assert ss[1..] == Positions(rest, next);
      assert b[|pre|..next] == u.Piece();
      assert us[..|us| - 1] == [u] + rest[..|rest| - 1];
      assert us[..|us| - 1][1..] == rest[..|rest| - 1];
    }
  }

  /**
    The scanner gives back what an encoder wrote: exactly its start codes,
    whichever lengths it chose, and between them its units with their types.
    */
  lemma RoundTrip(us: seq<Unit>)
    requires us != [] && forall u :: u in us ==> u.Legal()
    ensures Starts(Written(us), 0) == Positions(us, 0)
    ensures Ascending(Positions(us, 0), |Written(us)|)
    ensures Cut(Written(us), Positions(us, 0)) == Pieces(us[..|us| - 1])
    ensures forall u :: u in us ==> u.nal != [] && Kind(u.Piece()) == u.nal[0] % 0x20
  {
    forall u | u in us ensures u.nal != [] && Kind(u.Piece()) == u.nal[0] % 0x20 {
      KindOf(u);
    }
    hide Kind, Starts, Unit.Legal, Unit.Piece, Pieces, Cut, Ascending;
    assert [] + Written(us) == Written(us);
    FoundExactly([], us);
    PositionsCut([], us);
  }

  lemma KindOf(u: Unit)
    requires u.Legal()
    ensures u.nal != [] && Kind(u.Piece()) == u.nal[0] % 0x20
  {
  }

  /** The type of what begins with a start code: the low five bits of the byte after it, or 0 if there is none. */
  lemma KindBytes(header: byte, rest: bytes)
    ensures Kind([0, 0, 1, header] + rest) == header % 32 && Kind([0, 0, 0, 1, header] + rest) == header % 32
    ensures Kind([0, 0, 1]) == 0 && Kind([0, 0, 0, 1]) == 0
  {
  }
}
