/**
  The access-unit splitter seen from the encoder: which of the NAL units it
  wrote come out together, by the numbers in their headers alone.
  */
module Pictures {
  import opened Bytes
  import opened AnnexB
  import opened AccessUnits

  /** The type an encoder put in a header (section 7.4.1 of ITU-T H.264). */
  function Type(u: Unit): nat {
    if u.nal == [] then 0 else u.nal[0] % 0x20
  }

  predicate Slice(u: Unit) {
    1 <= Type(u) <= 5
  }

  /** At most one slice, and types 7 and 9 in front only. */
  ghost predicate OnePicture(part: seq<Unit>) {
    && part != []
    && (forall i :: 0 < i < |part| ==> Type(part[i]) != 7 && Type(part[i]) != 9)
    && (forall i, j :: 0 <= i < j < |part| ==> !(Slice(part[i]) && Slice(part[j])))
  }

  /** A new part begins with type 7 or 9, or with a slice when there is one already. */
  ghost predicate Begins(before: seq<Unit>, u: Unit) {
    Type(u) == 7 || Type(u) == 9 || (Slice(u) && exists i :: 0 <= i < |before| && Slice(before[i]))
  }

  ghost predicate Parted(parts: seq<seq<Unit>>) {
    && (forall k :: 0 <= k < |parts| ==> OnePicture(parts[k]))
    && (forall k :: 0 < k < |parts| ==> Begins(parts[k - 1], parts[k][0]))
  }

  function Joined(parts: seq<seq<Unit>>): seq<Unit> {
    if parts == [] then [] else parts[0] + Joined(parts[1..])
  }

  lemma {:induction false} JoinedAppend(a: seq<seq<Unit>>, b: seq<seq<Unit>>)
    ensures Joined(a + b) == Joined(a) + Joined(b)
    decreases |a|
  {
    if a == [] {
      assert a + b == b;
    } else {
      JoinedAppend(a[1..], b);
      assert (a + b)[1..] == a[1..] + b;
    }
  }

  // ------------------------------------------------------- there is one way

  lemma {:induction false} Partition(us: seq<Unit>) returns (parts: seq<seq<Unit>>, rest: seq<Unit>)
    requires us != []
    ensures Parted(parts + [rest]) && Joined(parts + [rest]) == us
    decreases |us|
  {
    var n := |us| - 1;
    var u := us[n];
    if n == 0 {
      parts, rest := [], us;
      assert Joined([us]) == us + Joined([us][1..]);
    } else {
      var parts0, rest0 := Partition(us[..n]);
      assert us == us[..n] + [u];
      if Begins(rest0, u) {
        parts, rest := parts0 + [rest0], [u];
        NewPart(parts0 + [rest0], rest0, u);
      } else {
        parts, rest := parts0, rest0 + [u];
        LongerPart(parts0, rest0, u);
      }
    }
  }

  lemma NewPart(all: seq<seq<Unit>>, last: seq<Unit>, u: Unit)
    requires Parted(all) && all != [] && all[|all| - 1] == last && Begins(last, u)
    ensures Parted(all + [[u]]) && Joined(all + [[u]]) == Joined(all) + [u]
  {
    JoinedAppend(all, [[u]]);
    assert Joined([[u]]) == [u] + Joined([[u]][1..]);
    var more, one := all + [[u]], [u];
    assert OnePicture(one);
    hide Begins, Slice, OnePicture, Joined;
    assert more[|all|] == one;
    forall k | 0 <= k < |more| ensures OnePicture(more[k]) {
      assert k < |all| ==> more[k] == all[k];
    }
    forall k | 0 < k < |more| ensures more[k] != [] && Begins(more[k - 1], more[k][0]) {
      assert more[k - 1] == all[k - 1];
      if k < |all| {
        assert more[k] == all[k];
        NotEmpty(all[k]);
      }
    }
  }

  lemma LongerPart(parts: seq<seq<Unit>>, rest: seq<Unit>, u: Unit)
    requires Parted(parts + [rest]) && !Begins(rest, u)
    ensures Parted(parts + [rest + [u]]) && Joined(parts + [rest + [u]]) == Joined(parts + [rest]) + [u]
  {
    JoinedAppend(parts, [rest]);
    JoinedAppend(parts, [rest + [u]]);
    assert Joined([rest]) == rest + Joined([rest][1..]);
    assert Joined([rest + [u]]) == rest + [u] + Joined([rest + [u]][1..]);
    var all, more := parts + [rest], parts + [rest + [u]];
    assert all[|parts|] == rest;
    OneLonger(rest, u);
    hide Begins, OnePicture, Joined;
    assert forall k :: 0 <= k < |parts| ==> more[k] == all[k];
    assert more[|parts|][0] == all[|parts|][0] by {
      assert OnePicture(all[|parts|]);
      NotEmpty(all[|parts|]);
    }
  }

  lemma NotEmpty(part: seq<Unit>)
    requires OnePicture(part)
    ensures part != []
  {
  }

  lemma OneLonger(rest: seq<Unit>, u: Unit)
    requires OnePicture(rest) && !Begins(rest, u)
    ensures OnePicture(rest + [u])
  {
    hide Type;
  }

  // ------------------------------------------------- what comes out of it

  function PieceGroups(parts: seq<seq<Unit>>): (groups: seq<seq<bytes>>)
    ensures |groups| == |parts| && forall k :: 0 <= k < |parts| ==> groups[k] == Pieces(parts[k])
  {
    if parts == [] then [] else [Pieces(parts[0])] + PieceGroups(parts[1..])
  }

  lemma {:induction false} PiecesAppend(a: seq<Unit>, b: seq<Unit>)
    ensures Pieces(a + b) == Pieces(a) + Pieces(b)
    decreases |a|
  {
    hide Unit.Piece;
    if a == [] {
      assert a + b == b;
    } else {
      PiecesAppend(a[1..], b);
      assert (a + b)[1..] == a[1..] + b;
    }
  }

  lemma {:induction false} PiecesEach(us: seq<Unit>, i: nat)
    requires i < |us|
    ensures Pieces(us)[i] == us[i].Piece()
  {
    hide Unit.Piece;
    if i > 0 {
      PiecesEach(us[1..], i - 1);
    }
  }

  lemma {:induction false} PiecesConcat(us: seq<Unit>)
    ensures Concat(Pieces(us)) == Written(us)
  {
    hide Unit.Piece;
    if us != [] {
      PiecesConcat(us[1..]);
    }
  }

  lemma {:induction false} GroupsFlat(parts: seq<seq<Unit>>)
    ensures Flat(PieceGroups(parts)) == Pieces(Joined(parts))
  {
    hide Pieces;
    if parts == [] {
      NoPieces();
    } else {
      GroupsFlat(parts[1..]);
      PiecesAppend(parts[0], Joined(parts[1..]));
    }
  }

  lemma NoPieces()
    ensures Pieces([]) == []
  {
  }

  ghost predicate AllLegal(us: seq<Unit>) {
    forall u :: u in us ==> u.Legal()
  }

  lemma KindsOf(us: seq<Unit>)
    requires AllLegal(us)
    ensures forall i :: 0 <= i < |us| ==> Kind(Pieces(us)[i]) == Type(us[i])
  {
    hide Kind, Unit.Legal, Unit.Piece, Pieces;
    forall i | 0 <= i < |us| ensures Kind(Pieces(us)[i]) == Type(us[i]) {
      assert us[i] in us;
      PiecesEach(us, i);
      KindOf(us[i]);
    }
  }

  lemma {:induction false} PartsLegal(parts: seq<seq<Unit>>, k: nat)
    requires k < |parts| && AllLegal(Joined(parts))
    ensures AllLegal(parts[k])
  {
    hide Unit.Legal;
    if k > 0 {
      assert forall u :: u in Joined(parts[1..]) ==> u in Joined(parts);
      PartsLegal(parts[1..], k - 1);
    }
  }

  lemma PictureNumbers(part: seq<Unit>)
    requires OnePicture(part) && AllLegal(part)
    ensures OneByNumbers(Pieces(part))
  {
    KindsOf(part);
    hide Kind, Type, Pieces, AllLegal;
    var ps := Pieces(part);
    assert forall i :: 0 <= i < |ps| ==> Kind(ps[i]) == Type(part[i]);
  }

  lemma BeginNumbers(before: seq<Unit>, after: seq<Unit>)
    requires after != [] && AllLegal(before) && AllLegal(after) && Begins(before, after[0])
    ensures SplitByNumbers(Pieces(before), Pieces(after)[0])
  {
    KindsOf(before);
    KindsOf(after);
    hide Kind, Type, Pieces, AllLegal;
    if i :| 0 <= i < |before| && Slice(before[i]) {
      assert 1 <= Kind(Pieces(before)[i]) <= 5;
    }
  }

  /** Parts by their headers are groups by the types the splitter reads. */
  lemma PartsChain(parts: seq<seq<Unit>>)
    requires Parted(parts) && AllLegal(Joined(parts))
    ensures Chain(PieceGroups(parts))
  {
    var groups := PieceGroups(parts);
    forall k | 0 <= k < |parts| ensures AllLegal(parts[k]) && parts[k] != [] && OneByNumbers(groups[k]) {
      PartsLegal(parts, k);
      NotEmpty(parts[k]);
      PictureNumbers(parts[k]);
    }
    hide AllLegal, Kind, Type, Pieces, Joined, PieceGroups, Begins, OnePicture, OneByNumbers, SplitByNumbers;
    forall k | 0 < k < |parts| ensures SplitByNumbers(groups[k - 1], groups[k][0]) {
      BeginNumbers(parts[k - 1], parts[k]);
    }
    ChainNumbers(groups);
    hide Chain;
  }

  /**
    End to end, in the numbers of the headers: for NAL units written with any
    start codes and read in any slices, each part that is one picture comes
    out as one access unit, a keyframe if and only if a header of it is 5 or
    7; the last part stays, with the last unit written.
    */
  lemma PicturesCome(us: seq<Unit>, slices: seq<bytes>, parts: seq<seq<Unit>>, rest: seq<Unit>)
    requires |us| >= 2 && AllLegal(us) && slices != [] && Concat(slices) == Written(us)
    requires Parted(parts + [rest]) && Joined(parts + [rest]) == us[..|us| - 1]
    ensures var (units, kept) := PushAll([], slices);
            && |units| == |parts|
            && (forall k :: 0 <= k < |parts| ==>
                  && units[k].data == Written(parts[k])
                  && (units[k].keyframe <==> exists u :: u in parts[k] && (Type(u) == 5 || Type(u) == 7)))
            && kept == Written(rest) + us[|us| - 1].Piece()
  {
    hide Unit.Piece, Unit.Legal, Unit.Code, Type, Chain, PushAll, Pieces, Parted, Written, Concat, UnitOf;
    var all := parts + [rest];
    AllButLast(us);
    PartsChain(all);
    GroupsFlat(all);
    var groups, current := PieceGroups(parts), Pieces(rest);
    hide Joined;
    PieceGroupsLast(parts, rest);
    hide PieceGroups, AllLegal;
    Streamed(us, slices, groups, current);
    PiecesConcat(rest);
    UnitsEach(groups);
    hide Units;
    forall k | 0 <= k < |parts|
      ensures Units(groups)[k].data == Written(parts[k])
      ensures Units(groups)[k].keyframe <==> exists u :: u in parts[k] && (Type(u) == 5 || Type(u) == 7)
    {
      assert all[k] == parts[k];
      PartsLegal(all, k);
      UnitIs(parts[k]);
    }
  }

  lemma AllButLast(us: seq<Unit>)
    requires us != [] && AllLegal(us)
    ensures AllLegal(us[..|us| - 1])
  {
    hide Unit.Legal;
    assert forall u :: u in us[..|us| - 1] ==> u in us;
  }

  lemma {:induction false} PieceGroupsLast(parts: seq<seq<Unit>>, rest: seq<Unit>)
    ensures PieceGroups(parts + [rest]) == PieceGroups(parts) + [Pieces(rest)]
    decreases |parts|
  {
    hide Pieces;
    if parts != [] {
      PieceGroupsLast(parts[1..], rest);
      assert (parts + [rest])[1..] == parts[1..] + [rest];
    }
  }

  lemma Streamed(us: seq<Unit>, slices: seq<bytes>, groups: seq<seq<bytes>>, current: seq<bytes>)
    requires |us| >= 2 && AllLegal(us)
    requires slices != [] && Concat(slices) == Written(us)
    requires Chain(groups + [current]) && Flat(groups + [current]) == Pieces(us[..|us| - 1])
    ensures PushAll([], slices) == (Units(groups), Concat(current) + us[|us| - 1].Piece())
  {
    hide Unit.Piece, Unit.Legal, Chain, PushAll, Pieces, Flat, Units, Written, Concat;
    EncodedStream(us, slices, groups, current);
  }

  lemma UnitIs(part: seq<Unit>)
    requires AllLegal(part)
    ensures UnitOf(Pieces(part)).data == Written(part)
    ensures UnitOf(Pieces(part)).keyframe <==> exists u :: u in part && (Type(u) == 5 || Type(u) == 7)
  {
    PiecesConcat(part);
    KindsOf(part);
    hide Pieces, Kind, Type, AllLegal, Written;
    var ps := Pieces(part);
    if n :| n in ps && Key(n) {
      var i :| 0 <= i < |ps| && ps[i] == n;
      assert part[i] in part && (Type(part[i]) == 5 || Type(part[i]) == 7);
    }
    if u :| u in part && (Type(u) == 5 || Type(u) == 7) {
      var i :| 0 <= i < |part| && part[i] == u;
      assert ps[i] in ps && Key(ps[i]);
    }
  }
}
