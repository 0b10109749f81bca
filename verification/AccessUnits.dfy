/**
  The incremental access-unit splitter behind the ffmpeg pipe: `push_bytes`
  rescans its buffer on every read, closes the access units it can and keeps
  the rest. It is proved that how the pipe slices the stream does not matter.
  */
module AccessUnits {
  import opened Bytes
  import opened AnnexB

  datatype AccessUnit = AccessUnit(keyframe: bool, data: bytes)

  /** A coded slice: types 1 to 5. */
  predicate Vcl(nal: bytes) {
    1 <= Kind(nal) <= 5
  }

  /** Types that only begin an access unit: parameter sets of a sequence and delimiters. */
  predicate Opens(nal: bytes) {
    Kind(nal) == 9 || Kind(nal) == 7
  }

  predicate Key(nal: bytes) {
    Kind(nal) == 5 || Kind(nal) == 7
  }

  /** Units closed so far, the open one, and whether that has a slice. */
  datatype Grouping = Grouping(closed: seq<seq<bytes>>, current: seq<bytes>, hasVcl: bool)

  const NOTHING := Grouping([], [], false)

  function Add(g: Grouping, nal: bytes): Grouping {
    var boundary := Opens(nal) || (Vcl(nal) && g.hasVcl);
    if boundary && g.current != [] then Grouping(g.closed + [g.current], [nal], Vcl(nal))
    else Grouping(g.closed, g.current + [nal], g.hasVcl || Vcl(nal))
  }

  function AddAll(g: Grouping, nals: seq<bytes>): Grouping
    decreases |nals|
  {
    if nals == [] then g else AddAll(Add(g, nals[0]), nals[1..])
  }

  function UnitOf(group: seq<bytes>): AccessUnit {
    AccessUnit(exists n :: n in group && Key(n), Concat(group))
  }

  function Units(groups: seq<seq<bytes>>): seq<AccessUnit> {
    if groups == [] then [] else [UnitOf(groups[0])] + Units(groups[1..])
  }

  /** The whole NAL units of a buffer: those whose end another start code marks. */
  function Nals(b: bytes): seq<bytes> {
    StartsAscend(b, 0);
    Cut(b, Starts(b, 0))
  }

  /** The NAL unit still growing at the end of a buffer that has a start code. */
  function Tail(b: bytes): bytes
    requires Starts(b, 0) != []
  {
    StartsAscend(b, 0);
    b[Starts(b, 0)[|Starts(b, 0)| - 1]..]
  }

  /** What a buffer gives up and what stays in it. */
  function Split(b: bytes): (seq<AccessUnit>, bytes) {
    if |Starts(b, 0)| < 2 then ([], b)
    else
      var g := AddAll(NOTHING, Nals(b));
      (Units(g.closed), Concat(g.current) + Tail(b))
  }

  // ----------------------------------------------------------- grouping

  lemma {:induction false} AddAllJoin(g: Grouping, a: seq<bytes>, c: seq<bytes>)
    ensures AddAll(g, a + c) == AddAll(AddAll(g, a), c)
    decreases |a|
  {
    if a == [] {
      assert a + c == c;
    } else {
      AddAllJoin(Add(g, a[0]), a[1..], c);
      assert (a + c)[1..] == a[1..] + c;
    }
  }

  function Flat(groups: seq<seq<bytes>>): seq<bytes> {
    if groups == [] then [] else groups[0] + Flat(groups[1..])
  }

  lemma {:induction false} FlatAppend(a: seq<seq<bytes>>, c: seq<seq<bytes>>)
    ensures Flat(a + c) == Flat(a) + Flat(c)
    decreases |a|
  {
    if a == [] {
      assert a + c == c;
    } else {
      FlatAppend(a[1..], c);
      assert (a + c)[1..] == a[1..] + c;
    }
  }

  /** Units already closed do not influence what follows. */
  lemma {:induction false} ClosedApart(done: seq<seq<bytes>>, g: Grouping, nals: seq<bytes>)
    ensures AddAll(g.(closed := done + g.closed), nals)
         == AddAll(g, nals).(closed := done + AddAll(g, nals).closed)
    decreases |nals|
  {
    if nals != [] {
      var g1 := Add(g, nals[0]);
      assert done + (g.closed + [g.current]) == done + g.closed + [g.current];
      assert Add(g.(closed := done + g.closed), nals[0]) == g1.(closed := done + g1.closed);
      ClosedApart(done, g1, nals[1..]);
    }
  }

  /** An access unit: opening types come first only, and it has at most one slice. */
  ghost predicate OneUnit(g: seq<bytes>) {
    && g != []
    && (forall i :: 0 < i < |g| ==> !Opens(g[i]))
    && (forall i, j :: 0 <= i < j < |g| ==> !(Vcl(g[i]) && Vcl(g[j])))
  }

  ghost predicate HasVcl(g: seq<bytes>) {
    exists i :: 0 <= i < |g| && Vcl(g[i])
  }

  /** A unit that goes on as `next` could not have gone on: a new one had to begin. */
  ghost predicate MustSplit(g: seq<bytes>, next: bytes) {
    Opens(next) || (Vcl(next) && HasVcl(g))
  }

  ghost predicate Chain(groups: seq<seq<bytes>>) {
    && (forall k :: 0 <= k < |groups| ==> OneUnit(groups[k]))
    && (forall k :: 0 < k < |groups| ==> MustSplit(groups[k - 1], groups[k][0]))
  }

  /** All units, the open one last. */
  function All(g: Grouping): seq<seq<bytes>> {
    if g.current == [] then g.closed else g.closed + [g.current]
  }

  ghost predicate GroupingInv(g: Grouping) {
    && (g.current == [] ==> g.closed == [])
    && (g.hasVcl <==> HasVcl(g.current))
    && Chain(All(g))
  }

  lemma OneMore(g: seq<bytes>, nal: bytes)
    ensures HasVcl(g + [nal]) <==> HasVcl(g) || Vcl(nal)
    ensures OneUnit([nal])
    ensures OneUnit(g) && !MustSplit(g, nal) ==> OneUnit(g + [nal])
  {
    hide Vcl, Opens;
    var h := g + [nal];
    assert h[|g|] == nal;
    if i :| 0 <= i < |g| && Vcl(g[i]) {
      assert Vcl(h[i]);
    }
  }

  lemma AddInv(g: Grouping, nal: bytes)
    requires GroupingInv(g)
    ensures GroupingInv(Add(g, nal))
  {
    hide Vcl, Opens, OneUnit, HasVcl;
    OneMore([], nal);
    assert [] + [nal] == [nal];
    OneMore(g.current, nal);
    assert !HasVcl([]) by { NoVcl(); }
    var g' := Add(g, nal);
    if g.current == [] {
      assert All(g') == [[nal]];
    } else if MustSplit(g.current, nal) {
      ChainNew(g.closed, g.current, nal);
      assert All(g') == All(g) + [[nal]];
    } else {
      ChainGrow(g.closed, g.current, nal);
    }
  }

  lemma ChainNew(closed: seq<seq<bytes>>, current: seq<bytes>, nal: bytes)
    requires Chain(closed + [current]) && MustSplit(current, nal)
    ensures Chain(closed + [current] + [[nal]])
  {
    hide MustSplit;
    OneMore([], nal);
    var all, one := closed + [current], [nal];
    var more := all + [one];
    assert OneUnit(one);
    assert forall k :: 0 <= k < |all| ==> more[k] == all[k];
  }

  lemma ChainGrow(closed: seq<seq<bytes>>, current: seq<bytes>, nal: bytes)
    requires Chain(closed + [current]) && !MustSplit(current, nal) && current != []
    ensures Chain(closed + [current + [nal]])
  {
    var all, grown := closed + [current], closed + [current + [nal]];
    assert all[|closed|] == current;
    OneMore(current, nal);
    hide MustSplit, OneUnit;
    assert forall k :: 0 <= k < |closed| ==> grown[k] == all[k];
    assert grown[|closed|][0] == all[|closed|][0];
  }

  lemma NoVcl()
    ensures !HasVcl([])
  {
  }

  lemma {:induction false} AddAllInv(g: Grouping, nals: seq<bytes>)
    requires GroupingInv(g)
    ensures GroupingInv(AddAll(g, nals))
    ensures nals != [] ==> AddAll(g, nals).current != []
    decreases |nals|
  {
    hide GroupingInv;
    if nals != [] {
      AddInv(g, nals[0]);
      AddAllInv(Add(g, nals[0]), nals[1..]);
    }
  }

  lemma {:induction false} AddAllFlat(g: Grouping, nals: seq<bytes>)
    ensures Flat(AddAll(g, nals).closed) + AddAll(g, nals).current == Flat(g.closed) + g.current + nals
    decreases |nals|
  {
    if nals == [] {
      assert Flat(g.closed) + g.current + nals == Flat(g.closed) + g.current;
    } else {
      var g1 := Add(g, nals[0]);
      AddFlat(g, nals[0]);
      AddAllFlat(g1, nals[1..]);
      assert Flat(g.closed) + g.current + [nals[0]] + nals[1..] == Flat(g.closed) + g.current + nals;
    }
  }

  lemma AddFlat(g: Grouping, nal: bytes)
    ensures Flat(Add(g, nal).closed) + Add(g, nal).current == Flat(g.closed) + g.current + [nal]
  {
    FlatAppend(g.closed, [g.current]);
    assert Flat([g.current]) == g.current;
  }

  /** Starting again with the NAL units of the open access unit ends where it was. */
  lemma {:induction false} Reopened(g: Grouping, n: nat)
    requires GroupingInv(g) && n <= |g.current|
    ensures AddAll(NOTHING, g.current[..n]) == Grouping([], g.current[..n], HasVcl(g.current[..n]))
    decreases n
  {
    if n == 0 {
      NoVcl();
    } else {
      var c, nal := g.current[..n - 1], g.current[n - 1];
      assert g.current[..n] == c + [nal];
      Reopened(g, n - 1);
      AddAllJoin(NOTHING, c, [nal]);
      assert AddAll(Grouping([], c, HasVcl(c)), [nal]) == Add(Grouping([], c, HasVcl(c)), nal);
      OneMore(c, nal);
      assert OneUnit(g.current) by { assert All(g)[|g.closed|] == g.current; }
      if n > 1 {
        NotSplit(g.current, n - 1);
      }
    }
  }

  lemma NotSplit(g: seq<bytes>, i: nat)
    requires OneUnit(g) && 0 < i < |g|
    ensures !MustSplit(g[..i], g[i])
  {
  }

  /** After the first group comes what must split it, or nothing. */
  lemma AfterFirst(a: seq<seq<bytes>>)
    requires Chain(a) && a != []
    ensures |a[0]| <= |Flat(a)| && Flat(a)[..|a[0]|] == a[0]
    ensures |a[0]| < |Flat(a)| ==> MustSplit(a[0], Flat(a)[|a[0]|])
  {
    hide MustSplit;
    if |a| > 1 {
      assert Flat(a[1..]) == a[1] + Flat(a[1..][1..]);
    }
  }

  lemma WithinFirst(b: seq<seq<bytes>>, k: nat)
    requires Chain(b) && b != [] && 0 < k < |b[0]|
    ensures k < |Flat(b)| && !MustSplit(Flat(b)[..k], Flat(b)[k])
  {
    NotSplit(b[0], k);
    hide MustSplit;
    assert Flat(b)[..k] == b[0][..k];
  }

  lemma FirstGroup(a: seq<seq<bytes>>, b: seq<seq<bytes>>)
    requires Chain(a) && Chain(b) && a != [] && b != [] && Flat(a) == Flat(b)
    ensures |a[0]| >= |b[0]|
  {
    if |a[0]| < |b[0]| {
      assert OneUnit(a[0]);
      hide Flat, MustSplit, Chain, OneUnit;
      WithinFirst(b, |a[0]|);
      AfterFirst(a);
    }
  }

  lemma ChainTail(a: seq<seq<bytes>>)
    requires Chain(a) && a != []
    ensures Chain(a[1..])
  {
    hide OneUnit, MustSplit;
  }

  /** There is only one way to group NAL units into access units. */
  lemma {:induction false} ChainUnique(a: seq<seq<bytes>>, b: seq<seq<bytes>>)
    requires Chain(a) && Chain(b) && Flat(a) == Flat(b)
    ensures a == b
    decreases |a|
  {
    if a == [] || b == [] {
      FlatEmpty(a);
      FlatEmpty(b);
    } else {
      FirstGroup(a, b);
      FirstGroup(b, a);
      assert Flat(a)[..|a[0]|] == a[0] && Flat(b)[..|b[0]|] == b[0];
      assert Flat(a)[|a[0]|..] == Flat(a[1..]) && Flat(b)[|b[0]|..] == Flat(b[1..]);
      ChainTail(a);
      ChainTail(b);
      hide Chain, Flat;
      ChainUnique(a[1..], b[1..]);
      assert a == [a[0]] + a[1..] && b == [b[0]] + b[1..];
    }
  }

  lemma FlatEmpty(a: seq<seq<bytes>>)
    requires Chain(a)
    ensures a == [] <==> Flat(a) == []
  {
  }

  // ------------------------------------------------------------ splitting

  lemma {:induction false} UnitsAppend(a: seq<seq<bytes>>, c: seq<seq<bytes>>)
    ensures Units(a + c) == Units(a) + Units(c)
    decreases |a|
  {
    hide UnitOf;
    if a == [] {
      assert a + c == c;
    } else {
      UnitsAppend(a[1..], c);
      assert (a + c)[1..] == a[1..] + c;
    }
  }

  function Data(us: seq<AccessUnit>): bytes {
    if us == [] then [] else us[0].data + Data(us[1..])
  }

  lemma {:induction false} UnitsData(groups: seq<seq<bytes>>)
    ensures Data(Units(groups)) == Concat(Flat(groups))
    decreases |groups|
  {
    if groups != [] {
      UnitsData(groups[1..]);
      ConcatAppend(groups[0], Flat(groups[1..]));
    }
  }

  /** Facts about a buffer with at least one whole NAL unit. */
  lemma Grouped(b: bytes) returns (g: Grouping, j: nat)
    requires |Starts(b, 0)| >= 2
    ensures g == AddAll(NOTHING, Nals(b)) && GroupingInv(g) && g.current != []
    ensures j == |Flat(g.closed)| < |Starts(b, 0)| - 1 == |Nals(b)|
    ensures Nals(b) == Flat(g.closed) + g.current && Nals(b)[j..] == g.current
  {
    g := AddAll(NOTHING, Nals(b));
    j := |Flat(g.closed)|;
    StartsAscend(b, 0);
    CutCount(b, Starts(b, 0));
    NothingInv();
    AddAllInv(NOTHING, Nals(b));
    AddAllFlat(NOTHING, Nals(b));
    hide Nals, AddAll, GroupingInv;
    assert [] + [] + Nals(b) == Nals(b);
  }

  lemma NothingInv()
    ensures GroupingInv(NOTHING) && Flat(NOTHING.closed) == []
  {
    NoVcl();
  }

  /** Cutting again from the `j`-th start code gives the NAL units from the `j`-th on. */
  lemma NalsRestart(b: bytes, j: nat)
    requires j < |Starts(b, 0)|
    ensures Starts(b, 0)[j] <= |b|
    ensures var c := b[Starts(b, 0)[j]..];
            && |Starts(c, 0)| == |Starts(b, 0)| - j
            && j <= |Nals(b)| && Nals(c) == Nals(b)[j..]
            && Tail(c) == Tail(b)
  {
    hide Starts, Cut;
    var ss := Starts(b, 0);
    StartsAscend(b, 0);
    var k := ss[j];
    StartsFrom(b, 0, j);
    StartsRestart(b, k, k);
    CutDrop(b, ss, j);
    assert AllFrom(ss[j..], k);
    CutShift(b, ss[j..], k);
    hide Ascending;
    DropDrop(b, k, ss[|ss| - 1]);
  }

  lemma DropDrop(b: bytes, k: nat, i: nat)
    requires k <= i <= |b|
    ensures b[k..][i - k..] == b[i..]
  {
  }

  /** What stays in the buffer is the input from the start of the open access unit. */
  lemma KeptSuffix(b: bytes, j: nat)
    requires j < |Starts(b, 0)|
    ensures Starts(b, 0)[j] <= |b| && j <= |Nals(b)|
    ensures Concat(Nals(b)[j..]) + Tail(b) == b[Starts(b, 0)[j]..]
  {
    hide Starts, Cut;
    var ss := Starts(b, 0);
    StartsAscend(b, 0);
    CutDrop(b, ss, j);
    CutContiguous(b, ss[j..]);
    var last := ss[|ss| - 1];
    assert b[ss[j]..last] + b[last..] == b[ss[j]..];
  }

  /** NAL units already whole stay as they are when bytes are added. */
  lemma NalsExtend(x: bytes, c: bytes) returns (more: seq<bytes>)
    requires Starts(x, 0) != []
    ensures |Starts(x, 0)| <= |Starts(x + c, 0)|
    ensures Starts(x + c, 0)[..|Starts(x, 0)|] == Starts(x, 0)
    ensures Nals(x + c) == Nals(x) + more
  {
    hide Starts, Cut;
    var ss := Starts(x, 0);
    var later := StartsExtend(x, c, 0);
    StartsAscend(x, 0);
    StartsAscend(x + c, 0);
    CutJoin(x + c, ss, later);
    CutExtend(x, c, ss);
    more := Cut(x + c, [ss[|ss| - 1]] + later);
  }

  /** Splitting what was kept together with new bytes goes on where the first split ended. */
  lemma {:induction false} SplitGoesOn(x: bytes, c: bytes)
    ensures var (u1, r1) := Split(x);
            var (u2, r2) := Split(r1 + c);
            Split(x + c) == (u1 + u2, r2)
  {
    hide GroupingInv, Flat, Cut, UnitOf, IsStart, Starts;
    if |Starts(x, 0)| < 2 {
      assert [] + Split(x + c).0 == Split(x + c).0;
    } else {
      var g, j := Grouped(x);
      KeptSuffix(x, j);
      var more := NalsExtend(x, c);
      var k := Starts(x, 0)[j];
      assert Starts(x + c, 0)[j] == k;
      NalsRestart(x + c, j);
      assert x[k..] + c == (x + c)[k..];
      Continued(g, more);
      hide Nals, Starts, AddAll, Tail, Units;
      assert Nals((x + c)[k..]) == g.current + more;
      assert Split(x) == (Units(g.closed), x[k..]);
      var g2 := AddAll(NOTHING, g.current + more);
      UnitsAppend(g.closed, g2.closed);
    }
  }

  lemma Continued(g: Grouping, more: seq<bytes>)
    requires g == AddAll(NOTHING, Flat(g.closed) + g.current) && GroupingInv(g)
    ensures var g2 := AddAll(NOTHING, g.current + more);
            AddAll(NOTHING, Flat(g.closed) + g.current + more) == g2.(closed := g.closed + g2.closed)
  {
    var reopened := Grouping([], g.current, g.hasVcl);
    assert g.current[..|g.current|] == g.current;
    Reopened(g, |g.current|);
    AddAllJoin(NOTHING, g.current, more);
    AddAllJoin(NOTHING, Flat(g.closed) + g.current, more);
    ClosedApart(g.closed, reopened, more);
    hide AddAll;
    assert g.closed + [] == g.closed;
  }

  // ----------------------------------------------------------- the pipe

  /** The reads of a pipe, one `push_bytes` each: all units, and the buffer at the end. */
  function PushAll(buf: bytes, slices: seq<bytes>): (seq<AccessUnit>, bytes)
    decreases |slices|
  {
    if slices == [] then ([], buf)
    else
      var (units, rest) := Split(buf + slices[0]);
      var (more, end) := PushAll(rest, slices[1..]);
      (units + more, end)
  }

  /** It does not matter how the pipe slices the stream: one read of it all gives the same. */
  lemma {:induction false} AnySlicing(buf: bytes, slices: seq<bytes>)
    requires slices != []
    ensures PushAll(buf, slices) == Split(buf + Concat(slices))
    decreases |slices|
  {
    hide Split;
    var first, rest := buf + slices[0], slices[1..];
    if rest == [] {
      assert buf + Concat(slices) == first;
      assert Split(first).0 + [] == Split(first).0;
    } else {
      var (units, kept) := Split(first);
      AnySlicing(kept, rest);
      SplitGoesOn(first, Concat(rest));
      assert buf + Concat(slices) == first + Concat(rest);
    }
  }

  /** Two slicings of the same stream give the same access units. */
  lemma SlicingsAgree(buf: bytes, slices1: seq<bytes>, slices2: seq<bytes>)
    requires slices1 != [] && slices2 != [] && Concat(slices1) == Concat(slices2)
    ensures PushAll(buf, slices1) == PushAll(buf, slices2)
  {
    AnySlicing(buf, slices1);
    AnySlicing(buf, slices2);
  }

  /**
    No byte after the first start code is lost or invented: the units given up
    and the rest are that part of the buffer, and nothing is dropped before
    two start codes are there.
    */
  lemma Conserved(b: bytes)
    ensures |Starts(b, 0)| < 2 ==> Split(b) == ([], b)
    ensures |Starts(b, 0)| >= 2 ==>
              var (units, rest) := Split(b);
              Starts(b, 0)[0] <= |b| && Data(units) + rest == b[Starts(b, 0)[0]..]
  {
    if |Starts(b, 0)| >= 2 {
      var g, j := Grouped(b);
      KeptSuffix(b, 0);
      assert Nals(b)[0..] == Nals(b);
      UnitsData(g.closed);
      ConcatAppend(Flat(g.closed), g.current);
      hide Nals, Starts, AddAll, Tail, Units, Flat;
      assert Concat(Flat(g.closed)) + (Concat(g.current) + Tail(b))
          == Concat(Flat(g.closed)) + Concat(g.current) + Tail(b);
    }
  }

  /**
    The whole NAL units of a buffer make up the access units given up and one
    that stays open. Each has at most one slice and opening types only in
    front, and a new one begins only where it must, so there is no other way
    to group them. The keyframe flag says whether a type 5 or 7 is inside.
    */
  lemma Shape(b: bytes) returns (groups: seq<seq<bytes>>, current: seq<bytes>)
    requires |Starts(b, 0)| >= 2
    ensures Nals(b) == Flat(groups) + current && current != []
    ensures Chain(groups + [current])
    ensures Split(b) == (Units(groups), Concat(current) + Tail(b))
    ensures |Units(groups)| == |groups|
    ensures forall k :: 0 <= k < |groups| ==>
              && Units(groups)[k].data == Concat(groups[k])
              && (Units(groups)[k].keyframe <==> exists n :: n in groups[k] && (Kind(n) == 5 || Kind(n) == 7))
    ensures ByNumbers(groups + [current])
  {
    var g, j := Grouped(b);
    groups, current := g.closed, g.current;
    UnitsEach(groups);
    ChainNumbers(groups + [current]);
    hide Nals, Starts, AddAll, Tail, Chain, Kind, ByNumbers;
  }

  // The same in the numbers of the types.

  ghost predicate OneByNumbers(g: seq<bytes>) {
    && g != []
    && (forall i :: 0 < i < |g| ==> Kind(g[i]) != 7 && Kind(g[i]) != 9)
    && (forall i, j :: 0 <= i < j < |g| ==> !(1 <= Kind(g[i]) <= 5 && 1 <= Kind(g[j]) <= 5))
  }

  ghost predicate SplitByNumbers(g: seq<bytes>, next: bytes) {
    || Kind(next) == 7 || Kind(next) == 9
    || (1 <= Kind(next) <= 5 && exists i :: 0 <= i < |g| && 1 <= Kind(g[i]) <= 5)
  }

  ghost predicate ByNumbers(groups: seq<seq<bytes>>) {
    && (forall k :: 0 <= k < |groups| ==> OneByNumbers(groups[k]))
    && (forall k :: 0 < k < |groups| ==> SplitByNumbers(groups[k - 1], groups[k][0]))
  }

  lemma OneNumbers(g: seq<bytes>)
    ensures OneUnit(g) <==> OneByNumbers(g)
  {
    hide Kind;
  }

  lemma SplitNumbers(g: seq<bytes>, next: bytes)
    ensures MustSplit(g, next) <==> SplitByNumbers(g, next)
  {
    hide Kind;
    if i :| 0 <= i < |g| && 1 <= Kind(g[i]) <= 5 {
      assert Vcl(g[i]);
    }
  }

  lemma ChainNumbers(groups: seq<seq<bytes>>)
    ensures Chain(groups) <==> ByNumbers(groups)
  {
    forall k | 0 <= k < |groups| ensures OneUnit(groups[k]) <==> OneByNumbers(groups[k]) {
      OneNumbers(groups[k]);
    }
    forall k | 0 < k < |groups| && groups[k] != []
      ensures MustSplit(groups[k - 1], groups[k][0]) <==> SplitByNumbers(groups[k - 1], groups[k][0])
    {
      SplitNumbers(groups[k - 1], groups[k][0]);
    }
    assert forall k :: 0 <= k < |groups| && OneUnit(groups[k]) ==> groups[k] != [];
    hide OneUnit, OneByNumbers, MustSplit, SplitByNumbers;
  }

  lemma {:induction false} UnitsEach(groups: seq<seq<bytes>>)
    ensures |Units(groups)| == |groups|
    ensures forall k :: 0 <= k < |groups| ==> Units(groups)[k] == UnitOf(groups[k])
    decreases |groups|
  {
    hide UnitOf;
    if groups != [] {
      UnitsEach(groups[1..]);
    }
  }

  /**
    End to end: whatever start codes an encoder chose and however the pipe
    slices the stream, the NAL units it wrote come out in the one grouping
    they have; the last group and the last one written wait for the next.
    */
  lemma EncodedStream(us: seq<Unit>, slices: seq<bytes>, groups: seq<seq<bytes>>, current: seq<bytes>)
    requires |us| >= 2 && forall u :: u in us ==> u.Legal()
    requires slices != [] && Concat(slices) == Written(us)
    requires Chain(groups + [current]) && Flat(groups + [current]) == Pieces(us[..|us| - 1])
    ensures PushAll([], slices) == (Units(groups), Concat(current) + us[|us| - 1].Piece())
  {
    hide Unit.Legal, Unit.Piece, AddAll, Units, PushAll, Chain, Flat;
    AnySlicing([], slices);
    assert [] + Written(us) == Written(us);
    RoundTrip(us);
    PositionsAfter(us, 0);
    WrittenLast([], us);
    TheChain(Pieces(us[..|us| - 1]), groups, current);
  }

  /** The grouping state after some NAL units is the one chain they form. */
  lemma TheChain(nals: seq<bytes>, groups: seq<seq<bytes>>, current: seq<bytes>)
    requires nals != [] && Chain(groups + [current]) && Flat(groups + [current]) == nals
    ensures var g := AddAll(NOTHING, nals); g.closed == groups && g.current == current
  {
    var g := AddAll(NOTHING, nals);
    NothingInv();
    AddAllInv(NOTHING, nals);
    AddAllFlat(NOTHING, nals);
    hide AddAll;
    assert [] + [] + nals == nals;
    FlatAppend(g.closed, [g.current]);
    assert Flat([g.current]) == g.current + [];
    hide Chain, Flat;
    ChainUnique(groups + [current], g.closed + [g.current]);
    assert (groups + [current])[..|groups|] == groups;
    assert (g.closed + [g.current])[..|g.closed|] == g.closed;
  }

  /** Such a grouping always exists. */
  lemma HasChain(nals: seq<bytes>) returns (groups: seq<seq<bytes>>, current: seq<bytes>)
    requires nals != []
    ensures Chain(groups + [current]) && Flat(groups + [current]) == nals
  {
    var g := AddAll(NOTHING, nals);
    groups, current := g.closed, g.current;
    NothingInv();
    AddAllInv(NOTHING, nals);
    AddAllFlat(NOTHING, nals);
    hide AddAll;
    assert [] + [] + nals == nals;
    FlatAppend(g.closed, [g.current]);
    assert Flat([g.current]) == g.current + [];
  }

  lemma {:induction false} WrittenLast(pre: bytes, us: seq<Unit>)
    requires us != []
    ensures var ss := Positions(us, |pre|);
            && |ss| == |us| && ss[|us| - 1] <= |pre + Written(us)|
            && (pre + Written(us))[ss[|us| - 1]..] == us[|us| - 1].Piece()
    decreases |us|
  {
    hide Unit.Piece;
    var u, rest := us[0], us[1..];
    if rest == [] {
      assert Written(us) == u.Piece() + [];
      assert Positions(us, |pre|) == [|pre|];
    } else {
      WrittenLast(pre + u.Piece(), rest);
      assert pre + Written(us) == pre + u.Piece() + Written(rest);
      assert Positions(us, |pre|) == [|pre|] + Positions(rest, |pre| + |u.Piece()|);
    }
  }
}
