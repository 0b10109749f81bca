/**
  `push_bytes` as the program runs it, on positions in a buffer that it grows
  and drains in place.
  */
module PushBytes {
  import opened Bytes
  import opened ByteVecs
  import opened AnnexB
  import opened AccessUnits

  /** The window between two start codes. */
  datatype Span = Span(start: nat, end: nat)

  /** `nal_type`, which looks at the whole buffer. */
  function NalType(b: bytes, start: nat): nat {
    var header := if start + 2 < |b| && b[start + 2] == 1 then start + 3 else start + 4;
    if header < |b| then b[header] % 0x20 else 0
  }

  /** Between two start codes the type depends on the unit's own bytes only. */
  lemma NalTypeIsKind(b: bytes, start: nat, end: nat)
    requires IsStart(b, start) && IsStart(b, end) && start < end
    ensures NalType(b, start) == Kind(b[start..end])
  {
  }

  ghost predicate Side(b: bytes, spans: seq<Span>) {
    && (forall i :: 0 <= i < |spans| ==> spans[i].start < spans[i].end < |b|)
    && (forall i :: 0 <= i < |spans| ==> IsStart(b, spans[i].start) && IsStart(b, spans[i].end))
    && (forall i :: 0 < i < |spans| ==> spans[i - 1].end == spans[i].start)
  }

  ghost function Slices(b: bytes, spans: seq<Span>): (r: seq<bytes>)
    requires Side(b, spans)
    ensures |r| == |spans|
    ensures forall i :: 0 <= i < |spans| ==> r[i] == b[spans[i].start..spans[i].end]
  {
    if spans == [] then []
    else
      var n := |spans| - 1;
      Slices(b, spans[..n]) + [b[spans[n].start..spans[n].end]]
  }

  ghost predicate Mirrors(b: bytes, groups: seq<seq<Span>>, slices: seq<seq<bytes>>) {
    && |groups| == |slices|
    && forall k :: 0 <= k < |groups| ==> groups[k] != [] && Side(b, groups[k]) && slices[k] == Slices(b, groups[k])
  }

  lemma {:induction false} SlicesContiguous(b: bytes, spans: seq<Span>)
    requires Side(b, spans) && spans != []
    ensures spans[0].start < spans[|spans| - 1].end < |b|
    ensures Concat(Slices(b, spans)) == b[spans[0].start..spans[|spans| - 1].end]
    decreases |spans|
  {
    hide IsStart;
    var n := |spans| - 1;
    var last := b[spans[n].start..spans[n].end];
    assert Slices(b, spans) == Slices(b, spans[..n]) + [last];
    ConcatAppend(Slices(b, spans[..n]), [last]);
    assert Concat([last]) == last + [];
    if n == 0 {
      assert Slices(b, spans[..0]) == [];
      assert [] + [last] == [last];
    } else {
      SlicesContiguous(b, spans[..n]);
      assert b[spans[0].start..spans[n].start] + last == b[spans[0].start..spans[n].end];
    }
  }

  /** A span of spans, cut out and flagged, is the access unit of its slices. */
  method UnitFrom(b: bytes, group: seq<Span>) returns (unit: AccessUnit)
    requires Side(b, group) && group != []
    ensures unit == UnitOf(Slices(b, group)) && unit.data != []
  {
    var begin := group[0].start;
    var end := group[|group| - 1].end;
    SlicesContiguous(b, group);
    var data := b[begin..end];
    var keyframe := exists i :: 0 <= i < |group| && (NalType(b, group[i].start) == 5 || NalType(b, group[i].start) == 7);
    ghost var slices := Slices(b, group);
    forall i | 0 <= i < |group| ensures NalType(b, group[i].start) == Kind(slices[i]) {
      NalTypeIsKind(b, group[i].start, group[i].end);
    }
    if keyframe {
      var i :| 0 <= i < |group| && (NalType(b, group[i].start) == 5 || NalType(b, group[i].start) == 7);
      assert slices[i] in slices && Key(slices[i]);
    }
    hide NalType, Kind;
    assert keyframe <==> exists n :: n in slices && Key(n);
    unit := AccessUnit(keyframe, data);
  }

  method UnitsFrom(b: bytes, groups: seq<seq<Span>>, ghost slices: seq<seq<bytes>>) returns (units: seq<AccessUnit>)
    requires Mirrors(b, groups, slices)
    ensures units == Units(slices)
  {
    hide UnitOf, Slices, Side;
    units := [];
    assert slices[..0] == [];
    for k := 0 to |groups|
      invariant units == Units(slices[..k])
    {
      var unit := UnitFrom(b, groups[k]);
      assert slices[..k + 1] == slices[..k] + [slices[k]];
      UnitsAppend(slices[..k], [slices[k]]);
      assert Units([slices[k]]) == [UnitOf(slices[k])];
      if unit.data != [] {
        units := units + [unit];
      }
    }
    assert slices[..|groups|] == slices;
  }

  /** The positions collected so far are the grouping of the units seen so far. */
  ghost predicate Agree(b: bytes, groups: seq<seq<Span>>, current: seq<Span>, hasVcl: bool, g: Grouping) {
    && Mirrors(b, groups, g.closed)
    && Side(b, current) && g.current == Slices(b, current)
    && hasVcl == g.hasVcl
  }

  /** The body of the loop over the windows: closes a group where a new access unit begins. */
  method GroupStep(b: bytes, groups: seq<seq<Span>>, current: seq<Span>, hasVcl: bool, s: Span, ghost g: Grouping)
    returns (groups': seq<seq<Span>>, current': seq<Span>, hasVcl': bool)
    requires Agree(b, groups, current, hasVcl, g)
    requires s.start < s.end < |b| && IsStart(b, s.start) && IsStart(b, s.end)
    requires current != [] ==> current[|current| - 1].end == s.start
    ensures Agree(b, groups', current', hasVcl', Add(g, b[s.start..s.end]))
    ensures current' != [] && current'[|current'| - 1].end == s.end
  {
    NalTypeIsKind(b, s.start, s.end);
    ghost var nal := b[s.start..s.end];
    if current != [] && (Opens(nal) || (Vcl(nal) && hasVcl)) {
      AgreeNew(b, groups, current, hasVcl, s, g);
    } else {
      AgreeGrow(b, groups, current, hasVcl, s, g);
    }
    hide IsStart, NalType, Kind, Agree, Add;
    groups', current', hasVcl' := groups, current, hasVcl;
    var kind := NalType(b, s.start);
    var vcl := 1 <= kind <= 5;
    var boundary := kind == 9 || kind == 7 || (vcl && hasVcl);
    if boundary && current != [] {
      groups' := groups + [current];
      current' := [];
      hasVcl' := false;
      assert current' + [s] == [s];
    }
    if vcl {
      hasVcl' := true;
    }
    current' := current' + [s];
  }

  lemma AgreeNew(b: bytes, groups: seq<seq<Span>>, current: seq<Span>, hasVcl: bool, s: Span, g: Grouping)
    requires Agree(b, groups, current, hasVcl, g) && current != []
    requires s.start < s.end < |b| && IsStart(b, s.start) && IsStart(b, s.end)
    requires Opens(b[s.start..s.end]) || (Vcl(b[s.start..s.end]) && hasVcl)
    ensures Agree(b, groups + [current], [s], Vcl(b[s.start..s.end]), Add(g, b[s.start..s.end]))
  {
    hide IsStart, Side, Slices, Mirrors, Vcl, Opens;
    MirrorsNext(b, groups, g.closed, current);
    SlicesNone(b);
    SlicesNext(b, [], s);
    SlicesSame(b, current, g);
  }

  lemma SlicesSame(b: bytes, current: seq<Span>, g: Grouping)
    requires Side(b, current) && g.current == Slices(b, current)
    ensures current == [] <==> g.current == []
  {
  }

  lemma AgreeGrow(b: bytes, groups: seq<seq<Span>>, current: seq<Span>, hasVcl: bool, s: Span, g: Grouping)
    requires Agree(b, groups, current, hasVcl, g)
    requires s.start < s.end < |b| && IsStart(b, s.start) && IsStart(b, s.end)
    requires current != [] ==> current[|current| - 1].end == s.start
    requires current == [] || !(Opens(b[s.start..s.end]) || (Vcl(b[s.start..s.end]) && hasVcl))
    ensures Agree(b, groups, current + [s], hasVcl || Vcl(b[s.start..s.end]), Add(g, b[s.start..s.end]))
  {
    hide IsStart, Side, Slices, Mirrors, Vcl, Opens;
    SlicesNext(b, current, s);
    SlicesSame(b, current, g);
  }

  method Group(b: bytes, starts: seq<nat>) returns (groups: seq<seq<Span>>, current: seq<Span>, ghost g: Grouping)
    requires starts == Starts(b, 0) && |starts| >= 2
    ensures g == AddAll(NOTHING, Nals(b))
    ensures Mirrors(b, groups, g.closed) && Side(b, current) && g.current == Slices(b, current)
    ensures current != [] && current[|current| - 1].end == starts[|starts| - 1]
  {
    groups, current := [], [];
    var hasVcl := false;
    g := NOTHING;
    Begun(b);
    hide Agree, Nals, AddAll, Add, IsStart, Starts;
    for w := 0 to |starts| - 1
      invariant w <= |Nals(b)| == |starts| - 1
      invariant g == AddAll(NOTHING, Nals(b)[..w])
      invariant Agree(b, groups, current, hasVcl, g)
      invariant current != [] ==> current[|current| - 1].end == starts[w]
      invariant w > 0 ==> current != []
    {
      NextNal(b, w);
      var s := Span(starts[w], starts[w + 1]);
      groups, current, hasVcl := GroupStep(b, groups, current, hasVcl, s, g);
      g := Add(g, b[s.start..s.end]);
    }
    assert Nals(b)[..|starts| - 1] == Nals(b);
    AgreeMeans(b, groups, current, hasVcl, g);
  }

  lemma AgreeMeans(b: bytes, groups: seq<seq<Span>>, current: seq<Span>, hasVcl: bool, g: Grouping)
    requires Agree(b, groups, current, hasVcl, g)
    ensures Mirrors(b, groups, g.closed) && Side(b, current) && g.current == Slices(b, current)
  {
  }

  lemma Begun(b: bytes)
    requires |Starts(b, 0)| >= 2
    ensures Agree(b, [], [], false, NOTHING)
    ensures |Nals(b)| == |Starts(b, 0)| - 1 && AddAll(NOTHING, Nals(b)[..0]) == NOTHING
  {
    StartsAscend(b, 0);
    CutCount(b, Starts(b, 0));
  }

  lemma SlicesNone(b: bytes)
    ensures Side(b, []) && Slices(b, []) == []
  {
  }

  lemma MirrorsNext(b: bytes, groups: seq<seq<Span>>, slices: seq<seq<bytes>>, group: seq<Span>)
    requires Mirrors(b, groups, slices) && Side(b, group) && group != []
    ensures Mirrors(b, groups + [group], slices + [Slices(b, group)])
  {
    hide Side, Slices;
  }

  lemma NextNal(b: bytes, w: nat)
    requires w + 1 < |Starts(b, 0)|
    ensures w < |Nals(b)|
    ensures var start, end := Starts(b, 0)[w], Starts(b, 0)[w + 1];
            && start < end < |b| && IsStart(b, start) && IsStart(b, end)
            && Nals(b)[w] == b[start..end]
            && AddAll(NOTHING, Nals(b)[..w + 1]) == Add(AddAll(NOTHING, Nals(b)[..w]), b[start..end])
  {
    hide IsStart, NalType, Kind, Add;
    var ss := Starts(b, 0);
    StartsAscend(b, 0);
    StartsFrom(b, 0, w);
    StartsFrom(b, 0, w + 1);
    CutDrop(b, ss, w);
    var nals := Nals(b);
    assert nals[w..][0] == nals[w];
    assert nals[..w + 1] == nals[..w] + [nals[w]];
    AddAllJoin(NOTHING, nals[..w], [nals[w]]);
  }

  lemma SlicesNext(b: bytes, spans: seq<Span>, s: Span)
    requires Side(b, spans)
    requires s.start < s.end < |b| && IsStart(b, s.start) && IsStart(b, s.end)
    requires spans != [] ==> spans[|spans| - 1].end == s.start
    ensures Side(b, spans + [s]) && Slices(b, spans + [s]) == Slices(b, spans) + [b[s.start..s.end]]
    ensures spans == [] ==> [] + [s] == [s]
  {
    hide IsStart;
    var more := spans + [s];
    assert more[..|spans|] == spans;
  }

  /** `push_bytes`: one read of the pipe. */
  method Push(buf: ByteVec, incoming: bytes) returns (units: seq<AccessUnit>)
    modifies buf
    ensures (units, buf.contents) == Split(old(buf.contents) + incoming)
  {
    if |incoming| != 0 {
      buf.Extend(incoming);
    }
    var b := buf.contents;
    assert b == old(buf.contents) + incoming;
    var starts := StartCodes(b);
    if |starts| < 2 {
      return [];
    }
    var groups, current, g := Group(b, starts);
    var keepFrom := current[0].start;
    units := UnitsFrom(b, groups, g.closed);
    Kept(b, current, g);
    if 0 < keepFrom <= |b| {
      buf.DrainFront(keepFrom);
    }
  }

  /** What is kept: the open group and the growing unit after it. */
  lemma Kept(b: bytes, current: seq<Span>, g: Grouping)
    requires |Starts(b, 0)| >= 2 && g == AddAll(NOTHING, Nals(b))
    requires Side(b, current) && g.current == Slices(b, current)
    requires current != [] && current[|current| - 1].end == Starts(b, 0)[|Starts(b, 0)| - 1]
    ensures current[0].start <= |b|
    ensures Split(b) == (Units(g.closed), b[current[0].start..])
  {
    hide Nals, Starts, AddAll, Units, Ascending, IsStart, Slices;
    SlicesContiguous(b, current);
    hide Side, Concat;
    var first, last := current[0].start, current[|current| - 1].end;
    assert Tail(b) == b[last..];
    hide Tail;
    Rejoin(b, first, last);
  }

  lemma Rejoin(b: bytes, first: nat, last: nat)
    requires first <= last <= |b|
    ensures b[first..last] + b[last..] == b[first..]
  {
  }
}
