/**
  Monitor layout. The compositor places monitors in logical units; the client
  shows them in pixels. `pixel_origins` places each monitor against the pixel
  edges of those wholly left of and above it, one axis at a time.
  */
module PixelLayout {
  import opened Bytes

  /** A display: its rectangle in logical units, and how many pixels wide and high its picture is. */
  datatype Region = Region(id: u32, x: i32, y: i32, width: u32, height: u32, pixelWidth: u32, pixelHeight: u32)

  // ------------------------------------------------------- logical sizes

  /** What Wayland told about an output. */
  datatype Output = Output(
    geometry: (i32, i32), mode: Option<(i32, i32)>, scale: i32,
    logicalPosition: Option<(i32, i32)>, logicalSize: Option<(i32, i32)>)

  /** Integer division that rounds towards zero. */
  function Quotient(a: int, b: int): int
    requires b > 0
  {
    if a >= 0 then a / b else -((-a) / b)
  }

  /** `logical_rect`: whatever an output reports, its logical size is at least 1 by 1. */
  function LogicalRect(o: Output): (r: (int, int, int, int))
    ensures r.2 >= 1 && r.3 >= 1
    ensures o.logicalSize.Some? && o.logicalSize.value.0 >= 1 && o.logicalSize.value.1 >= 1 ==>
              (r.2, r.3) == o.logicalSize.value
  {
    var (x, y) := if o.logicalPosition.Some? then o.logicalPosition.value else o.geometry;
    var (w, h) :=
      if o.logicalSize.Some? then o.logicalSize.value
      else
        var (w, h) := if o.mode.Some? then o.mode.value else (1920, 1080);
        var scale := Max(o.scale, 1);
        (Quotient(w, scale), Quotient(h, scale));
    (x, y, Max(w, 1), Max(h, 1))
  }

  lemma QuotientExact(a: int, b: int)
    requires b > 0 && a >= 0
    ensures Quotient(a, b) * b <= a < (Quotient(a, b) + 1) * b
  {
    assert a == b * (a / b) + a % b;
    assert (a / b + 1) * b == b * (a / b) + b;
  }

  /** Without a logical size the mode counts, divided by the scale and rounded down, and at least 1. */
  lemma ScaledMode(o: Output)
    requires o.logicalSize.None? && o.mode.Some?
    ensures var (x, y, w, h) := LogicalRect(o);
            var scale, mode := Max(o.scale, 1), o.mode.value;
            && (x, y) == (if o.logicalPosition.Some? then o.logicalPosition.value else o.geometry)
            && (if mode.0 < scale then w == 1 else w * scale <= mode.0 < (w + 1) * scale)
            && (if mode.1 < scale then h == 1 else h * scale <= mode.1 < (h + 1) * scale)
  {
    var scale, mode := Max(o.scale, 1), o.mode.value;
    SmallQuotient(mode.0, scale);
    SmallQuotient(mode.1, scale);
    hide Quotient;
  }

  /** The position is the logical one if there is one and that of the geometry otherwise, whatever else is reported. */
  lemma LogicalPosition(o: Output)
    ensures o.logicalPosition.Some? ==>
              LogicalRect(o).0 == o.logicalPosition.value.0 && LogicalRect(o).1 == o.logicalPosition.value.1
    ensures o.logicalPosition.None? ==> LogicalRect(o).0 == o.geometry.0 && LogicalRect(o).1 == o.geometry.1
  {
  }

  /** A reported size counts, each part of it below 1 becoming 1 by itself; without size and mode it is 1920 by 1080, scaled. */
  lemma LogicalSize(o: Output)
    ensures var (x, y, w, h) := LogicalRect(o);
            && (o.logicalSize.Some? ==>
                  && w == (if o.logicalSize.value.0 < 1 then 1 else o.logicalSize.value.0)
                  && h == (if o.logicalSize.value.1 < 1 then 1 else o.logicalSize.value.1))
            && (o.logicalSize.None? && o.mode.None? ==>
                  var scale := if o.scale < 1 then 1 else o.scale;
                  && (if 1920 < scale then w == 1 else w * scale <= 1920 < (w + 1) * scale)
                  && (if 1080 < scale then h == 1 else h * scale <= 1080 < (h + 1) * scale))
  {
    var scale := Max(o.scale, 1);
    SmallQuotient(1920, scale);
    SmallQuotient(1080, scale);
    hide Quotient;
  }

  lemma SmallQuotient(a: int, b: int)
    requires b > 0
    ensures a < b ==> Quotient(a, b) <= 0
    ensures a >= b ==> Quotient(a, b) >= 1 && Quotient(a, b) * b <= a < (Quotient(a, b) + 1) * b
  {
    if a >= b {
      QuotientExact(a, b);
    }
  }

  // ------------------------------------------------------------ one axis

  /** A region along one axis. */
  datatype Slot = Slot(start: int, len: nat, pixels: nat)

  /** Where a region with nothing before it goes; the program scales its start by a rounded ratio. */
  type Base = Slot -> int

  predicate Wholly(before: Slot, after: Slot) {
    before.start + before.len <= after.start
  }

  ghost predicate Placed(s: seq<Slot>, base: Base, p: seq<int>, i: nat)
    requires |p| == |s| && i < |s|
  {
    && (forall j :: 0 <= j < |s| && Wholly(s[j], s[i]) ==> p[j] + s[j].pixels <= p[i])
    && ((exists j :: 0 <= j < |s| && Wholly(s[j], s[i]) && p[j] + s[j].pixels == p[i])
        || ((forall j :: 0 <= j < |s| ==> !Wholly(s[j], s[i])) && p[i] == base(s[i])))
  }

  /**
    Every region is at the greatest right edge of all regions wholly before
    it, in whatever order they are listed; with none before it, at its base.
    */
  ghost predicate IsPlacement(s: seq<Slot>, base: Base, p: seq<int>) {
    |p| == |s| && forall i :: 0 <= i < |s| ==> Placed(s, base, p, i)
  }

  ghost predicate Extended(s: seq<Slot>) {
    forall i :: 0 <= i < |s| ==> s[i].len >= 1
  }

  // ------------------------------------------------------- the algorithm

  ghost predicate Sorted(s: seq<Slot>, order: seq<nat>) {
    && (forall k :: 0 <= k < |order| ==> order[k] < |s|)
    && (forall k, m :: 0 <= k < m < |order| ==> s[order[k]].start <= s[order[m]].start)
    && (forall k, m :: 0 <= k < m < |order| ==> order[k] != order[m])
  }

  /** The indices by ascending start: `sort_by_key`. */
  method SortByStart(s: seq<Slot>) returns (order: seq<nat>)
    ensures Sorted(s, order) && |order| == |s|
    ensures forall i :: 0 <= i < |s| ==> i in order
  {
    order := [];
    for i := 0 to |s|
      invariant |order| == i && Sorted(s, order)
      invariant forall k :: 0 <= k < |order| ==> order[k] < i
      invariant forall k :: 0 <= k < i ==> k in order
    {
      var at := |order|;
      while at > 0 && s[order[at - 1]].start > s[i].start
        invariant 0 <= at <= |order|
        invariant forall k :: at <= k < |order| ==> s[order[k]].start > s[i].start
      {
        at := at - 1;
      }
      InsertKeeps(s, order, at, i);
      order := Inserted(order, at, i);
    }
  }

  function Inserted(order: seq<nat>, at: nat, i: nat): (more: seq<nat>)
    requires at <= |order|
    ensures |more| == |order| + 1
    ensures forall k :: 0 <= k < at ==> more[k] == order[k]
    ensures more[at] == i
    ensures forall k :: at < k < |more| ==> more[k] == order[k - 1]
  {
    order[..at] + [i] + order[at..]
  }

  lemma InsertKeeps(s: seq<Slot>, order: seq<nat>, at: nat, i: nat)
    requires Sorted(s, order) && at <= |order| && i < |s|
    requires forall k :: 0 <= k < |order| ==> order[k] < i
    requires forall k :: at <= k < |order| ==> s[order[k]].start > s[i].start
    requires at > 0 ==> s[order[at - 1]].start <= s[i].start
    ensures Sorted(s, Inserted(order, at, i))
    ensures forall k :: k in Inserted(order, at, i) <==> k == i || k in order
  {
    assert forall k :: k in Inserted(order, at, i) <==> k == i || k in order by {
      assert order == order[..at] + order[at..];
    }
    hide Inserted;
    var more := Inserted(order, at, i);
    forall k, m | 0 <= k < m < |more| ensures s[more[k]].start <= s[more[m]].start && more[k] != more[m] {
      if k < at && at > 0 {
        assert s[order[k]].start <= s[order[at - 1]].start;
      }
    }
  }

  /** The greatest right edge among the regions of `earlier` that lie wholly before `i`. */
  method GreatestEdge(s: seq<Slot>, placed: array<int>, earlier: seq<nat>, i: nat) returns (edge: Option<int>)
    requires placed.Length == |s| && i < |s| && forall k :: 0 <= k < |earlier| ==> earlier[k] < |s|
    ensures edge.None? ==> forall j :: j in earlier && j < |s| ==> !Wholly(s[j], s[i])
    ensures edge.Some? ==>
              && (forall j :: j in earlier && j < |s| && Wholly(s[j], s[i]) ==> placed[j] + s[j].pixels <= edge.value)
              && (exists j :: j in earlier && j < |s| && Wholly(s[j], s[i]) && placed[j] + s[j].pixels == edge.value)
  {
    edge := None;
    for k := 0 to |earlier|
      invariant edge.None? ==> forall m :: 0 <= m < k ==> !Wholly(s[earlier[m]], s[i])
      invariant edge.Some? ==>
                  && (forall m :: 0 <= m < k && Wholly(s[earlier[m]], s[i]) ==>
                        placed[earlier[m]] + s[earlier[m]].pixels <= edge.value)
                  && (exists m :: 0 <= m < k && Wholly(s[earlier[m]], s[i])
                                  && placed[earlier[m]] + s[earlier[m]].pixels == edge.value)
    {
      var j := earlier[k];
      if Wholly(s[j], s[i]) && (edge.None? || placed[j] + s[j].pixels > edge.value) {
        edge := Some(placed[j] + s[j].pixels);
      }
    }
  }

  /** One axis of `pixel_origins`. */
  method PlaceAxis(s: seq<Slot>, base: Base) returns (placed: array<int>)
    requires Extended(s)
    ensures IsPlacement(s, base, placed[..])
  {
    var order := SortByStart(s);
    placed := new int[|s|](_ => 0);
    hide Placed, Wholly;
    for n := 0 to |order|
      invariant forall m :: 0 <= m < n ==> Placed(s, base, placed[..], order[m])
    {
      var i := order[n];
      ghost var was := placed[..];
      var edge := GreatestEdge(s, placed, order[..n], i);
      placed[i] := match edge case Some(e) => e case None => base(s[i]);
      AllEarlier(s, order, n);
      assert placed[..] == was[i := placed[i]];
      StillPlaced(s, base, was, order, n, placed[i]);
      NowPlaced(s, base, was, order, n, placed[i], edge);
    }
    forall i | 0 <= i < |s| ensures Placed(s, base, placed[..], i) {
      assert i in order;
      var m :| 0 <= m < |order| && order[m] == i;
    }
  }

  /** Whatever lies wholly before a region comes before it in the order. */
  lemma AllEarlier(s: seq<Slot>, order: seq<nat>, n: nat)
    requires Sorted(s, order) && n < |order| && Extended(s)
    requires forall i :: 0 <= i < |s| ==> i in order
    ensures forall j :: 0 <= j < |s| && Wholly(s[j], s[order[n]]) ==> j in order[..n]
    ensures order[n] !in order[..n]
  {
    forall j | 0 <= j < |s| && Wholly(s[j], s[order[n]]) ensures j in order[..n] {
      assert j in order;
      var m :| 0 <= m < |order| && order[m] == j;
      assert s[order[m]].start < s[order[n]].start;
    }
  }

  lemma StillPlaced(s: seq<Slot>, base: Base, was: seq<int>, order: seq<nat>, n: nat, v: int)
    requires Sorted(s, order) && n < |order| && Extended(s) && |was| == |s|
    requires forall i :: 0 <= i < |s| ==> i in order
    requires forall m :: 0 <= m < n ==> Placed(s, base, was, order[m])
    ensures forall m :: 0 <= m < n ==> Placed(s, base, was[order[n] := v], order[m])
  {
    forall m | 0 <= m < n ensures Placed(s, base, was[order[n] := v], order[m]) {
      var now := was[order[n] := v];
      assert !Wholly(s[order[n]], s[order[m]]);
      assert forall j :: 0 <= j < |s| && j != order[n] ==> now[j] == was[j];
      if j :| 0 <= j < |s| && Wholly(s[j], s[order[m]]) && was[j] + s[j].pixels == was[order[m]] {
        assert now[j] + s[j].pixels == now[order[m]];
      }
    }
  }

  lemma NowPlaced(s: seq<Slot>, base: Base, was: seq<int>, order: seq<nat>, n: nat, v: int, edge: Option<int>)
    requires Sorted(s, order) && n < |order| && Extended(s) && |was| == |s|
    requires forall j :: 0 <= j < |s| && Wholly(s[j], s[order[n]]) ==> j in order[..n]
    requires order[n] !in order[..n]
    requires edge.None? ==> v == base(s[order[n]]) && forall j :: j in order[..n] && j < |s| ==> !Wholly(s[j], s[order[n]])
    requires edge.Some? ==>
               && v == edge.value
               && (forall j :: j in order[..n] && j < |s| && Wholly(s[j], s[order[n]]) ==> was[j] + s[j].pixels <= v)
               && (exists j :: j in order[..n] && j < |s| && Wholly(s[j], s[order[n]]) && was[j] + s[j].pixels == v)
    ensures Placed(s, base, was[order[n] := v], order[n])
  {
    var i, now := order[n], was[order[n] := v];
    assert forall j :: 0 <= j < |s| && j != i ==> now[j] == was[j];
    if edge.Some? {
      var j :| j in order[..n] && j < |s| && Wholly(s[j], s[i]) && was[j] + s[j].pixels == v;
      assert now[j] + s[j].pixels == now[i];
    }
  }

  // ------------------------------------------------------------ properties

  /** There is only one placement: the order the program visits regions in does not show. */
  lemma {:induction false} OnePlacement(s: seq<Slot>, base: Base, p: seq<int>, q: seq<int>)
    requires Extended(s) && IsPlacement(s, base, p) && IsPlacement(s, base, q)
    ensures p == q
  {
    if s != [] {
      var low := Lowest(s);
      forall i | 0 <= i < |s| ensures p[i] == q[i] {
        SamePlace(s, base, p, q, low, i);
      }
    }
  }

  lemma {:induction false} Lowest(s: seq<Slot>) returns (low: int)
    requires s != []
    ensures forall i :: 0 <= i < |s| ==> low <= s[i].start
    decreases |s|
  {
    low := s[0].start;
    if |s| > 1 {
      var rest := Lowest(s[1..]);
      low := Min(low, rest);
      assert forall i :: 0 < i < |s| ==> s[i] == s[1..][i - 1];
    }
  }

  lemma {:induction false} SamePlace(s: seq<Slot>, base: Base, p: seq<int>, q: seq<int>, low: int, i: nat)
    requires Extended(s) && IsPlacement(s, base, p) && IsPlacement(s, base, q)
    requires i < |s| && forall j :: 0 <= j < |s| ==> low <= s[j].start
    ensures p[i] == q[i]
    decreases s[i].start - low
  {
    assert Placed(s, base, p, i) && Placed(s, base, q, i);
    if j :| 0 <= j < |s| && Wholly(s[j], s[i]) && p[j] + s[j].pixels == p[i] {
      SamePlace(s, base, p, q, low, j);
    }
    if j :| 0 <= j < |s| && Wholly(s[j], s[i]) && q[j] + s[j].pixels == q[i] {
      SamePlace(s, base, p, q, low, j);
    }
  }

  /** Listing the regions in another order lists the same places in that order. */
  lemma {:induction false} PermutedPlacement(
    s: seq<Slot>, t: seq<Slot>, sigma: seq<nat>, base: Base, p: seq<int>, q: seq<int>)
    requires Extended(s) && IsPlacement(s, base, p) && IsPlacement(t, base, q)
    requires |t| == |s| == |sigma|
    requires forall i :: 0 <= i < |t| ==> sigma[i] < |s| && t[i] == s[sigma[i]]
    requires forall k :: 0 <= k < |s| ==> k in sigma
    ensures forall i :: 0 <= i < |t| ==> q[i] == p[sigma[i]]
  {
    var moved := seq(|t|, i requires 0 <= i < |t| => p[sigma[i]]);
    forall i | 0 <= i < |t| ensures Placed(t, base, moved, i) {
      assert Placed(s, base, p, sigma[i]);
      if j :| 0 <= j < |s| && Wholly(s[j], s[sigma[i]]) && p[j] + s[j].pixels == p[sigma[i]] {
        assert j in sigma;
        var m :| 0 <= m < |sigma| && sigma[m] == j;
        assert Wholly(t[m], t[i]) && moved[m] + t[m].pixels == moved[i];
      }
    }
    OnePlacement(t, base, q, moved);
  }

  /** The pixels of all regions that end at or before `end`. */
  function PixelsBefore(s: seq<Slot>, end: int): nat {
    if s == [] then 0
    else (if s[0].start + s[0].len <= end then s[0].pixels else 0) + PixelsBefore(s[1..], end)
  }

  function AllPixels(s: seq<Slot>): nat {
    if s == [] then 0 else s[0].pixels + AllPixels(s[1..])
  }

  lemma {:induction false} OneMoreBefore(s: seq<Slot>, j: nat, lo: int, hi: int)
    requires j < |s| && lo <= hi && lo < s[j].start + s[j].len <= hi
    ensures PixelsBefore(s, lo) + s[j].pixels <= PixelsBefore(s, hi)
    decreases |s|
  {
    if j > 0 {
      OneMoreBefore(s[1..], j - 1, lo, hi);
    } else {
      MoreBefore(s[1..], lo, hi);
    }
  }

  lemma {:induction false} MoreBefore(s: seq<Slot>, lo: int, hi: int)
    requires lo <= hi
    ensures PixelsBefore(s, lo) <= PixelsBefore(s, hi)
    decreases |s|
  {
    if s != [] {
      MoreBefore(s[1..], lo, hi);
    }
  }

  lemma {:induction false} NotAll(s: seq<Slot>, i: nat)
    requires i < |s| && Extended(s)
    ensures PixelsBefore(s, s[i].start) + s[i].pixels <= AllPixels(s)
    decreases |s|
  {
    SomePixels(s[1..], s[i].start);
    if i > 0 {
      assert Extended(s[1..]);
      NotAll(s[1..], i - 1);
    }
  }

  lemma {:induction false} SomePixels(s: seq<Slot>, end: int)
    ensures PixelsBefore(s, end) <= AllPixels(s)
    decreases |s|
  {
    if s != [] {
      SomePixels(s[1..], end);
    }
  }

  lemma {:induction false} PlacedBelow(s: seq<Slot>, base: Base, p: seq<int>, least: int, most: int, low: int, i: nat)
    requires Extended(s) && IsPlacement(s, base, p) && i < |s|
    requires forall j :: 0 <= j < |s| ==> low <= s[j].start && least <= base(s[j]) <= most
    ensures least <= p[i] <= most + PixelsBefore(s, s[i].start)
    decreases s[i].start - low
  {
    assert Placed(s, base, p, i);
    if j :| 0 <= j < |s| && Wholly(s[j], s[i]) && p[j] + s[j].pixels == p[i] {
      PlacedBelow(s, base, p, least, most, low, j);
      OneMoreBefore(s, j, s[j].start, s[i].start);
    }
  }

  /**
    No place is lower than the lowest base, and no edge goes beyond the highest
    base by more than all pixels together: while those are below 2^31, every
    place and every edge fits the program's 32 bits.
    */
  lemma PlacesBounded(s: seq<Slot>, base: Base, p: seq<int>, least: int, most: int)
    requires Extended(s) && IsPlacement(s, base, p)
    requires forall j :: 0 <= j < |s| ==> least <= base(s[j]) <= most
    ensures forall i :: 0 <= i < |s| ==> least <= p[i] <= p[i] + s[i].pixels <= most + AllPixels(s)
  {
    if s != [] {
      var low := Lowest(s);
      forall i | 0 <= i < |s| ensures least <= p[i] <= p[i] + s[i].pixels <= most + AllPixels(s) {
        PlacedBelow(s, base, p, least, most, low, i);
        NotAll(s, i);
      }
    }
  }

  // ---------------------------------------------------------- both axes

  function XSlot(r: Region): Slot {
    Slot(r.x, r.width, r.pixelWidth)
  }

  function YSlot(r: Region): Slot {
    Slot(r.y, r.height, r.pixelHeight)
  }

  function XSlots(rs: seq<Region>): (s: seq<Slot>)
    ensures |s| == |rs| && forall i :: 0 <= i < |rs| ==> s[i] == XSlot(rs[i])
  {
    seq(|rs|, i requires 0 <= i < |rs| => XSlot(rs[i]))
  }

  function YSlots(rs: seq<Region>): (s: seq<Slot>)
    ensures |s| == |rs| && forall i :: 0 <= i < |rs| ==> s[i] == YSlot(rs[i])
  {
    seq(|rs|, i requires 0 <= i < |rs| => YSlot(rs[i]))
  }

  ghost predicate Sized(rs: seq<Region>) {
    forall i :: 0 <= i < |rs| ==> rs[i].width >= 1 && rs[i].height >= 1
  }

  function Lefts(origins: seq<(int, int)>): (xs: seq<int>)
    ensures |xs| == |origins| && forall i :: 0 <= i < |origins| ==> xs[i] == origins[i].0
  {
    seq(|origins|, i requires 0 <= i < |origins| => origins[i].0)
  }

  function Tops(origins: seq<(int, int)>): (ys: seq<int>)
    ensures |ys| == |origins| && forall i :: 0 <= i < |origins| ==> ys[i] == origins[i].1
  {
    seq(|origins|, i requires 0 <= i < |origins| => origins[i].1)
  }

  /** Each axis is placed by itself. */
  ghost predicate IsLayout(rs: seq<Region>, base: Base, origins: seq<(int, int)>) {
    IsPlacement(XSlots(rs), base, Lefts(origins)) && IsPlacement(YSlots(rs), base, Tops(origins))
  }

  /** `pixel_origins`. */
  method PixelOrigins(rs: seq<Region>, base: Base) returns (origins: seq<(int, int)>)
    requires Sized(rs)
    ensures |origins| == |rs| && IsLayout(rs, base, origins)
  {
    var px := PlaceAxis(XSlots(rs), base);
    ghost var xs := px[..];
    var py := PlaceAxis(YSlots(rs), base);
    ghost var ys := py[..];
    origins := [];
    for i := 0 to |rs|
      invariant px[..] == xs
      invariant |origins| == i && forall k :: 0 <= k < i ==> origins[k] == (xs[k], ys[k])
    {
      origins := origins + [(px[i], py[i])];
    }
    assert Lefts(origins) == xs && Tops(origins) == ys;
  }

  predicate Inside(x: int, y: int, left: int, top: int, width: nat, height: nat) {
    left <= x < left + width && top <= y < top + height
  }

  /** No point of the logical layout belongs to both regions. */
  ghost predicate Disjoint(a: Region, b: Region) {
    forall x, y :: !(Inside(x, y, a.x, a.y, a.width, a.height) && Inside(x, y, b.x, b.y, b.width, b.height))
  }

  /** Disjoint regions lie beside or above each other. */
  lemma Apart(a: Region, b: Region)
    requires a.width >= 1 && a.height >= 1 && b.width >= 1 && b.height >= 1 && Disjoint(a, b)
    ensures Wholly(XSlot(a), XSlot(b)) || Wholly(XSlot(b), XSlot(a))
         || Wholly(YSlot(a), YSlot(b)) || Wholly(YSlot(b), YSlot(a))
  {
    var x, y := Max(a.x, b.x), Max(a.y, b.y);
    assert !(Inside(x, y, a.x, a.y, a.width, a.height) && Inside(x, y, b.x, b.y, b.width, b.height));
  }

  /**
    Whatever the scales: monitors that do not overlap in the logical layout do
    not overlap in the pixel layout, and what was wholly left of or above
    another stays so.
    */
  lemma PixelsDisjoint(rs: seq<Region>, base: Base, origins: seq<(int, int)>, i: nat, j: nat, px: int, py: int)
    requires Sized(rs) && |origins| == |rs| && IsLayout(rs, base, origins)
    requires i < |rs| && j < |rs| && Disjoint(rs[i], rs[j])
    ensures rs[i].x + rs[i].width <= rs[j].x ==> origins[i].0 + rs[i].pixelWidth <= origins[j].0
    ensures rs[i].y + rs[i].height <= rs[j].y ==> origins[i].1 + rs[i].pixelHeight <= origins[j].1
    ensures !(Inside(px, py, origins[i].0, origins[i].1, rs[i].pixelWidth, rs[i].pixelHeight)
              && Inside(px, py, origins[j].0, origins[j].1, rs[j].pixelWidth, rs[j].pixelHeight))
  {
    Apart(rs[i], rs[j]);
    assert Placed(XSlots(rs), base, Lefts(origins), i) && Placed(XSlots(rs), base, Lefts(origins), j);
    assert Placed(YSlots(rs), base, Tops(origins), i) && Placed(YSlots(rs), base, Tops(origins), j);
    assert XSlots(rs)[i] == XSlot(rs[i]) && XSlots(rs)[j] == XSlot(rs[j]);
    assert YSlots(rs)[i] == YSlot(rs[i]) && YSlots(rs)[j] == YSlot(rs[j]);
  }

  /** The layout is determined by the regions. */
  lemma OneLayout(rs: seq<Region>, base: Base, origins1: seq<(int, int)>, origins2: seq<(int, int)>)
    requires Sized(rs) && IsLayout(rs, base, origins1) && IsLayout(rs, base, origins2)
    ensures origins1 == origins2
  {
    OnePlacement(XSlots(rs), base, Lefts(origins1), Lefts(origins2));
    OnePlacement(YSlots(rs), base, Tops(origins1), Tops(origins2));
    forall i | 0 <= i < |rs| ensures origins1[i] == origins2[i] {
      assert Lefts(origins1)[i] == Lefts(origins2)[i] && Tops(origins1)[i] == Tops(origins2)[i];
    }
  }
}
