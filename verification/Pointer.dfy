/**
  Pointer positions: a pixel of a display becomes a position on one absolute
  device that spans all displays, in eighths of a logical unit.
  */
module Pointer {
  import opened Arithmetic
  import opened Bytes
  import opened PixelLayout

  const SUBPIXEL: nat := 8

  /** `Region::to_layout` on one axis. */
  function ToAxis(start: int, len: nat, pixels: nat, x: nat): int {
    start * SUBPIXEL + x * len * SUBPIXEL / Max(pixels, 1)
  }

  function ToLayout(r: Region, x: nat, y: nat): (int, int) {
    (ToAxis(r.x, r.width, r.pixelWidth, x), ToAxis(r.y, r.height, r.pixelHeight, y))
  }

  // The program computes positions in 64-bit integers. In a release build an
  // overflow wraps.

  function Wrap64(v: int): int {
    (v + 0x8000_0000_0000_0000) % 0x1_0000_0000_0000_0000 - 0x8000_0000_0000_0000
  }

  function ToAxis64(start: int, len: nat, pixels: nat, x: nat): int {
    Wrap64(start * SUBPIXEL + Quotient(Wrap64(x * len * SUBPIXEL), Max(pixels, 1)))
  }

  function ToLayout64(r: Region, x: nat, y: nat): (int, int) {
    (ToAxis64(r.x, r.width, r.pixelWidth, x), ToAxis64(r.y, r.height, r.pixelHeight, y))
  }

  /** Neither the product nor the sum overflows. */
  predicate Fits64(start: int, len: nat, pixels: nat, x: nat) {
    && x * len * SUBPIXEL < 0x8000_0000_0000_0000
    && -0x8000_0000_0000_0000 <= ToAxis(start, len, pixels, x) < 0x8000_0000_0000_0000
  }

  predicate MoveFits(r: Region, x: nat, y: nat) {
    Fits64(r.x, r.width, r.pixelWidth, x) && Fits64(r.y, r.height, r.pixelHeight, y)
  }

  lemma WrapFits(v: int)
    requires -0x8000_0000_0000_0000 <= v < 0x8000_0000_0000_0000
    ensures Wrap64(v) == v
  {
  }

  lemma AxisFits(start: int, len: nat, pixels: nat, x: nat)
    requires Fits64(start, len, pixels, x)
    ensures ToAxis64(start, len, pixels, x) == ToAxis(start, len, pixels, x)
  {
    WrapFits(x * len * SUBPIXEL);
    WrapFits(ToAxis(start, len, pixels, x));
    hide Wrap64;
  }

  lemma LayoutFits(r: Region, x: nat, y: nat)
    requires MoveFits(r, x, y)
    ensures ToLayout64(r, x, y) == ToLayout(r, x, y)
  {
    hide ToAxis64, ToAxis, Fits64;
    AxisFits(r.x, r.width, r.pixelWidth, x);
    AxisFits(r.y, r.height, r.pixelHeight, y);
  }

  function Clamp(v: int, lo: int, hi: int): int
    requires lo <= hi
  {
    if v < lo then lo else if v > hi then hi else v
  }

  /** The `as i32` cast of a position: it wraps. */
  function Narrow(v: int): i32 {
    CastI32(v % 0x1_0000_0000)
  }

  lemma NarrowSmall(v: nat)
    ensures v < 0x8000_0000 ==> Narrow(v) == v
  {
  }

  lemma NarrowInjective(v: nat, w: nat)
    requires v < 0x1_0000_0000 && w < 0x1_0000_0000 && v != w
    ensures Narrow(v) != Narrow(w)
  {
  }

  /** The device, as far as pointer moves use it. */
  class UinputDevice {
    const regions: map<u32, Region>
    const minX: int
    const minY: int
    const maxX: int
    const maxY: int

    ghost predicate Valid() {
      minX <= maxX && minY <= maxY
    }

    /** `open`: the bounding box of all regions and the regions by id; the last of an id stays. */
    constructor (rs: seq<Region>)
      ensures Valid() && regions == ById(rs)
      ensures Bounding(XSlots(rs), minX, maxX) && Bounding(YSlots(rs), minY, maxY)
    {
      var lowX, highX := Extent(XSlots(rs));
      var lowY, highY := Extent(YSlots(rs));
      minX, maxX, minY, maxY := lowX, highX, lowY, highY;
      regions := ById(rs);
    }

    /** The position `apply` writes for a pointer move. */
    method MoveTo(displayId: u32, x: u32, y: u32) returns (gx: i32, gy: i32)
      requires Valid()
      ensures (gx, gy) == Written(this, displayId, x, y)
      ensures maxX - minX < 0x8000_0000 ==> 0 <= gx <= maxX - minX
      ensures maxY - minY < 0x8000_0000 ==> 0 <= gy <= maxY - minY
      ensures maxX - minX < 0x8000_0000 && maxY - minY < 0x8000_0000 &&
              (displayId in regions ==> MoveFits(regions[displayId], x, y)) ==>
                (gx, gy) == Position(this, displayId, x, y)
    {
      hide Narrow, ToAxis64, ToAxis, Fits64;
      if displayId in regions && MoveFits(regions[displayId], x, y) {
        LayoutFits(regions[displayId], x, y);
      }
      var (lx, ly) := if displayId in regions then ToLayout64(regions[displayId], x, y) else (minX, minY);
      NarrowSmall(Clamp(lx, minX, maxX) - minX);
      NarrowSmall(Clamp(ly, minY, maxY) - minY);
      gx := Narrow(Clamp(lx, minX, maxX) - minX);
      gy := Narrow(Clamp(ly, minY, maxY) - minY);
    }
  }

  /** Where a move should go. */
  ghost function Position(d: UinputDevice, displayId: u32, x: u32, y: u32): (int, int)
    requires d.Valid()
  {
    var (lx, ly) := if displayId in d.regions then ToLayout(d.regions[displayId], x, y) else (d.minX, d.minY);
    (Clamp(lx, d.minX, d.maxX) - d.minX, Clamp(ly, d.minY, d.maxY) - d.minY)
  }

  /** Where a move does go: computed in 64 bits and narrowed to 32. */
  ghost function Written(d: UinputDevice, displayId: u32, x: u32, y: u32): (i32, i32)
    requires d.Valid()
  {
    var (lx, ly) := if displayId in d.regions then ToLayout64(d.regions[displayId], x, y) else (d.minX, d.minY);
    (Narrow(Clamp(lx, d.minX, d.maxX) - d.minX), Narrow(Clamp(ly, d.minY, d.maxY) - d.minY))
  }

  function ById(rs: seq<Region>): map<u32, Region> {
    if rs == [] then map[]
    else
      var n := |rs| - 1;
      ById(rs[..n])[rs[n].id := rs[n]]
  }

  /** The tightest range, in eighths, that holds all regions along one axis; 0 to 0 when there is none. */
  ghost predicate Bounding(s: seq<Slot>, low: int, high: int) {
    && (s == [] ==> low == high == 0)
    && low <= high
    && (forall i :: 0 <= i < |s| ==> low <= s[i].start * SUBPIXEL && (s[i].start + s[i].len) * SUBPIXEL - 1 <= high)
    && (s != [] ==> exists i :: 0 <= i < |s| && low == s[i].start * SUBPIXEL)
    && (s != [] ==> low == high || exists i :: 0 <= i < |s| && high == (s[i].start + s[i].len) * SUBPIXEL - 1)
  }

  method Extent(s: seq<Slot>) returns (low: int, high: int)
    ensures Bounding(s, low, high)
  {
    if s == [] {
      return 0, 0;
    }
    low, high := s[0].start * SUBPIXEL, (s[0].start + s[0].len) * SUBPIXEL - 1;
    for k := 1 to |s|
      invariant forall i :: 0 <= i < k ==> low <= s[i].start * SUBPIXEL && (s[i].start + s[i].len) * SUBPIXEL - 1 <= high
      invariant exists i :: 0 <= i < k && low == s[i].start * SUBPIXEL
      invariant exists i :: 0 <= i < k && high == (s[i].start + s[i].len) * SUBPIXEL - 1
    {
      low := Min(low, s[k].start * SUBPIXEL);
      high := Max(high, (s[k].start + s[k].len) * SUBPIXEL - 1);
    }
    high := Max(high, low);
  }

  // ------------------------------------------------------------ properties

  lemma Unscaled(x: nat, pixels: nat, steps: nat)
    requires x < pixels && steps > 0
    ensures x * steps < pixels * steps
  {
    Scale(steps, x + 1, pixels);
    assert steps * (x + 1) == x * steps + steps;
  }

  /** The position is exactly proportional to the pixel, rounded down to an eighth. */
  lemma AxisExact(start: int, len: nat, pixels: nat, x: nat)
    requires pixels >= 1
    ensures var eighths := ToAxis(start, len, pixels, x) - start * SUBPIXEL;
            pixels * eighths <= x * len * SUBPIXEL < pixels * (eighths + 1)
  {
    var a := x * len * SUBPIXEL;
    assert a == pixels * (a / pixels) + a % pixels;
    assert pixels * (a / pixels + 1) == pixels * (a / pixels) + pixels;
  }

  /** A pixel of the display lands among the display's own eighths. */
  lemma InsideAxis(start: int, len: nat, pixels: nat, x: nat)
    requires len >= 1 && x < pixels
    ensures start * SUBPIXEL <= ToAxis(start, len, pixels, x) <= (start + len) * SUBPIXEL - 1
  {
    var steps := len * SUBPIXEL;
    assert x * len * SUBPIXEL == x * steps;
    Unscaled(x, pixels, steps);
    FloorBelow(x * steps, steps, pixels);
  }

  /** Different pixels get different positions, in order, unless a pixel is finer than an eighth. */
  lemma AxisIncreasing(start: int, len: nat, pixels: nat)
    requires len >= 1
    ensures (forall x1: nat, x2: nat :: x1 < x2 < pixels ==>
               ToAxis(start, len, pixels, x1) < ToAxis(start, len, pixels, x2))
       <==> pixels <= SUBPIXEL * len
  {
    if pixels <= SUBPIXEL * len {
      forall x1: nat, x2: nat | x1 < x2 < pixels
        ensures ToAxis(start, len, pixels, x1) < ToAxis(start, len, pixels, x2)
      {
        OrderKept(start, len, pixels, x1, x2);
      }
    } else {
      FirstTwoTogether(start, len, pixels);
      assert 0 < 1 < pixels;
    }
  }

  lemma OrderKept(start: int, len: nat, pixels: nat, x1: nat, x2: nat)
    requires pixels <= SUBPIXEL * len && x1 < x2 < pixels
    ensures ToAxis(start, len, pixels, x1) < ToAxis(start, len, pixels, x2)
  {
    var steps := len * SUBPIXEL;
    assert x1 * len * SUBPIXEL == x1 * steps && x2 * len * SUBPIXEL == x2 * steps;
    assert x1 * steps + steps == (x1 + 1) * steps <= x2 * steps;
    FloorStep(x1 * steps, x2 * steps, pixels);
  }

  lemma FirstTwoTogether(start: int, len: nat, pixels: nat)
    requires pixels > SUBPIXEL * len
    ensures ToAxis(start, len, pixels, 0) == ToAxis(start, len, pixels, 1)
  {
    assert 1 * len * SUBPIXEL / pixels == 0;
    assert 0 * len * SUBPIXEL / pixels == 0;
  }

  /** Of several regions with one id the last stays. */
  lemma {:induction false} RegionById(rs: seq<Region>, i: nat)
    requires i < |rs| && forall k :: i < k < |rs| ==> rs[k].id != rs[i].id
    ensures rs[i].id in ById(rs) && ById(rs)[rs[i].id] == rs[i]
    decreases |rs|
  {
    var n := |rs| - 1;
    if i < n {
      RegionById(rs[..n], i);
    }
  }

  /** A device opened on these displays, which have ids of their own and are not empty. */
  ghost predicate Spans(d: UinputDevice, rs: seq<Region>) {
    && d.Valid() && d.regions == ById(rs)
    && Bounding(XSlots(rs), d.minX, d.maxX) && Bounding(YSlots(rs), d.minY, d.maxY)
    && (forall i, j :: 0 <= i < j < |rs| ==> rs[i].id != rs[j].id)
    && Sized(rs)
  }

  /** For a pixel its display really has, clamping changes nothing. */
  lemma NeverClamped(d: UinputDevice, rs: seq<Region>, i: nat, x: u32, y: u32)
    requires Spans(d, rs) && i < |rs| && x < rs[i].pixelWidth && y < rs[i].pixelHeight
    ensures var (lx, ly) := ToLayout(rs[i], x, y);
            && Inside(lx, ly, rs[i].x * SUBPIXEL, rs[i].y * SUBPIXEL, rs[i].width * SUBPIXEL, rs[i].height * SUBPIXEL)
            && Position(d, rs[i].id, x, y) == (lx - d.minX, ly - d.minY)
  {
    RegionById(rs, i);
    InsideAxis(rs[i].x, rs[i].width, rs[i].pixelWidth, x);
    InsideAxis(rs[i].y, rs[i].height, rs[i].pixelHeight, y);
    assert XSlots(rs)[i] == XSlot(rs[i]) && YSlots(rs)[i] == YSlot(rs[i]);
    hide ToAxis;
  }

  /**
    In numbers: a pixel its display really has goes to the eighth of a logical
    unit it begins in, counted from the corner of the range.
    */
  lemma PositionNumbers(d: UinputDevice, rs: seq<Region>, i: nat, x: u32, y: u32)
    requires Spans(d, rs) && i < |rs| && x < rs[i].pixelWidth && y < rs[i].pixelHeight
    ensures var r, p := rs[i], Position(d, rs[i].id, x, y);
            var ex, ey := p.0 + d.minX - 8 * r.x, p.1 + d.minY - 8 * r.y;
            && r.pixelWidth * ex <= x * r.width * 8 < r.pixelWidth * (ex + 1)
            && r.pixelHeight * ey <= y * r.height * 8 < r.pixelHeight * (ey + 1)
  {
    NeverClamped(d, rs, i, x, y);
    var r := rs[i];
    AxisExact(r.x, r.width, r.pixelWidth, x);
    AxisExact(r.y, r.height, r.pixelHeight, y);
    hide Position, ToAxis, Spans, Inside;
  }

  /** The range holds every display and ends at displays, in numbers. */
  lemma RangeNumbers(d: UinputDevice, rs: seq<Region>) returns (left: nat, right: nat, top: nat, bottom: nat)
    requires Spans(d, rs) && rs != []
    ensures left < |rs| && right < |rs| && top < |rs| && bottom < |rs|
    ensures d.minX == 8 * rs[left].x && d.maxX == 8 * (rs[right].x + rs[right].width) - 1
    ensures d.minY == 8 * rs[top].y && d.maxY == 8 * (rs[bottom].y + rs[bottom].height) - 1
    ensures forall i :: 0 <= i < |rs| ==>
              && d.minX <= 8 * rs[i].x && 8 * (rs[i].x + rs[i].width) - 1 <= d.maxX
              && d.minY <= 8 * rs[i].y && 8 * (rs[i].y + rs[i].height) - 1 <= d.maxY
  {
    left, right := Ends(XSlots(rs), d.minX, d.maxX);
    top, bottom := Ends(YSlots(rs), d.minY, d.maxY);
    forall i | 0 <= i < |rs|
      ensures XSlots(rs)[i] == XSlot(rs[i]) && YSlots(rs)[i] == YSlot(rs[i])
    {
    }
    hide ById, XSlots, YSlots, Sized;
  }

  lemma Ends(s: seq<Slot>, low: int, high: int) returns (first: nat, last: nat)
    requires Bounding(s, low, high) && s != [] && forall k :: 0 <= k < |s| ==> s[k].len >= 1
    ensures first < |s| && low == s[first].start * SUBPIXEL
    ensures last < |s| && high == (s[last].start + s[last].len) * SUBPIXEL - 1
  {
    first :| 0 <= first < |s| && low == s[first].start * SUBPIXEL;
    assert low <= s[0].start * SUBPIXEL < (s[0].start + s[0].len) * SUBPIXEL - 1 <= high;
    last :| 0 <= last < |s| && high == (s[last].start + s[last].len) * SUBPIXEL - 1;
  }

  /** A move on a display the device does not know goes to the corner of the range. */
  lemma UnknownDisplay(d: UinputDevice, displayId: u32, x: u32, y: u32)
    requires d.Valid() && displayId !in d.regions
    ensures Position(d, displayId, x, y) == (0, 0) && Written(d, displayId, x, y) == (0, 0)
  {
  }

  /** Pixels coarse enough to be told apart by the device. */
  ghost predicate Coarse(r: Region) {
    r.pixelWidth <= SUBPIXEL * r.width && r.pixelHeight <= SUBPIXEL * r.height
  }

  /**
    No two pixels of all displays together share a device position, when the
    displays do not overlap and none packs more than 8 pixels in a logical unit.
    */
  lemma PositionsDiffer(d: UinputDevice, rs: seq<Region>, i: nat, x1: u32, y1: u32, j: nat, x2: u32, y2: u32)
    requires Spans(d, rs) && i < |rs| && j < |rs|
    requires x1 < rs[i].pixelWidth && y1 < rs[i].pixelHeight
    requires x2 < rs[j].pixelWidth && y2 < rs[j].pixelHeight
    requires forall k, m :: 0 <= k < m < |rs| ==> Disjoint(rs[k], rs[m])
    requires forall k :: 0 <= k < |rs| ==> Coarse(rs[k])
    requires (i, x1, y1) != (j, x2, y2)
    ensures Position(d, rs[i].id, x1, y1) != Position(d, rs[j].id, x2, y2)
  {
    NeverClamped(d, rs, i, x1, y1);
    NeverClamped(d, rs, j, x2, y2);
    assert Coarse(rs[i]);
    hide Position;
    if i == j {
      SameDisplay(rs[i], x1, y1, x2, y2);
    } else {
      if i < j {
        Apart(rs[i], rs[j]);
      } else {
        Apart(rs[j], rs[i]);
      }
      hide ToLayout;
    }
  }

  lemma PositionInRange(d: UinputDevice, displayId: u32, x: u32, y: u32)
    requires d.Valid()
    ensures var (px, py) := Position(d, displayId, x, y);
            0 <= px <= d.maxX - d.minX && 0 <= py <= d.maxY - d.minY
  {
    hide ToLayout;
  }

  lemma SameDisplay(r: Region, x1: nat, y1: nat, x2: nat, y2: nat)
    requires Coarse(r) && (x1, y1) != (x2, y2)
    requires x1 < r.pixelWidth && x2 < r.pixelWidth && y1 < r.pixelHeight && y2 < r.pixelHeight
    ensures ToLayout(r, x1, y1) != ToLayout(r, x2, y2)
  {
    hide ToAxis;
    if x1 < x2 {
      OrderKept(r.x, r.width, r.pixelWidth, x1, x2);
    } else if x2 < x1 {
      OrderKept(r.x, r.width, r.pixelWidth, x2, x1);
    } else if y1 < y2 {
      OrderKept(r.y, r.height, r.pixelHeight, y1, y2);
    } else {
      OrderKept(r.y, r.height, r.pixelHeight, y2, y1);
    }
  }
}
