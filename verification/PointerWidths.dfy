/**
  What machine integers do to pointer positions: 64-bit arithmetic that may
  overflow, and the narrowing of what is written to 32 bits.
  */
module PointerWidths {
  import opened Arithmetic
  import opened Bytes
  import opened PixelLayout
  import opened Pointer

  const TOP: u32 := 0xFFFF_FFFF

  /** Narrowing and wrapping change a number by a multiple of 2^32 and 2^64 only, into the range of the type. */
  lemma CastsExactly(v: int)
    ensures (Narrow(v) - v) % 4_294_967_296 == 0 && -2_147_483_648 <= Narrow(v) < 2_147_483_648
    ensures (Wrap64(v) - v) % 18_446_744_073_709_551_616 == 0
    ensures -9_223_372_036_854_775_808 <= Wrap64(v) < 9_223_372_036_854_775_808
  {
    NarrowExactly(v);
    WrapExactly(v);
    hide Narrow, Wrap64;
  }

  lemma NarrowExactly(v: int)
    ensures (Narrow(v) - v) % 4_294_967_296 == 0 && -2_147_483_648 <= Narrow(v) < 2_147_483_648
  {
    var q, r := v / 4_294_967_296, v % 4_294_967_296;
    assert v == q * 4_294_967_296 + r;
    assert Narrow(v) == if r < 2_147_483_648 then r else r - 4_294_967_296;
  }

  lemma WrapExactly(v: int)
    ensures (Wrap64(v) - v) % 18_446_744_073_709_551_616 == 0
    ensures -9_223_372_036_854_775_808 <= Wrap64(v) < 9_223_372_036_854_775_808
  {
    var w := v + 9_223_372_036_854_775_808;
    var q, r := w / 18_446_744_073_709_551_616, w % 18_446_744_073_709_551_616;
    assert w == q * 18_446_744_073_709_551_616 + r;
  }

  /** Narrowing keeps every position of a range if and only if the range itself fits. */
  lemma NarrowKeeps(max: nat)
    ensures (forall v: nat :: v <= max ==> Narrow(v) == v) <==> max < 0x8000_0000
  {
    if max >= 0x8000_0000 {
      assert Narrow(max) != max;
    }
  }

  /** A display along one axis, with the sizes the program has for it. */
  predicate Machine(s: Slot) {
    -0x8000_0000 <= s.start < 0x8000_0000 && 1 <= s.len <= TOP && s.pixels <= TOP
  }

  /** The range of the axis holds the display. */
  predicate Holds(low: int, high: int, s: Slot) {
    low <= s.start * SUBPIXEL && (s.start + s.len) * SUBPIXEL - 1 <= high
  }

  /** The largest coordinate a message can carry is computed without overflow. */
  predicate TopFits(s: Slot) {
    Fits64(s.start, s.len, s.pixels, TOP)
  }

  /** Below 2^31 eighths the product never overflows. */
  lemma ProductFits(low: int, high: int, s: Slot, x: u32)
    requires Machine(s) && Holds(low, high, s) && high - low < 0x8000_0000
    ensures x * s.len * SUBPIXEL < 0x8000_0000_0000_0000
  {
    var steps := s.len * SUBPIXEL;
    assert x * s.len * SUBPIXEL == x * steps;
    Scale(x, steps, 0x8000_0000);
  }

  lemma StepsGrow(s: Slot, x: u32)
    ensures x * s.len * SUBPIXEL <= TOP * s.len * SUBPIXEL
    ensures ToAxis(s.start, s.len, s.pixels, x) <= ToAxis(s.start, s.len, s.pixels, TOP)
    ensures ToAxis(s.start, s.len, s.pixels, x) >= s.start * SUBPIXEL
  {
    var steps := s.len * SUBPIXEL;
    assert x * s.len * SUBPIXEL == x * steps && TOP * s.len * SUBPIXEL == TOP * steps;
    Scale(steps, x, TOP);
    FloorGrows(x * steps, TOP * steps, Max(s.pixels, 1));
    FloorAtLeast(x * steps, 0, Max(s.pixels, 1));
  }

  /** What fits for the largest coordinate fits for all. */
  lemma AllFit(s: Slot, x: u32)
    requires Machine(s) && TopFits(s)
    ensures Fits64(s.start, s.len, s.pixels, x)
  {
    StepsGrow(s, x);
    hide ToAxis;
  }

  /** The largest coordinate goes beyond the display, whatever its size. */
  lemma TopBeyond(s: Slot)
    requires Machine(s)
    ensures ToAxis(s.start, s.len, s.pixels, TOP) >= (s.start + s.len) * SUBPIXEL
  {
    var steps, d := s.len * SUBPIXEL, Max(s.pixels, 1);
    assert TOP * s.len * SUBPIXEL == TOP * steps;
    Scale(steps, d, TOP);
    FloorAtLeast(TOP * steps, steps, d);
  }

  /** A position on an axis, from its start. */
  function OnAxis(low: int, high: int, v: int): int
    requires low <= high
  {
    Clamp(v, low, high) - low
  }

  /** Where one coordinate of a move goes, and where it should. */
  function AxisWritten(low: int, high: int, s: Slot, x: u32): i32
    requires low <= high
  {
    Narrow(OnAxis(low, high, ToAxis64(s.start, s.len, s.pixels, x)))
  }

  function AxisWanted(low: int, high: int, s: Slot, x: u32): int
    requires low <= high
  {
    OnAxis(low, high, ToAxis(s.start, s.len, s.pixels, x))
  }

  lemma AxisKept(low: int, high: int, s: Slot, x: u32)
    requires low <= high && high - low < 0x8000_0000 && Fits64(s.start, s.len, s.pixels, x)
    ensures AxisWritten(low, high, s, x) == AxisWanted(low, high, s, x)
  {
    AxisFits(s.start, s.len, s.pixels, x);
    NarrowSmall(AxisWanted(low, high, s, x));
    hide ToAxis, ToAxis64, Fits64, Narrow;
  }

  /** At the end of a range that is too wide, the largest coordinate goes wrong. */
  lemma WideGoesWrong(low: int, high: int, s: Slot)
    requires Machine(s) && Holds(low, high, s) && low <= high && high - low >= 0x8000_0000
    requires high == (s.start + s.len) * SUBPIXEL - 1
    ensures AxisWritten(low, high, s, TOP) != AxisWanted(low, high, s, TOP)
  {
    TopBeyond(s);
    hide ToAxis, ToAxis64;
    assert AxisWanted(low, high, s, TOP) == high - low;
  }

  /** Where the sum overflows, it wraps to the other end of the range. */
  lemma OverflowGoesWrong(low: int, high: int, s: Slot)
    requires Machine(s) && Holds(low, high, s) && low <= high && high - low < 0x8000_0000 && !TopFits(s)
    ensures AxisWritten(low, high, s, TOP) != AxisWanted(low, high, s, TOP)
  {
    ProductFits(low, high, s, TOP);
    var steps := TOP * s.len * SUBPIXEL;
    WrapFits(steps);
    StepsGrow(s, TOP);
    var d := Max(s.pixels, 1);
    var v := ToAxis(s.start, s.len, s.pixels, TOP);
    FloorLess(steps, d);
    assert Quotient(steps, d) == steps / d;
    assert v == s.start * SUBPIXEL + steps / d >= 0x8000_0000_0000_0000;
    WrapOnce(v);
    assert ToAxis64(s.start, s.len, s.pixels, TOP) == v - 0x1_0000_0000_0000_0000;
    hide ToAxis, ToAxis64, Wrap64, Quotient;
    assert AxisWanted(low, high, s, TOP) == high - low;
    assert OnAxis(low, high, v - 0x1_0000_0000_0000_0000) == 0;
  }

  lemma FloorLess(a: nat, d: nat)
    requires d > 0
    ensures a / d <= a
  {
    Floor(a, d);
    Scale(a / d, 1, d);
  }

  lemma WrapOnce(v: int)
    requires 0x8000_0000_0000_0000 <= v < 0x1_8000_0000_0000_0000
    ensures Wrap64(v) == v - 0x1_0000_0000_0000_0000
  {
  }

  /** Machine sizes, for the regions of a device. */
  lemma RegionsMachine(d: UinputDevice, rs: seq<Region>, i: nat)
    requires Spans(d, rs) && i < |rs|
    ensures Machine(XSlot(rs[i])) && Holds(d.minX, d.maxX, XSlot(rs[i]))
    ensures Machine(YSlot(rs[i])) && Holds(d.minY, d.maxY, YSlot(rs[i]))
    ensures rs[i].id in d.regions && d.regions[rs[i].id] == rs[i]
  {
    RegionById(rs, i);
    assert XSlots(rs)[i] == XSlot(rs[i]) && YSlots(rs)[i] == YSlot(rs[i]);
  }

  /** Both coordinates of a move on a display of the device, each by its own axis. */
  lemma ByAxis(d: UinputDevice, rs: seq<Region>, i: nat, x: u32, y: u32)
    requires Spans(d, rs) && i < |rs|
    ensures var sx, sy := XSlot(rs[i]), YSlot(rs[i]);
            && Written(d, rs[i].id, x, y)
               == (AxisWritten(d.minX, d.maxX, sx, x), AxisWritten(d.minY, d.maxY, sy, y))
            && Position(d, rs[i].id, x, y)
               == (AxisWanted(d.minX, d.maxX, sx, x), AxisWanted(d.minY, d.maxY, sy, y))
  {
    RegionById(rs, i);
    hide ToAxis, ToAxis64, Narrow;
  }

  /** The region behind an id is one of those listed. */
  lemma {:induction false} ByIdFrom(rs: seq<Region>, id: u32) returns (i: nat)
    requires id in ById(rs)
    ensures i < |rs| && rs[i].id == id && ById(rs)[id] == rs[i]
    decreases |rs|
  {
    var n := |rs| - 1;
    if rs[n].id == id {
      i := n;
    } else {
      i := ByIdFrom(rs[..n], id);
    }
  }

  /** Both ranges fit 32 bits with a sign, and no display makes a sum overflow. */
  ghost predicate Sound(d: UinputDevice, rs: seq<Region>) {
    && d.maxX - d.minX < 0x8000_0000 && d.maxY - d.minY < 0x8000_0000
    && forall i :: 0 <= i < |rs| ==> TopFits(XSlot(rs[i])) && TopFits(YSlot(rs[i]))
  }

  lemma SoundKeeps(d: UinputDevice, rs: seq<Region>, id: u32, x: u32, y: u32)
    requires Spans(d, rs) && Sound(d, rs)
    ensures Written(d, id, x, y) == Position(d, id, x, y)
  {
    if id in d.regions {
      var i := ByIdFrom(rs, id);
      RegionsMachine(d, rs, i);
      AllFit(XSlot(rs[i]), x);
      AllFit(YSlot(rs[i]), y);
      AxisKept(d.minX, d.maxX, XSlot(rs[i]), x);
      AxisKept(d.minY, d.maxY, YSlot(rs[i]), y);
      ByAxis(d, rs, i, x, y);
      hide Written, Position, AxisWritten, AxisWanted, Fits64;
    } else {
      NarrowSmall(0);
      hide Narrow, ToLayout, ToLayout64;
    }
  }

  /** The display that ends the range. */
  lemma Last(s: seq<Slot>, low: int, high: int) returns (i: nat)
    requires Bounding(s, low, high) && s != [] && forall k :: 0 <= k < |s| ==> s[k].len >= 1
    ensures i < |s| && high == (s[i].start + s[i].len) * SUBPIXEL - 1
  {
    assert low <= s[0].start * SUBPIXEL < (s[0].start + s[0].len) * SUBPIXEL - 1 <= high;
    i :| 0 <= i < |s| && high == (s[i].start + s[i].len) * SUBPIXEL - 1;
  }

  lemma UnsoundGoesWrong(d: UinputDevice, rs: seq<Region>) returns (i: nat)
    requires Spans(d, rs) && !Sound(d, rs)
    ensures i < |rs| && Written(d, rs[i].id, TOP, TOP) != Position(d, rs[i].id, TOP, TOP)
  {
    hide Written, Position, AxisWritten, AxisWanted, Fits64, ById;
    if d.maxX - d.minX >= 0x8000_0000 {
      i := Last(XSlots(rs), d.minX, d.maxX);
      RegionsMachine(d, rs, i);
      WideGoesWrong(d.minX, d.maxX, XSlot(rs[i]));
    } else if d.maxY - d.minY >= 0x8000_0000 {
      i := Last(YSlots(rs), d.minY, d.maxY);
      RegionsMachine(d, rs, i);
      WideGoesWrong(d.minY, d.maxY, YSlot(rs[i]));
    } else {
      i :| 0 <= i < |rs| && !(TopFits(XSlot(rs[i])) && TopFits(YSlot(rs[i])));
      RegionsMachine(d, rs, i);
      if !TopFits(XSlot(rs[i])) {
        OverflowGoesWrong(d.minX, d.maxX, XSlot(rs[i]));
      } else {
        OverflowGoesWrong(d.minY, d.maxY, YSlot(rs[i]));
      }
    }
    ByAxis(d, rs, i, TOP, TOP);
  }

  /**
    Every move a message can ask for is written where it should be if and only
    if both axis ranges are below 2^31 and the largest coordinate overflows on
    no display.
    */
  lemma WrittenExactly(d: UinputDevice, rs: seq<Region>)
    requires Spans(d, rs)
    ensures (forall id: u32, x: u32, y: u32 :: Written(d, id, x, y) == Position(d, id, x, y)) <==> Sound(d, rs)
  {
    assert d.Valid();
    hide Written, Position, Spans, Sound;
    if Sound(d, rs) {
      forall id: u32, x: u32, y: u32 ensures Written(d, id, x, y) == Position(d, id, x, y) {
        SoundKeeps(d, rs, id, x, y);
      }
    } else {
      var i := UnsoundGoesWrong(d, rs);
    }
  }

  /** Two pixels along an axis are enough to rule the overflow out. */
  lemma EnoughPixels(low: int, high: int, s: Slot)
    requires Machine(s) && Holds(low, high, s) && high - low < 0x8000_0000 && s.pixels >= 2
    ensures TopFits(s)
  {
    ProductFits(low, high, s, TOP);
    var steps := TOP * s.len * SUBPIXEL;
    StepsGrow(s, TOP);
    FloorBelow(steps, 0x4000_0000_0000_0000, s.pixels) by {
      Scale(0x4000_0000_0000_0000, 2, s.pixels);
    }
  }

  /** One pixel is not: the range fits and yet the sum overflows. */
  lemma OnePixelOverflows()
    ensures var s := Slot(0x4000_0000, 0x1000_0000, 1);
            && Machine(s) && !TopFits(s)
            && Holds(s.start * SUBPIXEL, (s.start + s.len) * SUBPIXEL - 1, s)
            && (s.start + s.len) * SUBPIXEL - 1 - s.start * SUBPIXEL < 0x8000_0000
  {
  }

  /** For a pixel its display really has nothing overflows below 2^31. */
  lemma InRangeFits(low: int, high: int, s: Slot, x: u32)
    requires Machine(s) && Holds(low, high, s) && high - low < 0x8000_0000 && x < s.pixels
    ensures Fits64(s.start, s.len, s.pixels, x)
  {
    ProductFits(low, high, s, x);
    InsideAxis(s.start, s.len, s.pixels, x);
    hide ToAxis;
  }

  /** So all such pixels are written where they should be. */
  lemma PixelsWritten(d: UinputDevice, rs: seq<Region>, i: nat, x: u32, y: u32)
    requires Spans(d, rs) && i < |rs| && x < rs[i].pixelWidth && y < rs[i].pixelHeight
    requires d.maxX - d.minX < 0x8000_0000 && d.maxY - d.minY < 0x8000_0000
    ensures MoveFits(rs[i], x, y) && Written(d, rs[i].id, x, y) == Position(d, rs[i].id, x, y)
  {
    RegionsMachine(d, rs, i);
    InRangeFits(d.minX, d.maxX, XSlot(rs[i]), x);
    InRangeFits(d.minY, d.maxY, YSlot(rs[i]), y);
    AxisKept(d.minX, d.maxX, XSlot(rs[i]), x);
    AxisKept(d.minY, d.maxY, YSlot(rs[i]), y);
    ByAxis(d, rs, i, x, y);
    hide Written, Position, AxisWritten, AxisWanted, Fits64;
  }

  /**
    What is written for different pixels differs, even on ranges that fit 32
    bits only without a sign, as long as no 64-bit operation overflows. Below
    2^31 none does.
    */
  lemma WrittenDiffer(d: UinputDevice, rs: seq<Region>, i: nat, x1: u32, y1: u32, j: nat, x2: u32, y2: u32)
    requires Spans(d, rs) && i < |rs| && j < |rs|
    requires x1 < rs[i].pixelWidth && y1 < rs[i].pixelHeight && MoveFits(rs[i], x1, y1)
    requires x2 < rs[j].pixelWidth && y2 < rs[j].pixelHeight && MoveFits(rs[j], x2, y2)
    requires forall k, m :: 0 <= k < m < |rs| ==> Disjoint(rs[k], rs[m])
    requires forall k :: 0 <= k < |rs| ==> Coarse(rs[k])
    requires d.maxX - d.minX < 0x1_0000_0000 && d.maxY - d.minY < 0x1_0000_0000
    requires (i, x1, y1) != (j, x2, y2)
    ensures Written(d, rs[i].id, x1, y1) != Written(d, rs[j].id, x2, y2)
  {
    PositionsDiffer(d, rs, i, x1, y1, j, x2, y2);
    PositionInRange(d, rs[i].id, x1, y1);
    PositionInRange(d, rs[j].id, x2, y2);
    NarrowedPosition(d, rs, i, x1, y1);
    NarrowedPosition(d, rs, j, x2, y2);
    hide Position, Written, Spans, Disjoint, Coarse, Narrow, MoveFits;
    var p, q := Position(d, rs[i].id, x1, y1), Position(d, rs[j].id, x2, y2);
    if p.0 != q.0 {
      NarrowInjective(p.0, q.0);
    } else {
      NarrowInjective(p.1, q.1);
    }
  }

  lemma NarrowedPosition(d: UinputDevice, rs: seq<Region>, i: nat, x: u32, y: u32)
    requires Spans(d, rs) && i < |rs| && MoveFits(rs[i], x, y)
    ensures var p := Position(d, rs[i].id, x, y);
            Written(d, rs[i].id, x, y) == (Narrow(p.0), Narrow(p.1))
  {
    RegionById(rs, i);
    LayoutFits(rs[i], x, y);
    hide ToLayout, ToLayout64, Narrow;
  }
}
