/**
  Captured pixels to planar YUV 4:2:0: the row flip, the colour conversion and
  the exact place every output byte comes from. Arithmetic is that of limited
  range BT.601 (section 2.5 of ITU-R BT.601).
  */
module I420 {
  import opened Arithmetic
  import opened Bytes

  datatype PixelOrder = Rgb | Bgr | Rgba | Bgra | Rgbx | Bgrx {
    function BytesPerPixel(): nat {
      if Rgb? || Bgr? then 3 else 4
    }

    /** Where red, green and blue are in a pixel. */
    function Channels(): (nat, nat, nat) {
      if Rgb? || Rgba? || Rgbx? then (0, 1, 2) else (2, 1, 0)
    }
  }

  function Even(v: nat): nat {
    v - v % 2
  }

  function I420Size(width: nat, height: nat): nat {
    width * height + 2 * ((width / 2) * (height / 2))
  }

  // ---------------------------------------------------------- one pixel

  /** An arithmetic shift to the right by 8 rounds down. */
  function Shift8(v: int): int {
    v / 0x100
  }

  function ClampU8(v: int): byte {
    if v < 0 then 0 else if v > 255 then 255 else v
  }

  function RgbToYuv(r: byte, g: byte, b: byte): (byte, byte, byte) {
    (ClampU8(Shift8(66 * r + 129 * g + 25 * b + 128) + 16),
     ClampU8(Shift8(-38 * r - 74 * g + 112 * b + 128) + 128),
     ClampU8(Shift8(112 * r - 94 * g - 18 * b + 128) + 128))
  }

  /** The clamp never does anything: every colour is in the limited range already. */
  lemma LimitedRange(r: byte, g: byte, b: byte)
    ensures var (y, u, v) := RgbToYuv(r, g, b);
            && 16 <= y <= 235 && 16 <= u <= 240 && 16 <= v <= 240
            && y == Shift8(66 * r + 129 * g + 25 * b + 128) + 16
            && u == Shift8(-38 * r - 74 * g + 112 * b + 128) + 128
            && v == Shift8(112 * r - 94 * g - 18 * b + 128) + 128
  {
  }

  /** Greys have no colour, and black and white are the ends of the range. */
  lemma Greys(v: byte)
    ensures RgbToYuv(v, v, v).1 == 128 && RgbToYuv(v, v, v).2 == 128
    ensures RgbToYuv(0, 0, 0).0 == 16 && RgbToYuv(255, 255, 255).0 == 235
  {
  }

  // ---------------------------------------------------------- positions

  lemma NextRow(d: nat, r: nat)
    ensures (r + 1) * d == r * d + d
  {
  }

  lemma Quotients(d: nat, q1: nat, r1: nat, q2: nat, r2: nat)
    requires r1 < d && r2 < d && q1 * d + r1 == q2 * d + r2
    ensures q1 == q2 && r1 == r2
  {
    NextRow(d, q1);
    NextRow(d, q2);
    Unscale(d, q1, q2 + 1);
    Unscale(d, q2, q1 + 1);
  }

  /** The position of a row and column in a plane. */
  function At(width: nat, row: nat, col: nat): nat {
    row * width + col
  }

  function PlaneSize(width: nat, height: nat): nat {
    height * width
  }

  /** Positions go through a plane row by row. */
  lemma RowMajor(width: nat, height: nat, row: nat, col: nat)
    requires col < width && row < height
    ensures At(width, row, col) / width == row && At(width, row, col) % width == col
    ensures At(width, row, col) < PlaneSize(width, height)
  {
    var k := At(width, row, col);
    assert k == (k / width) * width + k % width;
    Quotients(width, row, col, k / width, k % width);
    NextRow(width, row);
    Scale(width, row + 1, height);
  }

  lemma RowOf(width: nat, height: nat, k: nat)
    requires k < PlaneSize(width, height)
    ensures width > 0 && k / width < height && k % width < width
  {
    assert k == (k / width) * width + k % width;
    Unscale(width, k / width, height);
  }

  lemma AtStart(width: nat)
    ensures At(width, 0, 0) == 0
  {
  }

  lemma AtNextCol(width: nat, row: nat, col: nat)
    ensures At(width, row, col + 1) == At(width, row, col) + 1
  {
  }

  lemma AtNextRow(width: nat, row: nat)
    ensures At(width, row + 1, 0) == At(width, row, width)
  {
    NextRow(width, row);
  }

  lemma AtEnd(width: nat, height: nat)
    ensures At(width, height, 0) == PlaneSize(width, height)
  {
  }

  // -------------------------------------------------------- whole frames

  /** What `packed_to_i420` accepts, for sizes already made even. */
  predicate Accepts(src: bytes, stride: nat, width: nat, height: nat, bpp: nat) {
    width > 0 && height > 0 && width * bpp <= stride && stride * height <= |src|
  }

  /** The first byte of a pixel. */
  function Offset(stride: nat, bpp: nat, row: nat, col: nat): nat {
    row * stride + col * bpp
  }

  /** The colour of the pixel whose first byte is at `o`. */
  function PixelFrom(src: bytes, o: nat, order: PixelOrder): (byte, byte, byte)
    requires o + order.BytesPerPixel() <= |src|
  {
    var (r, g, b) := order.Channels();
    RgbToYuv(src[o + r], src[o + g], src[o + b])
  }

  /** Every pixel read is in bounds. */
  lemma InBounds(src: bytes, stride: nat, width: nat, height: nat, bpp: nat, row: nat, col: nat)
    requires Accepts(src, stride, width, height, bpp) && row < height && col < width
    ensures Offset(stride, bpp, 0, col) + bpp <= stride
    ensures Offset(stride, bpp, row, col) + bpp <= |src|
  {
    NextRow(bpp, col);
    Scale(bpp, col + 1, width);
    NextRow(stride, row);
    Scale(stride, row + 1, height);
  }

  function PixelAt(src: bytes, stride: nat, width: nat, height: nat, order: PixelOrder, row: nat, col: nat): (byte, byte, byte)
    requires Accepts(src, stride, width, height, order.BytesPerPixel()) && row < height && col < width
  {
    InBounds(src, stride, width, height, order.BytesPerPixel(), row, col);
    PixelFrom(src, Offset(stride, order.BytesPerPixel(), row, col), order)
  }

  /** The byte of the Y plane at position `k`. */
  function Luma(src: bytes, stride: nat, width: nat, height: nat, order: PixelOrder, k: nat): byte
    requires Accepts(src, stride, width, height, order.BytesPerPixel()) && k < PlaneSize(width, height)
  {
    RowOf(width, height, k);
    PixelAt(src, stride, width, height, order, k / width, k % width).0
  }

  /** The bytes of the U and V planes at position `k`: those of the top left pixel of its block. */
  function Chroma(src: bytes, stride: nat, width: nat, height: nat, order: PixelOrder, k: nat): (byte, byte)
    requires Accepts(src, stride, width, height, order.BytesPerPixel()) && k < PlaneSize(width / 2, height / 2)
  {
    var cw := width / 2;
    RowOf(cw, height / 2, k);
    var (y, u, v) := PixelAt(src, stride, width, height, order, 2 * (k / cw), 2 * (k % cw));
    (u, v)
  }

  /** The first `n` bytes of Y and the first `m` of U and V are what they should be. */
  ghost predicate PlanesDone(
    src: bytes, stride: nat, width: nat, height: nat, order: PixelOrder, y: bytes, u: bytes, v: bytes, n: nat, m: nat)
  {
    && Accepts(src, stride, width, height, order.BytesPerPixel())
    && |y| == PlaneSize(width, height) && |u| == |v| == PlaneSize(width / 2, height / 2)
    && n <= |y| && m <= |u|
    && (forall k :: 0 <= k < n ==> y[k] == Luma(src, stride, width, height, order, k))
    && (forall k :: 0 <= k < m ==> (u[k], v[k]) == Chroma(src, stride, width, height, order, k))
  }

  /** The frame `packed_to_i420` makes: three planes one after the other. */
  ghost predicate IsI420(
    dst: bytes, src: bytes, stride: nat, width: nat, height: nat, order: PixelOrder, y: bytes, u: bytes, v: bytes)
  {
    PlanesDone(src, stride, width, height, order, y, u, v, |y|, |u|) && dst == y + u + v
  }

  lemma LumaAt(src: bytes, stride: nat, width: nat, height: nat, order: PixelOrder, row: nat, col: nat)
    requires Accepts(src, stride, width, height, order.BytesPerPixel()) && row < height && col < width
    ensures At(width, row, col) < PlaneSize(width, height)
    ensures Luma(src, stride, width, height, order, At(width, row, col)) == PixelAt(src, stride, width, height, order, row, col).0
  {
    hide PixelAt, At, PlaneSize, Accepts;
    RowMajor(width, height, row, col);
  }

  lemma ChromaAt(src: bytes, stride: nat, width: nat, height: nat, order: PixelOrder, row: nat, col: nat)
    requires Accepts(src, stride, width, height, order.BytesPerPixel()) && row < height / 2 && col < width / 2
    ensures At(width / 2, row, col) < PlaneSize(width / 2, height / 2)
    ensures var (y, u, v) := PixelAt(src, stride, width, height, order, 2 * row, 2 * col);
            Chroma(src, stride, width, height, order, At(width / 2, row, col)) == (u, v)
  {
    hide PixelAt, At, PlaneSize, Accepts;
    RowMajor(width / 2, height / 2, row, col);
  }

  /** How much of the U and V planes is filled when `col` columns of `row` are done. */
  function ChromaDone(width: nat, row: nat, col: nat): nat {
    if row % 2 == 0 then At(width / 2, row / 2, (col + 1) / 2) else At(width / 2, row / 2, width / 2)
  }

  /** `packed_to_i420`. */
  method PackedToI420(src: bytes, stride: nat, rawWidth: nat, rawHeight: nat, order: PixelOrder)
    returns (r: Option<bytes>, ghost y: bytes, ghost u: bytes, ghost v: bytes)
    ensures r.Some? <==> Accepts(src, stride, Even(rawWidth), Even(rawHeight), order.BytesPerPixel())
    ensures r.Some? ==> IsI420(r.value, src, stride, Even(rawWidth), Even(rawHeight), order, y, u, v)
  {
    y, u, v := [], [], [];
    var width, height := Even(rawWidth), Even(rawHeight);
    if width == 0 || height == 0 {
      return None, y, u, v;
    }
    if stride < width * order.BytesPerPixel() {
      return None, y, u, v;
    }
    if |src| < stride * height {
      return None, y, u, v;
    }
    assert Accepts(src, stride, width, height, order.BytesPerPixel());
    var yPlane := new byte[PlaneSize(width, height)](_ => 0);
    var uPlane := new byte[PlaneSize(width / 2, height / 2)](_ => 0);
    var vPlane := new byte[PlaneSize(width / 2, height / 2)](_ => 0);
    AtStart(width);
    AtStart(width / 2);
    NothingDone(src, stride, width, height, order, yPlane[..], uPlane[..], vPlane[..]);
    hide PlanesDone, Accepts, At, PlaneSize;
    for row := 0 to height
      invariant PlanesDone(src, stride, width, height, order, yPlane[..], uPlane[..], vPlane[..],
                           At(width, row, 0), At(width / 2, (row + 1) / 2, 0))
    {
      ConvertRow(src, stride, width, height, order, row, yPlane, uPlane, vPlane);
    }
    AtEnd(width, height);
    AtEnd(width / 2, height / 2);
    assert (height + 1) / 2 == height / 2;
    y, u, v := yPlane[..], uPlane[..], vPlane[..];
    r := Some(yPlane[..] + uPlane[..] + vPlane[..]);
    AllDone(src, stride, width, height, order, y, u, v);
  }

  lemma NothingDone(src: bytes, stride: nat, width: nat, height: nat, order: PixelOrder, y: bytes, u: bytes, v: bytes)
    requires Accepts(src, stride, width, height, order.BytesPerPixel())
    requires |y| == PlaneSize(width, height) && |u| == |v| == PlaneSize(width / 2, height / 2)
    ensures PlanesDone(src, stride, width, height, order, y, u, v, 0, 0)
  {
  }

  lemma AllDone(src: bytes, stride: nat, width: nat, height: nat, order: PixelOrder, y: bytes, u: bytes, v: bytes)
    requires PlanesDone(src, stride, width, height, order, y, u, v, PlaneSize(width, height), PlaneSize(width / 2, height / 2))
    ensures IsI420(y + u + v, src, stride, width, height, order, y, u, v)
  {
    hide Luma, Chroma, Accepts, PlaneSize;
  }

  lemma LumaStep(
    src: bytes, stride: nat, width: nat, height: nat, order: PixelOrder, y: bytes, u: bytes, v: bytes, n: nat, m: nat, b: byte)
    requires PlanesDone(src, stride, width, height, order, y, u, v, n, m) && n < PlaneSize(width, height)
    requires b == Luma(src, stride, width, height, order, n)
    ensures |y| == PlaneSize(width, height)
    ensures PlanesDone(src, stride, width, height, order, y[n := b], u, v, n + 1, m)
  {
    hide Luma, Chroma, Accepts, PlaneSize;
  }

  lemma ChromaStep(
    src: bytes, stride: nat, width: nat, height: nat, order: PixelOrder, y: bytes, u: bytes, v: bytes, n: nat, m: nat, b: (byte, byte))
    requires PlanesDone(src, stride, width, height, order, y, u, v, n, m) && m < PlaneSize(width / 2, height / 2)
    requires b == Chroma(src, stride, width, height, order, m)
    ensures |u| == |v| == PlaneSize(width / 2, height / 2)
    ensures PlanesDone(src, stride, width, height, order, y, u[m := b.0], v[m := b.1], n, m + 1)
  {
    hide Luma, Chroma, Accepts, PlaneSize;
  }

  /** The inner loop. */
  method ConvertRow(
    src: bytes, stride: nat, width: nat, height: nat, order: PixelOrder, row: nat,
    yPlane: array<byte>, uPlane: array<byte>, vPlane: array<byte>)
    requires width % 2 == 0 && height % 2 == 0 && row < height
    requires yPlane != uPlane && yPlane != vPlane && uPlane != vPlane
    requires PlanesDone(src, stride, width, height, order, yPlane[..], uPlane[..], vPlane[..],
                        At(width, row, 0), At(width / 2, (row + 1) / 2, 0))
    modifies yPlane, uPlane, vPlane
    ensures PlanesDone(src, stride, width, height, order, yPlane[..], uPlane[..], vPlane[..],
                       At(width, row + 1, 0), At(width / 2, (row + 2) / 2, 0))
  {
    hide PlanesDone, At;
    AtNextRow(width, row);
    AtNextRow(width / 2, row / 2);
    assert (row + 2) / 2 == row / 2 + 1;
    assert row % 2 == 0 ==> (row + 1) / 2 == row / 2;
    assert row % 2 == 1 ==> (row + 1) / 2 == row / 2 + 1;
    for col := 0 to width
      invariant PlanesDone(src, stride, width, height, order, yPlane[..], uPlane[..], vPlane[..],
                           At(width, row, col), ChromaDone(width, row, col))
    {
      ConvertPixel(src, stride, width, height, order, row, col, yPlane, uPlane, vPlane);
    }
  }

  lemma DoneAccepts(
    src: bytes, stride: nat, width: nat, height: nat, order: PixelOrder, y: bytes, u: bytes, v: bytes, n: nat, m: nat)
    requires PlanesDone(src, stride, width, height, order, y, u, v, n, m)
    ensures Accepts(src, stride, width, height, order.BytesPerPixel())
  {
  }

  /** The body of the inner loop. */
  method ConvertPixel(
    src: bytes, stride: nat, width: nat, height: nat, order: PixelOrder, row: nat, col: nat,
    yPlane: array<byte>, uPlane: array<byte>, vPlane: array<byte>)
    requires width % 2 == 0 && height % 2 == 0 && row < height && col < width
    requires yPlane != uPlane && yPlane != vPlane && uPlane != vPlane
    requires PlanesDone(src, stride, width, height, order, yPlane[..], uPlane[..], vPlane[..],
                        At(width, row, col), ChromaDone(width, row, col))
    modifies yPlane, uPlane, vPlane
    ensures PlanesDone(src, stride, width, height, order, yPlane[..], uPlane[..], vPlane[..],
                       At(width, row, col + 1), ChromaDone(width, row, col + 1))
  {
    hide Luma, Chroma, PixelAt, Accepts, PlanesDone, At, PlaneSize, PixelFrom;
    ghost var y0, u0, v0, m := yPlane[..], uPlane[..], vPlane[..], ChromaDone(width, row, col);
    var k := At(width, row, col);
    DoneAccepts(src, stride, width, height, order, y0, u0, v0, k, m);
    InBounds(src, stride, width, height, order.BytesPerPixel(), row, col);
    var (y, u, v) := PixelAt(src, stride, width, height, order, row, col);
    LumaAt(src, stride, width, height, order, row, col);
    LumaStep(src, stride, width, height, order, y0, u0, v0, k, m, y);
    AtNextCol(width, row, col);
    yPlane[k] := y;
    assert yPlane[..] == y0[k := y];
    if row % 2 == 0 && col % 2 == 0 {
      var c := At(width / 2, row / 2, col / 2);
      assert (col + 1) / 2 == col / 2 && (col + 2) / 2 == col / 2 + 1;
      assert 2 * (row / 2) == row && 2 * (col / 2) == col;
      ChromaAt(src, stride, width, height, order, row / 2, col / 2);
      ChromaStep(src, stride, width, height, order, y0[k := y], u0, v0, k + 1, m, (u, v));
      AtNextCol(width / 2, row / 2, col / 2);
      uPlane[c] := u;
      vPlane[c] := v;
      assert uPlane[..] == u0[c := u] && vPlane[..] == v0[c := v];
    } else if row % 2 == 0 {
      assert (col + 2) / 2 == (col + 1) / 2;
    }
  }

  lemma Planes(y: bytes, u: bytes, v: bytes, k: nat)
    ensures k < |y| ==> (y + u + v)[k] == y[k]
    ensures k < |u| && |u| == |v| ==> (y + u + v)[|y| + k] == u[k] && (y + u + v)[|y| + |u| + k] == v[k]
  {
  }

  /** The frame has the size an I420 frame should have. */
  lemma FrameSize(
    dst: bytes, src: bytes, stride: nat, width: nat, height: nat, order: PixelOrder, y: bytes, u: bytes, v: bytes)
    requires IsI420(dst, src, stride, width, height, order, y, u, v)
    ensures |dst| == I420Size(width, height) && |y| == width * height && |u| == (width / 2) * (height / 2)
  {
    hide Luma, Chroma, Accepts;
  }

  /** Each Y comes from its own pixel. */
  lemma LumaByte(
    dst: bytes, src: bytes, stride: nat, width: nat, height: nat, order: PixelOrder, y: bytes, u: bytes, v: bytes,
    row: nat, col: nat)
    requires IsI420(dst, src, stride, width, height, order, y, u, v) && row < height && col < width
    ensures At(width, row, col) < |y| <= |dst|
    ensures dst[At(width, row, col)] == PixelAt(src, stride, width, height, order, row, col).0
  {
    LumaAt(src, stride, width, height, order, row, col);
    hide PixelAt, Luma, Chroma, Accepts, At, PlaneSize;
    Planes(y, u, v, At(width, row, col));
  }

  /** Each U and V comes from the top left pixel of its two-by-two block. */
  lemma ChromaBytes(
    dst: bytes, src: bytes, stride: nat, width: nat, height: nat, order: PixelOrder, y: bytes, u: bytes, v: bytes,
    row: nat, col: nat)
    requires IsI420(dst, src, stride, width, height, order, y, u, v) && row < height / 2 && col < width / 2
    ensures var c := At(width / 2, row, col);
            && c < |u| && |y| + |u| + c < |dst|
            && dst[|y| + c] == PixelAt(src, stride, width, height, order, 2 * row, 2 * col).1
            && dst[|y| + |u| + c] == PixelAt(src, stride, width, height, order, 2 * row, 2 * col).2
  {
    ChromaAt(src, stride, width, height, order, row, col);
    hide PixelAt, Luma, Chroma, Accepts, At, PlaneSize;
    Planes(y, u, v, At(width / 2, row, col));
  }

  // A frame by the bytes it comes from: which bytes of a pixel are red, green
  // and blue, per order, and the weights of section 2.5 of ITU-R BT.601 in
  // 256ths.

  /** Bytes in a pixel, and where in it red, green and blue are. */
  function Layout(order: PixelOrder): (l: (nat, nat, nat, nat))
    ensures l.1 < l.0 && l.2 < l.0 && l.3 < l.0
  {
    match order
    case Rgb => (3, 0, 1, 2)
    case Bgr => (3, 2, 1, 0)
    case Rgba => (4, 0, 1, 2)
    case Bgra => (4, 2, 1, 0)
    case Rgbx => (4, 0, 1, 2)
    case Bgrx => (4, 2, 1, 0)
  }

  function YOf(red: int, green: int, blue: int): int {
    (66 * red + 129 * green + 25 * blue + 128) / 256 + 16
  }

  function UOf(red: int, green: int, blue: int): int {
    (-38 * red - 74 * green + 112 * blue + 128) / 256 + 128
  }

  function VOf(red: int, green: int, blue: int): int {
    (112 * red - 94 * green - 18 * blue + 128) / 256 + 128
  }

  /** The Y at `k` is that of the three bytes of its own pixel, which begins at `o`. */
  lemma LumaFrom(
    dst: bytes, src: bytes, stride: nat, width: nat, height: nat, order: PixelOrder, y: bytes, u: bytes, v: bytes,
    row: nat, col: nat, k: nat, o: nat)
    requires IsI420(dst, src, stride, width, height, order, y, u, v) && row < height && col < width
    requires k == row * width + col && o == row * stride + col * Layout(order).0
    ensures var (bpp, red, green, blue) := Layout(order);
            && k < |dst| && o + bpp <= |src|
            && dst[k] == YOf(src[o + red], src[o + green], src[o + blue])
  {
    assert k == At(width, row, col);
    hide IsI420, PlanesDone, PixelAt, Accepts, Layout, YOf, UOf, VOf, At;
    FrameAccepts(dst, src, stride, width, height, order, y, u, v);
    LumaByte(dst, src, stride, width, height, order, y, u, v, row, col);
    PixelBytes(src, stride, width, height, order, row, col, o);
  }

  /**
    The U and V at place `k` of their planes, which follow the Y plane one
    after the other, are those of the top left pixel of the block.
    */
  lemma ChromaFrom(
    dst: bytes, src: bytes, stride: nat, width: nat, height: nat, order: PixelOrder, y: bytes, u: bytes, v: bytes,
    row: nat, col: nat, k: nat, o: nat, size: nat, quarter: nat)
    requires IsI420(dst, src, stride, width, height, order, y, u, v) && row < height / 2 && col < width / 2
    requires k == row * (width / 2) + col && o == 2 * row * stride + 2 * col * Layout(order).0
    requires size == width * height && quarter == (width / 2) * (height / 2)
    ensures var (bpp, red, green, blue) := Layout(order);
            && size + quarter + k < |dst| && o + bpp <= |src|
            && dst[size + k] == UOf(src[o + red], src[o + green], src[o + blue])
            && dst[size + quarter + k] == VOf(src[o + red], src[o + green], src[o + blue])
  {
    assert k == At(width / 2, row, col);
    hide IsI420, PlanesDone, PixelAt, Accepts, Layout, YOf, UOf, VOf, At;
    FrameAccepts(dst, src, stride, width, height, order, y, u, v);
    FrameSize(dst, src, stride, width, height, order, y, u, v);
    ChromaBytes(dst, src, stride, width, height, order, y, u, v, row, col);
    PixelBytes(src, stride, width, height, order, 2 * row, 2 * col, o);
  }

  lemma FrameAccepts(
    dst: bytes, src: bytes, stride: nat, width: nat, height: nat, order: PixelOrder, y: bytes, u: bytes, v: bytes)
    requires IsI420(dst, src, stride, width, height, order, y, u, v)
    ensures Accepts(src, stride, width, height, order.BytesPerPixel())
  {
  }

  lemma PixelBytes(src: bytes, stride: nat, width: nat, height: nat, order: PixelOrder, row: nat, col: nat, o: nat)
    requires Accepts(src, stride, width, height, order.BytesPerPixel()) && row < height && col < width
    requires o == row * stride + col * Layout(order).0
    ensures var (bpp, red, green, blue) := Layout(order);
            && o + bpp <= |src|
            && PixelAt(src, stride, width, height, order, row, col)
               == (YOf(src[o + red], src[o + green], src[o + blue]),
                   UOf(src[o + red], src[o + green], src[o + blue]),
                   VOf(src[o + red], src[o + green], src[o + blue]))
  {
    var (bpp, red, green, blue) := Layout(order);
    assert bpp == order.BytesPerPixel() && (red, green, blue) == order.Channels();
    InBounds(src, stride, width, height, bpp, row, col);
    assert o == Offset(stride, bpp, row, col);
    ColourOf(src[o + red], src[o + green], src[o + blue]);
    hide Accepts, RgbToYuv, Offset, Layout, YOf, UOf, VOf;
  }

  lemma ColourOf(r: byte, g: byte, b: byte)
    ensures RgbToYuv(r, g, b) == (YOf(r, g, b), UOf(r, g, b), VOf(r, g, b))
  {
    LimitedRange(r, g, b);
  }

  /** What is accepted, in numbers: at least two by two pixels, and enough bytes in a row and in all. */
  lemma AcceptsExactly(src: bytes, stride: nat, width: nat, height: nat, order: PixelOrder)
    ensures Accepts(src, stride, Even(width), Even(height), order.BytesPerPixel()) <==>
            && width >= 2 && height >= 2
            && (width - width % 2) * (if order.Rgb? || order.Bgr? then 3 else 4) <= stride
            && stride * (height - height % 2) <= |src|
  {
  }

  // ---------------------------------------------------------- flipped rows

  function Row(s: bytes, stride: nat, height: nat, r: nat): (row: bytes)
    requires r < height && stride * height <= |s|
    ensures |row| == stride
  {
    RowsApart(stride, r, height);
    s[r * stride..r * stride + stride]
  }

  lemma RowsApart(stride: nat, a: nat, b: nat)
    requires a < b
    ensures a * stride + stride <= b * stride && b * stride == stride * b
  {
    NextRow(stride, a);
    Scale(stride, a + 1, b);
  }

  /** `t` is `s` with its first `height` rows in reverse order. */
  ghost predicate IsFlip(s: bytes, t: bytes, stride: nat, height: nat) {
    && |t| == |s| && stride * height <= |s|
    && (forall r :: 0 <= r < height ==> Row(t, stride, height, r) == Row(s, stride, height, height - 1 - r))
    && t[stride * height..] == s[stride * height..]
  }

  lemma {:induction false} RowsDetermine(s: bytes, t: bytes, stride: nat, height: nat, n: nat)
    requires |t| == |s| && stride * height <= |s| && n <= height
    requires forall r :: 0 <= r < n ==> Row(t, stride, height, r) == Row(s, stride, height, r)
    ensures n * stride <= |s| && t[..n * stride] == s[..n * stride]
    decreases n
  {
    Scale(stride, n, height);
    if n > 0 {
      RowsDetermine(s, t, stride, height, n - 1);
      NextRow(stride, n - 1);
      assert Row(t, stride, height, n - 1) == Row(s, stride, height, n - 1);
      Joined(s, t, (n - 1) * stride, n * stride);
    } else {
      assert n * stride == 0;
    }
  }

  lemma Joined(s: bytes, t: bytes, i: nat, j: nat)
    requires i <= j <= |s| == |t| && s[..i] == t[..i] && s[i..j] == t[i..j]
    ensures s[..j] == t[..j]
  {
    assert s[..j] == s[..i] + s[i..j] && t[..j] == t[..i] + t[i..j];
  }

  /** Flipping twice changes nothing. */
  lemma FlipInvolution(s: bytes, t: bytes, u: bytes, stride: nat, height: nat)
    requires IsFlip(s, t, stride, height) && IsFlip(t, u, stride, height)
    ensures u == s
  {
    hide Row;
    forall r | 0 <= r < height ensures Row(u, stride, height, r) == Row(s, stride, height, r) {
      assert Row(u, stride, height, r) == Row(t, stride, height, height - 1 - r);
      assert Row(t, stride, height, height - 1 - r) == Row(s, stride, height, height - 1 - (height - 1 - r));
    }
    RowsDetermine(s, u, stride, height, height);
    var n := height * stride;
    assert stride * height == n;
    assert s == s[..n] + s[n..] && u == u[..n] + u[n..];
  }

  /** `now` is `was` with the `n` bytes at `i` and those at `j` swapped. */
  ghost predicate Swapped(was: bytes, now: bytes, i: nat, j: nat, n: nat)
    requires i + n <= j && j + n <= |was|
  {
    && |now| == |was|
    && now[i..i + n] == was[j..j + n] && now[j..j + n] == was[i..i + n]
    && now[..i] == was[..i] && now[i + n..j] == was[i + n..j] && now[j + n..] == was[j + n..]
  }

  /** `swap_with_slice` of two stretches of one buffer. */
  method SwapSlices(pixels: array<byte>, i: nat, j: nat, n: nat)
    requires i + n <= j && j + n <= pixels.Length
    modifies pixels
    ensures Swapped(old(pixels[..]), pixels[..], i, j, n)
  {
    ghost var was := pixels[..];
    for k := 0 to n
      invariant forall p :: i <= p < i + k ==> pixels[p] == was[p - i + j]
      invariant forall p :: j <= p < j + k ==> pixels[p] == was[p - j + i]
      invariant forall p :: 0 <= p < i || i + k <= p < j || j + k <= p < pixels.Length ==> pixels[p] == was[p]
    {
      pixels[i + k], pixels[j + k] := pixels[j + k], pixels[i + k];
    }
    ByElements(was, pixels[..], i, j, n);
  }

  lemma ByElements(was: bytes, now: bytes, i: nat, j: nat, n: nat)
    requires i + n <= j && j + n <= |was| == |now|
    requires forall p :: i <= p < i + n ==> now[p] == was[p - i + j]
    requires forall p :: j <= p < j + n ==> now[p] == was[p - j + i]
    requires forall p :: 0 <= p < i || i + n <= p < j || j + n <= p < |was| ==> now[p] == was[p]
    ensures Swapped(was, now, i, j, n)
  {
  }

  lemma SwappedSlice(was: bytes, now: bytes, i: nat, j: nat, n: nat, o: nat)
    requires i + n <= j && j + n <= |was| && o + n <= |was| && Swapped(was, now, i, j, n)
    requires o + n <= i || (i + n <= o && o + n <= j) || j + n <= o
    ensures now[o..o + n] == was[o..o + n]
  {
    if o + n <= i {
      SliceOf(was, now, 0, i, o, o + n);
    } else if i + n <= o && o + n <= j {
      SliceOf(was, now, i + n, j, o, o + n);
    } else {
      SliceOf(was, now, j + n, |was|, o, o + n);
    }
  }

  lemma SwappedRows(was: bytes, now: bytes, stride: nat, height: nat, a: nat, b: nat, r: nat)
    requires stride * height <= |was| && a < b < height && r < height
    requires a * stride + stride <= b * stride && b * stride + stride <= |was|
    requires Swapped(was, now, a * stride, b * stride, stride)
    ensures |now| == |was|
    ensures Row(now, stride, height, r)
         == Row(was, stride, height, if r == a then b else if r == b then a else r)
  {
    RowsApart(stride, r, height);
    if r != a && r != b {
      if r < a {
        RowsApart(stride, r, a);
      } else if r < b {
        RowsApart(stride, a, r);
        RowsApart(stride, r, b);
      } else {
        RowsApart(stride, b, r);
      }
      SwappedSlice(was, now, a * stride, b * stride, stride, r * stride);
    }
  }

  lemma SliceOf(s: bytes, t: bytes, lo: nat, hi: nat, a: nat, b: nat)
    requires lo <= a <= b <= hi <= |s| == |t| && s[lo..hi] == t[lo..hi]
    ensures s[a..b] == t[a..b]
  {
    forall k | a <= k < b ensures s[k] == t[k] {
      assert s[lo..hi][k - lo] == t[lo..hi][k - lo];
    }
  }

  /** After `n` swaps from the outside in, the outer rows are mirrored and the inner ones are as they were. */
  ghost predicate HalfFlipped(was: bytes, now: bytes, stride: nat, height: nat, n: nat) {
    && |now| == |was| && stride * height <= |was|
    && (forall r :: 0 <= r < height ==>
          Row(now, stride, height, r) == Row(was, stride, height, if n <= r < height - n then r else height - 1 - r))
    && now[stride * height..] == was[stride * height..]
  }

  lemma OneSwap(was: bytes, mid: bytes, now: bytes, stride: nat, height: nat, n: nat)
    requires n < height / 2 && HalfFlipped(was, mid, stride, height, n)
    requires var a, b := n, height - 1 - n;
             && a * stride + stride <= b * stride && b * stride + stride <= stride * height
             && Swapped(mid, now, a * stride, b * stride, stride)
    ensures HalfFlipped(was, now, stride, height, n + 1)
  {
    var a, b := n, height - 1 - n;
    forall r | 0 <= r < height
      ensures |now| == |was|
      ensures Row(now, stride, height, r)
           == Row(was, stride, height, if n + 1 <= r < height - (n + 1) then r else height - 1 - r)
    {
      SwappedRows(mid, now, stride, height, a, b, r);
    }
    SliceOf(mid, now, b * stride + stride, |mid|, stride * height, |mid|);
    hide Row;
  }

  /** `flip_rows`. */
  method FlipRows(pixels: array<byte>, stride: nat, height: nat)
    requires stride * height <= pixels.Length
    modifies pixels
    ensures IsFlip(old(pixels[..]), pixels[..], stride, height)
  {
    ghost var was := pixels[..];
    NotFlipped(was, stride, height);
    hide Row, HalfFlipped, IsFlip, Swapped;
    for row := 0 to height / 2
      invariant HalfFlipped(was, pixels[..], stride, height, row)
    {
      ghost var mid := pixels[..];
      RowsApart(stride, row, height - 1 - row);
      RowsApart(stride, height - 1 - row, height);
      SwapSlices(pixels, row * stride, (height - 1 - row) * stride, stride);
      OneSwap(was, mid, pixels[..], stride, height, row);
    }
    WholeFlip(was, pixels[..], stride, height);
  }

  lemma NotFlipped(s: bytes, stride: nat, height: nat)
    requires stride * height <= |s|
    ensures HalfFlipped(s, s, stride, height, 0)
  {
    hide Row;
  }

  /** With an odd height the middle row mirrors itself. */
  lemma WholeFlip(was: bytes, now: bytes, stride: nat, height: nat)
    requires HalfFlipped(was, now, stride, height, height / 2)
    ensures IsFlip(was, now, stride, height)
  {
    hide Row;
  }

  /** After a flip, the pixels of a row are those of its mirror row, even for an odd height. */
  lemma FlippedPixel(
    s: bytes, t: bytes, stride: nat, flipped: nat, width: nat, height: nat, order: PixelOrder, row: nat, col: nat)
    requires IsFlip(s, t, stride, flipped) && height <= flipped && row < height && col < width
    requires Accepts(t, stride, width, height, order.BytesPerPixel())
    ensures Accepts(s, stride, width, flipped, order.BytesPerPixel())
    ensures PixelAt(t, stride, width, height, order, row, col)
         == PixelAt(s, stride, width, flipped, order, flipped - 1 - row, col)
  {
    hide PixelFrom, RgbToYuv, PixelOrder.BytesPerPixel, PixelOrder.Channels;
    var bpp, mirror, o := order.BytesPerPixel(), flipped - 1 - row, col * order.BytesPerPixel();
    InBounds(t, stride, width, height, bpp, row, col);
    InBounds(s, stride, width, flipped, bpp, mirror, col);
    RowsApart(stride, row, flipped);
    RowsApart(stride, mirror, flipped);
    assert Row(t, stride, flipped, row) == Row(s, stride, flipped, mirror);
    SamePixel(t, s, row * stride, mirror * stride, stride, o, order);
  }

  lemma SamePixel(t: bytes, s: bytes, i: nat, j: nat, stride: nat, o: nat, order: PixelOrder)
    requires i + stride <= |t| && j + stride <= |s| && t[i..i + stride] == s[j..j + stride]
    requires o + order.BytesPerPixel() <= stride
    ensures PixelFrom(t, i + o, order) == PixelFrom(s, j + o, order)
  {
    var a, b := t[i..i + stride], s[j..j + stride];
    assert a[o] == b[o] && a[o + 1] == b[o + 1] && a[o + 2] == b[o + 2];
    hide RgbToYuv;
  }

  lemma FlippedChroma(
    s: bytes, t: bytes, full: nat, dst: bytes, stride: nat, width: nat, order: PixelOrder, y: bytes, u: bytes, v: bytes,
    row: nat, col: nat)
    requires IsFlip(s, t, stride, full)
    requires IsI420(dst, t, stride, width, Even(full), order, y, u, v)
    requires Accepts(t, stride, width, Even(full), order.BytesPerPixel())
    requires row < Even(full) / 2 && col < width / 2
    ensures Accepts(s, stride, width, full, order.BytesPerPixel())
    ensures var c := At(width / 2, row, col);
            && |y| + |u| + c < |dst|
            && dst[|y| + c] == PixelAt(s, stride, width, full, order, full - 1 - 2 * row, 2 * col).1
            && dst[|y| + |u| + c] == PixelAt(s, stride, width, full, order, full - 1 - 2 * row, 2 * col).2
  {
    hide PixelAt, At, IsFlip, IsI420, PlanesDone, Accepts, PlaneSize;
    ChromaBytes(dst, t, stride, width, Even(full), order, y, u, v, row, col);
    FlippedPixel(s, t, stride, full, width, Even(full), order, 2 * row, 2 * col);
  }

  /**
    A captured frame that arrives upside down: rows are flipped over the whole
    buffer of `full` rows, the frame is converted over an even number of them,
    and still every output row comes from the mirrored source row.
    */
  lemma FlippedFrame(
    s: bytes, t: bytes, full: nat, dst: bytes, stride: nat, width: nat, order: PixelOrder, y: bytes, u: bytes, v: bytes,
    row: nat, col: nat)
    requires IsFlip(s, t, stride, full)
    requires IsI420(dst, t, stride, width, Even(full), order, y, u, v)
    requires row < Even(full) && col < width
    ensures Accepts(s, stride, width, full, order.BytesPerPixel())
    ensures At(width, row, col) < |dst|
    ensures dst[At(width, row, col)] == PixelAt(s, stride, width, full, order, full - 1 - row, col).0
    ensures row < Even(full) / 2 && col < width / 2 ==>
              var c := At(width / 2, row, col);
              && |y| + |u| + c < |dst|
              && dst[|y| + c] == PixelAt(s, stride, width, full, order, full - 1 - 2 * row, 2 * col).1
              && dst[|y| + |u| + c] == PixelAt(s, stride, width, full, order, full - 1 - 2 * row, 2 * col).2
  {
    assert PlanesDone(t, stride, width, Even(full), order, y, u, v, |y|, |u|);
    hide PixelAt, At, IsFlip, IsI420, PlanesDone, Accepts, PlaneSize;
    LumaByte(dst, t, stride, width, Even(full), order, y, u, v, row, col);
    DoneAccepts(t, stride, width, Even(full), order, y, u, v, |y|, |u|);
    FlippedPixel(s, t, stride, full, width, Even(full), order, row, col);
    if row < Even(full) / 2 && col < width / 2 {
      FlippedChroma(s, t, full, dst, stride, width, order, y, u, v, row, col);
    }
  }

  /** After a flip every byte of a row is that of the mirror row at the same place. */
  lemma FlipBytes(s: bytes, t: bytes, stride: nat, height: nat, row: nat, at: nat, origin: nat, n: nat)
    requires IsFlip(s, t, stride, height) && row < height && n < stride
    requires at == row * stride && origin == (height - 1 - row) * stride
    ensures at + n < |t| && origin + n < |s| && t[at + n] == s[origin + n]
  {
    RowsApart(stride, row, height);
    RowsApart(stride, height - 1 - row, height);
    assert Row(t, stride, height, row)[n] == Row(s, stride, height, height - 1 - row)[n];
  }

  /** The Y of a frame that arrives upside down, by the bytes of the mirror row. */
  lemma FlippedFrom(
    s: bytes, t: bytes, full: nat, dst: bytes, stride: nat, width: nat, order: PixelOrder, y: bytes, u: bytes, v: bytes,
    row: nat, col: nat, k: nat, at: nat, mirror: nat, n: nat)
    requires IsFlip(s, t, stride, full) && IsI420(dst, t, stride, width, Even(full), order, y, u, v)
    requires row < Even(full) && col < width
    requires k == row * width + col && at == row * stride && mirror == (full - 1 - row) * stride
    requires n == col * Layout(order).0
    ensures var (bpp, red, green, blue) := Layout(order);
            && k < |dst| && mirror + n + bpp <= |s|
            && dst[k] == YOf(s[mirror + n + red], s[mirror + n + green], s[mirror + n + blue])
  {
    var (bpp, red, green, blue) := Layout(order);
    FrameAccepts(dst, t, stride, width, Even(full), order, y, u, v);
    assert bpp == order.BytesPerPixel();
    InBounds(t, stride, width, Even(full), bpp, row, col);
    hide IsFlip, IsI420, Accepts, Layout, YOf;
    LumaFrom(dst, t, stride, width, Even(full), order, y, u, v, row, col, k, at + n);
    FlipBytes(s, t, stride, full, row, at, mirror, n + red);
    FlipBytes(s, t, stride, full, row, at, mirror, n + green);
    FlipBytes(s, t, stride, full, row, at, mirror, n + blue);
    FlipBytes(s, t, stride, full, row, at, mirror, n + bpp - 1);
  }
}
