/**
 * The software renderer of gfx.c: a back buffer held in the static array
 * buffer_data of 1280 x 800 pixels, whose dimensions gfx_init clamps to
 * it, drawing loops that write into it through clipped pixel writes, and
 * gfx_swap_buffers, which copies it row by row onto the front surface,
 * whose rows are pitch / 4 pixels apart.
 */
module Gfx {
  import opened Machine
  import opened Canvas

  const MAX_WIDTH: nat := 1280
  const MAX_HEIGHT: nat := 800
  /** The pixels of buffer_data. */
  const BUFFER_PIXELS: nat := 1280 * 800

  /** The fields of the boot loader's framebuffer that gfx_init reads: its dimensions and its row length in bytes. */
  datatype Mode = Mode(width: nat, height: nat, pitch: nat)

  /** The clamped dimensions always fit buffer_data. */
  lemma ClampFits(w: nat, h: nat)
    ensures Min(w, MAX_WIDTH) * Min(h, MAX_HEIGHT) <= BUFFER_PIXELS
  {
    var cw, ch := Min(w, MAX_WIDTH), Min(h, MAX_HEIGHT);
    MulMonotone(cw, ch, 800);
    MulMonotone(800, cw, 1280);
    assert cw * 800 == 800 * cw;
  }

  // ---------------------------------------------------------------------
  // gfx_draw_gradient

  /**
   * One channel of row i of the gradient as gfx.c computes it:
   * ((int)c2 - c1) * i mixes int and uint32_t, so the product is taken
   * modulo 2^32 and divided as an unsigned value before the sum is
   * truncated to uint8_t.
   */
  function ChannelAsWritten(c1: u8, c2: u8, i: u32, h: u32): u8
    requires i < h
  {
    Wrap8(c1 + Wrap32((c2 - c1) * i) / h)
  }

  /** A channel that falls from 200 to 100 over three rows gives 252 in row 1, outside both ends. */
  lemma ChannelAsWrittenLeavesRange()
    ensures ChannelAsWritten(200, 100, 1, 3) == 252
    ensures !(100 <= ChannelAsWritten(200, 100, 1, 3) <= 200)
  {
    assert Wrap32(-100) == 4294967196;
    assert 4294967196 / 3 == 1431655732;
    assert (200 + 1431655732) % 256 == 252;
  }

  /** Scaling d by i / h with i < h, rounding toward zero, stays between 0 and d, and is 0 for i = 0. */
  lemma ScaleDown(d: int, i: nat, h: nat)
    requires i < h
    ensures d >= 0 ==> 0 <= CDiv(d * i, h) <= d
    ensures d <= 0 ==> d <= CDiv(d * i, h) <= 0
    ensures i == 0 ==> CDiv(d * i, h) == 0
  {
    var m := Abs(d);
    assert m * i >= 0;
    assert d >= 0 ==> d * i == m * i;
    assert d < 0 ==> d * i == -(m * i);
    MulMonotone(m, i, h);
    assert h * 0 <= m * i <= h * m;
    DivBetween(m * i, h, 0, m);
  }

  /** The interpolation c1 + (c2 - c1) * i / h the comment states, in signed arithmetic. */
  function Channel(c1: u8, c2: u8, i: u32, h: u32): (r: u8)
    requires i < h
    ensures Min(c1, c2) <= r <= Max(c1, c2)
    ensures i == 0 ==> r == c1
  {
    var q := CDiv((c2 - c1) * i, h);
    ScaleDown(c2 - c1, i, h);
    c1 + q
  }

  /** For a rising channel whose product stays below 2^32, the code as written computes the intended value. */
  lemma ChannelAsWrittenRising(c1: u8, c2: u8, i: u32, h: u32)
    requires i < h && c1 <= c2 && (c2 - c1) * i < U32_LIMIT
    ensures ChannelAsWritten(c1, c2, i, h) == Channel(c1, c2, i, h)
  {
    var p := (c2 - c1) * i;
    ScaleDown(c2 - c1, i, h);
    assert p >= 0;
    assert CDiv(p, h) == p / h;
    assert Wrap32(p) == p;
  }

  /** The colour of row i: opaque, each channel interpolated from c1 to c2. */
  function RowColor(c1: u32, c2: u32, i: u32, h: u32): u32
    requires i < h
  {
    Argb(255, Channel(Red(c1), Red(c2), i, h), Channel(Green(c1), Green(c2), i, h), Channel(Blue(c1), Blue(c2), i, h))
  }

  /** Every row is opaque with each channel between the two colours' channels, and row 0 has the first colour's channels. */
  lemma GradientRows(c1: u32, c2: u32, i: u32, h: u32)
    requires i < h
    ensures var c := RowColor(c1, c2, i, h);
      Alpha(c) == 255 &&
      Min(Red(c1), Red(c2)) <= Red(c) <= Max(Red(c1), Red(c2)) &&
      Min(Green(c1), Green(c2)) <= Green(c) <= Max(Green(c1), Green(c2)) &&
      Min(Blue(c1), Blue(c2)) <= Blue(c) <= Max(Blue(c1), Blue(c2)) &&
      (i == 0 ==> Red(c) == Red(c1) && Green(c) == Green(c1) && Blue(c) == Blue(c1))
  {
    ArgbChannels(255, Channel(Red(c1), Red(c2), i, h), Channel(Green(c1), Green(c2), i, h), Channel(Blue(c1), Blue(c2), i, h));
  }

  function GradientShader(c1: u32, c2: u32, h: u32): Shader
  {
    (i: int, j: int, pixel: u32) => if 0 <= i < h then RowColor(c1, c2, i, h) else pixel
  }

  // ---------------------------------------------------------------------
  // gfx_draw_rounded_rect

  /** The corner test dx*dx + dy*dy <= r*r. */
  predicate Inside(dx: int, dy: int, r: int)
  {
    dx * dx + dy * dy <= r * r
  }

  /**
   * Whether gfx_draw_rounded_rect draws offset (i, j) of a w x h
   * rectangle with corner radius r: its if-chain tests the four corners
   * in turn, with w - r - 1 and h - r - 1 computed in uint32_t.
   */
  predicate RoundedKeep(w: u32, h: u32, r: u32, i: int, j: int)
  {
    var wr := Wrap32(w - r - 1);
    var hr := Wrap32(h - r - 1);
    if j < r && i < r then Inside(r - j, r - i, r)
    else if j > wr && i < r then Inside(j - wr, r - i, r)
    else if j < r && i > hr then Inside(r - j, i - hr, r)
    else if j > wr && i > hr then Inside(j - wr, i - hr, r)
    else true
  }

  function RoundedShader(w: u32, h: u32, r: u32, color: u32): Shader
  {
    (i: int, j: int, pixel: u32) => if RoundedKeep(w, h, r, i, j) then color else pixel
  }

  /**
   * A pixel outside the four r x r corner squares is always drawn, and
   * one inside a corner square is drawn exactly when it lies within
   * distance r of that corner's centre.
   */
  lemma RoundedCorners(w: u32, h: u32, r: u32, i: nat, j: nat)
    requires i < h && j < w && r < w && r < h
    ensures (r <= j < w - r || r <= i < h - r) ==> RoundedKeep(w, h, r, i, j)
    ensures j < r && i < r ==> (RoundedKeep(w, h, r, i, j) <==> Inside(r - j, r - i, r))
    ensures j >= Max(r, w - r) && i < r ==> (RoundedKeep(w, h, r, i, j) <==> Inside(j - (w - r - 1), r - i, r))
    ensures j < r && i >= Max(r, h - r) ==> (RoundedKeep(w, h, r, i, j) <==> Inside(r - j, i - (h - r - 1), r))
    ensures j >= Max(r, w - r) && i >= Max(r, h - r) ==>
      (RoundedKeep(w, h, r, i, j) <==> Inside(j - (w - r - 1), i - (h - r - 1), r))
  {
    assert Wrap32(w - r - 1) == w - r - 1;
    assert Wrap32(h - r - 1) == h - r - 1;
  }

  // ---------------------------------------------------------------------
  // gfx_draw_image

  /** An image pixel over the pixel below it: opaque replaces, transparent keeps, anything else blends to an opaque pixel. */
  function ImagePixel(c: u32, below: u32): u32
  {
    if Alpha(c) == 255 then c else if Alpha(c) > 0 then BlendRgb(c, below, Alpha(c), 255) else below
  }

  /** gfx_draw_image's pixel for offset (i, j): the image word at uint32_t index i * w + j drawn over the pixel. */
  function ImageAt(data: seq<u32>, w: u32, i: int, j: int, pixel: u32): u32
  {
    var k := Wrap32(i * w + j);
    if k < |data| then ImagePixel(data[k], pixel) else pixel
  }

  function ImageShader(data: seq<u32>, w: u32): Shader
  {
    (i: int, j: int, pixel: u32) => ImageAt(data, w, i, j, pixel)
  }

  /** What drawing an image pixel does, case by case. */
  lemma ImagePixelCases(c: u32, below: u32)
    ensures Alpha(c) == 255 ==> ImagePixel(c, below) == c
    ensures Alpha(c) == 0 ==> ImagePixel(c, below) == below
    ensures 0 < Alpha(c) < 255 ==> var p := ImagePixel(c, below);
      Alpha(p) == 255 &&
      Min(Red(c), Red(below)) <= Red(p) <= Max(Red(c), Red(below)) &&
      Min(Green(c), Green(below)) <= Green(p) <= Max(Green(c), Green(below)) &&
      Min(Blue(c), Blue(below)) <= Blue(p) <= Max(Blue(c), Blue(below))
  {
    BlendRgbChannels(c, below, Alpha(c), 255);
  }

  // ---------------------------------------------------------------------
  // gfx_swap_buffers

  /** Pixel (X, Y) of a buffer whose rows are width pixels long; 0 past its end. */
  function BackPixel(back: seq<u32>, width: nat, X: int, Y: int): u32
  {
    var k := Y * width + X;
    if 0 <= k < |back| then back[k] else 0
  }

  /**
   * The front surface after the swap: pixel (row, column) of the back
   * buffer at front index row * stride + column, for every row and
   * column of the back buffer; the rest of the surface kept.
   */
  function Swap(front: seq<u32>, back: seq<u32>, stride: nat, width: nat, height: nat): (r: seq<u32>)
    ensures |r| == |front|
  {
    seq(|front|, p requires 0 <= p < |front| =>
      if stride > 0 && Col(p, stride) < width && Row(p, stride) < height
      then BackPixel(back, width, Col(p, stride), Row(p, stride)) else front[p])
  }

  /** Front index p is a back-buffer pixel that the swap loop has copied before row i, column j. */
  predicate SwapDone(stride: nat, width: nat, height: nat, i: int, j: int, p: int)
  {
    stride > 0 && Col(p, stride) < width && Row(p, stride) < height &&
    (Row(p, stride) < i || (Row(p, stride) == i && Col(p, stride) < j))
  }

  /** The swap loop after the rows before i and the first j pixels of row i. */
  ghost predicate SwappedTo(a: seq<u32>, front: seq<u32>, back: seq<u32>, stride: nat, width: nat, height: nat, i: int, j: int)
  {
    |a| == |front| &&
    forall p :: 0 <= p < |a| ==>
      a[p] == if SwapDone(stride, width, height, i, j, p) then BackPixel(back, width, Col(p, stride), Row(p, stride)) else front[p]
  }

  lemma SwapStart(front: seq<u32>, back: seq<u32>, stride: nat, width: nat, height: nat)
    ensures SwappedTo(front, front, back, stride, width, height, 0, 0)
  {
    forall p | 0 <= p < |front|
      ensures !SwapDone(stride, width, height, 0, 0, p)
    {
      if stride > 0 {
        assert Row(p, stride) >= 0;
      }
    }
  }

  /** Writing back-buffer pixel (i, j) to front index k, the place of row i and column j, copies one more pixel. */
  lemma SwapPixel(a: seq<u32>, front: seq<u32>, back: seq<u32>, stride: nat, width: nat, height: nat, i: nat, j: nat, k: nat)
    requires SwappedTo(a, front, back, stride, width, height, i, j) && i < height && j < width
    requires k < |a| && stride > 0 && Col(k, stride) == j && Row(k, stride) == i
    ensures SwappedTo(a[k := BackPixel(back, width, j, i)], front, back, stride, width, height, i, j + 1)
  {
    var a' := a[k := BackPixel(back, width, j, i)];
    forall p | 0 <= p < |a'|
      ensures a'[p] == if SwapDone(stride, width, height, i, j + 1, p)
                       then BackPixel(back, width, Col(p, stride), Row(p, stride)) else front[p]
    {
      if p != k {
        DistinctPlace(p, k, stride);
        assert SwapDone(stride, width, height, i, j + 1, p) == SwapDone(stride, width, height, i, j, p);
      }
    }
  }

  /** Two different indices differ in their row or their column. */
  lemma DistinctPlace(p: int, k: int, stride: nat)
    requires stride > 0 && p != k
    ensures Col(p, stride) != Col(k, stride) || Row(p, stride) != Row(k, stride)
  {
    assert p == Row(p, stride) * stride + Col(p, stride);
    assert k == Row(k, stride) * stride + Col(k, stride);
  }

  lemma SwapRow(a: seq<u32>, front: seq<u32>, back: seq<u32>, stride: nat, width: nat, height: nat, i: nat)
    requires SwappedTo(a, front, back, stride, width, height, i, width)
    ensures SwappedTo(a, front, back, stride, width, height, i + 1, 0)
  {
  }

  lemma SwapFinish(a: seq<u32>, front: seq<u32>, back: seq<u32>, stride: nat, width: nat, height: nat)
    requires SwappedTo(a, front, back, stride, width, height, height, 0)
    ensures a == Swap(front, back, stride, width, height)
  {
  }

  /**
   * Back-buffer pixel (X, Y) lands at front pixel (X, Y) of rows stride
   * pixels long, and a front pixel outside the back buffer's rows and
   * columns keeps its value.
   */
  lemma SwapPlaces(front: seq<u32>, back: seq<u32>, stride: nat, width: nat, height: nat, frontHeight: nat, X: nat, Y: nat)
    requires width <= stride && width * height <= |back| && height <= frontHeight && stride * frontHeight <= |front|
    requires X < stride && Y < frontHeight
    ensures X < width && Y < height ==>
      Pixel(Swap(front, back, stride, width, height), stride, frontHeight, X, Y) == Pixel(back, width, height, X, Y)
    ensures !(X < width && Y < height) ==>
      Pixel(Swap(front, back, stride, width, height), stride, frontHeight, X, Y) == Pixel(front, stride, frontHeight, X, Y)
  {
    IndexOf(X, Y, stride, frontHeight);
    if X < width && Y < height {
      IndexOf(X, Y, width, height);
    }
  }

  class Graphics {
    /** buffer_data, the storage of the back buffer. */
    const data: array<u32>
    /** front_buffer: the boot loader's surface, its dimensions and its row length in bytes. */
    var front: array<u32>
    var frontWidth: nat
    var frontHeight: nat
    var frontPitch: nat
    /** back_buffer's dimensions and pitch. */
    var width: nat
    var height: nat
    var pitch: nat

    /**
     * The back buffer fits buffer_data and the front surface: its rows are
     * at most pitch / 4 pixels long and there are no more of them than the
     * surface has.
     */
    ghost predicate Ready()
      reads this
    {
      data.Length == BUFFER_PIXELS && width <= MAX_WIDTH && height <= MAX_HEIGHT && width * height <= data.Length &&
      front != data && width <= frontPitch / 4 && height <= frontHeight && (frontPitch / 4) * frontHeight <= front.Length
    }

    /** The back buffer's pixels. */
    function Pixels(): seq<u32>
      reads this, data
    {
      data[..]
    }

    /** The static state before gfx_init: both buffer descriptions zero. */
    constructor ()
      ensures Ready() && width == 0 && height == 0
    {
      data := new u32[BUFFER_PIXELS];
      front := new u32[0];
      frontWidth, frontHeight, frontPitch := 0, 0, 0;
      width, height, pitch := 0, 0, 0;
    }

    /**
     * gfx_init: the boot loader's surface becomes the front buffer, and the
     * back buffer takes its dimensions clamped to 1280 x 800, with a pitch
     * of four bytes per pixel.
     */
    method Init(mode: Mode, surface: array<u32>)
      requires Ready()
      requires surface != data && mode.width <= mode.pitch / 4 && mode.height * (mode.pitch / 4) <= surface.Length
      modifies this
      ensures Ready()
      ensures front == surface && frontWidth == mode.width && frontHeight == mode.height && frontPitch == mode.pitch
      ensures width == Min(mode.width, MAX_WIDTH) && height == Min(mode.height, MAX_HEIGHT) && pitch == width * 4
      ensures width <= MAX_WIDTH && height <= MAX_HEIGHT && (mode.width <= MAX_WIDTH ==> width == mode.width)
      ensures Pixels() == old(Pixels())
    {
      front := surface;
      frontWidth, frontHeight, frontPitch := mode.width, mode.height, mode.pitch;
      width := if mode.width > MAX_WIDTH then MAX_WIDTH else mode.width;
      height := if mode.height > MAX_HEIGHT then MAX_HEIGHT else mode.height;
      pitch := width * 4;
      ClampFits(mode.width, mode.height);
    }

    /** gfx_put_pixel: a write inside the back buffer's width x height, nothing outside it. */
    method PutPixel(x: u32, y: u32, color: u32)
      requires Ready()
      modifies data
      ensures Ready()
      ensures Pixels() == Put(old(Pixels()), width, height, x, y, color)
    {
      if x >= width || y >= height {
        return;
      }
      IndexOf(x, y, width, height);
      data[y * width + x] := color;
    }

    /** gfx_blend_pixel: each channel blended over the existing pixel's, and the alpha byte forced to 0xFF. */
    method BlendPixel(x: u32, y: u32, color: u32, alpha: u8)
      requires Ready()
      modifies data
      ensures Ready()
      ensures Pixels() == PutBlend(old(Pixels()), width, height, x, y, color, alpha, 255)
    {
      if x >= width || y >= height {
        return;
      }
      IndexOf(x, y, width, height);
      var idx := y * width + x;
      var bg := data[idx];
      var r := Blend(Red(color), Red(bg), alpha);
      var g := Blend(Green(color), Green(bg), alpha);
      var b := Blend(Blue(color), Blue(bg), alpha);
      data[idx] := Argb(0xFF, r, g, b);
    }

    /** gfx_draw_rect: gfx_put_pixel(x + j, y + i) for every row i < h and column j < w. */
    method DrawRect(x: u32, y: u32, w: u32, h: u32, color: u32)
      requires Ready()
      modifies data
      ensures Ready()
      ensures Pixels() == Paint(old(Pixels()), width, height, x, y, w, h, Solid(color))
    {
      ghost var start := Pixels();
      PaintStart(start, width, height, x, y, w, Solid(color));
      for i := 0 to h
        invariant PaintedTo(Pixels(), start, width, height, x, y, w, i, 0, Solid(color))
      {
        for j := 0 to w
          invariant PaintedTo(Pixels(), start, width, height, x, y, w, i, j, Solid(color))
        {
          PaintPixel(Pixels(), start, width, height, x, y, w, h, i, j, Solid(color), color);
          PutPixel(Wrap32(x + j), Wrap32(y + i), color);
        }
        PaintRow(Pixels(), start, width, height, x, y, w, i, Solid(color));
      }
      PaintDone(Pixels(), start, width, height, x, y, w, h, Solid(color));
    }

    /** gfx_draw_rect_alpha: gfx_blend_pixel(x + j, y + i) for every row i < h and column j < w. */
    method DrawRectAlpha(x: u32, y: u32, w: u32, h: u32, color: u32, alpha: u8)
      requires Ready()
      modifies data
      ensures Ready()
      ensures Pixels() == Paint(old(Pixels()), width, height, x, y, w, h, BlendShader(color, alpha, 255))
    {
      ghost var start := Pixels();
      ghost var f := BlendShader(color, alpha, 255);
      PaintStart(start, width, height, x, y, w, f);
      for i := 0 to h
        invariant PaintedTo(Pixels(), start, width, height, x, y, w, i, 0, f)
      {
        for j := 0 to w
          invariant PaintedTo(Pixels(), start, width, height, x, y, w, i, j, f)
        {
          PaintBlend(Pixels(), start, width, height, x, y, w, h, i, j, color, alpha, 255, f);
          BlendPixel(Wrap32(x + j), Wrap32(y + i), color, alpha);
        }
        PaintRow(Pixels(), start, width, height, x, y, w, i, f);
      }
      PaintDone(Pixels(), start, width, height, x, y, w, h, f);
    }

    /**
     * gfx_draw_rounded_rect: the rectangle of gfx_draw_rect with each r x r
     * corner cut to the quarter disc of radius r. The corner radius stays
     * below 2^15, so dx*dx + dy*dy cannot overflow int.
     */
    method DrawRoundedRect(x: u32, y: u32, w: u32, h: u32, r: u32, color: u32)
      requires Ready()
      requires r < 0x8000
      modifies data
      ensures Ready()
      ensures Pixels() == Paint(old(Pixels()), width, height, x, y, w, h, RoundedShader(w, h, r, color))
    {
      ghost var start := Pixels();
      ghost var f := RoundedShader(w, h, r, color);
      PaintStart(start, width, height, x, y, w, f);
      var wr := Wrap32(w - r - 1);
      var hr := Wrap32(h - r - 1);
      for i := 0 to h
        invariant PaintedTo(Pixels(), start, width, height, x, y, w, i, 0, f)
      {
        for j := 0 to w
          invariant PaintedTo(Pixels(), start, width, height, x, y, w, i, j, f)
        {
          var dx: int, dy: int := 0, 0;
          var isCorner := false;
          if j < r && i < r {
            dx, dy, isCorner := r - j, r - i, true;
          } else if j > wr && i < r {
            dx, dy, isCorner := j - wr, r - i, true;
          } else if j < r && i > hr {
            dx, dy, isCorner := r - j, i - hr, true;
          } else if j > wr && i > hr {
            dx, dy, isCorner := j - wr, i - hr, true;
          }
          if !isCorner || dx * dx + dy * dy <= r * r {
            PaintPixel(Pixels(), start, width, height, x, y, w, h, i, j, f, color);
            PutPixel(Wrap32(x + j), Wrap32(y + i), color);
          } else {
            PaintSkip(Pixels(), start, width, height, x, y, w, h, i, j, f);
          }
        }
        PaintRow(Pixels(), start, width, height, x, y, w, i, f);
      }
      PaintDone(Pixels(), start, width, height, x, y, w, h, f);
    }

    /** gfx_draw_gradient: row i of the rectangle in the colour interpolated i / h of the way from c1 to c2. */
    method DrawGradient(x: u32, y: u32, w: u32, h: u32, c1: u32, c2: u32)
      requires Ready()
      modifies data
      ensures Ready()
      ensures Pixels() == Paint(old(Pixels()), width, height, x, y, w, h, GradientShader(c1, c2, h))
    {
      ghost var start := Pixels();
      ghost var f := GradientShader(c1, c2, h);
      PaintStart(start, width, height, x, y, w, f);
      for i := 0 to h
        invariant PaintedTo(Pixels(), start, width, height, x, y, w, i, 0, f)
      {
        var r1, g1, b1 := Red(c1), Green(c1), Blue(c1);
        var r2, g2, b2 := Red(c2), Green(c2), Blue(c2);
        var r := Channel(r1, r2, i, h);
        var g := Channel(g1, g2, i, h);
        var b := Channel(b1, b2, i, h);
        var rowColor := Argb(0xFF, r, g, b);
        for j := 0 to w
          invariant PaintedTo(Pixels(), start, width, height, x, y, w, i, j, f)
        {
          PaintPixel(Pixels(), start, width, height, x, y, w, h, i, j, f, rowColor);
          PutPixel(Wrap32(x + j), Wrap32(y + i), rowColor);
        }
        PaintRow(Pixels(), start, width, height, x, y, w, i, f);
      }
      PaintDone(Pixels(), start, width, height, x, y, w, h, f);
    }

    /** gfx_draw_image: each image pixel drawn over the back buffer by its alpha byte. */
    method DrawImage(x: u32, y: u32, w: u32, h: u32, image: seq<u32>)
      requires Ready()
      requires w * h <= |image|
      modifies data
      ensures Ready()
      ensures Pixels() == Paint(old(Pixels()), width, height, x, y, w, h, ImageShader(image, w))
    {
      ghost var start := Pixels();
      ghost var f := ImageShader(image, w);
      PaintStart(start, width, height, x, y, w, f);
      for i := 0 to h
        invariant PaintedTo(Pixels(), start, width, height, x, y, w, i, 0, f)
      {
        for j := 0 to w
          invariant PaintedTo(Pixels(), start, width, height, x, y, w, i, j, f)
        {
          IndexOf(j, i, w, h);
          var color := image[Wrap32(i * w + j)];
          var alpha := Alpha(color);
          if alpha == 255 {
            PaintPixel(Pixels(), start, width, height, x, y, w, h, i, j, f, color);
            PutPixel(Wrap32(x + j), Wrap32(y + i), color);
          } else if alpha > 0 {
            PaintBlend(Pixels(), start, width, height, x, y, w, h, i, j, color, alpha, 255, f);
            BlendPixel(Wrap32(x + j), Wrap32(y + i), color, alpha);
          } else {
            PaintSkip(Pixels(), start, width, height, x, y, w, h, i, j, f);
          }
        }
        PaintRow(Pixels(), start, width, height, x, y, w, i, f);
      }
      PaintDone(Pixels(), start, width, height, x, y, w, h, f);
    }

    /** gfx_clear: the back buffer's width * height pixels set to the colour. */
    method Clear(color: u32)
      requires Ready()
      modifies data
      ensures Ready()
      ensures Pixels() == Canvas.Clear(old(Pixels()), width * height, color)
    {
      for i := 0 to width * height
        invariant data[..] == Canvas.Clear(old(data[..]), i, color)
      {
        data[i] := color;
      }
    }

    /** gfx_swap_buffers: the back buffer's rows copied onto the front surface, pitch / 4 pixels apart. */
    method SwapBuffers()
      requires Ready()
      modifies front
      ensures Ready()
      ensures front[..] == Swap(old(front[..]), Pixels(), frontPitch / 4, width, height)
    {
      ghost var start := front[..];
      SwapStart(start, data[..], frontPitch / 4, width, height);
      for i := 0 to height
        invariant SwappedTo(front[..], start, data[..], frontPitch / 4, width, height, i, 0)
      {
        SwapRowPixels(start, i);
      }
      SwapFinish(front[..], start, data[..], frontPitch / 4, width, height);
    }

    /** The inner loop of gfx_swap_buffers: row i of the back buffer copied onto the front surface. */
    method SwapRowPixels(ghost start: seq<u32>, i: nat)
      requires Ready() && i < height && |start| == front.Length
      requires SwappedTo(front[..], start, data[..], frontPitch / 4, width, height, i, 0)
      modifies front
      ensures SwappedTo(front[..], start, data[..], frontPitch / 4, width, height, i + 1, 0)
    {
      var stride := frontPitch / 4;
      for j := 0 to width
        invariant SwappedTo(front[..], start, data[..], stride, width, height, i, j)
      {
        IndexOf(j, i, width, height);
        IndexOf(j, i, stride, frontHeight);
        SwapPixel(front[..], start, data[..], stride, width, height, i, j, i * stride + j);
        front[i * stride + j] := data[i * width + j];
      }
      SwapRow(front[..], start, data[..], stride, width, height, i);
    }
  }
}
