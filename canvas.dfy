/**
 * The pixel grids that drivers/video/framebuffer.c and gfx.c draw into:
 * 32-bit pixels stored row by row, the colour channels as byte fields of a
 * pixel, the integer alpha blend, and the rectangles that their nested
 * loops cover. A loop passes the uint32_t coordinate x + j on, which wraps
 * modulo 2^32; that wrap-around is written out here.
 */
module Canvas {
  import opened Machine

  // ---------------------------------------------------------------------
  // Colour

  function Red(c: u32): u8 { (c / 0x1_0000) % 0x100 }

  function Green(c: u32): u8 { (c / 0x100) % 0x100 }

  function Blue(c: u32): u8 { c % 0x100 }

  function Alpha(c: u32): u8 { c / 0x100_0000 }

  /** (a << 24) | (r << 16) | (g << 8) | b: the fields are disjoint, so the OR is a sum. */
  function Argb(a: u8, r: u8, g: u8, b: u8): u32
  {
    a * 0x100_0000 + r * 0x1_0000 + g * 0x100 + b
  }

  /** Packing four channels and reading them back gives the channels. */
  lemma ArgbChannels(a: u8, r: u8, g: u8, b: u8)
    ensures var c := Argb(a, r, g, b);
      Alpha(c) == a && Red(c) == r && Green(c) == g && Blue(c) == b
  {
    var c := Argb(a, r, g, b);
    DivModUnique(c, 0x100_0000, a, r * 0x1_0000 + g * 0x100 + b);
    DivModUnique(c, 0x1_0000, a * 0x100 + r, g * 0x100 + b);
    DivModUnique(a * 0x100 + r, 0x100, a, r);
    DivModUnique(c, 0x100, a * 0x1_0000 + r * 0x100 + g, b);
    DivModUnique(a * 0x1_0000 + r * 0x100 + g, 0x100, a * 0x100 + r, g);
  }

  /** Every pixel is the packing of its four channels. */
  lemma ChannelsJoin(c: u32)
    ensures Argb(Alpha(c), Red(c), Green(c), Blue(c)) == c
  {
    var q1 := c / 0x100;
    var q2 := q1 / 0x100;
    var q3 := q2 / 0x100;
    assert c == q1 * 0x100 + Blue(c);
    assert q1 == q2 * 0x100 + Green(c);
    assert q2 == q3 * 0x100 + Red(c);
    assert q3 == Alpha(c) by {
      DivModUnique(c, 0x100_0000, q3, c - q3 * 0x100_0000);
    }
  }

  /** (fg*a + bg*(255-a)) / 255 of one channel, in the integer arithmetic of both drivers. */
  function Blend(fg: u8, bg: u8, a: u8): (c: u8)
    ensures Min(fg, bg) <= c <= Max(fg, bg)
    ensures a == 255 ==> c == fg
    ensures a == 0 ==> c == bg
  {
    var s := fg * a + bg * (255 - a);
    BlendBounds(fg, bg, a);
    s / 255
  }

  /** A quotient lies between the bounds its dividend lies between, scaled. */
  lemma DivBetween(s: int, d: int, lo: int, hi: int)
    requires d > 0 && d * lo <= s <= d * hi
    ensures lo <= s / d <= hi
  {
    var q := s / d;
    assert s == d * q + s % d;
    if q < lo {
      assert d * q <= d * (lo - 1) by {
        assert d * (lo - 1) - d * q == d * (lo - 1 - q);
        MulAtLeast(lo - 1 - q + 1, d);
      }
    }
    if q > hi {
      assert d * q >= d * (hi + 1) by {
        assert d * q - d * (hi + 1) == (q - hi - 1) * d;
        MulAtLeast(q - hi, d);
      }
    }
  }

  /** A weighted sum with weights adding to 255 lies between 255 times its smaller and its larger term. */
  lemma WeightedBetween(lo: nat, hi: nat, wl: nat, wh: nat)
    requires lo <= hi && wl + wh == 255
    ensures 255 * lo <= lo * wl + hi * wh <= 255 * hi
  {
    var d := hi - lo;
    assert lo * wl + hi * wh == 255 * lo + d * wh;
    assert 255 * hi == lo * wl + hi * wh + d * wl;
  }

  /** The blend lies between the two channels and is exact at alpha 255 and alpha 0. */
  lemma BlendBounds(fg: u8, bg: u8, a: u8)
    ensures var s := fg * a + bg * (255 - a);
      Min(fg, bg) <= s / 255 <= Max(fg, bg) &&
      (a == 255 ==> s / 255 == fg) && (a == 0 ==> s / 255 == bg)
  {
    var s := fg * a + bg * (255 - a);
    if fg <= bg {
      WeightedBetween(fg, bg, a, 255 - a);
      DivBetween(s, 255, fg, bg);
    } else {
      WeightedBetween(bg, fg, 255 - a, a);
      DivBetween(s, 255, bg, fg);
    }
    if a == 255 {
      DivModUnique(s, 255, fg, 0);
    }
    if a == 0 {
      DivModUnique(s, 255, bg, 0);
    }
  }

  /** The three channels of a pixel blended over another with one alpha. */
  function BlendRgb(fg: u32, bg: u32, alpha: u8, outAlpha: u8): u32
  {
    Argb(outAlpha, Blend(Red(fg), Red(bg), alpha), Blend(Green(fg), Green(bg), alpha), Blend(Blue(fg), Blue(bg), alpha))
  }

  /** Alpha 255 paints the new colour's channels, alpha 0 keeps the old pixel's, and every channel lies between the two. */
  lemma BlendRgbChannels(fg: u32, bg: u32, alpha: u8, outAlpha: u8)
    ensures var c := BlendRgb(fg, bg, alpha, outAlpha);
      Alpha(c) == outAlpha &&
      Min(Red(fg), Red(bg)) <= Red(c) <= Max(Red(fg), Red(bg)) &&
      Min(Green(fg), Green(bg)) <= Green(c) <= Max(Green(fg), Green(bg)) &&
      Min(Blue(fg), Blue(bg)) <= Blue(c) <= Max(Blue(fg), Blue(bg)) &&
      (alpha == 255 ==> Red(c) == Red(fg) && Green(c) == Green(fg) && Blue(c) == Blue(fg)) &&
      (alpha == 0 ==> Red(c) == Red(bg) && Green(c) == Green(bg) && Blue(c) == Blue(bg))
  {
    ArgbChannels(outAlpha, Blend(Red(fg), Red(bg), alpha), Blend(Green(fg), Green(bg), alpha), Blend(Blue(fg), Blue(bg), alpha));
  }

  // ---------------------------------------------------------------------
  // Grids

  /** Column and row of buffer index p in a grid with rows of the given length. */
  function Col(p: int, width: nat): int
    requires width > 0
  {
    p % width
  }

  function Row(p: int, width: nat): int
    requires width > 0
  {
    p / width
  }

  /** The index of column X of row Y lies inside a width x height grid and splits back into X and Y. */
  lemma IndexOf(X: int, Y: int, width: nat, height: nat)
    requires 0 <= X < width && 0 <= Y < height
    ensures 0 <= Y * width + X < width * height
    ensures Col(Y * width + X, width) == X && Row(Y * width + X, width) == Y
  {
    MulMonotone(width, Y + 1, height);
    assert width * (Y + 1) == Y * width + width;
    DivModUnique(Y * width + X, width, Y, X);
  }

  /** The pixel at column X, row Y of a width x height grid. */
  function Pixel(buf: seq<u32>, width: nat, height: nat, X: int, Y: int): u32
    requires width * height <= |buf| && 0 <= X < width && 0 <= Y < height
  {
    IndexOf(X, Y, width, height);
    buf[Y * width + X]
  }

  /** One pixel write clipped to a width x height grid, as fb_put_pixel and gfx_put_pixel do it. */
  function Put(buf: seq<u32>, width: nat, height: nat, X: int, Y: int, c: u32): (r: seq<u32>)
    requires width * height <= |buf|
    ensures |r| == |buf|
  {
    if 0 <= X < width && 0 <= Y < height then
      IndexOf(X, Y, width, height);
      buf[Y * width + X := c]
    else buf
  }

  /** A clipped write changes the one pixel at column X, row Y when that pixel is in the grid, and nothing otherwise. */
  lemma PutAt(buf: seq<u32>, width: nat, height: nat, X: int, Y: int, c: u32, p: int)
    requires width * height <= |buf| && 0 <= p < |buf|
    ensures Put(buf, width, height, X, Y, c)[p] ==
      if width > 0 && Col(p, width) == X && Row(p, width) == Y && 0 <= Y < height then c else buf[p]
  {
    if 0 <= X < width && 0 <= Y < height {
      IndexOf(X, Y, width, height);
      if Col(p, width) == X && Row(p, width) == Y {
        assert p == Row(p, width) * width + Col(p, width);
      }
    }
  }

  // ---------------------------------------------------------------------
  // Rectangles over wrapping coordinates

  /** How far X lies past origin, counting modulo 2^32 as uint32_t arithmetic does. */
  function Offset(origin: u32, X: int): int
  {
    (X - origin) % U32_LIMIT
  }

  /** The coordinate k past origin, as uint32_t arithmetic computes origin + k. */
  function Advance(origin: u32, k: int): u32
  {
    Wrap32(origin + k)
  }

  /** Whether X is origin + k (modulo 2^32) for some k below extent. */
  predicate Covers(origin: u32, extent: int, X: int)
  {
    0 <= X < U32_LIMIT && Offset(origin, X) < extent
  }

  /** The k-th coordinate after origin lies k past it. */
  lemma OffsetOf(origin: u32, k: nat)
    requires k < U32_LIMIT
    ensures Offset(origin, Wrap32(origin + k)) == k
  {
    var X := Wrap32(origin + k);
    assert X - origin == k || X - origin == k - U32_LIMIT;
  }

  /** Extending a covered range by one adds exactly the next wrapped coordinate. */
  lemma CoversStep(origin: u32, n: nat, X: int)
    requires n < U32_LIMIT
    ensures Covers(origin, n + 1, X) <==> Covers(origin, n, X) || X == Wrap32(origin + n)
  {
    OffsetOf(origin, n);
    if 0 <= X < U32_LIMIT && Offset(origin, X) == n {
      assert X == Wrap32(origin + n) by {
        assert X - origin == n || X - origin == n - U32_LIMIT;
      }
    }
  }

  /** Covers(origin, n, X) holds exactly for the coordinates origin + j, j < n, that a uint32_t loop produces. */
  lemma {:induction false} CoversLoop(origin: u32, n: nat, X: int)
    requires n <= U32_LIMIT
    ensures Covers(origin, n, X) <==> exists j :: 0 <= j < n && X == Advance(origin, j)
  {
    if n > 0 {
      CoversLoop(origin, n - 1, X);
      CoversStep(origin, n - 1, X);
      if X == Advance(origin, n - 1) {
        assert exists j :: 0 <= j < n && X == Advance(origin, j);
      }
      if exists j :: 0 <= j < n && X == Advance(origin, j) {
        var j :| 0 <= j < n && X == Advance(origin, j);
        if j < n - 1 {
          assert exists j' :: 0 <= j' < n - 1 && X == Advance(origin, j');
        }
      }
    }
  }

  /** Pixel p of a width x height grid lies in the rectangle of w columns from x and h rows from y. */
  predicate InRect(width: nat, height: nat, x: u32, y: u32, w: int, h: int, p: int)
  {
    width > 0 && 0 <= Row(p, width) < height && Covers(x, w, Col(p, width)) && Covers(y, h, Row(p, width))
  }

  /** What a drawing loop makes of the pixel it finds at row offset i and column offset j. */
  type Shader = (int, int, u32) -> u32

  /** The outcome of a loop over the rows i < h and columns j < w that applies a shader through clipped writes. */
  function Paint(buf: seq<u32>, width: nat, height: nat, x: u32, y: u32, w: int, h: int, f: Shader): (r: seq<u32>)
    ensures |r| == |buf|
  {
    seq(|buf|, p requires 0 <= p < |buf| =>
      if InRect(width, height, x, y, w, h, p) then f(Offset(y, Row(p, width)), Offset(x, Col(p, width)), buf[p]) else buf[p])
  }

  /** A shader that paints one colour. */
  function Solid(c: u32): Shader
  {
    (i: int, j: int, pixel: u32) => c
  }

  /** The state of such a loop after the rows before i and the first j pixels of row i. */
  ghost predicate PaintedTo(a: seq<u32>, buf: seq<u32>, width: nat, height: nat, x: u32, y: u32, w: int, i: nat, j: nat, f: Shader)
  {
    |a| == |buf| &&
    forall p :: 0 <= p < |a| ==>
      a[p] == if InRect(width, height, x, y, w, i, p) || InRect(width, height, x, Wrap32(y + i), j, 1, p)
              then f(Offset(y, Row(p, width)), Offset(x, Col(p, width)), buf[p]) else buf[p]
  }

  lemma PaintStart(buf: seq<u32>, width: nat, height: nat, x: u32, y: u32, w: int, f: Shader)
    ensures PaintedTo(buf, buf, width, height, x, y, w, 0, 0, f)
  {
  }

  /** The pixel the loop is about to visit still holds its original value. */
  lemma PaintUnvisited(a: seq<u32>, buf: seq<u32>, width: nat, height: nat, x: u32, y: u32, w: u32, h: u32, i: nat, j: nat, f: Shader)
    requires width * height <= |buf| && PaintedTo(a, buf, width, height, x, y, w, i, j, f) && i < h && j < w
    requires Wrap32(x + j) < width && Wrap32(y + i) < height
    ensures Pixel(a, width, height, Wrap32(x + j), Wrap32(y + i)) == Pixel(buf, width, height, Wrap32(x + j), Wrap32(y + i))
  {
    var X, Y := Wrap32(x + j), Wrap32(y + i);
    IndexOf(X, Y, width, height);
    OffsetOf(x, j);
    OffsetOf(y, i);
  }

  /** Visiting pixel (i, j): a clipped write of the shader's value for it extends the painted part by that pixel. */
  lemma PaintPixel(a: seq<u32>, buf: seq<u32>, width: nat, height: nat, x: u32, y: u32, w: u32, h: u32, i: nat, j: nat, f: Shader, v: u32)
    requires width * height <= |buf| && PaintedTo(a, buf, width, height, x, y, w, i, j, f) && i < h && j < w
    requires Wrap32(x + j) < width && Wrap32(y + i) < height ==>
      v == f(i, j, Pixel(buf, width, height, Wrap32(x + j), Wrap32(y + i)))
    ensures PaintedTo(Put(a, width, height, Wrap32(x + j), Wrap32(y + i), v), buf, width, height, x, y, w, i, j + 1, f)
  {
    forall p | 0 <= p < |a|
      ensures Put(a, width, height, Wrap32(x + j), Wrap32(y + i), v)[p] ==
        if InRect(width, height, x, y, w, i, p) || InRect(width, height, x, Wrap32(y + i), j + 1, 1, p)
        then f(Offset(y, Row(p, width)), Offset(x, Col(p, width)), buf[p]) else buf[p]
    {
      PaintCell(a, buf, width, height, x, y, w, h, i, j, f, v, p);
    }
  }

  /** PaintPixel at one pixel p of the grid. */
  lemma PaintCell(a: seq<u32>, buf: seq<u32>, width: nat, height: nat, x: u32, y: u32, w: u32, h: u32, i: nat, j: nat, f: Shader, v: u32, p: nat)
    requires width * height <= |buf| && |a| == |buf| && p < |a| && i < h && j < w
    requires a[p] == if InRect(width, height, x, y, w, i, p) || InRect(width, height, x, Wrap32(y + i), j, 1, p)
                     then f(Offset(y, Row(p, width)), Offset(x, Col(p, width)), buf[p]) else buf[p]
    requires Wrap32(x + j) < width && Wrap32(y + i) < height ==>
      v == f(i, j, Pixel(buf, width, height, Wrap32(x + j), Wrap32(y + i)))
    ensures Put(a, width, height, Wrap32(x + j), Wrap32(y + i), v)[p] ==
      if InRect(width, height, x, y, w, i, p) || InRect(width, height, x, Wrap32(y + i), j + 1, 1, p)
      then f(Offset(y, Row(p, width)), Offset(x, Col(p, width)), buf[p]) else buf[p]
  {
    var X, Y := Wrap32(x + j), Wrap32(y + i);
    PutAt(a, width, height, X, Y, v, p);
    RowExtends(width, height, x, Y, j, p);
    if width > 0 && Col(p, width) == X && Row(p, width) == Y && Y < height {
      OffsetOf(x, j);
      OffsetOf(y, i);
      RowCol(p, width);
    }
  }

  /** A pixel index is its row times the width plus its column. */
  lemma RowCol(p: int, width: nat)
    requires width > 0
    ensures p == Row(p, width) * width + Col(p, width)
  {
  }

  /** One more column of the row Y holds exactly the pixel at column x + j of that row in addition. */
  lemma RowExtends(width: nat, height: nat, x: u32, Y: u32, j: nat, p: int)
    requires j < U32_LIMIT
    ensures InRect(width, height, x, Y, j + 1, 1, p) <==>
      InRect(width, height, x, Y, j, 1, p) || (width > 0 && Col(p, width) == Wrap32(x + j) && Row(p, width) == Y && Y < height)
  {
    if width > 0 {
      CoversStep(x, j, Col(p, width));
      CoversStep(Y, 0, Row(p, width));
      OffsetOf(Y, 0);
    }
  }

  /** A finished row joins the rows before it. */
  lemma PaintRow(a: seq<u32>, buf: seq<u32>, width: nat, height: nat, x: u32, y: u32, w: u32, i: nat, f: Shader)
    requires PaintedTo(a, buf, width, height, x, y, w, i, w, f) && i < U32_LIMIT
    ensures PaintedTo(a, buf, width, height, x, y, w, i + 1, 0, f)
  {
    forall p | 0 <= p < |a| && width > 0
      ensures InRect(width, height, x, y, w, i + 1, p) <==>
              InRect(width, height, x, y, w, i, p) || InRect(width, height, x, Wrap32(y + i), w, 1, p)
    {
      CoversStep(y, i, Row(p, width));
      CoversStep(Wrap32(y + i), 0, Row(p, width));
      OffsetOf(Wrap32(y + i), 0);
    }
  }

  /** A pixel the shader leaves as it is needs no write. */
  lemma PaintSkip(a: seq<u32>, buf: seq<u32>, width: nat, height: nat, x: u32, y: u32, w: u32, h: u32, i: nat, j: nat, f: Shader)
    requires width * height <= |buf| && PaintedTo(a, buf, width, height, x, y, w, i, j, f) && i < h && j < w
    requires Wrap32(x + j) < width && Wrap32(y + i) < height ==>
      f(i, j, Pixel(buf, width, height, Wrap32(x + j), Wrap32(y + i))) == Pixel(buf, width, height, Wrap32(x + j), Wrap32(y + i))
    ensures PaintedTo(a, buf, width, height, x, y, w, i, j + 1, f)
  {
    var X, Y := Wrap32(x + j), Wrap32(y + i);
    if X < width && Y < height {
      PaintUnvisited(a, buf, width, height, x, y, w, h, i, j, f);
      PaintPixel(a, buf, width, height, x, y, w, h, i, j, f, Pixel(a, width, height, X, Y));
      IndexOf(X, Y, width, height);
      assert Put(a, width, height, X, Y, Pixel(a, width, height, X, Y)) == a;
    } else {
      PaintPixel(a, buf, width, height, x, y, w, h, i, j, f, 0);
    }
  }

  /** A clipped write of a colour blended over the pixel it replaces, with the given alpha byte in the result. */
  function PutBlend(buf: seq<u32>, width: nat, height: nat, X: int, Y: int, color: u32, alpha: u8, outAlpha: u8): (r: seq<u32>)
    requires width * height <= |buf|
    ensures |r| == |buf|
  {
    if 0 <= X < width && 0 <= Y < height then
      Put(buf, width, height, X, Y, BlendRgb(color, Pixel(buf, width, height, X, Y), alpha, outAlpha))
    else buf
  }

  /** What a loop of blended writes makes of each pixel it visits. */
  function BlendShader(color: u32, alpha: u8, outAlpha: u8): Shader
  {
    (i: int, j: int, pixel: u32) => BlendRgb(color, pixel, alpha, outAlpha)
  }

  /** One blended write extends the painted part: the pixel it blends over is still the original. */
  lemma PaintBlend(a: seq<u32>, buf: seq<u32>, width: nat, height: nat, x: u32, y: u32, w: u32, h: u32, i: nat, j: nat,
                   color: u32, alpha: u8, outAlpha: u8, f: Shader)
    requires width * height <= |buf| && PaintedTo(a, buf, width, height, x, y, w, i, j, f)
    requires i < h && j < w
    requires forall pixel: u32 :: f(i, j, pixel) == BlendRgb(color, pixel, alpha, outAlpha)
    ensures PaintedTo(PutBlend(a, width, height, Wrap32(x + j), Wrap32(y + i), color, alpha, outAlpha), buf, width, height,
                      x, y, w, i, j + 1, f)
  {
    var X, Y := Wrap32(x + j), Wrap32(y + i);
    if X < width && Y < height {
      PaintUnvisited(a, buf, width, height, x, y, w, h, i, j, f);
      PaintPixel(a, buf, width, height, x, y, w, h, i, j, f, BlendRgb(color, Pixel(a, width, height, X, Y), alpha, outAlpha));
    } else {
      PaintPixel(a, buf, width, height, x, y, w, h, i, j, f, 0);
    }
  }

  /** After the last row the buffer is the painted one. */
  lemma PaintDone(a: seq<u32>, buf: seq<u32>, width: nat, height: nat, x: u32, y: u32, w: u32, h: u32, f: Shader)
    requires PaintedTo(a, buf, width, height, x, y, w, h, 0, f)
    ensures a == Paint(buf, width, height, x, y, w, h, f)
  {
  }

  /**
   * A pixel is in the rectangle exactly when it is in the grid, its column
   * is some x + j with j < w and its row some y + i with i < h, wrapped as
   * uint32_t values.
   */
  lemma RectCovers(width: nat, height: nat, x: u32, y: u32, w: u32, h: u32, p: int)
    requires 0 <= p && width > 0
    ensures InRect(width, height, x, y, w, h, p) <==>
      Row(p, width) < height && (exists j :: 0 <= j < w && Col(p, width) == Advance(x, j)) &&
      (exists i :: 0 <= i < h && Row(p, width) == Advance(y, i))
  {
    CoversLoop(x, w, Col(p, width));
    CoversLoop(y, h, Row(p, width));
  }

  /** The first n pixels set to one colour, the rest kept (fb_clear, gfx_clear). */
  function Clear(buf: seq<u32>, n: int, c: u32): (r: seq<u32>)
    ensures |r| == |buf|
  {
    seq(|buf|, p requires 0 <= p < |buf| => if p < n then c else buf[p])
  }
}
