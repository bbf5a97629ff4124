/**
 * The framebuffer driver of drivers/video/framebuffer.c. The boot loader's
 * first framebuffer is the front surface; fb_init adds a back buffer when
 * frames are available, and every drawing call writes into the current
 * buffer: the back buffer under double buffering, the front surface
 * otherwise. Pixels are 32-bit words stored row by row, width to a row.
 */
module Framebuffer {
  import opened Machine
  import opened Wrappers
  import opened Canvas

  /** The dimensions of the first framebuffer the boot loader reports. */
  datatype Mode = Mode(width: nat, height: nat)

  // ---------------------------------------------------------------------
  // fb_draw_line

  /** The clipped writes of one colour at the given points, in order. */
  function Plot(buf: seq<u32>, width: nat, height: nat, points: seq<(int, int)>, c: u32): (r: seq<u32>)
    requires width * height <= |buf|
    ensures |r| == |buf|
  {
    if points == [] then buf
    else
      var last := points[|points| - 1];
      Put(Plot(buf, width, height, points[..|points| - 1], c), width, height, last.0, last.1, c)
  }

  /** Two distinct points at most one step apart in each direction. */
  predicate Adjacent(p: (int, int), q: (int, int))
  {
    p != q && -1 <= q.0 - p.0 <= 1 && -1 <= q.1 - p.1 <= 1
  }

  /** v lies between a and b. */
  predicate Between(v: int, a: int, b: int)
  {
    Min(a, b) <= v <= Max(a, b)
  }

  /**
   * The points a walk from (x0, y0) toward (x1, y1) has plotted while it
   * stands at (cx, cy): they start at (x0, y0), each is adjacent to the
   * next and the last to (cx, cy), all lie in the bounding box of the two
   * ends, and none is (x1, y1).
   */
  ghost predicate LinePath(points: seq<(int, int)>, x0: int, y0: int, x1: int, y1: int, cx: int, cy: int)
  {
    (points == [] ==> (cx, cy) == (x0, y0)) &&
    (points != [] ==> points[0] == (x0, y0) && Adjacent(points[|points| - 1], (cx, cy))) &&
    (forall k :: 0 <= k < |points| ==> points[k] != (x1, y1) && Between(points[k].0, x0, x1) && Between(points[k].1, y0, y1)) &&
    (forall k :: 0 <= k < |points| - 1 ==> Adjacent(points[k], points[k + 1]))
  }

  /** Plotting the current point short of the end and stepping to an adjacent one extends the path. */
  lemma LinePathStep(points: seq<(int, int)>, x0: int, y0: int, x1: int, y1: int, cx: int, cy: int, nx: int, ny: int)
    requires LinePath(points, x0, y0, x1, y1, cx, cy)
    requires (cx, cy) != (x1, y1) && Between(cx, x0, x1) && Between(cy, y0, y1) && Adjacent((cx, cy), (nx, ny))
    ensures LinePath(points + [(cx, cy)], x0, y0, x1, y1, nx, ny)
  {
    var q := points + [(cx, cy)];
    assert forall k :: 0 <= k < |points| ==> q[k] == points[k];
  }

  /** Plotting the end point completes the path with the properties fb_draw_line promises. */
  lemma LinePathEnd(points: seq<(int, int)>, x0: int, y0: int, x1: int, y1: int)
    requires LinePath(points, x0, y0, x1, y1, x1, y1)
    ensures var q := points + [(x1, y1)];
      q[0] == (x0, y0) &&
      (forall k :: 0 <= k < |q| - 1 ==> q[k] != (x1, y1) && Adjacent(q[k], q[k + 1])) &&
      (forall k :: 0 <= k < |q| ==> Between(q[k].0, x0, x1) && Between(q[k].1, y0, y1))
  {
    var q := points + [(x1, y1)];
    assert forall k :: 0 <= k < |points| ==> q[k] == points[k];
  }

  /**
   * One step of the line walk with err = dx*(1+ny) - dy*(1+nx) after nx
   * steps along x and ny along y: short of the end, 2*err > -dy only when
   * x is short of its end, 2*err < dx only when y is, at least one of the
   * two holds, and the updated err keeps its form.
   */
  lemma LineStep(dx: nat, dy: nat, nx: nat, ny: nat, err: int)
    requires nx <= dx && ny <= dy && !(nx == dx && ny == dy)
    requires err == dx * (1 + ny) - dy * (1 + nx)
    ensures 2 * err + dy > 0 ==> nx < dx
    ensures 2 * err < dx ==> ny < dy
    ensures 2 * err + dy > 0 || 2 * err < dx
    ensures err - dy == dx * (1 + ny) - dy * (1 + (nx + 1))
    ensures err + dx == dx * (1 + (ny + 1)) - dy * (1 + nx)
    ensures err - dy + dx == dx * (1 + (ny + 1)) - dy * (1 + (nx + 1))
  {
    assert dy * (1 + (nx + 1)) == dy * (1 + nx) + dy;
    assert dx * (1 + (ny + 1)) == dx * (1 + ny) + dx;
    if nx == dx {
      MulMonotone(dx, 1 + ny, dy);
      assert dy * (1 + dx) == dy + dx * dy;
    }
    if ny == dy {
      MulMonotone(dy, 1 + nx, dx);
      assert dx * (1 + dy) == dx + dx * dy;
    }
  }

  /**
   * The error term of the walk stays between -2 dy and 2 dx, so with both
   * distances below 2^29 every int fb_draw_line computes fits in 32 bits.
   */
  lemma LineErrorBound(dx: int, dy: int, err: int)
    requires 0 <= dx < 0x2000_0000 && 0 <= dy < 0x2000_0000 && -2 * dy <= err <= 2 * dx
    ensures InInt32(2 * err) && InInt32(err - dy) && InInt32(err + dx) && InInt32(err - dy + dx)
    ensures 2 * err > -dy && 2 * err >= dx ==> -2 * dy <= err - dy <= 2 * dx
    ensures 2 * err <= -dy && 2 * err < dx ==> -2 * dy <= err + dx <= 2 * dx
    ensures 2 * err > -dy && 2 * err < dx ==> -2 * dy <= err - dy + dx <= 2 * dx
  {
  }

  /**
   * One pass of fb_draw_line's loop past a point short of the end, after nx
   * steps along x and ny along y: e2 and the new err fit in an int, at least
   * one coordinate moves one step towards its end, and err keeps its closed
   * form and its bounds.
   */
  method LineAdvance(dx: int, dy: int, sx: int, sy: int, err: int, cx: int, cy: int, ghost nx: int, ghost ny: int)
      returns (err': int, cx': int, cy': int, ghost nx': int, ghost ny': int)
    requires 0 <= nx <= dx < 0x2000_0000 && 0 <= ny <= dy < 0x2000_0000 && !(nx == dx && ny == dy)
    requires err == dx * (1 + ny) - dy * (1 + nx) && -2 * dy <= err <= 2 * dx
    ensures InInt32(2 * err) && InInt32(err')
    ensures nx <= nx' <= nx + 1 && ny <= ny' <= ny + 1 && nx' <= dx && ny' <= dy && nx + ny < nx' + ny'
    ensures cx' == (if nx' == nx then cx else cx + sx) && cy' == (if ny' == ny then cy else cy + sy)
    ensures err' == dx * (1 + ny') - dy * (1 + nx') && -2 * dy <= err' <= 2 * dx
  {
    LineStep(dx, dy, nx, ny, err);
    LineErrorBound(dx, dy, err);
    err', cx', cy', nx', ny' := err, cx, cy, nx, ny;
    var e2 := 2 * err;
    if e2 > -dy {
      err' := err' - dy;
      cx' := cx' + sx;
      nx' := nx' + 1;
    }
    if e2 < dx {
      err' := err' + dx;
      cy' := cy' + sy;
      ny' := ny' + 1;
    }
  }

  // ---------------------------------------------------------------------
  // fb_draw_string

  /** A call fb_draw_char(x, y, c): where a character is drawn. */
  datatype Glyph = Glyph(x: u32, y: u32, c: char)

  /** The line breaks among the characters. */
  function Lines(s: string): nat
  {
    if s == [] then 0 else Lines(s[..|s| - 1]) + (if s[|s| - 1] == '\n' then 1 else 0)
  }

  /** The characters after the last line break. */
  function Column(s: string): nat
  {
    if s == [] then 0 else if s[|s| - 1] == '\n' then 0 else Column(s[..|s| - 1]) + 1
  }

  /** The pen (cur_x, y) after the characters of s, starting from (x, y). */
  function Pen(x: u32, y: u32, s: string): (u32, u32)
  {
    if s == [] then (x, y)
    else
      var pen := Pen(x, y, s[..|s| - 1]);
      if s[|s| - 1] == '\n' then (x, Wrap32(pen.1 + 16)) else (Wrap32(pen.0 + 8), pen.1)
  }

  /** The glyphs fb_draw_string draws for s, in order: one per character other than a line break, at the pen. */
  function Layout(x: u32, y: u32, s: string): (r: seq<Glyph>)
    ensures |r| == |s| - Lines(s)
    ensures forall k :: 0 <= k < |r| ==> r[k].c != '\n'
  {
    if s == [] then []
    else
      var pen := Pen(x, y, s[..|s| - 1]);
      Layout(x, y, s[..|s| - 1]) + (if s[|s| - 1] == '\n' then [] else [Glyph(pen.0, pen.1, s[|s| - 1])])
  }

  lemma WrapAdd(a: int, b: int)
    ensures Wrap32(Wrap32(a) + b) == Wrap32(a + b)
  {
    var q := a / U32_LIMIT;
    assert a == q * U32_LIMIT + Wrap32(a);
    assert Wrap32(a) + b == (a + b) - q * U32_LIMIT;
  }

  /**
   * The pen stands 8 pixels further right for each character since the
   * last line break, and 16 pixels further down for each line break, both
   * modulo 2^32.
   */
  lemma {:induction false} PenClosed(x: u32, y: u32, s: string)
    ensures Pen(x, y, s) == (Wrap32(x + 8 * Column(s)), Wrap32(y + 16 * Lines(s)))
  {
    if s != [] {
      var init := s[..|s| - 1];
      PenClosed(x, y, init);
      WrapAdd(x + 8 * Column(init), 8);
      WrapAdd(y + 16 * Lines(init), 16);
    }
  }

  /** fb_draw_string: the fb_draw_char calls it makes, in order; nothing for a NULL string. */
  method DrawString(x: u32, y: u32, str: Option<string>) returns (glyphs: seq<Glyph>)
    ensures glyphs == if str.None? then [] else Layout(x, y, str.value)
  {
    if str.None? {
      return [];
    }
    var s := str.value;
    var curX := x;
    var curY := y;
    glyphs := [];
    var i := 0;
    while i < |s|
      invariant 0 <= i <= |s|
      invariant (curX, curY) == Pen(x, y, s[..i]) && glyphs == Layout(x, y, s[..i])
    {
      assert s[..i + 1][..i] == s[..i];
      if s[i] == '\n' {
        curX := x;
        curY := Wrap32(curY as int + 16);
      } else {
        glyphs := glyphs + [Glyph(curX, curY, s[i])];
        curX := Wrap32(curX as int + 8);
      }
      i := i + 1;
    }
    assert s[..|s|] == s;
  }

  // ---------------------------------------------------------------------
  // fb_copy_region

  /** Pixel p lies in the w x h region with top-left corner (rx, ry). */
  predicate InRegion(width: nat, rx: int, ry: int, w: int, h: int, p: int)
  {
    width > 0 && ry <= Row(p, width) < ry + h && rx <= Col(p, width) < rx + w
  }

  /** Both regions lie inside the grid, and so every uint32_t coordinate sum the copy forms is exact. */
  predicate RegionsInside(width: nat, height: nat, sx: nat, sy: nat, dx: nat, dy: nat, w: nat, h: nat)
  {
    sx + w <= width && dx + w <= width && sy + h <= height && dy + h <= height &&
    sx + w <= U32_LIMIT && dx + w <= U32_LIMIT && sy + h <= U32_LIMIT && dy + h <= U32_LIMIT
  }

  /** The source pixel at the place in the source region that p has in the destination region. */
  function SourceOf(width: nat, height: nat, sx: nat, sy: nat, dx: nat, dy: nat, w: nat, h: nat, p: int): (q: int)
    requires RegionsInside(width, height, sx, sy, dx, dy, w, h) && p >= 0 && InRegion(width, dx, dy, w, h, p)
    ensures 0 <= q < width * height
  {
    IndexOf(Col(p, width) - dx + sx, Row(p, width) - dy + sy, width, height);
    (Row(p, width) - dy + sy) * width + (Col(p, width) - dx + sx)
  }

  /** Every destination pixel takes the original value of the source pixel at its place; the rest are kept. */
  function Copy(buf: seq<u32>, width: nat, height: nat, sx: nat, sy: nat, dx: nat, dy: nat, w: nat, h: nat): (r: seq<u32>)
    requires width * height <= |buf| && RegionsInside(width, height, sx, sy, dx, dy, w, h)
    ensures |r| == |buf|
  {
    seq(|buf|, p requires 0 <= p < |buf| =>
      if InRegion(width, dx, dy, w, h, p) then buf[SourceOf(width, height, sx, sy, dx, dy, w, h, p)] else buf[p])
  }

  /** The destination lies below, or on the same rows and to the right: fb_copy_region then copies from the last pixel back. */
  predicate Backward(sx: int, sy: int, dx: int, dy: int)
  {
    sy < dy || (sy == dy && sx < dx)
  }

  /**
   * The extent a copy loop covers: the backward loops start from
   * int y = height - 1 and int x = width - 1, which are negative for an
   * extent above 2^31, and then copy nothing.
   */
  function Extent(backward: bool, n: nat): nat
  {
    if backward && n > 0x8000_0000 then 0 else n
  }

  /** int i = n - 1 starts the backward loop at the last offset of the extent it covers, or below 0 for none. */
  lemma LastOffset(n: u32)
    ensures var i := AsInt32(Wrap32(n - 1));
      i < Extent(true, n) && (Extent(true, n) > 0 ==> i == Extent(true, n) - 1)
  {
    if n == 0 {
      assert Wrap32(n - 1) == U32_LIMIT - 1;
    } else {
      assert Wrap32(n - 1) == n - 1;
    }
  }

  /** Whether region offset (r, c) has been copied when the loop is about to copy (i, j). */
  predicate Done(backward: bool, r: int, c: int, i: int, j: int)
  {
    if backward then r > i || (r == i && c > j) else r < i || (r == i && c < j)
  }

  ghost predicate CopiedTo(a: seq<u32>, buf: seq<u32>, width: nat, height: nat, sx: nat, sy: nat, dx: nat, dy: nat, w: nat, h: nat,
                           backward: bool, i: int, j: int)
    requires width * height <= |buf| && RegionsInside(width, height, sx, sy, dx, dy, w, h)
  {
    |a| == |buf| &&
    forall p :: 0 <= p < |a| ==>
      a[p] == if InRegion(width, dx, dy, w, h, p) && Done(backward, Row(p, width) - dy, Col(p, width) - dx, i, j)
              then buf[SourceOf(width, height, sx, sy, dx, dy, w, h, p)] else buf[p]
  }

  lemma CopyStart(buf: seq<u32>, width: nat, height: nat, sx: nat, sy: nat, dx: nat, dy: nat, w: nat, h: nat, backward: bool, i: int, j: int)
    requires width * height <= |buf| && RegionsInside(width, height, sx, sy, dx, dy, w, h)
    requires backward ==> w == 0 || h == 0 || (i == h - 1 && j == w - 1)
    requires !backward ==> i == 0 && j == 0
    ensures CopiedTo(buf, buf, width, height, sx, sy, dx, dy, w, h, backward, i, j)
  {
  }

  /** In the loop's direction, the source pixel of offset (i, j) is not among the destination pixels copied before it. */
  lemma CopyUntouched(a: seq<u32>, buf: seq<u32>, width: nat, height: nat, sx: nat, sy: nat, dx: nat, dy: nat, w: nat, h: nat,
                      backward: bool, i: int, j: int)
    requires width * height <= |buf| && RegionsInside(width, height, sx, sy, dx, dy, w, h)
    requires CopiedTo(a, buf, width, height, sx, sy, dx, dy, w, h, backward, i, j)
    requires 0 <= i < h && 0 <= j < w && backward == Backward(sx, sy, dx, dy)
    ensures Pixel(a, width, height, sx + j, sy + i) == Pixel(buf, width, height, sx + j, sy + i)
  {
    IndexOf(sx + j, sy + i, width, height);
  }

  /** Writing the source value of offset (i, j) to its destination pixel extends the copied part by that offset. */
  lemma CopyExtend(a: seq<u32>, buf: seq<u32>, width: nat, height: nat, sx: nat, sy: nat, dx: nat, dy: nat, w: nat, h: nat,
                   backward: bool, i: int, j: int, v: u32)
    requires width * height <= |buf| && RegionsInside(width, height, sx, sy, dx, dy, w, h)
    requires CopiedTo(a, buf, width, height, sx, sy, dx, dy, w, h, backward, i, j)
    requires 0 <= i < h && 0 <= j < w
    requires v == Pixel(buf, width, height, sx + j, sy + i)
    ensures CopiedTo(Put(a, width, height, dx + j, dy + i, v), buf, width, height, sx, sy, dx, dy, w, h,
                     backward, i, if backward then j - 1 else j + 1)
  {
    IndexOf(sx + j, sy + i, width, height);
    var a' := Put(a, width, height, dx + j, dy + i, v);
    var j' := if backward then j - 1 else j + 1;
    forall p | 0 <= p < |a'|
      ensures a'[p] == if InRegion(width, dx, dy, w, h, p) && Done(backward, Row(p, width) - dy, Col(p, width) - dx, i, j')
                       then buf[SourceOf(width, height, sx, sy, dx, dy, w, h, p)] else buf[p]
    {
      PutAt(a, width, height, dx + j, dy + i, v, p);
      if width > 0 && Col(p, width) == dx + j && Row(p, width) == dy + i {
        assert InRegion(width, dx, dy, w, h, p) && Done(backward, i, j, i, j');
        assert SourceOf(width, height, sx, sy, dx, dy, w, h, p) == (sy + i) * width + (sx + j);
      } else if InRegion(width, dx, dy, w, h, p) {
        assert Done(backward, Row(p, width) - dy, Col(p, width) - dx, i, j') ==
               Done(backward, Row(p, width) - dy, Col(p, width) - dx, i, j);
      }
    }
  }

  lemma CopyRow(a: seq<u32>, buf: seq<u32>, width: nat, height: nat, sx: nat, sy: nat, dx: nat, dy: nat, w: nat, h: nat,
                backward: bool, i: int)
    requires width * height <= |buf| && RegionsInside(width, height, sx, sy, dx, dy, w, h)
    requires CopiedTo(a, buf, width, height, sx, sy, dx, dy, w, h, backward, i, if backward then -1 else w)
    ensures CopiedTo(a, buf, width, height, sx, sy, dx, dy, w, h, backward, if backward then i - 1 else i + 1, if backward then w - 1 else 0)
  {
  }

  lemma CopyDone(a: seq<u32>, buf: seq<u32>, width: nat, height: nat, sx: nat, sy: nat, dx: nat, dy: nat, w: nat, h: nat,
                 backward: bool, i: int, j: int)
    requires width * height <= |buf| && RegionsInside(width, height, sx, sy, dx, dy, w, h)
    requires CopiedTo(a, buf, width, height, sx, sy, dx, dy, w, h, backward, i, j)
    requires if backward then i < 0 else i >= h
    ensures a == Copy(buf, width, height, sx, sy, dx, dy, w, h)
  {
  }

  /**
   * The copy's destination pixel (dx + j, dy + i) holds what the source
   * pixel (sx + j, sy + i) held before the copy, for every offset inside
   * the regions, whether or not they overlap; no pixel outside the
   * destination changes.
   */
  lemma CopyReadsSource(buf: seq<u32>, width: nat, height: nat, sx: nat, sy: nat, dx: nat, dy: nat, w: nat, h: nat, i: nat, j: nat)
    requires width * height <= |buf| && RegionsInside(width, height, sx, sy, dx, dy, w, h)
    requires i < h && j < w
    ensures 0 <= (sy + i) * width + (sx + j) < |buf| && 0 <= (dy + i) * width + (dx + j) < |buf|
    ensures Copy(buf, width, height, sx, sy, dx, dy, w, h)[(dy + i) * width + (dx + j)] == buf[(sy + i) * width + (sx + j)]
  {
    IndexOf(sx + j, sy + i, width, height);
    IndexOf(dx + j, dy + i, width, height);
  }

  /** A pixel outside the destination region keeps its value. */
  lemma CopyKeepsOutside(buf: seq<u32>, width: nat, height: nat, sx: nat, sy: nat, dx: nat, dy: nat, w: nat, h: nat, X: nat, Y: nat)
    requires width * height <= |buf| && RegionsInside(width, height, sx, sy, dx, dy, w, h)
    requires X < width && Y < height && !(dx <= X < dx + w && dy <= Y < dy + h)
    ensures 0 <= Y * width + X < |buf|
    ensures Copy(buf, width, height, sx, sy, dx, dy, w, h)[Y * width + X] == buf[Y * width + X]
  {
    IndexOf(X, Y, width, height);
  }

  /** The backward branch of fb_copy_region: rows from h - 1 down to 0, each from column w - 1 down to 0. */
  method CopyBackward(buffer: array<u32>, width: nat, height: nat, sx: u32, sy: u32, dx: u32, dy: u32, w: u32, h: u32)
    requires width * height <= buffer.Length && RegionsInside(width, height, sx, sy, dx, dy, w, h) && Backward(sx, sy, dx, dy)
    modifies buffer
    ensures buffer[..] == Copy(old(buffer[..]), width, height, sx, sy, dx, dy, Extent(true, w), Extent(true, h))
  {
    ghost var start := buffer[..];
    ghost var bw: int, bh: int := Extent(true, w), Extent(true, h);
    assert RegionsInside(width, height, sx, sy, dx, dy, bw, bh);
    var y: int := AsInt32(Wrap32(h - 1));
    LastOffset(h);
    LastOffset(w);
    CopyStart(start, width, height, sx, sy, dx, dy, bw, bh, true, y, bw - 1);
    while y >= 0
      invariant y < bh && (bh > 0 ==> y >= -1)
      invariant CopiedTo(buffer[..], start, width, height, sx, sy, dx, dy, bw, bh, true, y, bw - 1)
      decreases y
    {
      var x: int := AsInt32(Wrap32(w - 1));
      LastOffset(w);
      while x >= 0
        invariant x < bw && (bw > 0 ==> x >= -1)
        invariant CopiedTo(buffer[..], start, width, height, sx, sy, dx, dy, bw, bh, true, y, if x < 0 then -1 else x)
        decreases x
      {
        CopyUntouched(buffer[..], start, width, height, sx, sy, dx, dy, bw, bh, true, y, x);
        IndexOf(sx + x, sy + y, width, height);
        IndexOf(dx + x, dy + y, width, height);
        var srcPixel := buffer[(sy + y) * width + (sx + x)];
        CopyExtend(buffer[..], start, width, height, sx, sy, dx, dy, bw, bh, true, y, x, srcPixel);
        buffer[(dy + y) * width + (dx + x)] := srcPixel;
        x := x - 1;
      }
      CopyRow(buffer[..], start, width, height, sx, sy, dx, dy, bw, bh, true, y);
      y := y - 1;
    }
    CopyDone(buffer[..], start, width, height, sx, sy, dx, dy, bw, bh, true, y, bw - 1);
  }

  /** The forward branch of fb_copy_region: rows from 0 up to h - 1, each from column 0 up to w - 1. */
  method CopyForward(buffer: array<u32>, width: nat, height: nat, sx: u32, sy: u32, dx: u32, dy: u32, w: u32, h: u32)
    requires width * height <= buffer.Length && RegionsInside(width, height, sx, sy, dx, dy, w, h) && !Backward(sx, sy, dx, dy)
    modifies buffer
    ensures buffer[..] == Copy(old(buffer[..]), width, height, sx, sy, dx, dy, w, h)
  {
    ghost var start := buffer[..];
    CopyStart(start, width, height, sx, sy, dx, dy, w, h, false, 0, 0);
    for y := 0 to h
      invariant CopiedTo(buffer[..], start, width, height, sx, sy, dx, dy, w, h, false, y, 0)
    {
      for x := 0 to w
        invariant CopiedTo(buffer[..], start, width, height, sx, sy, dx, dy, w, h, false, y, x)
      {
        CopyUntouched(buffer[..], start, width, height, sx, sy, dx, dy, w, h, false, y, x);
        IndexOf(sx + x, sy + y, width, height);
        IndexOf(dx + x, dy + y, width, height);
        var srcPixel := buffer[(sy + y) * width + (sx + x)];
        CopyExtend(buffer[..], start, width, height, sx, sy, dx, dy, w, h, false, y, x, srcPixel);
        buffer[(dy + y) * width + (dx + x)] := srcPixel;
      }
      CopyRow(buffer[..], start, width, height, sx, sy, dx, dy, w, h, false, y);
    }
    CopyDone(buffer[..], start, width, height, sx, sy, dx, dy, w, h, false, h, 0);
  }

  class Display {
    /** fb != NULL, and the first framebuffer's dimensions. */
    var present: bool
    var width: nat
    var height: nat
    /** The pixels at fb->address, and back_buffer when hasBack (back_buffer != NULL). */
    var front: array<u32>
    var back: array<u32>
    var hasBack: bool
    var doubleBuffering: bool

    ghost predicate Ready()
      reads this
    {
      (present ==> width * height <= front.Length) &&
      (hasBack ==> present && width * height <= back.Length && back != front)
    }

    /** fb_get_current_buffer. */
    function Current(): array<u32>
      reads this
    {
      if doubleBuffering && hasBack then back else front
    }

    /** The pixels of the current buffer. */
    function Pixels(): seq<u32>
      reads this, Current()
    {
      Current()[..]
    }

    /** The static state before fb_init: no framebuffer, no back buffer. */
    constructor ()
      ensures Ready() && !present && !hasBack && !doubleBuffering
    {
      present := false;
      width, height := 0, 0;
      front := new u32[0];
      back := front;
      hasBack := false;
      doubleBuffering := false;
    }

    /**
     * fb_init: without a framebuffer nothing changes. Otherwise the first
     * framebuffer becomes the front surface and, when the frame allocator
     * can supply the pages, a fresh back buffer of width * height pixels is
     * installed and double buffering switched on; when it cannot, the back
     * buffer pointer becomes NULL and double_buffering keeps its value.
     */
    method Init(mode: Option<Mode>, surface: array<u32>, backAvailable: bool)
      requires Ready()
      requires mode.Some? ==> mode.value.width * mode.value.height <= surface.Length
      modifies this
      ensures Ready()
      ensures mode.None? ==> unchanged(this)
      ensures mode.Some? ==>
        present && width == mode.value.width && height == mode.value.height && front == surface &&
        hasBack == backAvailable && (backAvailable ==> fresh(back) && doubleBuffering) &&
        (!backAvailable ==> doubleBuffering == old(doubleBuffering))
      ensures mode.Some? ==> Current() == if backAvailable then back else surface
    {
      if mode.None? {
        return;
      }
      present := true;
      width, height := mode.value.width, mode.value.height;
      front := surface;
      if backAvailable {
        back := new u32[width * height];
        hasBack := true;
        doubleBuffering := true;
      } else {
        hasBack := false;
      }
    }

    /** fb_put_pixel: a clipped write into the current buffer, nothing without a framebuffer. */
    method PutPixel(x: u32, y: u32, color: u32)
      requires Ready()
      modifies Current()
      ensures Ready()
      ensures Pixels() == if present then Put(old(Pixels()), width, height, x, y, color) else old(Pixels())
    {
      if !present {
        return;
      }
      if x >= width || y >= height {
        return;
      }
      var buffer := Current();
      IndexOf(x, y, width, height);
      buffer[y * width + x] := color;
    }

    /**
     * fb_put_pixel_alpha: each colour channel blended over the existing
     * pixel's with the given alpha; the result has alpha byte 0, since
     * final_color is assembled from the three channels alone.
     */
    method PutPixelAlpha(x: u32, y: u32, color: u32, alpha: u8)
      requires Ready()
      modifies Current()
      ensures Ready()
      ensures Pixels() == if present then PutBlend(old(Pixels()), width, height, x, y, color, alpha, 0) else old(Pixels())
    {
      if !present {
        return;
      }
      if x >= width || y >= height {
        return;
      }
      var buffer := Current();
      IndexOf(x, y, width, height);
      var existing := buffer[y * width + x];
      var rFinal := Blend(Red(color), Red(existing), alpha);
      var gFinal := Blend(Green(color), Green(existing), alpha);
      var bFinal := Blend(Blue(color), Blue(existing), alpha);
      buffer[y * width + x] := Argb(0, rFinal, gFinal, bFinal);
    }

    /** fb_clear: the first width * height pixels of the current buffer set to the colour. */
    method Clear(color: u32)
      requires Ready()
      modifies Current()
      ensures Ready()
      ensures Pixels() == if present then Canvas.Clear(old(Pixels()), width * height, color) else old(Pixels())
    {
      if !present {
        return;
      }
      var buffer := Current();
      var pixelCount := width * height;
      for i := 0 to pixelCount
        invariant buffer[..] == Canvas.Clear(old(buffer[..]), i, color)
      {
        buffer[i] := color;
      }
    }

    /** fb_draw_rect: fb_put_pixel(x + j, y + i) for every row i < h and column j < w. */
    method DrawRect(x: u32, y: u32, w: u32, h: u32, color: u32)
      requires Ready()
      modifies Current()
      ensures Ready()
      ensures Pixels() == if present then Paint(old(Pixels()), width, height, x, y, w, h, Solid(color)) else old(Pixels())
    {
      if !present {
        return;
      }
      ghost var start := Pixels();
      PaintStart(start, width, height, x, y, w, Solid(color));
      for i := 0 to h
        invariant PaintedTo(Pixels(), start, width, height, x, y, w, i, 0, Solid(color))
      {
        for j := 0 to w
          invariant PaintedTo(Pixels(), start, width, height, x, y, w, i, j, Solid(color))
        {
          PaintPixel(Pixels(), start, width, height, x, y, w, h, i, j, Solid(color), color);
          PutPixel(Wrap32(x + j), Wrap32(y + i), color);
        }
        PaintRow(Pixels(), start, width, height, x, y, w, i, Solid(color));
      }
      PaintDone(Pixels(), start, width, height, x, y, w, h, Solid(color));
    }

    /** fb_draw_rect_alpha: fb_put_pixel_alpha(x + j, y + i) for every row i < h and column j < w. */
    method DrawRectAlpha(x: u32, y: u32, w: u32, h: u32, color: u32, alpha: u8)
      requires Ready()
      modifies Current()
      ensures Ready()
      ensures Pixels() == if present then Paint(old(Pixels()), width, height, x, y, w, h, BlendShader(color, alpha, 0)) else old(Pixels())
    {
      if !present {
        return;
      }
      ghost var start := Pixels();
      ghost var f := BlendShader(color, alpha, 0);
      PaintStart(start, width, height, x, y, w, f);
      for i := 0 to h
        invariant PaintedTo(Pixels(), start, width, height, x, y, w, i, 0, f)
      {
        for j := 0 to w
          invariant PaintedTo(Pixels(), start, width, height, x, y, w, i, j, f)
        {
          PaintBlend(Pixels(), start, width, height, x, y, w, h, i, j, color, alpha, 0, f);
          PutPixelAlpha(Wrap32(x + j), Wrap32(y + i), color, alpha);
        }
        PaintRow(Pixels(), start, width, height, x, y, w, i, f);
      }
      PaintDone(Pixels(), start, width, height, x, y, w, h, f);
    }

    /**
     * fb_draw_line, Bresenham's walk from (x0, y0) to (x1, y1) with the
     * error term err = dx - dy updated by each step: the points plotted,
     * in order, run from (x0, y0) through adjacent points inside the
     * bounding box of the two ends and stop right after (x1, y1).
     */
    method DrawLine(x0: u32, y0: u32, x1: u32, y1: u32, color: u32) returns (ghost points: seq<(int, int)>)
      requires Ready()
      requires x0 < 0x2000_0000 && y0 < 0x2000_0000 && x1 < 0x2000_0000 && y1 < 0x2000_0000
      modifies Current()
      ensures Ready()
      ensures Pixels() == if present then Plot(old(Pixels()), width, height, points, color) else old(Pixels())
      ensures |points| > 0 && points[0] == (x0 as int, y0 as int) && points[|points| - 1] == (x1 as int, y1 as int)
      ensures forall k :: 0 <= k < |points| - 1 ==> points[k] != (x1 as int, y1 as int) && Adjacent(points[k], points[k + 1])
      ensures forall k :: 0 <= k < |points| ==> Between(points[k].0, x0, x1) && Between(points[k].1, y0, y1)
    {
      var dx: int := Abs(x1 - x0);
      var dy: int := Abs(y1 - y0);
      var sx: int := if x0 < x1 then 1 else -1;
      var sy: int := if y0 < y1 then 1 else -1;
      var err: int := dx - dy;
      var cx: int, cy: int := x0, y0;
      ghost var nx, ny := 0, 0;
      ghost var start := Pixels();
      points := [];
      while true
        invariant Ready()
        invariant 0 <= nx <= dx && 0 <= ny <= dy
        invariant cx == (if x0 < x1 then x0 + nx else x0 - nx) && cy == (if y0 < y1 then y0 + ny else y0 - ny)
        invariant err == dx * (1 + ny) - dy * (1 + nx) && -2 * dy <= err <= 2 * dx
        invariant Pixels() == if present then Plot(start, width, height, points, color) else start
        invariant (points == []) == (nx == 0 && ny == 0)
        invariant LinePath(points, x0, y0, x1, y1, cx, cy)
        decreases dx - nx + dy - ny
      {
        PutPixel(cx as u32, cy as u32, color);
        if cx == x1 && cy == y1 {
          LinePathEnd(points, x0, y0, x1, y1);
          points := points + [(cx, cy)];
          break;
        }
        ghost var plotted := points;
        points := points + [(cx, cy)];
        ghost var (px, py) := (cx, cy);
        err, cx, cy, nx, ny := LineAdvance(dx, dy, sx, sy, err, cx, cy, nx, ny);
        LinePathStep(plotted, x0, y0, x1, y1, px, py, cx, cy);
      }
    }

    /**
     * fb_copy_region: the destination region receives the source region's
     * original pixels even where the two overlap, because an overlap that
     * moves down or right is copied from the last pixel back.
     */
    method CopyRegion(sx: u32, sy: u32, dx: u32, dy: u32, w: u32, h: u32)
      requires Ready()
      requires present ==> RegionsInside(width, height, sx, sy, dx, dy, w, h)
      modifies Current()
      ensures Ready()
      ensures Pixels() == if present then
        var backward := Backward(sx, sy, dx, dy);
        Copy(old(Pixels()), width, height, sx, sy, dx, dy, Extent(backward, w), Extent(backward, h))
      else old(Pixels())
    {
      if !present {
        return;
      }
      var buffer := Current();
      if Backward(sx, sy, dx, dy) {
        CopyBackward(buffer, width, height, sx, sy, dx, dy, w, h);
      } else {
        CopyForward(buffer, width, height, sx, sy, dx, dy, w, h);
      }
    }
  }
}
