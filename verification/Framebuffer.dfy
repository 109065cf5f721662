/**
  The software framebuffer (`graphics/Framebuffer/src/framebuffer.rs`): drawing goes to a shadow buffer
  and grows a dirty rectangle; `flush` copies the rectangle to the screen. Buffers are bytes: a pixel
  is `bpp` of them, rows are `stride` pixels apart, of which `width` are visible. Positions inside a
  row are byte columns; rectangles are in pixels.
 */
module Framebuffer {
  import opened Common

  datatype Geometry = Geometry(width: nat, height: nat, stride: nat, bpp: nat)

  /** The half-open rectangle of pixel columns x1..x2 and rows y1..y2. */
  datatype Rect = Rect(x1: nat, y1: nat, x2: nat, y2: nat)

  /** The bytes of `n` pixels next to each other. */
  function Bytes(g: Geometry, n: nat): (b: nat) {
    n * g.bpp
  }

  predicate Visible(g: Geometry, p: nat, y: nat) {
    p < Bytes(g, g.width) && y < g.height
  }

  predicate Between(g: Geometry, x1: nat, x2: nat, p: nat) {
    Bytes(g, x1) <= p < Bytes(g, x2)
  }

  predicate Inside(g: Geometry, r: Rect, p: nat, y: nat) {
    Between(g, r.x1, r.x2, p) && r.y1 <= y < r.y2
  }

  // ---- Offsets -----------------------------------------------------------------------------

  function Row(g: Geometry): (n: nat) {
    g.stride * g.bpp
  }

  function Cell(g: Geometry, p: nat, y: nat): (i: nat) {
    y * Row(g) + p
  }

  /** `total_bytes`. */
  function Total(g: Geometry): (n: nat) {
    g.stride * g.height * g.bpp
  }

  lemma Regroup(a: nat, b: nat, c: nat)
    ensures a * b * c == a * (b * c) == b * (a * c)
  {
  }

  lemma TotalIsRows(g: Geometry)
    ensures Total(g) == g.height * Row(g)
  {
    Regroup(g.height, g.stride, g.bpp);
    assert g.stride * g.height == g.height * g.stride;
  }

  /** The offset the code computes is the cell of the pixel's first byte. */
  lemma OffsetIsCell(g: Geometry, x: nat, y: nat)
    ensures y * g.stride * g.bpp + x * g.bpp == Cell(g, Bytes(g, x), y)
  {
    Regroup(y, g.stride, g.bpp);
  }

  lemma {:induction false} RowsApart(row: nat, y: nat, z: nat)
    requires y < z
    ensures y * row + row <= z * row
  {
    assert z * row == (z - 1) * row + row;
    if y + 1 < z {
      RowsApart(row, y, z - 1);
    }
  }

  lemma {:induction false} Scaled(a: nat, b: nat, n: nat)
    requires a <= b
    ensures a * n <= b * n
  {
    if a < b {
      RowsApart(n, a, b);
    }
  }

  lemma RunBound(g: Geometry, p: nat, y: nat, n: nat)
    requires p + n <= Row(g) && y < g.height
    ensures Cell(g, p, y) + n <= Total(g)
  {
    RowsApart(Row(g), y, g.height);
    TotalIsRows(g);
  }

  /** A run of cells inside one row is a run of columns of that row. */
  lemma RunIsRow(g: Geometry, p: nat, y: nat, n: nat, c: nat, z: nat)
    requires p + n <= Row(g) && c < Row(g)
    ensures Cell(g, p, y) <= Cell(g, c, z) < Cell(g, p, y) + n <==> z == y && p <= c < p + n
  {
    if z < y {
      RowsApart(Row(g), z, y);
    } else if y < z {
      RowsApart(Row(g), y, z);
    }
  }

  // ---- The dirty rectangle -----------------------------------------------------------------

  /** `mark_dirty`: clip to the screen, ignore what is empty, grow to the bounding box. */
  function Marked(g: Geometry, dirty: Option<Rect>, x: nat, y: nat, w: nat, h: nat): (r: Option<Rect>) {
    var x2, y2 := Min(x + w, g.width), Min(y + h, g.height);
    if x2 <= x || y2 <= y then dirty
    else if dirty.Some? then
      Some(Rect(Min(dirty.value.x1, x), Min(dirty.value.y1, y), Max(dirty.value.x2, x2), Max(dirty.value.y2, y2)))
    else Some(Rect(x, y, x2, y2))
  }

  predicate Clipped(g: Geometry, dirty: Option<Rect>) {
    dirty.Some? ==>
      dirty.value.x1 < dirty.value.x2 <= g.width && dirty.value.y1 < dirty.value.y2 <= g.height
  }

  predicate Shaped(g: Geometry, buffer: seq<nat>) {
    g.width <= g.stride && |buffer| == Total(g)
  }

  lemma VisibleCell(g: Geometry, p: nat, y: nat)
    requires g.width <= g.stride && Visible(g, p, y)
    ensures p < Row(g) && Cell(g, p, y) < Total(g)
  {
    Scaled(g.width, g.stride, g.bpp);
    RunBound(g, p, y, 1);
  }

  /** The byte at column `p` of row `y`. */
  function At(g: Geometry, buffer: seq<nat>, p: nat, y: nat): (v: nat)
    requires Shaped(g, buffer) && Visible(g, p, y)
  {
    VisibleCell(g, p, y);
    buffer[Cell(g, p, y)]
  }

  /** Every visible byte on which shadow and screen differ lies in the dirty rectangle. */
  ghost predicate Covers(g: Geometry, shadow: seq<nat>, screen: seq<nat>, dirty: Option<Rect>)
    requires Shaped(g, shadow) && Shaped(g, screen)
  {
    forall p: nat, y: nat | Visible(g, p, y) && At(g, shadow, p, y) != At(g, screen, p, y) ::
      dirty.Some? && Inside(g, dirty.value, p, y)
  }

  /** Only pixels of one rectangle changed. */
  ghost predicate OnlyInside(g: Geometry, before: seq<nat>, after: seq<nat>, x: nat, y: nat, w: nat, h: nat)
    requires Shaped(g, before) && Shaped(g, after)
  {
    forall p: nat, q: nat | Visible(g, p, q) && !(Between(g, x, x + w, p) && y <= q < y + h) ::
      At(g, after, p, q) == At(g, before, p, q)
  }

  lemma MarkedContains(g: Geometry, dirty: Option<Rect>, x: nat, y: nat, w: nat, h: nat, p: nat, q: nat)
    requires Visible(g, p, q)
    requires (dirty.Some? && Inside(g, dirty.value, p, q)) || (Between(g, x, x + w, p) && y <= q < y + h)
    ensures var r := Marked(g, dirty, x, y, w, h); r.Some? && Inside(g, r.value, p, q)
  {
    var x2 := Min(x + w, g.width);
    if x2 <= x {
      Scaled(x2, x, g.bpp);
    }
    if dirty.Some? {
      Scaled(Min(dirty.value.x1, x), dirty.value.x1, g.bpp);
      Scaled(Min(dirty.value.x1, x), x, g.bpp);
      Scaled(dirty.value.x2, Max(dirty.value.x2, x2), g.bpp);
      Scaled(x2, Max(dirty.value.x2, x2), g.bpp);
    }
  }

  predicate HasPixel(r: Rect, i: nat, j: nat) {
    r.x1 <= i < r.x2 && r.y1 <= j < r.y2
  }

  /** A pixel that is dirty, or on the screen and just drawn. */
  predicate Touched(g: Geometry, dirty: Option<Rect>, x: nat, y: nat, w: nat, h: nat, i: nat, j: nat) {
    || (dirty.Some? && HasPixel(dirty.value, i, j))
    || (i < g.width && j < g.height && HasPixel(Rect(x, y, x + w, y + h), i, j))
  }

  /** The new rectangle has every such pixel, lies in every rectangle that has them all, and is there only if one is. */
  lemma MarkedLeast(g: Geometry, dirty: Option<Rect>, x: nat, y: nat, w: nat, h: nat, b: Rect)
    requires Clipped(g, dirty)
    requires forall i: nat, j: nat | Touched(g, dirty, x, y, w, h, i, j) :: HasPixel(b, i, j)
    ensures var r := Marked(g, dirty, x, y, w, h);
            && (forall i: nat, j: nat | Touched(g, dirty, x, y, w, h, i, j) :: r.Some? && HasPixel(r.value, i, j))
            && (r.Some? ==> b.x1 <= r.value.x1 && r.value.x2 <= b.x2 && b.y1 <= r.value.y1 && r.value.y2 <= b.y2)
            && (r.Some? ==> exists i: nat, j: nat :: Touched(g, dirty, x, y, w, h, i, j))
  {
    var r := Marked(g, dirty, x, y, w, h);
    var x2, y2 := Min(x + w, g.width), Min(y + h, g.height);
    if x < x2 && y < y2 {
      assert Touched(g, dirty, x, y, w, h, x, y) && Touched(g, dirty, x, y, w, h, x2 - 1, y2 - 1);
    }
    if dirty.Some? {
      var d := dirty.value;
      assert Touched(g, dirty, x, y, w, h, d.x1, d.y1) && Touched(g, dirty, x, y, w, h, d.x2 - 1, d.y2 - 1);
    }
  }

  /** Marking what was drawn keeps every difference covered. */
  lemma MarkKeepsCover(g: Geometry, before: seq<nat>, after: seq<nat>, screen: seq<nat>, dirty: Option<Rect>, x: nat,
                       y: nat, w: nat, h: nat)
    requires Shaped(g, before) && Shaped(g, after) && Shaped(g, screen) && Clipped(g, dirty)
    requires Covers(g, before, screen, dirty) && OnlyInside(g, before, after, x, y, w, h)
    ensures Covers(g, after, screen, Marked(g, dirty, x, y, w, h)) && Clipped(g, Marked(g, dirty, x, y, w, h))
  {
    var r := Marked(g, dirty, x, y, w, h);
    forall p: nat, q: nat | Visible(g, p, q) && At(g, after, p, q) != At(g, screen, p, q)
      ensures r.Some? && Inside(g, r.value, p, q)
    {
      if !(Between(g, x, x + w, p) && y <= q < y + h) {
        assert At(g, after, p, q) == At(g, before, p, q);
      }
      MarkedContains(g, dirty, x, y, w, h, p, q);
    }
  }

  ghost predicate Agree(g: Geometry, shadow: seq<nat>, screen: seq<nat>)
    requires Shaped(g, shadow) && Shaped(g, screen)
  {
    forall p: nat, y: nat | Visible(g, p, y) :: At(g, shadow, p, y) == At(g, screen, p, y)
  }

  // ---- Every sequence of operations --------------------------------------------------------

  datatype Frame = Frame(shadow: seq<nat>, screen: seq<nat>, dirty: Option<Rect>)

  datatype Op = Draw(x: nat, y: nat, w: nat, h: nat) | Flush | FlushFull

  /** The screen after a flush: the dirty rectangle comes from the shadow, the rest stays. */
  ghost predicate Flushed(g: Geometry, s: Frame, screen: seq<nat>)
    requires Shaped(g, s.shadow) && Shaped(g, s.screen) && Shaped(g, screen)
  {
    forall p: nat, y: nat | Visible(g, p, y) ::
      At(g, screen, p, y) ==
        if s.dirty.Some? && Inside(g, s.dirty.value, p, y) then At(g, s.shadow, p, y) else At(g, s.screen, p, y)
  }

  /** A drawing operation changes pixels of its rectangle and marks it; a flush copies the dirty rectangle. */
  ghost predicate Step(g: Geometry, s: Frame, op: Op, t: Frame)
    requires Shaped(g, s.shadow) && Shaped(g, s.screen)
  {
    && Shaped(g, t.shadow) && Shaped(g, t.screen)
    && match op
       case Draw(x, y, w, h) =>
         && OnlyInside(g, s.shadow, t.shadow, x, y, w, h) && t.screen == s.screen
         && t.dirty == Marked(g, s.dirty, x, y, w, h)
       case Flush => t.shadow == s.shadow && t.dirty == None && Flushed(g, s, t.screen)
       case FlushFull => t.shadow == s.shadow && t.screen == s.shadow && t.dirty == None
  }

  ghost predicate Good(g: Geometry, s: Frame) {
    Shaped(g, s.shadow) && Shaped(g, s.screen) && Clipped(g, s.dirty) && Covers(g, s.shadow, s.screen, s.dirty)
  }

  lemma StepKeepsGood(g: Geometry, s: Frame, op: Op, t: Frame)
    requires Good(g, s) && Step(g, s, op, t)
    ensures Good(g, t) && (op.Flush? || op.FlushFull? ==> Agree(g, t.shadow, t.screen))
  {
    if op.Draw? {
      MarkKeepsCover(g, s.shadow, t.shadow, s.screen, s.dirty, op.x, op.y, op.w, op.h);
    } else if op.Flush? {
      forall p: nat, y: nat | Visible(g, p, y) ensures At(g, t.shadow, p, y) == At(g, t.screen, p, y) {
        if At(g, s.shadow, p, y) != At(g, s.screen, p, y) {
          assert s.dirty.Some? && Inside(g, s.dirty.value, p, y);
        }
      }
    }
  }

  ghost predicate Run(g: Geometry, frames: seq<Frame>, ops: seq<Op>) {
    && |frames| == |ops| + 1 && Good(g, frames[0])
    && (forall i | 0 <= i < |frames| :: Shaped(g, frames[i].shadow) && Shaped(g, frames[i].screen))
    && (forall i | 0 <= i < |ops| :: Step(g, frames[i], ops[i], frames[i + 1]))
  }

  /** Whatever is drawn, scrolled and flushed, in any order, no difference is ever outside the dirty rectangle. */
  lemma {:induction false} RunKeepsGood(g: Geometry, frames: seq<Frame>, ops: seq<Op>, i: nat)
    requires Run(g, frames, ops) && i < |frames|
    ensures Good(g, frames[i])
    ensures i > 0 && (ops[i - 1].Flush? || ops[i - 1].FlushFull?) ==> Agree(g, frames[i].shadow, frames[i].screen)
  {
    if i > 0 {
      RunKeepsGood(g, frames, ops, i - 1);
      StepKeepsGood(g, frames[i - 1], ops[i - 1], frames[i]);
    }
  }

  // ---- Writing runs of bytes ---------------------------------------------------------------

  ghost predicate Overwritten(before: seq<nat>, after: seq<nat>, from: nat, values: seq<nat>)
    requires |before| == |after| && from + |values| <= |before|
  {
    forall i | 0 <= i < |before| :: after[i] == if from <= i < from + |values| then values[i - from] else before[i]
  }

  /** `after` has these bytes in row `y` from column `p` on, and is as before elsewhere. */
  ghost predicate RowWritten(g: Geometry, before: seq<nat>, after: seq<nat>, p: nat, y: nat, values: seq<nat>)
    requires Shaped(g, before) && Shaped(g, after)
  {
    forall c: nat, q: nat | Visible(g, c, q) ::
      At(g, after, c, q) == if q == y && p <= c < p + |values| then values[c - p] else At(g, before, c, q)
  }

  lemma RunWritesRow(g: Geometry, before: seq<nat>, after: seq<nat>, p: nat, y: nat, values: seq<nat>)
    requires Shaped(g, before) && Shaped(g, after) && p + |values| <= Row(g) && y < g.height
    requires Cell(g, p, y) + |values| <= |before| && Overwritten(before, after, Cell(g, p, y), values)
    ensures RowWritten(g, before, after, p, y, values)
  {
    forall c: nat, q: nat | Visible(g, c, q)
      ensures At(g, after, c, q) == if q == y && p <= c < p + |values| then values[c - p] else At(g, before, c, q)
    {
      VisibleCell(g, c, q);
      RunIsRow(g, p, y, |values|, c, q);
    }
  }

  /** The bytes of a row of pixels. */
  function Flat(g: Geometry, pixels: seq<seq<nat>>): (b: seq<nat>)
    requires forall i | 0 <= i < |pixels| :: |pixels[i]| == g.bpp
    ensures |b| == Bytes(g, |pixels|)
  {
    if pixels == [] then [] else
      var n := |pixels| - 1;
      assert Bytes(g, n + 1) == Bytes(g, n) + g.bpp;
      Flat(g, pixels[..n]) + pixels[n]
  }

  ghost predicate RowsOfPixels(g: Geometry, image: seq<seq<seq<nat>>>, columns: nat) {
    forall i | 0 <= i < |image| :: |image[i]| == columns && forall j | 0 <= j < columns :: |image[i][j]| == g.bpp
  }

  /** The rows of an image from row `y` up to `end` are in place at column `x`, everything else is as before. */
  ghost predicate Painted(g: Geometry, before: seq<nat>, after: seq<nat>, x: nat, y: nat, end: nat,
                          image: seq<seq<seq<nat>>>, columns: nat)
    requires Shaped(g, before) && Shaped(g, after) && y <= end && end - y <= |image| && RowsOfPixels(g, image, columns)
  {
    forall p: nat, q: nat | Visible(g, p, q) ::
      At(g, after, p, q) ==
        if y <= q < end && Bytes(g, x) <= p < Bytes(g, x) + Bytes(g, columns)
        then Flat(g, image[q - y])[p - Bytes(g, x)]
        else At(g, before, p, q)
  }

  lemma PaintedOn(g: Geometry, before: seq<nat>, mid: seq<nat>, after: seq<nat>, x: nat, y: nat, end: nat,
                  image: seq<seq<seq<nat>>>, columns: nat)
    requires Shaped(g, before) && Shaped(g, mid) && Shaped(g, after) && y <= end && end - y < |image|
             && RowsOfPixels(g, image, columns)
    requires Painted(g, before, mid, x, y, end, image, columns)
    requires RowWritten(g, mid, after, Bytes(g, x), end, Flat(g, image[end - y]))
    ensures Painted(g, before, after, x, y, end + 1, image, columns)
  {
    forall p: nat, q: nat | Visible(g, p, q)
      ensures At(g, after, p, q) ==
                if y <= q < end + 1 && Bytes(g, x) <= p < Bytes(g, x) + Bytes(g, columns)
                then Flat(g, image[q - y])[p - Bytes(g, x)]
                else At(g, before, p, q)
    {
      assert At(g, mid, p, q) ==
             if y <= q < end && Bytes(g, x) <= p < Bytes(g, x) + Bytes(g, columns)
             then Flat(g, image[q - y])[p - Bytes(g, x)]
             else At(g, before, p, q);
    }
  }

  lemma BytesAdd(g: Geometry, x: nat, w: nat)
    ensures Bytes(g, x + w) == Bytes(g, x) + Bytes(g, w)
  {
  }

  /** What is painted stays inside the rectangle that is marked for it. */
  lemma PaintedInside(g: Geometry, before: seq<nat>, after: seq<nat>, x: nat, y: nat, end: nat,
                      image: seq<seq<seq<nat>>>, columns: nat, w: nat, h: nat)
    requires Shaped(g, before) && Shaped(g, after) && y <= end && end - y <= |image| && RowsOfPixels(g, image, columns)
    requires Painted(g, before, after, x, y, end, image, columns) && columns <= w && end <= y + h
    ensures OnlyInside(g, before, after, x, y, w, h)
  {
    forall p: nat, q: nat | Visible(g, p, q) && !(Between(g, x, x + w, p) && y <= q < y + h)
      ensures At(g, after, p, q) == At(g, before, p, q)
    {
      Scaled(columns, w, g.bpp);
      BytesAdd(g, x, w);
    }
  }

  /** How many of `w` pixels from column `x` on are on the screen. */
  function Columns(g: Geometry, x: nat, w: nat): (n: nat)
    ensures n <= w && (n > 0 ==> x + n <= g.width) && (n < w ==> x + n >= g.width)
  {
    if x >= g.width then 0 else Min(w, g.width - x)
  }

  lemma ColumnsFit(g: Geometry, x: nat, y: nat, n: nat)
    requires x + n <= g.width <= g.stride && y < g.height
    ensures Bytes(g, x) + Bytes(g, n) == Bytes(g, x + n) <= Row(g) && Cell(g, Bytes(g, x), y) + Bytes(g, n) <= Total(g)
  {
    Scaled(x + n, g.stride, g.bpp);
    assert Bytes(g, x + n) == Bytes(g, x) + Bytes(g, n);
    RunBound(g, Bytes(g, x), y, Bytes(g, n));
  }

  lemma OverwrittenOn(before: seq<nat>, mid: seq<nat>, after: seq<nat>, from: nat, one: seq<nat>, two: seq<nat>)
    requires |before| == |mid| == |after| && from + |one| + |two| <= |before|
    requires Overwritten(before, mid, from, one) && Overwritten(mid, after, from + |one|, two)
    ensures Overwritten(before, after, from, one + two)
  {
  }

  /** Whether or not the row was reached, it now holds what belongs there. */
  lemma RowReached(g: Geometry, before: seq<nat>, after: seq<nat>, x: nat, y: nat, n: nat, values: seq<nat>)
    requires Shaped(g, before) && Shaped(g, after) && y < g.height && |values| == Bytes(g, n)
    requires x + n <= g.width || n == 0
    requires if Cell(g, Bytes(g, x), y) + |values| <= |before| && Cell(g, Bytes(g, x), y) < |before|
             then Overwritten(before, after, Cell(g, Bytes(g, x), y), values) else after == before
    ensures RowWritten(g, before, after, Bytes(g, x), y, values)
  {
    if x + n <= g.width {
      ColumnsFit(g, x, y, n);
    }
    if |values| == 0 {
      assert after == before;
    } else {
      RunWritesRow(g, before, after, Bytes(g, x), y, values);
    }
  }

  function Repeat(px: seq<nat>, n: nat): (pixels: seq<seq<nat>>)
    ensures |pixels| == n && forall i | 0 <= i < n :: pixels[i] == px
  {
    seq(n, i => px)
  }

  /** A glyph is sixteen rows of eight bits. */
  datatype Glyph = Glyph(rows: seq<seq<bool>>) {
    predicate Valid() {
      |rows| == 16 && forall i | 0 <= i < 16 :: |rows[i]| == 8
    }
  }

  function Inked(bits: seq<bool>, n: nat, fg: seq<nat>, bg: seq<nat>): (pixels: seq<seq<nat>>)
    requires n <= |bits|
    ensures |pixels| == n && forall i | 0 <= i < n :: pixels[i] == if bits[i] then fg else bg
  {
    seq(n, i requires 0 <= i < n => if bits[i] then fg else bg)
  }

  lemma InkedStep(g: Geometry, bits: seq<bool>, n: nat, fg: seq<nat>, bg: seq<nat>)
    requires n < |bits| && |fg| == g.bpp && |bg| == g.bpp
    ensures Bytes(g, n + 1) == Bytes(g, n) + g.bpp
    ensures Flat(g, Inked(bits, n + 1, fg, bg)) == Flat(g, Inked(bits, n, fg, bg)) + if bits[n] then fg else bg
  {
    assert Inked(bits, n + 1, fg, bg)[..n] == Inked(bits, n, fg, bg);
  }

  // ---- Pixels ------------------------------------------------------------------------------

  lemma PixelVisible(g: Geometry, x: nat, b: nat)
    requires x < g.width && b < g.bpp
    ensures Bytes(g, x) + b < Bytes(g, g.width)
  {
    RowsApart(g.bpp, x, g.width);
  }

  /** The bytes of pixel (x, y) are the bytes of this colour. */
  ghost predicate Shows(g: Geometry, buffer: seq<nat>, x: nat, y: nat, px: seq<nat>)
    requires Shaped(g, buffer) && x < g.width && y < g.height && |px| == g.bpp
  {
    forall b: nat | b < g.bpp :: PixelVisible(g, x, b); At(g, buffer, Bytes(g, x) + b, y) == px[b]
  }

  lemma {:induction false} FlatAt(g: Geometry, pixels: seq<seq<nat>>, j: nat, b: nat)
    requires (forall i | 0 <= i < |pixels| :: |pixels[i]| == g.bpp) && j < |pixels| && b < g.bpp
    ensures Bytes(g, j) + b < Bytes(g, |pixels|) && Flat(g, pixels)[Bytes(g, j) + b] == pixels[j][b]
  {
    var n := |pixels| - 1;
    RowsApart(g.bpp, j, n + 1);
    if j < n {
      FlatAt(g, pixels[..n], j, b);
    }
  }

  /** Painting an image shows its pixels. */
  lemma PaintedShows(g: Geometry, before: seq<nat>, after: seq<nat>, x: nat, y: nat, end: nat,
                     image: seq<seq<seq<nat>>>, columns: nat, i: nat, j: nat)
    requires Shaped(g, before) && Shaped(g, after) && y <= end && end - y <= |image| && RowsOfPixels(g, image, columns)
    requires Painted(g, before, after, x, y, end, image, columns)
    requires y + i < end && y + i < g.height && j < columns && x + j < g.width
    ensures Shows(g, after, x + j, y + i, image[i][j])
  {
    forall b: nat | b < g.bpp
      ensures Bytes(g, x + j) + b < Bytes(g, g.width) && At(g, after, Bytes(g, x + j) + b, y + i) == image[i][j][b]
    {
      PixelVisible(g, x + j, b);
      FlatAt(g, image[i], j, b);
      assert Bytes(g, x + j) == Bytes(g, x) + Bytes(g, j);
    }
  }

  lemma PixelDrawn(g: Geometry, before: seq<nat>, after: seq<nat>, x: nat, y: nat, px: seq<nat>)
    requires Shaped(g, before) && Shaped(g, after) && x < g.width && y < g.height && |px| == g.bpp
    requires RowWritten(g, before, after, Bytes(g, x), y, px)
    ensures OnlyInside(g, before, after, x, y, 1, 1) && Shows(g, after, x, y, px)
  {
    assert Bytes(g, x + 1) == Bytes(g, x) + g.bpp;
    forall b: nat | b < g.bpp ensures Bytes(g, x) + b < Bytes(g, g.width) && At(g, after, Bytes(g, x) + b, y) == px[b] {
      PixelVisible(g, x, b);
    }
  }

  /** The visible columns of a glyph. */
  function GlyphImage(g: Geometry, x: nat, glyph: Glyph, fg: seq<nat>, bg: seq<nat>): (image: seq<seq<seq<nat>>>)
    requires glyph.Valid()
    ensures |image| == 16
    ensures forall i | 0 <= i < 16 :: image[i] == Inked(glyph.rows[i], Columns(g, x, 8), fg, bg)
  {
    seq(16, i requires 0 <= i < 16 => Inked(glyph.rows[i], Columns(g, x, 8), fg, bg))
  }

  /** Every visible pixel of the rectangle has the colour. */
  ghost predicate ShowsColour(g: Geometry, buffer: seq<nat>, x: nat, y: nat, w: nat, h: nat, px: seq<nat>)
    requires Shaped(g, buffer) && |px| == g.bpp
  {
    forall a: nat, b: nat | x <= a < x + w && y <= b < y + h && a < g.width && b < g.height ::
      Shows(g, buffer, a, b, px)
  }

  lemma FillShows(g: Geometry, before: seq<nat>, after: seq<nat>, x: nat, y: nat, w: nat, h: nat, end: nat,
                  px: seq<nat>)
    requires Shaped(g, before) && Shaped(g, after) && |px| == g.bpp && y <= end <= y + h
             && (end == y + h || end >= g.height)
    requires var image := seq(h, i => Repeat(px, Columns(g, x, w)));
             RowsOfPixels(g, image, Columns(g, x, w)) && Painted(g, before, after, x, y, end, image, Columns(g, x, w))
    ensures ShowsColour(g, after, x, y, w, h, px)
  {
    var image := seq(h, i => Repeat(px, Columns(g, x, w)));
    forall a: nat, b: nat | x <= a < x + w && y <= b < y + h && a < g.width && b < g.height
      ensures Shows(g, after, a, b, px)
    {
      PaintedShows(g, before, after, x, y, end, image, Columns(g, x, w), b - y, a - x);
    }
  }

  function InkAt(glyph: Glyph, row: nat, col: nat, fg: seq<nat>, bg: seq<nat>): (px: seq<nat>)
    requires glyph.Valid() && row < 16 && col < 8
  {
    if glyph.rows[row][col] then fg else bg
  }

  /** Pixel (a, b) is one of the glyph's and has the colour of its bit. */
  ghost predicate ShowsInk(g: Geometry, buffer: seq<nat>, x: nat, y: nat, glyph: Glyph, fg: seq<nat>, bg: seq<nat>,
                           a: nat, b: nat)
    requires Shaped(g, buffer) && glyph.Valid() && |fg| == g.bpp && |bg| == g.bpp && a < g.width && b < g.height
  {
    x <= a < x + 8 && y <= b < y + 16 && Shows(g, buffer, a, b, InkAt(glyph, b - y, a - x, fg, bg))
  }

  /** Every visible pixel of the glyph has the colour of its bit. */
  ghost predicate ShowsGlyph(g: Geometry, buffer: seq<nat>, x: nat, y: nat, glyph: Glyph, fg: seq<nat>, bg: seq<nat>)
    requires Shaped(g, buffer) && glyph.Valid() && |fg| == g.bpp && |bg| == g.bpp
  {
    forall a: nat, b: nat | x <= a < x + 8 && y <= b < y + 16 && a < g.width && b < g.height ::
      ShowsInk(g, buffer, x, y, glyph, fg, bg, a, b)
  }

  lemma InkShows(g: Geometry, before: seq<nat>, after: seq<nat>, x: nat, y: nat, end: nat, glyph: Glyph, fg: seq<nat>,
                 bg: seq<nat>, a: nat, b: nat)
    requires Shaped(g, before) && Shaped(g, after) && glyph.Valid() && |fg| == g.bpp && |bg| == g.bpp
    requires y <= end <= y + 16 && (end == y + 16 || end >= g.height)
    requires var image := GlyphImage(g, x, glyph, fg, bg);
             RowsOfPixels(g, image, Columns(g, x, 8)) && Painted(g, before, after, x, y, end, image, Columns(g, x, 8))
    requires x <= a < x + 8 && y <= b < y + 16 && a < g.width && b < g.height
    ensures ShowsInk(g, after, x, y, glyph, fg, bg, a, b)
  {
    var image := GlyphImage(g, x, glyph, fg, bg);
    assert image[b - y] == Inked(glyph.rows[b - y], Columns(g, x, 8), fg, bg);
    assert image[b - y][a - x] == InkAt(glyph, b - y, a - x, fg, bg);
    PaintedShows(g, before, after, x, y, end, image, Columns(g, x, 8), b - y, a - x);
  }

  lemma GlyphShows(g: Geometry, before: seq<nat>, after: seq<nat>, x: nat, y: nat, end: nat, glyph: Glyph,
                   fg: seq<nat>, bg: seq<nat>)
    requires Shaped(g, before) && Shaped(g, after) && glyph.Valid() && |fg| == g.bpp && |bg| == g.bpp
    requires y <= end <= y + 16 && (end == y + 16 || end >= g.height)
    requires var image := GlyphImage(g, x, glyph, fg, bg);
             RowsOfPixels(g, image, Columns(g, x, 8)) && Painted(g, before, after, x, y, end, image, Columns(g, x, 8))
    ensures ShowsGlyph(g, after, x, y, glyph, fg, bg)
  {
    forall a: nat, b: nat | x <= a < x + 8 && y <= b < y + 16 && a < g.width && b < g.height
      ensures ShowsInk(g, after, x, y, glyph, fg, bg, a, b)
    {
      InkShows(g, before, after, x, y, end, glyph, fg, bg, a, b);
    }
  }

  // ---- Scrolling ---------------------------------------------------------------------------

  ghost predicate Scrolled(g: Geometry, before: seq<nat>, after: seq<nat>, rows: nat)
    requires Shaped(g, before) && Shaped(g, after)
  {
    forall p: nat, y: nat | Visible(g, p, y) ::
      At(g, after, p, y) == if y + rows < g.height then At(g, before, p, y + rows) else 0
  }

  lemma MovedIsScrolled(g: Geometry, before: seq<nat>, after: seq<nat>, rows: nat)
    requires Shaped(g, before) && Shaped(g, after) && rows < g.height
    requires rows * Row(g) + (g.height - rows) * Row(g) == Total(g)
    requires forall i | 0 <= i < |after| ::
               after[i] == if i < (g.height - rows) * Row(g) then before[i + rows * Row(g)] else 0
    ensures Scrolled(g, before, after, rows)
  {
    forall p: nat, y: nat | Visible(g, p, y)
      ensures At(g, after, p, y) == if y + rows < g.height then At(g, before, p, y + rows) else 0
    {
      VisibleCell(g, p, y);
      if y + rows < g.height {
        RowsApart(Row(g), y, g.height - rows);
        assert Cell(g, p, y + rows) == Cell(g, p, y) + rows * Row(g);
      } else {
        Scaled(g.height - rows, y, Row(g));
      }
    }
  }

  lemma RowsAddUp(g: Geometry, rows: nat)
    requires rows <= g.height
    ensures rows * Row(g) + (g.height - rows) * Row(g) == Total(g)
  {
    TotalIsRows(g);
  }

  /** With no bytes after the scrolled rows there is nothing to see. */
  lemma NothingVisible(g: Geometry, rows: nat)
    requires 0 < rows < g.height && g.width <= g.stride && rows * Row(g) >= Total(g)
    ensures forall p: nat, y: nat :: !Visible(g, p, y)
  {
    TotalIsRows(g);
    RowsApart(Row(g), rows, g.height);
    Scaled(g.width, g.stride, g.bpp);
  }

  lemma Cleared(g: Geometry, before: seq<nat>, after: seq<nat>, rows: nat)
    requires Shaped(g, before) && Shaped(g, after) && rows >= g.height && forall i | 0 <= i < |after| :: after[i] == 0
    ensures Scrolled(g, before, after, rows)
  {
    forall p: nat, y: nat | Visible(g, p, y) ensures At(g, after, p, y) == 0 && y + rows >= g.height {
      VisibleCell(g, p, y);
    }
  }

  // ---- Copying the dirty rectangle ---------------------------------------------------------

  /** The rows above `end` of the rectangle have been copied. */
  ghost predicate Copied(g: Geometry, before: seq<nat>, shadow: seq<nat>, screen: seq<nat>, r: Rect, end: nat)
    requires Shaped(g, before) && Shaped(g, shadow) && Shaped(g, screen)
  {
    forall p: nat, y: nat | Visible(g, p, y) ::
      At(g, screen, p, y) ==
        if Between(g, r.x1, r.x2, p) && r.y1 <= y < end then At(g, shadow, p, y) else At(g, before, p, y)
  }

  lemma CopiedOn(g: Geometry, before: seq<nat>, shadow: seq<nat>, mid: seq<nat>, screen: seq<nat>, r: Rect, y: nat)
    requires Shaped(g, before) && Shaped(g, shadow) && Shaped(g, mid) && Shaped(g, screen)
    requires r.x1 < r.x2 <= g.width && r.y1 <= y < g.height && Copied(g, before, shadow, mid, r, y)
    requires var off, count := Cell(g, Bytes(g, r.x1), y), Bytes(g, r.x2 - r.x1);
             if off < |screen| && off + count <= |screen|
             then Overwritten(mid, screen, off, shadow[off..off + count])
             else screen == mid
    ensures Copied(g, before, shadow, screen, r, y + 1)
  {
    var off, count := Cell(g, Bytes(g, r.x1), y), Bytes(g, r.x2 - r.x1);
    ColumnsFit(g, r.x1, y, r.x2 - r.x1);
    forall p: nat, q: nat | Visible(g, p, q)
      ensures At(g, screen, p, q) ==
                if Between(g, r.x1, r.x2, p) && r.y1 <= q < y + 1 then At(g, shadow, p, q) else At(g, before, p, q)
    {
      VisibleCell(g, p, q);
      RunIsRow(g, Bytes(g, r.x1), y, count, p, q);
    }
  }

  lemma TotalIsFours(g: Geometry)
    requires g.bpp == 4
    ensures Total(g) % 4 == 0
  {
  }

  lemma AllFilled(g: Geometry, buffer: seq<nat>, px: seq<nat>)
    requires Shaped(g, buffer) && g.bpp == 4 && |px| == 4
    requires forall i | 0 <= i < |buffer| :: buffer[i] == px[i % 4]
    ensures ShowsColour(g, buffer, 0, 0, g.width, g.height, px)
  {
    forall a: nat, y: nat | a < g.width && y < g.height ensures Shows(g, buffer, a, y, px) {
      forall b: nat | b < 4 ensures Bytes(g, a) + b < Bytes(g, g.width) && At(g, buffer, Bytes(g, a) + b, y) == px[b] {
        PixelVisible(g, a, b);
        VisibleCell(g, Bytes(g, a) + b, y);
        FourTimes(g, a, y);
        assert Cell(g, Bytes(g, a) + b, y) == 4 * (y * g.stride + a) + b;
      }
    }
  }

  lemma FourTimes(g: Geometry, a: nat, y: nat)
    requires g.bpp == 4
    ensures Cell(g, Bytes(g, a), y) == 4 * (y * g.stride + a)
  {
    Regroup(y, g.stride, 4);
  }

  lemma WholeScreen(g: Geometry, before: seq<nat>, after: seq<nat>)
    requires Shaped(g, before) && Shaped(g, after)
    ensures OnlyInside(g, before, after, 0, 0, g.width, g.height)
  {
  }

  // ---- The buffers themselves --------------------------------------------------------------

  class Framebuffer {
    const geometry: Geometry
    const shadow: array<nat>
    const screen: array<nat>
    var dirty: bool
    var x1: nat
    var y1: nat
    var x2: nat
    var y2: nat

    ghost function Dirty(): (r: Option<Rect>)
      reads this
    {
      if dirty then Some(Rect(x1, y1, x2, y2)) else None
    }

    ghost predicate Valid()
      reads this
    {
      && geometry.width <= geometry.stride && shadow != screen
      && shadow.Length == Total(geometry) && screen.Length == Total(geometry) && Clipped(geometry, Dirty())
    }

    ghost function Model(): (f: Frame)
      requires Valid()
      reads this, shadow, screen
      ensures Shaped(geometry, f.shadow) && Shaped(geometry, f.screen)
    {
      Frame(shadow[..], screen[..], Dirty())
    }

    /** Nothing is known of either buffer yet; the first `FlushFull` makes them agree. */
    constructor (geometry: Geometry, shadow: array<nat>, screen: array<nat>)
      requires geometry.width <= geometry.stride && geometry.bpp > 0 && shadow != screen
      requires shadow.Length == Total(geometry) && screen.Length == Total(geometry)
      ensures Valid() && this.geometry == geometry && this.shadow == shadow && this.screen == screen && Dirty() == None
    {
      this.geometry, this.shadow, this.screen := geometry, shadow, screen;
      dirty, x1, y1, x2, y2 := false, 0, 0, 0, 0;
    }

    method MarkDirty(x: nat, y: nat, w: nat, h: nat)
      requires Valid()
      modifies this
      ensures Valid() && Dirty() == Marked(geometry, old(Dirty()), x, y, w, h)
    {
      var r, b := Min(x + w, geometry.width), Min(y + h, geometry.height);
      if r <= x || b <= y {
        return;
      }
      if dirty {
        x1, y1, x2, y2 := Min(x1, x), Min(y1, y), Max(x2, r), Max(y2, b);
      } else {
        dirty, x1, y1, x2, y2 := true, x, y, r, b;
      }
    }

    /** Store the bytes of one pixel. */
    method WritePixel(off: nat, px: seq<nat>)
      requires |px| == geometry.bpp && off + |px| <= shadow.Length
      modifies shadow
      ensures Overwritten(old(shadow[..]), shadow[..], off, px)
    {
      for i := 0 to geometry.bpp
        invariant forall j | 0 <= j < shadow.Length ::
                    shadow[j] == if off <= j < off + i then px[j - off] else old(shadow[j])
      {
        shadow[off + i] := px[i];
      }
    }

    /** One row of `fill_rect`. */
    method FillRow(off: nat, x: nat, w: nat, px: seq<nat>)
      requires Valid() && |px| == geometry.bpp && off + Bytes(geometry, Columns(geometry, x, w)) <= shadow.Length
      modifies shadow
      ensures Overwritten(old(shadow[..]), shadow[..], off, Flat(geometry, Repeat(px, Columns(geometry, x, w))))
    {
      var col := 0;
      ghost var before := shadow[..];
      while col < w && x + col < geometry.width
        invariant col <= Columns(geometry, x, w)
        invariant Bytes(geometry, col) <= Bytes(geometry, Columns(geometry, x, w))
        invariant Overwritten(before, shadow[..], off, Flat(geometry, Repeat(px, col)))
      {
        ghost var mid := shadow[..];
        Scaled(col + 1, Columns(geometry, x, w), geometry.bpp);
        assert Bytes(geometry, col + 1) == Bytes(geometry, col) + geometry.bpp;
        WritePixel(off + col * geometry.bpp, px);
        OverwrittenOn(before, mid, shadow[..], off, Flat(geometry, Repeat(px, col)), px);
        assert Repeat(px, col + 1)[..col] == Repeat(px, col);
        col := col + 1;
      }
    }

    /** `fill_rect` up to the marking: the part of the rectangle that is on the screen gets the colour. */
    method FillRows(x: nat, y: nat, w: nat, h: nat, px: seq<nat>) returns (end: nat)
      requires Valid() && |px| == geometry.bpp
      modifies shadow
      ensures y <= end <= y + h && (end == y + h || end >= geometry.height)
      ensures RowsOfPixels(geometry, seq(h, i => Repeat(px, Columns(geometry, x, w))), Columns(geometry, x, w))
      ensures Painted(geometry, old(shadow[..]), shadow[..], x, y, end,
                      seq(h, i => Repeat(px, Columns(geometry, x, w))), Columns(geometry, x, w))
    {
      ghost var n := Columns(geometry, x, w);
      ghost var before, image := shadow[..], seq(h, i => Repeat(px, n));
      var row := 0;
      while row < h && y + row < geometry.height
        invariant row <= h && Painted(geometry, before, shadow[..], x, y, y + row, image, n)
      {
        ghost var mid := shadow[..];
        OffsetIsCell(geometry, x, y + row);
        var off := (y + row) * geometry.stride * geometry.bpp + x * geometry.bpp;
        if x < geometry.width {
          ColumnsFit(geometry, x, y + row, n);
        }
        if off < shadow.Length {
          FillRow(off, x, w, px);
        }
        RowReached(geometry, mid, shadow[..], x, y + row, n, Flat(geometry, Repeat(px, n)));
        PaintedOn(geometry, before, mid, shadow[..], x, y, y + row, image, n);
        row := row + 1;
      }
      end := y + row;
    }

    /** `fill_rect`: every visible pixel of the rectangle gets the colour, no other pixel changes. */
    method FillRect(x: nat, y: nat, w: nat, h: nat, px: seq<nat>)
      requires Valid() && |px| == geometry.bpp
      modifies this, shadow
      ensures Valid() && Step(geometry, old(Model()), Draw(x, y, w, h), Model())
      ensures ShowsColour(geometry, shadow[..], x, y, w, h, px)
    {
      if w == 0 || h == 0 {
        return;
      }
      ghost var before, n := shadow[..], Columns(geometry, x, w);
      ghost var image := seq(h, i => Repeat(px, n));
      var end := FillRows(x, y, w, h, px);
      PaintedInside(geometry, before, shadow[..], x, y, end, image, n, w, h);
      FillShows(geometry, before, shadow[..], x, y, w, h, end, px);
      MarkDirty(x, y, w, h);
    }

    /** `put_pixel`. */
    method PutPixel(x: nat, y: nat, px: seq<nat>) returns (ok: bool)
      requires Valid() && |px| == geometry.bpp
      modifies this, shadow
      ensures Valid() && (ok <==> x < geometry.width && y < geometry.height && geometry.bpp > 0)
      ensures ok ==> Step(geometry, old(Model()), Draw(x, y, 1, 1), Model()) && Shows(geometry, shadow[..], x, y, px)
      ensures !ok ==> Model() == old(Model())
    {
      if x >= geometry.width || y >= geometry.height {
        return false;
      }
      ghost var before := shadow[..];
      OffsetIsCell(geometry, x, y);
      ColumnsFit(geometry, x, y, 1);
      var offset := y * geometry.stride * geometry.bpp + x * geometry.bpp;
      ok := offset < shadow.Length;
      if ok {
        WritePixel(offset, px);
        RunWritesRow(geometry, before, shadow[..], Bytes(geometry, x), y, px);
        PixelDrawn(geometry, before, shadow[..], x, y, px);
        MarkDirty(x, y, 1, 1);
      }
    }

    /** One pixel of a glyph's row. */
    method DrawBit(off: nat, col: nat, bits: seq<bool>, fg: seq<nat>, bg: seq<nat>, ghost before: seq<nat>)
      requires |fg| == geometry.bpp && |bg| == geometry.bpp && col < |bits|
      requires off + Bytes(geometry, col) + geometry.bpp <= shadow.Length == |before|
      requires Overwritten(before, shadow[..], off, Flat(geometry, Inked(bits, col, fg, bg)))
      modifies shadow
      ensures off + Bytes(geometry, col + 1) <= shadow.Length
      ensures Overwritten(before, shadow[..], off, Flat(geometry, Inked(bits, col + 1, fg, bg)))
    {
      ghost var mid := shadow[..];
      InkedStep(geometry, bits, col, fg, bg);
      var px := if bits[col] then fg else bg;
      WritePixel(off + col * geometry.bpp, px);
      OverwrittenOn(before, mid, shadow[..], off, Flat(geometry, Inked(bits, col, fg, bg)), px);
    }

    /** One row of a glyph. */
    method DrawRow(off: nat, x: nat, bits: seq<bool>, fg: seq<nat>, bg: seq<nat>)
      requires Valid() && |fg| == geometry.bpp && |bg| == geometry.bpp && |bits| == 8
      requires off + Bytes(geometry, Columns(geometry, x, 8)) <= shadow.Length
      modifies shadow
      ensures Overwritten(old(shadow[..]), shadow[..], off,
                          Flat(geometry, Inked(bits, Columns(geometry, x, 8), fg, bg)))
    {
      var col := 0;
      ghost var before := shadow[..];
      while col < 8 && x + col < geometry.width
        invariant col <= Columns(geometry, x, 8)
        invariant Bytes(geometry, col) <= Bytes(geometry, Columns(geometry, x, 8))
        invariant Overwritten(before, shadow[..], off, Flat(geometry, Inked(bits, col, fg, bg)))
      {
        Scaled(col + 1, Columns(geometry, x, 8), geometry.bpp);
        InkedStep(geometry, bits, col, fg, bg);
        DrawBit(off, col, bits, fg, bg, before);
        col := col + 1;
      }
    }

    method PlaceRow(x: nat, y: nat, bits: seq<bool>, fg: seq<nat>, bg: seq<nat>)
      requires Valid() && |fg| == geometry.bpp && |bg| == geometry.bpp && |bits| == 8 && x < geometry.width
               && y < geometry.height
      modifies shadow
      ensures RowWritten(geometry, old(shadow[..]), shadow[..], Bytes(geometry, x), y,
                         Flat(geometry, Inked(bits, Columns(geometry, x, 8), fg, bg)))
    {
      ghost var n, before := Columns(geometry, x, 8), shadow[..];
      OffsetIsCell(geometry, x, y);
      ColumnsFit(geometry, x, y, n);
      DrawRow(y * geometry.stride * geometry.bpp + x * geometry.bpp, x, bits, fg, bg);
      RunWritesRow(geometry, before, shadow[..], Bytes(geometry, x), y, Flat(geometry, Inked(bits, n, fg, bg)));
    }

    /** `draw_glyph_raw` on the shadow. */
    method DrawRows(x: nat, y: nat, glyph: Glyph, fg: seq<nat>, bg: seq<nat>) returns (end: nat)
      requires Valid() && |fg| == geometry.bpp && |bg| == geometry.bpp && glyph.Valid() && x < geometry.width
      modifies shadow
      ensures y <= end <= y + 16 && (end == y + 16 || end >= geometry.height)
      ensures RowsOfPixels(geometry, GlyphImage(geometry, x, glyph, fg, bg), Columns(geometry, x, 8))
      ensures Painted(geometry, old(shadow[..]), shadow[..], x, y, end, GlyphImage(geometry, x, glyph, fg, bg),
                      Columns(geometry, x, 8))
    {
      ghost var n := Columns(geometry, x, 8);
      ghost var before, image := shadow[..], GlyphImage(geometry, x, glyph, fg, bg);
      var row := 0;
      while row < 16 && y + row < geometry.height
        invariant row <= 16 && Painted(geometry, before, shadow[..], x, y, y + row, image, n)
      {
        ghost var mid := shadow[..];
        PlaceRow(x, y + row, glyph.rows[row], fg, bg);
        PaintedOn(geometry, before, mid, shadow[..], x, y, y + row, image, n);
        row := row + 1;
      }
      end := y + row;
    }

    /** `draw_char` and `draw_char_colored`: the visible part of the glyph is drawn, no other pixel changes. */
    method DrawChar(x: nat, y: nat, code: nat, font: seq<Glyph>, fg: seq<nat>, bg: seq<nat>) returns (ok: bool)
      requires Valid() && |fg| == geometry.bpp && |bg| == geometry.bpp
      requires |font| == 128 && forall i | 0 <= i < 128 :: font[i].Valid()
      modifies this, shadow
      ensures Valid() && (ok <==> x < geometry.width && y < geometry.height && code < 128)
      ensures ok ==> Step(geometry, old(Model()), Draw(x, y, 8, 16), Model())
      ensures !ok ==> Model() == old(Model())
      ensures ok ==> ShowsGlyph(geometry, shadow[..], x, y, font[code], fg, bg)
    {
      if x >= geometry.width || y >= geometry.height || code >= 128 {
        return false;
      }
      ghost var before, n := shadow[..], Columns(geometry, x, 8);
      ghost var image := GlyphImage(geometry, x, font[code], fg, bg);
      var end := DrawRows(x, y, font[code], fg, bg);
      PaintedInside(geometry, before, shadow[..], x, y, end, image, n, 8, 16);
      GlyphShows(geometry, before, shadow[..], x, y, end, font[code], fg, bg);
      MarkDirty(x, y, 8, 16);
      ok := true;
    }

    /** Copy a run of bytes to the screen. */
    method CopyRun(from: nat, count: nat)
      requires shadow != screen && from + count <= shadow.Length == screen.Length
      modifies screen
      ensures Overwritten(old(screen[..]), screen[..], from, shadow[from..from + count])
    {
      for i := 0 to count
        invariant forall j | 0 <= j < screen.Length ::
                    screen[j] == if from <= j < from + i then shadow[j] else old(screen[j])
      {
        screen[from + i] := shadow[from + i];
      }
    }

    /** The rows of the dirty rectangle. */
    method CopyRows()
      requires Valid() && dirty
      modifies screen
      ensures Flushed(geometry, old(Model()), screen[..])
    {
      ghost var before, image := screen[..], shadow[..];
      ghost var r := Rect(x1, y1, x2, y2);
      var y := y1;
      while y < y2
        invariant y1 <= y <= y2 && Copied(geometry, before, image, screen[..], r, y)
      {
        ghost var mid := screen[..];
        OffsetIsCell(geometry, x1, y);
        ColumnsFit(geometry, x1, y, x2 - x1);
        var off := y * geometry.stride * geometry.bpp + x1 * geometry.bpp;
        var count := (x2 - x1) * geometry.bpp;
        if off < screen.Length && off + count <= screen.Length {
          CopyRun(off, count);
        }
        CopiedOn(geometry, before, image, mid, screen[..], r, y);
        y := y + 1;
      }
    }

    /** `flush`: no row of the dirty rectangle is skipped. */
    method Flush()
      requires Valid()
      modifies this, screen
      ensures Valid() && Step(geometry, old(Model()), Op.Flush, Model())
      ensures old(Good(geometry, Model())) ==> Agree(geometry, shadow[..], screen[..])
    {
      ghost var s := Model();
      if dirty {
        CopyRows();
        dirty := false;
      }
      if Good(geometry, s) {
        StepKeepsGood(geometry, s, Op.Flush, Model());
      }
    }

    /** `flush_full`. */
    method FlushFull()
      requires Valid()
      modifies this, screen
      ensures Valid() && Step(geometry, old(Model()), Op.FlushFull, Model()) && Good(geometry, Model())
    {
      CopyRun(0, shadow.Length);
      dirty := false;
      assert screen[..] == shadow[..];
    }

    /** `clear`. */
    method Clear()
      requires Valid()
      modifies this, shadow
      ensures Valid() && Step(geometry, old(Model()), Draw(0, 0, geometry.width, geometry.height), Model())
      ensures forall i | 0 <= i < shadow.Length :: shadow[i] == 0
    {
      ghost var before := shadow[..];
      for i := 0 to shadow.Length
        invariant forall j | 0 <= j < i :: shadow[j] == 0
        modifies shadow
      {
        shadow[i] := 0;
      }
      WholeScreen(geometry, before, shadow[..]);
      MarkDirty(0, 0, geometry.width, geometry.height);
    }

    /** Move the rows up and clear the ones that become free. */
    method MoveRows(source: nat, count: nat)
      requires source + count == shadow.Length
      modifies shadow
      ensures forall i | 0 <= i < shadow.Length :: shadow[i] == if i < count then old(shadow[i + source]) else 0
    {
      for i := 0 to count
        invariant forall j | 0 <= j < shadow.Length ::
                    shadow[j] == if j < i then old(shadow[j + source]) else old(shadow[j])
      {
        shadow[i] := shadow[i + source];
      }
      for i := count to shadow.Length
        invariant forall j | 0 <= j < i :: shadow[j] == if j < count then old(shadow[j + source]) else 0
      {
        shadow[i] := 0;
      }
    }

    /** `scroll_up`: the picture moves up, black rows come in below, and the screen follows at once. */
    method ScrollUp(rows: nat)
      requires Valid()
      modifies this, shadow, screen
      ensures Valid() && (rows > 0 ==> Scrolled(geometry, old(shadow[..]), shadow[..], rows))
      ensures rows == 0 ==> Model() == old(Model())
      ensures old(Good(geometry, Model())) ==> Good(geometry, Model())
      ensures old(Good(geometry, Model())) && 0 < rows < geometry.height ==> Agree(geometry, shadow[..], screen[..])
    {
      ghost var s := Model();
      if rows == 0 || rows >= geometry.height {
        if rows >= geometry.height && rows > 0 {
          Clear();
          Cleared(geometry, s.shadow, shadow[..], rows);
        }
      } else {
        var row := geometry.stride * geometry.bpp;
        var source, count := rows * row, (geometry.height - rows) * row;
        RowsAddUp(geometry, rows);
        if source < shadow.Length && source + count <= shadow.Length {
          MoveRows(source, count);
          MovedIsScrolled(geometry, s.shadow, shadow[..], rows);
          WholeScreen(geometry, s.shadow, shadow[..]);
          MarkDirty(0, 0, geometry.width, geometry.height);
          ghost var m := Model();
          if Good(geometry, s) {
            StepKeepsGood(geometry, s, Draw(0, 0, geometry.width, geometry.height), m);
          }
          Flush();
          if Good(geometry, m) {
            StepKeepsGood(geometry, m, Op.Flush, Model());
          }
        } else {
          NothingVisible(geometry, rows);
        }
      }
    }

    /** The fast path of `fill_solid`: one store for every pixel of the buffer, visible or not. */
    method FillAll(px: seq<nat>)
      requires Valid() && geometry.bpp == 4 && |px| == 4
      modifies shadow
      ensures forall i | 0 <= i < shadow.Length :: shadow[i] == px[i % 4]
    {
      TotalIsFours(geometry);
      for k := 0 to shadow.Length / 4
        invariant forall i | 0 <= i < 4 * k :: shadow[i] == px[i % 4]
      {
        WritePixel(4 * k, px);
      }
    }

    /** `fill_solid`: the whole screen gets the colour. */
    method FillSolid(px: seq<nat>)
      requires Valid() && |px| == geometry.bpp
      modifies this, shadow
      ensures Valid() && ShowsColour(geometry, shadow[..], 0, 0, geometry.width, geometry.height, px)
      ensures Step(geometry, old(Model()), Draw(0, 0, geometry.width, geometry.height), Model())
    {
      if geometry.bpp == 4 {
        ghost var before := shadow[..];
        FillAll(px);
        AllFilled(geometry, shadow[..], px);
        WholeScreen(geometry, before, shadow[..]);
        MarkDirty(0, 0, geometry.width, geometry.height);
      } else {
        FillRect(0, 0, geometry.width, geometry.height, px);
      }
    }
  }
}
