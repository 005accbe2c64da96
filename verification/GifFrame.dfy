/** Where the pixels of a GIF frame go: left to right along rows that come top to bottom or, when the
    frame is interlaced, in the four passes of GIF89a, Appendix E. */
module GifFrame {
  import opened Bits
  import ImageRows

  /** A frame of w by h pixels at (x, y) on a screen of width by height pixels. */
  datatype Area = Area(width: nat, height: nat, x: nat, y: nat, w: nat, h: nat) {
    predicate Ok() {
      x + w <= width && y + h <= height
    }

    /** Number, on the screen, of the pixel in a row and column of the frame. */
    function Pixel(row: nat, col: nat): nat {
      RowStart(row) + (x + col)
    }

    function RowStart(row: nat): nat {
      (y + row) * width
    }
  }

  // ----- the order of the rows

  datatype Cursor = Cursor(col: nat, row: nat, step: nat, parse: nat)

  /** Past the bottom, the next interlace pass begins, if there is one. */
  function NextPass(c: Cursor, h: nat): Cursor
    decreases c.parse
  {
    if c.row >= h && c.parse > 0 then
      NextPass(Cursor(c.col, Pow2(c.parse) / 2, Pow2(c.parse), c.parse - 1), h)
    else c
  }

  function NextSpot(c: Cursor, w: nat, h: nat): Cursor {
    if c.col + 1 < w then c.(col := c.col + 1)
    else NextPass(c.(col := 0, row := c.row + c.step), h)
  }

  function Beginning(a: Area, interlaced: bool): Cursor {
    Cursor(0, if a.w == 0 then a.h else 0, if interlaced then 8 else 1, if interlaced then 3 else 0)
  }

  /** The rows still to come, the current one first. */
  function RowsFrom(c: Cursor, h: nat): seq<nat>
    requires c.step > 0
    decreases c.parse, if c.row < h then h - c.row else 0
  {
    if c.row < h then [c.row] + RowsFrom(c.(row := c.row + c.step), h)
    else if c.parse > 0 then RowsFrom(Cursor(c.col, Pow2(c.parse) / 2, Pow2(c.parse), c.parse - 1), h)
    else []
  }

  lemma {:induction false} RowsNextPass(c: Cursor, h: nat)
    requires c.step > 0
    ensures NextPass(c, h).step > 0 && RowsFrom(NextPass(c, h), h) == RowsFrom(c, h)
    ensures NextPass(c, h).row >= h ==> RowsFrom(c, h) == []
    ensures NextPass(c, h).col == c.col
    decreases c.parse
  {
    if c.row >= h && c.parse > 0 {
      RowsNextPass(Cursor(c.col, Pow2(c.parse) / 2, Pow2(c.parse), c.parse - 1), h);
    }
  }

  lemma {:induction false} RowsIgnoreColumn(c: Cursor, d: Cursor, h: nat)
    requires c.step > 0 && d == c.(col := d.col)
    ensures RowsFrom(c, h) == RowsFrom(d, h)
    decreases c.parse, if c.row < h then h - c.row else 0
  {
    if c.row < h {
      RowsIgnoreColumn(c.(row := c.row + c.step), d.(row := d.row + d.step), h);
    } else if c.parse > 0 {
      RowsIgnoreColumn(Cursor(c.col, Pow2(c.parse) / 2, Pow2(c.parse), c.parse - 1),
                       Cursor(d.col, Pow2(c.parse) / 2, Pow2(c.parse), c.parse - 1), h);
    }
  }

  /** Every row lo, lo + step, ... below h. */
  function Every(lo: nat, step: nat, h: nat): seq<nat>
    requires step > 0
    decreases if lo < h then h - lo else 0
  {
    if lo < h then [lo] + Every(lo + step, step, h) else []
  }

  predicate InEvery(r: nat, lo: nat, step: nat, h: nat)
    requires step > 0
  {
    lo <= r < h && (r - lo) % step == 0
  }

  function Times(lo: nat, step: nat, h: nat): nat
    requires step > 0
  {
    if lo < h then (h - lo + step - 1) / step else 0
  }

  lemma StepDown(n: int, step: nat)
    requires step in {1, 2, 4, 8}
    ensures n / step == 1 + (n - step) / step && n % step == (n - step) % step
  {
  }

  lemma StepInside(n: int, step: nat)
    requires step in {1, 2, 4, 8}
    ensures 0 <= n < step ==> n / step == 0 && (n % step == 0 <==> n == 0)
  {
  }

  lemma EveryStep(lo: nat, step: nat, h: nat)
    requires step in {1, 2, 4, 8} && lo < h
    ensures Times(lo, step, h) == 1 + Times(lo + step, step, h)
    ensures InEvery(lo, lo, step, h)
    ensures forall r :: InEvery(r, lo, step, h) <==> r == lo || InEvery(r, lo + step, step, h)
  {
    StepDown(h - lo + step - 1, step);
    forall r: nat
      ensures InEvery(r, lo, step, h) <==> r == lo || InEvery(r, lo + step, step, h)
    {
      StepDown(r - lo, step);
      StepInside(r - lo, step);
    }
  }

  predicate Rising(s: seq<nat>) {
    forall i, j :: 0 <= i < j < |s| ==> s[i] < s[j]
  }

  lemma {:induction false} EveryOnce(lo: nat, step: nat, h: nat)
    requires step in {1, 2, 4, 8}
    ensures |Every(lo, step, h)| == Times(lo, step, h) && Rising(Every(lo, step, h))
    ensures forall r :: r in Every(lo, step, h) <==> InEvery(r, lo, step, h)
    ensures forall r :: r in Every(lo, step, h) ==> lo <= r
    decreases if lo < h then h - lo else 0
  {
    hide InEvery, Times;
    if lo < h {
      EveryOnce(lo + step, step, h);
      EveryStep(lo, step, h);
      var t := Every(lo + step, step, h);
      assert forall j :: 0 <= j < |t| ==> t[j] in t;
    } else {
      NoneLeft(lo, step, h);
    }
  }

  lemma NoneLeft(lo: nat, step: nat, h: nat)
    requires step > 0 && lo >= h
    ensures Times(lo, step, h) == 0 && forall r :: !InEvery(r, lo, step, h)
  {
  }

  /** The four passes. */
  function Passes(h: nat): seq<nat> {
    Every(0, 8, h) + (Every(4, 8, h) + (Every(2, 4, h) + Every(1, 2, h)))
  }

  lemma {:induction false} PassRows(row: nat, step: nat, parse: nat, h: nat)
    requires step > 0
    ensures RowsFrom(Cursor(0, row, step, parse), h)
         == Every(row, step, h) + RowsFrom(Cursor(0, if row < h then h else row, step, parse), h)
    decreases if row < h then h - row else 0
  {
    if row >= h {
    } else {
      PassRows(row + step, step, parse, h);
      PastBottom(row + step, h, step, parse, h);
    }
  }

  lemma PastBottom(row: nat, row': nat, step: nat, parse: nat, h: nat)
    requires step > 0
    ensures row >= h && row' >= h ==>
      RowsFrom(Cursor(0, row, step, parse), h) == RowsFrom(Cursor(0, row', step, parse), h)
  {
  }

  /** The stepping of the raster makes exactly the four passes, or one pass from top to bottom. */
  lemma RowOrder(a: Area, interlaced: bool)
    requires a.w > 0
    ensures RowsFrom(Beginning(a, interlaced), a.h) == if interlaced then Passes(a.h) else Every(0, 1, a.h)
  {
    var h := a.h;
    if interlaced {
      PassRows(0, 8, 3, h);
      PassRows(4, 8, 2, h);
      PassRows(2, 4, 1, h);
      PassRows(1, 2, 0, h);
      assert Pow2(1) == 2 && Pow2(2) == 4 && Pow2(3) == 8;
    } else {
      PassRows(0, 1, 0, h);
      assert Every(0, 1, h) + [] == Every(0, 1, h);
    }
  }

  /** Each row of the frame comes exactly once. */
  ghost predicate EachOnce(s: seq<nat>, h: nat) {
    && |s| == h
    && (forall j :: 0 <= j < |s| ==> s[j] < h)
    && (forall r :: 0 <= r < h ==> r in s)
    && NoTwice(s)
  }

  lemma RowsOnce(a: Area, interlaced: bool)
    requires a.w > 0
    ensures EachOnce(RowsFrom(Beginning(a, interlaced), a.h), a.h)
  {
    RowOrder(a, interlaced);
    if interlaced {
      PassesOnce(a.h);
    } else {
      SinglePassOnce(a.h);
    }
  }

  lemma SinglePassOnce(h: nat)
    ensures EachOnce(Every(0, 1, h), h)
  {
    EveryOnce(0, 1, h);
    var s := Every(0, 1, h);
    assert forall j :: 0 <= j < |s| ==> s[j] in s;
    assert forall r :: 0 <= r < h ==> InEvery(r, 0, 1, h);
  }

  lemma PassesOnce(h: nat)
    ensures EachOnce(Passes(h), h)
  {
    var p, q, r, s := Every(0, 8, h), Every(4, 8, h), Every(2, 4, h), Every(1, 2, h);
    hide Every;
    EveryOnce(0, 8, h);
    EveryOnce(4, 8, h);
    EveryOnce(2, 4, h);
    EveryOnce(1, 2, h);
    WhichPass(h);
    Apart(r, s);
    Apart(q, r + s);
    Apart(p, q + (r + s));
    var all := p + (q + (r + s));
    assert all == Passes(h);
    forall j | 0 <= j < |all|
      ensures all[j] < h
    {
      assert all[j] in all;
    }
  }

  lemma WhichPass(h: nat)
    ensures Times(0, 8, h) + Times(4, 8, h) + Times(2, 4, h) + Times(1, 2, h) == h
    ensures forall k: nat :: k < h <==>
      InEvery(k, 0, 8, h) || InEvery(k, 4, 8, h) || InEvery(k, 2, 4, h) || InEvery(k, 1, 2, h)
    ensures forall k :: InEvery(k, 0, 8, h) ==> !InEvery(k, 4, 8, h) && !InEvery(k, 2, 4, h) && !InEvery(k, 1, 2, h)
    ensures forall k :: InEvery(k, 4, 8, h) ==> !InEvery(k, 2, 4, h) && !InEvery(k, 1, 2, h)
    ensures forall k :: InEvery(k, 2, 4, h) ==> !InEvery(k, 1, 2, h)
  {
    TimesAddUp(h);
    hide Times, InEvery;
    forall k: nat
      ensures k < h <==> InEvery(k, 0, 8, h) || InEvery(k, 4, 8, h) || InEvery(k, 2, 4, h) || InEvery(k, 1, 2, h)
      ensures InEvery(k, 0, 8, h) ==> !InEvery(k, 4, 8, h) && !InEvery(k, 2, 4, h) && !InEvery(k, 1, 2, h)
      ensures InEvery(k, 4, 8, h) ==> !InEvery(k, 2, 4, h) && !InEvery(k, 1, 2, h)
      ensures InEvery(k, 2, 4, h) ==> !InEvery(k, 1, 2, h)
    {
      OnePass(k, h);
    }
  }

  lemma TimesAddUp(h: nat)
    ensures Times(0, 8, h) + Times(4, 8, h) + Times(2, 4, h) + Times(1, 2, h) == h
  {
    var q, r := h / 8, h % 8;
    assert Times(0, 8, h) == q + Times(0, 8, r);
    assert Times(4, 8, h) == q + Times(4, 8, r);
    assert Times(2, 4, h) == 2 * q + Times(2, 4, r);
    assert Times(1, 2, h) == 4 * q + Times(1, 2, r);
    assert r in {0, 1, 2, 3, 4, 5, 6, 7};
  }

  lemma OnePass(k: nat, h: nat)
    ensures k < h <==> InEvery(k, 0, 8, h) || InEvery(k, 4, 8, h) || InEvery(k, 2, 4, h) || InEvery(k, 1, 2, h)
    ensures InEvery(k, 0, 8, h) ==> !InEvery(k, 4, 8, h) && !InEvery(k, 2, 4, h) && !InEvery(k, 1, 2, h)
    ensures InEvery(k, 4, 8, h) ==> !InEvery(k, 2, 4, h) && !InEvery(k, 1, 2, h)
    ensures InEvery(k, 2, 4, h) ==> !InEvery(k, 1, 2, h)
  {
  }

  predicate NoTwice(s: seq<nat>) {
    forall i, j :: 0 <= i < j < |s| ==> s[i] != s[j]
  }

  /** Two lists of different numbers with none in common. */
  lemma Apart(s: seq<nat>, t: seq<nat>)
    requires NoTwice(s) && NoTwice(t) && forall x :: x in s ==> x !in t
    ensures NoTwice(s + t)
  {
    forall i, j | 0 <= i < j < |s + t|
      ensures (s + t)[i] != (s + t)[j]
    {
      if i < |s| <= j {
        assert s[i] in s && t[j - |s|] in t;
      }
    }
  }

  // ----- drawing

  /** The screen, four bytes a pixel, which pixels have been drawn on, and where the next one goes. */
  datatype Canvas = Canvas(out: seq<byte>, history: seq<byte>, cursor: Cursor)

  predicate Fits(a: Area, cv: Canvas) {
    && a.Ok() && |cv.out| == 4 * |cv.history| && |cv.history| == a.width * a.height
    && (cv.cursor.row < a.h ==> cv.cursor.col < a.w)
    && cv.cursor.step > 0
  }

  lemma PixelInside(a: Area, row: nat, col: nat)
    requires a.Ok() && row < a.h && col < a.w
    ensures a.Pixel(row, col) < a.width * a.height
  {
    assert (a.y + row + 1) * a.width == a.RowStart(row) + a.width;
    MulMono(a.y + row + 1, a.height, a.width);
  }

  lemma MulMono(a: nat, b: nat, c: nat)
    requires a <= b
    ensures a * c <= b * c
  {
  }

  lemma RowsApart(a: Area, r: nat, c: nat, r': nat, c': nat)
    requires a.Ok() && c < a.w
    ensures r < r' ==> a.Pixel(r, c) < a.Pixel(r', c')
  {
    if r < r' {
      MulMono(a.y + r + 1, a.y + r', a.width);
      assert (a.y + r + 1) * a.width == a.RowStart(r) + a.width;
    }
  }

  lemma PixelInjective(a: Area, r: nat, c: nat, r': nat, c': nat)
    requires a.Ok() && c < a.w && c' < a.w && a.Pixel(r, c) == a.Pixel(r', c')
    ensures r == r' && c == c'
  {
    RowsApart(a, r, c, r', c');
    RowsApart(a, r', c', r, c);
  }

  /** A colour table of 256 entries: red, green, blue, opacity. */
  type Colors = s: seq<byte> | |s| == 1024 witness seq(1024, _ => 0)

  /** Pixel q painted with colour i, unless the colour is transparent. */
  function Paint(out: seq<byte>, q: nat, colors: Colors, i: byte): (r: seq<byte>)
    requires 4 * q + 4 <= |out|
    ensures |r| == |out|
  {
    if colors[4 * i + 3] > 128 then
      out[4 * q := colors[4 * i + 2]][4 * q + 1 := colors[4 * i + 1]][4 * q + 2 := colors[4 * i]]
         [4 * q + 3 := colors[4 * i + 3]]
    else out
  }

  function PlotOne(a: Area, colors: Colors, cv: Canvas, i: byte): (r: Canvas)
    requires Fits(a, cv)
    ensures Fits(a, r)
  {
    var c := cv.cursor;
    if c.row >= a.h then cv
    else
      PixelInside(a, c.row, c.col);
      RowsNextPass(c.(col := 0, row := c.row + c.step), a.h);
      var q := a.Pixel(c.row, c.col);
      Canvas(Paint(cv.out, q, colors, i), cv.history[q := 1], NextSpot(c, a.w, a.h))
  }

  function Plot(a: Area, colors: Colors, cv: Canvas, px: seq<byte>): (r: Canvas)
    requires Fits(a, cv)
    ensures Fits(a, r)
    decreases |px|
  {
    if px == [] then cv else Plot(a, colors, PlotOne(a, colors, cv, px[0]), px[1..])
  }

  lemma PlotNothing(a: Area, colors: Colors, cv: Canvas)
    requires Fits(a, cv)
    ensures Plot(a, colors, cv, []) == cv
  {
  }

  lemma {:induction false} PlotAppend(a: Area, colors: Colors, cv: Canvas, p: seq<byte>, q: seq<byte>)
    requires Fits(a, cv)
    ensures Plot(a, colors, cv, p + q) == Plot(a, colors, Plot(a, colors, cv, p), q)
    decreases |p|
  {
    if p == [] {
      assert p + q == q;
    } else {
      assert (p + q)[1..] == p[1..] + q;
      PlotAppend(a, colors, PlotOne(a, colors, cv, p[0]), p[1..], q);
    }
  }

  // ----- what a frame looks like when it has been drawn

  function RowSpots(a: Area, row: nat, col: nat): (s: seq<nat>)
    requires col <= a.w
    ensures |s| == a.w - col && forall i :: 0 <= i < |s| ==> s[i] == a.Pixel(row, col + i)
  {
    seq<nat>(a.w - col, i requires 0 <= i < a.w - col => a.Pixel(row, col + i))
  }

  /** The pixels of the rows from left to right, the first row from column col on. */
  function Spots(a: Area, rows: seq<nat>, col: nat): seq<nat>
    requires col <= a.w
    decreases |rows|
  {
    if rows == [] then [] else RowSpots(a, rows[0], col) + Spots(a, rows[1..], 0)
  }

  /** The pixels still to be drawn, in order. */
  function Ahead(a: Area, c: Cursor): seq<nat>
    requires c.step > 0 && (c.row < a.h ==> c.col < a.w)
  {
    Spots(a, RowsFrom(c, a.h), if c.row < a.h then c.col else 0)
  }

  /** Below the bottom row only when all passes are done. */
  predicate Settled(a: Area, c: Cursor)
    requires c.step > 0 && (c.row < a.h ==> c.col < a.w)
  {
    c.row >= a.h ==> Ahead(a, c) == []
  }

  lemma AheadNext(a: Area, c: Cursor)
    requires c.step > 0 && c.row < a.h && c.col < a.w
    ensures var d := NextSpot(c, a.w, a.h);
      && d.step > 0 && (d.row < a.h ==> d.col < a.w) && Settled(a, d)
      && Ahead(a, c) == [a.Pixel(c.row, c.col)] + Ahead(a, d)
  {
    var down := c.(row := c.row + c.step);
    var rest := RowsFrom(down, a.h);
    assert RowsFrom(c, a.h)[1..] == rest;
    if c.col + 1 < a.w {
      RowsIgnoreColumn(down, down.(col := c.col + 1), a.h);
      assert RowsFrom(c.(col := c.col + 1), a.h)[1..] == rest;
      assert RowSpots(a, c.row, c.col) == [a.Pixel(c.row, c.col)] + RowSpots(a, c.row, c.col + 1);
    } else {
      RowsIgnoreColumn(down, down.(col := 0), a.h);
      RowsNextPass(down.(col := 0), a.h);
      assert RowSpots(a, c.row, c.col) == [a.Pixel(c.row, c.col)];
    }
  }

  lemma {:induction false} SpotsAmong(a: Area, rows: seq<nat>, col: nat, q: nat)
    requires col <= a.w && q in Spots(a, rows, col)
    ensures exists m: nat, i: nat :: m < |rows| && i < a.w && q == a.Pixel(rows[m], i)
    decreases |rows|
  {
    var head := RowSpots(a, rows[0], col);
    if q in head {
      var k :| 0 <= k < |head| && head[k] == q;
      assert q == a.Pixel(rows[0], col + k);
    } else {
      SpotsAmong(a, rows[1..], 0, q);
      var m: nat, i: nat :| m < |rows| - 1 && i < a.w && q == a.Pixel(rows[1..][m], i);
      assert rows[1..][m] == rows[m + 1];
    }
  }

  lemma SpotOfAnotherRow(a: Area, rows: seq<nat>, col: nat, x: nat)
    requires a.Ok() && col <= a.w && NoTwice(rows) && rows != [] && x in RowSpots(a, rows[0], col)
    ensures x !in Spots(a, rows[1..], 0)
  {
    if x in Spots(a, rows[1..], 0) {
      var k :| 0 <= k < a.w - col && RowSpots(a, rows[0], col)[k] == x;
      SpotsAmong(a, rows[1..], 0, x);
      var m: nat, i: nat :| m < |rows| - 1 && i < a.w && x == a.Pixel(rows[1..][m], i);
      assert rows[0] != rows[m + 1];
      PixelInjective(a, rows[0], col + k, rows[m + 1], i);
    }
  }

  lemma {:induction false} SpotsOnce(a: Area, rows: seq<nat>, col: nat)
    requires a.Ok() && col <= a.w && NoTwice(rows)
    ensures NoTwice(Spots(a, rows, col))
    decreases |rows|
  {
    if rows == [] {
    } else {
      var head, tail := RowSpots(a, rows[0], col), Spots(a, rows[1..], 0);
      SpotsOnce(a, rows[1..], 0);
      forall x | x in head
        ensures x !in tail
      {
        SpotOfAnotherRow(a, rows, col, x);
      }
      Apart(head, tail);
    }
  }

  function PixelOf(out: seq<byte>, q: nat): seq<byte>
    requires 4 * q + 4 <= |out|
  {
    out[4 * q..4 * q + 4]
  }

  /** The pixel after colour i has been drawn over it. */
  function Shade(under: seq<byte>, colors: Colors, i: byte): seq<byte> {
    if colors[4 * i + 3] > 128 then [colors[4 * i + 2], colors[4 * i + 1], colors[4 * i], colors[4 * i + 3]] else under
  }

  lemma PaintOne(out: seq<byte>, q: nat, colors: Colors, i: byte)
    requires 4 * q + 4 <= |out|
    ensures PixelOf(Paint(out, q, colors, i), q) == Shade(PixelOf(out, q), colors, i)
    ensures forall p: nat :: p != q && 4 * p + 4 <= |out| ==> PixelOf(Paint(out, q, colors, i), p) == PixelOf(out, p)
  {
    forall p: nat | p != q && 4 * p + 4 <= |out|
      ensures PixelOf(Paint(out, q, colors, i), p) == PixelOf(out, p)
    {
    }
  }

  /** Pixel q of the canvas, after the first n spots have been drawn with px. */
  ghost predicate DrawnAt(before: Canvas, after: Canvas, colors: Colors, spots: seq<nat>, px: seq<byte>, k: nat)
    requires k < |spots| && k < |px|
  {
    var q := spots[k];
    && q < |before.history| == |after.history| && |before.out| == 4 * |before.history| == |after.out|
    && PixelOf(after.out, q) == Shade(PixelOf(before.out, q), colors, px[k]) && after.history[q] == 1
  }

  ghost predicate SameAt(before: Canvas, after: Canvas, q: nat) {
    && q < |before.history| == |after.history| && |before.out| == 4 * |before.history| == |after.out|
    && PixelOf(after.out, q) == PixelOf(before.out, q) && after.history[q] == before.history[q]
  }

  lemma DrawnFirst(cv: Canvas, cv1: Canvas, r: Canvas, colors: Colors, spots: seq<nat>, px: seq<byte>)
    requires |spots| > 0 && |px| > 0 && spots[0] < |cv.history| && |cv.out| == 4 * |cv.history|
    requires cv1.out == Paint(cv.out, spots[0], colors, px[0]) && cv1.history == cv.history[spots[0] := 1]
    requires SameAt(cv1, r, spots[0])
    ensures DrawnAt(cv, r, colors, spots, px, 0)
  {
    PaintOne(cv.out, spots[0], colors, px[0]);
  }

  lemma ElsewhereSame(cv: Canvas, cv1: Canvas, q0: nat, colors: Colors, i: byte, q: nat)
    requires q0 < |cv.history| && |cv.out| == 4 * |cv.history| && q < |cv.history| && q != q0
    requires cv1.out == Paint(cv.out, q0, colors, i) && cv1.history == cv.history[q0 := 1]
    ensures SameAt(cv, cv1, q)
  {
    PaintOne(cv.out, q0, colors, i);
  }

  ghost predicate AllDrawn(cv: Canvas, r: Canvas, colors: Colors, s: seq<nat>, px: seq<byte>) {
    forall k :: 0 <= k < |s| && k < |px| ==> DrawnAt(cv, r, colors, s, px, k)
  }

  ghost predicate RestSame(cv: Canvas, r: Canvas, s: seq<nat>, n: nat) {
    forall q: nat :: q < |cv.history| && (forall k :: 0 <= k < |s| && k < n ==> s[k] != q) ==> SameAt(cv, r, q)
  }

  /** The k-th index is drawn at the k-th pixel ahead; indices beyond the last are dropped, and nothing
      else changes. */
  lemma {:induction false} Drawn(a: Area, colors: Colors, cv: Canvas, px: seq<byte>)
    requires Fits(a, cv) && NoTwice(Ahead(a, cv.cursor)) && Settled(a, cv.cursor)
    ensures AllDrawn(cv, Plot(a, colors, cv, px), colors, Ahead(a, cv.cursor), px)
    ensures RestSame(cv, Plot(a, colors, cv, px), Ahead(a, cv.cursor), |px|)
    decreases |px|
  {
    if px == [] {
    } else if cv.cursor.row >= a.h {
      Drawn(a, colors, cv, px[1..]);
    } else {
      var c := cv.cursor;
      var cv1 := PlotOne(a, colors, cv, px[0]);
      AheadNext(a, c);
      assert NoTwice(Ahead(a, cv1.cursor)) by {
        var s, t := Ahead(a, c), Ahead(a, cv1.cursor);
        assert forall i :: 0 <= i < |t| ==> t[i] == s[i + 1];
      }
      Drawn(a, colors, cv1, px[1..]);
      PixelInside(a, c.row, c.col);
      DrawnMore(cv, cv1, Plot(a, colors, cv1, px[1..]), colors, Ahead(a, c), px);
    }
  }

  lemma DrawnMore(cv: Canvas, cv1: Canvas, r: Canvas, colors: Colors, s: seq<nat>, px: seq<byte>)
    requires |px| > 0 && |s| > 0 && NoTwice(s) && s[0] < |cv.history| && |cv.out| == 4 * |cv.history|
    requires cv1.out == Paint(cv.out, s[0], colors, px[0]) && cv1.history == cv.history[s[0] := 1]
    requires AllDrawn(cv1, r, colors, s[1..], px[1..]) && RestSame(cv1, r, s[1..], |px| - 1)
    ensures AllDrawn(cv, r, colors, s, px) && RestSame(cv, r, s, |px|)
  {
    assert SameAt(cv1, r, s[0]);
    DrawnFirst(cv, cv1, r, colors, s, px);
    forall k | 0 <= k < |s| && k < |px|
      ensures DrawnAt(cv, r, colors, s, px, k)
    {
      if k > 0 {
        assert DrawnAt(cv1, r, colors, s[1..], px[1..], k - 1);
        ElsewhereSame(cv, cv1, s[0], colors, px[0], s[k]);
      }
    }
    forall q: nat | q < |cv.history| && (forall k :: 0 <= k < |s| && k < |px| ==> s[k] != q)
      ensures SameAt(cv, r, q)
    {
      assert forall k :: 0 <= k < |s| - 1 && k < |px| - 1 ==> s[1..][k] == s[k + 1];
      assert SameAt(cv1, r, q);
      ElsewhereSame(cv, cv1, s[0], colors, px[0], q);
    }
  }

  lemma {:induction false} SpotAt(a: Area, rows: seq<nat>, j: nat, i: nat)
    requires j < |rows| && i < a.w
    ensures |Spots(a, rows, 0)| == |rows| * a.w
    ensures j * a.w + i < |rows| * a.w && Spots(a, rows, 0)[j * a.w + i] == a.Pixel(rows[j], i)
    decreases |rows|
  {
    MulMono(j + 1, |rows|, a.w);
    ImageRows.MulNext(|rows| - 1, a.w);
    ImageRows.MulNext(j, a.w);
    if |rows| == 1 {
      assert Spots(a, rows[1..], 0) == [];
    } else if j == 0 {
      SpotAt(a, rows[1..], 0, i);
    } else {
      SpotAt(a, rows[1..], j - 1, i);
      ImageRows.MulNext(j - 1, a.w);
    }
  }

  /** A frame drawn from its beginning: pixel i of the j-th row in drawing order shows index j * w + i;
      what lies outside the frame, or was not reached, is untouched. */
  lemma FrameDrawn(a: Area, colors: Colors, cv: Canvas, px: seq<byte>, interlaced: bool, j: nat, i: nat)
    requires Fits(a, cv) && cv.cursor == Beginning(a, interlaced) && j < a.h && i < a.w && j * a.w + i < |px|
    ensures var rows, r := RowsFrom(cv.cursor, a.h), Plot(a, colors, cv, px);
      && EachOnce(rows, a.h)
      && a.Pixel(rows[j], i) < |cv.history| == |r.history| && |r.out| == |cv.out| == 4 * |cv.history|
      && PixelOf(r.out, a.Pixel(rows[j], i)) == Shade(PixelOf(cv.out, a.Pixel(rows[j], i)), colors, px[j * a.w + i])
      && r.history[a.Pixel(rows[j], i)] == 1
  {
    var rows, k := RowsFrom(cv.cursor, a.h), j * a.w + i;
    RowsOnce(a, interlaced);
    SpotsOnce(a, rows, 0);
    SpotAt(a, rows, j, i);
    Drawn(a, colors, cv, px);
    assert DrawnAt(cv, Plot(a, colors, cv, px), colors, Ahead(a, cv.cursor), px, k);
  }

  lemma FrameElsewhere(a: Area, colors: Colors, cv: Canvas, px: seq<byte>, interlaced: bool, q: nat)
    requires Fits(a, cv) && cv.cursor == Beginning(a, interlaced) && q < |cv.history|
    requires forall r: nat, i: nat :: r < a.h && i < a.w ==> a.Pixel(r, i) != q
    ensures SameAt(cv, Plot(a, colors, cv, px), q)
  {
    var s := Ahead(a, cv.cursor);
    if a.w == 0 {
      NoSpots(a, RowsFrom(cv.cursor, a.h));
    } else {
      RowsOnce(a, interlaced);
      SpotsOnce(a, RowsFrom(cv.cursor, a.h), 0);
      forall k | 0 <= k < |s|
        ensures s[k] != q
      {
        SpotsAmong(a, RowsFrom(cv.cursor, a.h), 0, s[k]);
      }
    }
    Drawn(a, colors, cv, px);
  }

  lemma {:induction false} NoSpots(a: Area, rows: seq<nat>)
    requires a.w == 0
    ensures Spots(a, rows, 0) == []
    decreases |rows|
  {
    if rows == [] {
    } else {
      NoSpots(a, rows[1..]);
    }
  }
}
