/** Interlaced PNG images: seven smaller images are decoded one after the other and their pixels put
    in place (section 8.2 of the PNG specification). */
module Adam7 {
  import opened Bits
  import opened PngFilter
  import opened PngRead

  const XORIG: seq<nat> := [0, 4, 0, 2, 0, 1, 0]
  const YORIG: seq<nat> := [0, 0, 4, 0, 2, 0, 1]
  const XSPC: seq<nat> := [8, 8, 4, 4, 2, 2, 1]
  const YSPC: seq<nat> := [8, 8, 8, 4, 4, 2, 2]

  function PassWidth(p: nat, width: nat): nat
    requires p < 7
  {
    (width - XORIG[p] + XSPC[p] - 1) / XSPC[p]
  }

  function PassHeight(p: nat, height: nat): nat
    requires p < 7
  {
    (height - YORIG[p] + YSPC[p] - 1) / YSPC[p]
  }

  /** Column i and row j of pass p. */
  datatype Spot = Spot(p: nat, i: nat, j: nat) {
    predicate In(width: nat, height: nat) {
      p < 7 && i < PassWidth(p, width) && j < PassHeight(p, height)
    }

    function X(): nat
      requires p < 7
    {
      i * XSPC[p] + XORIG[p]
    }

    function Y(): nat
      requires p < 7
    {
      j * YSPC[p] + YORIG[p]
    }
  }

  /** The pass a pixel belongs to. */
  function PassOf(x: nat, y: nat): (p: nat)
    ensures p < 7
  {
    if y % 2 == 1 then 6
    else if x % 2 == 1 then 5
    else if y % 4 == 2 then 4
    else if x % 4 == 2 then 3
    else if y % 8 == 4 then 2
    else if x % 8 == 4 then 1
    else 0
  }

  /** The pass of each pixel as section 8.2 of the PNG specification tabulates it. */
  const PATTERN: seq<seq<nat>> := [
    [1, 6, 4, 6, 2, 6, 4, 6],
    [7, 7, 7, 7, 7, 7, 7, 7],
    [5, 6, 5, 6, 5, 6, 5, 6],
    [7, 7, 7, 7, 7, 7, 7, 7],
    [3, 6, 4, 6, 3, 6, 4, 6],
    [7, 7, 7, 7, 7, 7, 7, 7],
    [5, 6, 5, 6, 5, 6, 5, 6],
    [7, 7, 7, 7, 7, 7, 7, 7]
  ]

  lemma PatternRow(y: nat)
    requires y < 8
    ensures |PATTERN[y]| == 8
  {
  }

  /** The pattern is repeated over the image. */
  lemma PassPattern(x: nat, y: nat)
    ensures |PATTERN[y % 8]| == 8 && PATTERN[y % 8][x % 8] == PassOf(x, y) + 1
  {
    Remainders(x);
    Remainders(y);
    PatternRow(y % 8);
    PatternAt(x % 8, y % 8);
  }

  lemma PatternAt(i: nat, j: nat)
    requires i < 8 && j < 8
    ensures |PATTERN[j]| == 8 && PATTERN[j][i] == PassOf(i, j) + 1
  {
    if j % 2 == 1 {
      assert PATTERN[j] == [7, 7, 7, 7, 7, 7, 7, 7];
    } else if j % 4 == 2 {
      assert PATTERN[j] == [5, 6, 5, 6, 5, 6, 5, 6];
    } else if j == 4 {
      assert PATTERN[j] == [3, 6, 4, 6, 3, 6, 4, 6];
    } else {
      assert PATTERN[j] == [1, 6, 4, 6, 2, 6, 4, 6];
    }
  }

  /** Within a pass pixels keep their order, by rows from the top and in each row from the left. */
  lemma PassOrder(s: Spot, t: Spot)
    requires s.p == t.p < 7
    ensures s.X() < t.X() <==> s.i < t.i
    ensures s.Y() < t.Y() <==> s.j < t.j
  {
    var p := s.p;
    if p == 0 {} else if p == 1 {} else if p == 2 {} else if p == 3 {} else if p == 4 {} else if p == 5 {} else {}
  }

  function Home(x: nat, y: nat): Spot {
    var p := PassOf(x, y);
    Spot(p, x / XSPC[p], y / YSPC[p])
  }

  lemma Axis(x: nat, orig: nat, spc: nat, size: nat)
    requires spc in {1, 2, 4, 8} && orig < spc && x % spc == orig
    ensures x / spc * spc + orig == x
    ensures x < size ==> x / spc < (size - orig + spc - 1) / spc
  {
    if spc == 1 {} else if spc == 2 {} else if spc == 4 {} else {}
  }

  lemma AxisBack(i: nat, orig: nat, spc: nat, size: nat)
    requires spc in {1, 2, 4, 8} && orig < spc && i < (size - orig + spc - 1) / spc
    ensures i * spc + orig < size && (i * spc + orig) / spc == i && (i * spc + orig) % spc == orig
  {
    if spc == 1 {} else if spc == 2 {} else if spc == 4 {} else {}
  }

  lemma Remainders(x: nat)
    ensures x % 4 == x % 8 % 4 && x % 2 == x % 8 % 2
  {
    var q, r := x / 8, x % 8;
    DivModUnique(x, 4, 2 * q + r / 4, r % 4);
    DivModUnique(x, 2, 4 * q + r / 2, r % 2);
  }

  /** The pixels of pass p are those on its grid. */
  lemma OnGrid(x: nat, y: nat, p: nat)
    requires p < 7
    ensures PassOf(x, y) == p <==> x % XSPC[p] == XORIG[p] && y % YSPC[p] == YORIG[p]
  {
    Remainders(x);
    Remainders(y);
  }

  /** Every pixel has a spot in its pass ... */
  lemma HomeIn(x: nat, y: nat, width: nat, height: nat)
    requires x < width && y < height
    ensures Home(x, y).In(width, height) && Home(x, y).X() == x && Home(x, y).Y() == y
  {
    hide PassOf;
    var p := PassOf(x, y);
    OnGrid(x, y, p);
    Axis(x, XORIG[p], XSPC[p], width);
    Axis(y, YORIG[p], YSPC[p], height);
  }

  /** ... and every spot belongs to one pixel of the image, whose home it is. */
  lemma SpotIn(s: Spot, width: nat, height: nat)
    requires s.In(width, height)
    ensures s.X() < width && s.Y() < height && Home(s.X(), s.Y()) == s
  {
    hide PassOf;
    var p := s.p;
    AxisBack(s.i, XORIG[p], XSPC[p], width);
    AxisBack(s.j, YORIG[p], YSPC[p], height);
    OnGrid(s.X(), s.Y(), p);
  }

  // ----- putting the passes together

  function PixelAt(s: seq<byte>, q: nat, o: nat): seq<byte>
    requires Piece(q, o) + o <= |s|
  {
    s[Piece(q, o)..Piece(q, o) + o]
  }

  /** Copies pixel r of src to pixel q of dest; pixels have o bytes. */
  method CopyPixel(dest: array<byte>, q: nat, src: array<byte>, r: nat, o: nat, ghost count: nat)
    requires dest != src && q < count && Piece(count, o) == dest.Length && Piece(r, o) + o <= src.Length
    modifies dest
    ensures Piece(q, o) + o <= dest.Length && PixelAt(dest[..], q, o) == PixelAt(src[..], r, o)
    ensures forall k: nat :: k != q && k < count ==>
      Piece(k, o) + o <= dest.Length && PixelAt(dest[..], k, o) == PixelAt(old(dest[..]), k, o)
  {
    hide Piece;
    PieceInside(q, count, o);
    var to, from := Piece(q, o), Piece(r, o);
    forall i | 0 <= i < o {
      dest[to + i] := src[from + i];
    }
    assert dest[to..to + o] == src[from..from + o];
    forall k: nat | k != q && k < count
      ensures Piece(k, o) + o <= dest.Length && PixelAt(dest[..], k, o) == PixelAt(old(dest[..]), k, o)
    {
      PieceInside(k, count, o);
      PieceInside(k, q, o);
      PieceInside(q, k, o);
    }
  }

  function Flat(x: nat, y: nat, width: nat): nat {
    Piece(y, width) + x
  }

  lemma FlatIn(x: nat, y: nat, width: nat, height: nat)
    requires x < width && y < height
    ensures Flat(x, y, width) < Piece(height, width)
  {
    hide Piece;
    PieceInside(y, height, width);
  }

  lemma FlatInjective(x: nat, y: nat, x': nat, y': nat, width: nat)
    requires x < width && x' < width && Flat(x, y, width) == Flat(x', y', width)
    ensures x == x' && y == y'
  {
    hide Piece;
    PieceInside(y, y', width);
    PieceInside(y', y, width);
  }

  /** Pixel (x, y) of the image is its spot in its pass. */
  ghost predicate InPlace(final: seq<byte>, pass: seq<byte>, x: nat, y: nat, width: nat, height: nat, o: nat)
    requires x < width && y < height
  {
    var s, q := Home(x, y), Flat(x, y, width);
    var r := Flat(s.i, s.j, PassWidth(s.p, width));
    Piece(q, o) + o <= |final| && Piece(r, o) + o <= |pass| && PixelAt(final, q, o) == PixelAt(pass, r, o)
  }

  ghost predicate Untouched(before: seq<byte>, final: seq<byte>, x: nat, y: nat, width: nat, o: nat) {
    var q := Flat(x, y, width);
    |before| == |final| && Piece(q, o) + o <= |final| && PixelAt(final, q, o) == PixelAt(before, q, o)
  }

  /** The spot comes before column i of row j in the copying of a pass. */
  predicate Before(s: Spot, i: nat, j: nat) {
    s.j < j || (s.j == j && s.i < i)
  }

  ghost predicate PassPlaced(before: seq<byte>, final: seq<byte>, pass: seq<byte>, p: nat, i: nat, j: nat, width: nat,
                             height: nat, o: nat)
  {
    && (forall x: nat, y: nat :: x < width && y < height && Home(x, y).p == p && Before(Home(x, y), i, j) ==>
          InPlace(final, pass, x, y, width, height, o))
    && (forall x: nat, y: nat :: x < width && y < height && Home(x, y).p != p ==>
          Untouched(before, final, x, y, width, o))
  }

  lemma PlaceStep(before: seq<byte>, final0: seq<byte>, final: seq<byte>, pass: seq<byte>, s: Spot, width: nat,
                  height: nat, o: nat)
    requires s.In(width, height) && PassPlaced(before, final0, pass, s.p, s.i, s.j, width, height, o)
    requires var q, r := Flat(s.X(), s.Y(), width), Flat(s.i, s.j, PassWidth(s.p, width));
      && Piece(Piece(height, width), o) == |final0| == |final|
      && Piece(q, o) + o <= |final| && Piece(r, o) + o <= |pass| && PixelAt(final, q, o) == PixelAt(pass, r, o)
      && forall k: nat :: k != q && k < Piece(height, width) ==>
           Piece(k, o) + o <= |final| && PixelAt(final, k, o) == PixelAt(final0, k, o)
    ensures PassPlaced(before, final, pass, s.p, s.i + 1, s.j, width, height, o)
  {
    hide Flat, Piece, PassOf, PassWidth, PassHeight, PixelAt;
    SpotIn(s, width, height);
    forall x: nat, y: nat | x < width && y < height
      ensures Home(x, y) == s ==> InPlace(final, pass, x, y, width, height, o)
      ensures Home(x, y).p == s.p && Before(Home(x, y), s.i, s.j) ==> InPlace(final, pass, x, y, width, height, o)
      ensures Home(x, y).p != s.p ==> Untouched(before, final, x, y, width, o)
    {
      HomeIn(x, y, width, height);
      FlatIn(x, y, width, height);
      if Home(x, y) != s {
        OtherPixel(x, y, s, width);
      }
    }
  }

  lemma OtherPixel(x: nat, y: nat, s: Spot, width: nat)
    requires s.p < 7 && x < width && s.X() < width && Home(s.X(), s.Y()) == s != Home(x, y)
    ensures Flat(x, y, width) != Flat(s.X(), s.Y(), width)
  {
    hide Flat, PassOf;
    if Flat(x, y, width) == Flat(s.X(), s.Y(), width) {
      FlatInjective(x, y, s.X(), s.Y(), width);
    }
  }

  lemma RowPlaced(before: seq<byte>, final: seq<byte>, pass: seq<byte>, p: nat, j: nat, width: nat, height: nat, o: nat)
    requires p < 7 && PassPlaced(before, final, pass, p, PassWidth(p, width), j, width, height, o)
    ensures PassPlaced(before, final, pass, p, 0, j + 1, width, height, o)
  {
    hide PassOf, PassWidth, PassHeight, InPlace, Untouched;
    forall x: nat, y: nat | x < width && y < height && Home(x, y).p == p && Before(Home(x, y), 0, j + 1)
      ensures InPlace(final, pass, x, y, width, height, o)
    {
      HomeIn(x, y, width, height);
    }
  }

  /** Puts the pixels of one pass in place. */
  method PlacePass(final: array<byte>, pass: array<byte>, p: nat, width: nat, height: nat, o: nat)
    requires p < 7 && final != pass && final.Length == Piece(Piece(height, width), o)
    requires pass.Length == Piece(Piece(PassHeight(p, height), PassWidth(p, width)), o)
    modifies final
    ensures PassPlaced(old(final[..]), final[..], pass[..], p, 0, PassHeight(p, height), width, height, o)
  {
    hide Piece, Flat, PassOf, PassWidth, PassHeight, PixelAt, InPlace, Untouched, PassPlaced;
    var w, h := PassWidth(p, width), PassHeight(p, height);
    NonePlaced(final[..], pass[..], p, width, height, o);
    for j := 0 to h
      invariant PassPlaced(old(final[..]), final[..], pass[..], p, 0, j, width, height, o)
    {
      for i := 0 to w
        invariant PassPlaced(old(final[..]), final[..], pass[..], p, i, j, width, height, o)
      {
        ghost var s, before := Spot(p, i, j), final[..];
        SpotIn(s, width, height);
        var outY := j * YSPC[p] + YORIG[p];
        var outX := i * XSPC[p] + XORIG[p];
        FlatIn(outX, outY, width, height);
        FlatIn(i, j, w, h);
        PieceInside(Flat(i, j, w), Piece(h, w), o);
        CopyPixel(final, Flat(outX, outY, width), pass, Flat(i, j, w), o, Piece(height, width));
        PlaceStep(old(final[..]), before, final[..], pass[..], s, width, height, o);
      }
      RowPlaced(old(final[..]), final[..], pass[..], p, j, width, height, o);
    }
  }

  lemma NonePlaced(final: seq<byte>, pass: seq<byte>, p: nat, width: nat, height: nat, o: nat)
    requires |final| == Piece(Piece(height, width), o)
    ensures PassPlaced(final, final, pass, p, 0, 0, width, height, o)
  {
    hide Flat, Piece, PassOf;
    forall x: nat, y: nat | x < width && y < height
      ensures Untouched(final, final, x, y, width, o)
    {
      FlatIn(x, y, width, height);
      PieceInside(Flat(x, y, width), Piece(height, width), o);
    }
  }

  // ----- the whole image

  /** Bytes of the data that belong to a pass: none if it has no pixels. */
  function PassBytes(n: nat, p: nat, width: nat, height: nat): nat
    requires p < 7
  {
    if PassWidth(p, width) == 0 || PassHeight(p, height) == 0 then 0
    else RowStart(PassWidth(p, width) * n, PassHeight(p, height))
  }

  function PassStart(n: nat, p: nat, width: nat, height: nat): nat
    requires p <= 7
  {
    if p == 0 then 0 else PassStart(n, p - 1, width, height) + PassBytes(n, p - 1, width, height)
  }

  /** Pass p of the data stands for lines, shown as an image of its own. */
  ghost predicate PassRead(data: seq<byte>, n: nat, outN: nat, p: nat, width: nat, height: nat, lines: seq<seq<byte>>,
                           pass: seq<byte>)
    requires p < 7
  {
    var w, h, start := PassWidth(p, width), PassHeight(p, height), PassStart(n, p, width, height);
    w > 0 && h > 0 ==>
      && start <= |data| && LinesAt(data[start..], n, w * n, lines) && |lines| == h
      && |pass| == Piece(h, w * outN) && AllShown(pass, lines, n, outN, w)
  }

  /** The first k passes are in place. */
  ghost predicate Assembled(final: seq<byte>, passes: seq<seq<byte>>, k: nat, width: nat, height: nat, o: nat)
    requires k <= |passes|
  {
    forall x: nat, y: nat :: x < width && y < height && Home(x, y).p < k ==>
      InPlace(final, passes[Home(x, y).p], x, y, width, height, o)
  }

  lemma AssembleMore(before: seq<byte>, final: seq<byte>, passes: seq<seq<byte>>, pass: seq<byte>, width: nat,
                     height: nat, o: nat)
    requires |passes| < 7 && Assembled(before, passes, |passes|, width, height, o)
    requires PassPlaced(before, final, pass, |passes|, 0, PassHeight(|passes|, height), width, height, o)
    ensures Assembled(final, passes + [pass], |passes| + 1, width, height, o)
  {
    hide PassOf, PassWidth, PassHeight, Piece, Flat, PixelAt;
    forall x: nat, y: nat | x < width && y < height && Home(x, y).p < |passes| + 1
      ensures InPlace(final, (passes + [pass])[Home(x, y).p], x, y, width, height, o)
    {
      HomeIn(x, y, width, height);
      if Home(x, y).p < |passes| {
        assert InPlace(before, passes[Home(x, y).p], x, y, width, height, o);
      }
    }
  }

  lemma AssembleEmpty(final: seq<byte>, passes: seq<seq<byte>>, width: nat, height: nat, o: nat)
    requires |passes| < 7 && Assembled(final, passes, |passes|, width, height, o)
    requires PassWidth(|passes|, width) == 0 || PassHeight(|passes|, height) == 0
    ensures Assembled(final, passes + [[]], |passes| + 1, width, height, o)
  {
    hide PassOf, InPlace;
    forall x: nat, y: nat | x < width && y < height && Home(x, y).p < |passes| + 1
      ensures InPlace(final, (passes + [[]])[Home(x, y).p], x, y, width, height, o)
    {
      HomeIn(x, y, width, height);
      assert Home(x, y).p != |passes|;
    }
  }

  ghost predicate AllRead(data: seq<byte>, n: nat, outN: nat, width: nat, height: nat, lines: seq<seq<seq<byte>>>,
                          passes: seq<seq<byte>>)
  {
    |lines| == |passes| <= 7
    && forall p :: 0 <= p < |passes| ==> PassRead(data, n, outN, p, width, height, lines[p], passes[p])
  }

  lemma ReadMore(data: seq<byte>, n: nat, outN: nat, width: nat, height: nat, lines: seq<seq<seq<byte>>>,
                 passes: seq<seq<byte>>, line: seq<seq<byte>>, pass: seq<byte>)
    requires |passes| < 7 && AllRead(data, n, outN, width, height, lines, passes)
    requires PassRead(data, n, outN, |passes|, width, height, line, pass)
    ensures AllRead(data, n, outN, width, height, lines + [line], passes + [pass])
  {
    hide PassRead;
  }

  /** Rows that were read lie within the data. */
  lemma LinesInside(data: seq<byte>, n: nat, len: nat, lines: seq<seq<byte>>)
    requires LinesAt(data, n, len, lines)
    ensures RowStart(len, |lines|) <= |data|
  {
    if lines != [] {
      assert LineAt(data, n, len, lines, |lines| - 1);
      NextPiece(|lines| - 1, len + 1);
    }
  }

  /** Makes the image: as it is, or from seven passes whose data follow each other. */
  method CreatePngImage(data: seq<byte>, n: nat, outN: nat, width: nat, height: nat, interlaced: bool)
    returns (st: PngStatus, final: array<byte>, ghost lines: seq<seq<seq<byte>>>, ghost passes: seq<seq<byte>>)
    requires width > 0 && height > 0 && 1 <= n <= 4 && (outN == n || (outN == n + 1 && n in {1, 3}))
    ensures !interlaced && st == Ok ==>
      |lines| == 1 && LinesAt(data, n, width * n, lines[0]) && |lines[0]| == height
      && AllShown(final[..], lines[0], n, outN, width)
    ensures interlaced && st == Ok ==>
      AllRead(data, n, outN, width, height, lines, passes) && |passes| == 7
      && final.Length == Piece(Piece(height, width), outN) && Assembled(final[..], passes, 7, width, height, outN)
    ensures st == Ok <==>
      if interlaced then
        width * height * outN <= INT_MAX && forall p :: 0 <= p < 7 ==> PassSound(data, n, outN, p, width, height)
      else Sound(data, n, outN, width, height)
  {
    hide LinesAt, AllShown, Piece, PassWidth, PassHeight, PassRead, AllRead, Assembled, PassPlaced, SizesOk;
    hide Sound, PassStart;
    StartOfFirst(n, width, height);
    lines, passes := [], [];
    if !interlaced {
      ghost var ls;
      st, final, ls := CreatePngImageRaw(data, n, outN, width, height);
      lines := [ls];
      return;
    }
    final := new byte[0];
    if width * height * outN > INT_MAX {
      return TooLarge, final, lines, passes;
    }
    final := new byte[Piece(Piece(height, width), outN)](_ => 0);
    var rest := data;
    NoPasses(data, n, outN, width, height, final[..]);
    for p := 0 to 7
      invariant |passes| == p && PassStart(n, p, width, height) <= |data|
      invariant rest == data[PassStart(n, p, width, height)..]
      invariant AllRead(data, n, outN, width, height, lines, passes)
      invariant Assembled(final[..], passes, p, width, height, outN)
      invariant forall k :: 0 <= k < p ==> PassSound(data, n, outN, k, width, height)
    {
      var x, y := PassWidth(p, width), PassHeight(p, height);
      ghost var ls, before: seq<byte>, pass: seq<byte> := [], final[..], [];
      if x != 0 && y != 0 {
        var imgLen := RowStart(x * n, y);
        var out;
        st, out, ls := CreatePngImageRaw(rest, n, outN, x, y);
        assert Sound(rest, n, outN, x, y) <==> PassSound(data, n, outN, p, width, height);
        if st != Ok {
          return;
        }
        PiecesOfPieces(y, x, outN);
        PlacePass(final, out, p, width, height, outN);
        pass := out[..];
        AssembleMore(before, final[..], passes, pass, width, height, outN);
        LinesInside(rest, n, x * n, ls);
        rest := rest[imgLen..];
      } else {
        AssembleEmpty(final[..], passes, width, height, outN);
      }
      StartOfNext(n, p, width, height);
      OnePass(data, n, outN, p, width, height, ls, pass);
      ReadMore(data, n, outN, width, height, lines, passes, ls, pass);
      lines, passes := lines + [ls], passes + [pass];
    }
    st := Ok;
  }

  /** The part of the data for pass p, if it has pixels, can be decoded. */
  ghost predicate PassSound(data: seq<byte>, n: nat, outN: nat, p: nat, width: nat, height: nat)
    requires p < 7
  {
    var w, h, start := PassWidth(p, width), PassHeight(p, height), PassStart(n, p, width, height);
    w > 0 && h > 0 ==> start <= |data| && Sound(data[start..], n, outN, w, h)
  }

  lemma StartOfFirst(n: nat, width: nat, height: nat)
    ensures PassStart(n, 0, width, height) == 0
  {
  }

  lemma StartOfNext(n: nat, p: nat, width: nat, height: nat)
    requires p < 7
    ensures PassStart(n, p + 1, width, height) == PassStart(n, p, width, height) + PassBytes(n, p, width, height)
  {
  }

  lemma NoPasses(data: seq<byte>, n: nat, outN: nat, width: nat, height: nat, final: seq<byte>)
    ensures AllRead(data, n, outN, width, height, [], []) && Assembled(final, [], 0, width, height, outN)
  {
  }

  lemma OnePass(data: seq<byte>, n: nat, outN: nat, p: nat, width: nat, height: nat, lines: seq<seq<byte>>,
                pass: seq<byte>)
    requires p < 7 && PassStart(n, p, width, height) <= |data|
    requires var w, h := PassWidth(p, width), PassHeight(p, height);
      w > 0 && h > 0 ==>
        && LinesAt(data[PassStart(n, p, width, height)..], n, w * n, lines) && |lines| == h
        && |pass| == Piece(h, w * outN) && AllShown(pass, lines, n, outN, w)
    ensures PassRead(data, n, outN, p, width, height, lines, pass)
  {
  }

  lemma PiecesOfPieces(y: nat, x: nat, o: nat)
    ensures Piece(y, x * o) == Piece(Piece(y, x), o)
  {
    assert y * (x * o) == y * x * o;
  }
}
