/** Run-length coded TGA files as their format describes them, byte by byte, and how they are shown. */
module TgaFile {
  import opened Bits
  import opened ByteSource
  import opened ImageRows
  import opened Sizes
  import opened TgaRle

  function Flat(pxs: seq<Pixel>): seq<byte> {
    if pxs == [] then [] else pxs[0] + Flat(pxs[1..])
  }

  /** A packet of n equal pixels begins with 128 and n - 1, one of n pixels with n - 1. */
  ghost function Spelled(comp: nat, ps: seq<Packet>): seq<byte>
    requires AllOk(comp, ps)
  {
    if ps == [] then []
    else
      var first: seq<byte> :=
        match ps[0]
        case Same(n, px) => [128 + (n - 1)] + px
        case Each(pxs) => [|pxs| - 1] + Flat(pxs);
      first + Spelled(comp, ps[1..])
  }

  /** The colours of a pixel that is stored blue first. */
  function Colours(px: Pixel): Pixel {
    if |px| == 3 then [px[2], px[1], px[0]]
    else if |px| == 4 then [px[2], px[1], px[0], px[3]]
    else px
  }

  /** What 18 bytes say: no palette, colour of three or four bytes or grey of one or two, 16 bit sizes, and bit 5
      of the last byte set if the rows come from the top. */
  ghost predicate Says(head: seq<byte>, idLength: nat, width: nat, height: nat, comp: nat, fromTop: bool) {
    && |head| == 18 && head[0] == idLength && head[1] == 0
    && (if comp >= 3 then head[2] == 10 else head[2] == 11) && 1 <= comp <= 4 && head[16] == 8 * comp
    && width == head[12] as int + 256 * (head[13] as int) && height == head[14] as int + 256 * (head[15] as int)
    && exists upper, lower :: 0 <= lower < 32 && Descriptor(upper, fromTop, lower) == head[17]
  }

  function Descriptor(upper: int, fromTop: bool, lower: int): int {
    64 * upper + (if fromTop then 32 else 0) + lower
  }

  lemma DescriptorBit(upper: int, fromTop: bool, lower: int)
    requires 0 <= lower < 32
    ensures Descriptor(upper, fromTop, lower) / 32 % 2 == if fromTop then 1 else 0
  {
    var b := if fromTop then 1 else 0;
    DivModUnique(Descriptor(upper, fromTop, lower), 32, 2 * upper + b, lower);
    DivModUnique(2 * upper + b, 2, upper, b);
  }

  lemma HeadParsed(head: seq<byte>, idLength: nat, width: nat, height: nat, comp: nat, fromTop: bool)
    requires Says(head, idLength, width, height, comp, fromTop)
    ensures ParseHead(head) == Head(idLength, false, true, width, height, comp, false, !fromTop)
  {
    var upper, lower :| 0 <= lower < 32 && Descriptor(upper, fromTop, lower) == head[17];
    DescriptorBit(upper, fromTop, lower);
  }

  /** The writer's header says the sizes, in 16 bits, the format, and rows from the bottom. */
  lemma HeaderSays(width: nat, height: nat, comp: nat)
    requires 1 <= comp <= 4
    ensures Says(Header(width, height, comp), 0, width % 65536, height % 65536, comp, false)
  {
    SixteenBits(width);
    SixteenBits(height);
    assert Header(width, height, comp)[17] == Descriptor(0, false, Header(width, height, comp)[17]);
  }

  lemma {:induction false} FlatIsConcat(pxs: seq<Pixel>)
    ensures Flat(pxs) == Concat(pxs)
  {
    if pxs == [] {
    } else {
      ConcatCons(pxs);
      FlatIsConcat(pxs[1..]);
    }
  }

  lemma {:induction false} SpelledIsCodes(comp: nat, ps: seq<Packet>)
    requires AllOk(comp, ps)
    ensures Spelled(comp, ps) == Codes(comp, ps)
  {
    hide Flat, Concat;
    if ps == [] {
    } else {
      assert ps[0].Ok(comp);
      if ps[0].Each? {
        FlatIsConcat(ps[0].pxs);
      }
      SpelledIsCodes(comp, ps[1..]);
    }
  }

  /** Where pixel i of row j is. */
  function Index(j: nat, w: nat, i: nat): nat {
    j * w + i
  }

  lemma RowPixel(px: seq<Pixel>, w: nat, h: nat, j: nat, i: nat)
    requires |px| == h * w && j < h && i < w
    ensures Index(j, w, i) < |px| && Grid(px, w, h)[j][i] == px[Index(j, w, i)]
  {
    hide Grid;
    RowInside(j, h, w);
    GridAt(px, w, h, j);
    assert px[j * w..j * w + w][i] == px[j * w + i];
  }

  /** The image upside down. */
  function Turned(px: seq<Pixel>, w: nat, h: nat): seq<Pixel>
    requires |px| == h * w
  {
    Concat(InOrder(Grid(px, w, h), false))
  }

  lemma TurnedAt(px: seq<Pixel>, w: nat, h: nat, j: nat, i: nat)
    requires |px| == h * w && j < h && i < w
    ensures Index(j, w, i) < |Turned(px, w, h)| == |px| && Index(h - 1 - j, w, i) < |px|
    ensures Turned(px, w, h)[Index(j, w, i)] == px[Index(h - 1 - j, w, i)]
  {
    hide Grid, Concat, Index;
    var g := InOrder(Grid(px, w, h), false);
    GridConcat(g, w);
    RowPixel(Turned(px, w, h), w, h, j, i);
    RowPixel(px, w, h, h - 1 - j, i);
  }

  lemma TurnedSize(px: seq<Pixel>, w: nat, h: nat)
    requires |px| == h * w
    ensures |Turned(px, w, h)| == |px|
  {
    hide Grid, Concat;
    GridConcat(InOrder(Grid(px, w, h), false), w);
  }

  lemma UprightIs(px: seq<Pixel>, w: nat, h: nat, inverted: bool)
    requires |px| == w * h
    ensures Upright(px, w, h, inverted) == StoredRow(if inverted then Turned(px, w, h) else px)
    ensures |Upright(px, w, h, inverted)| == |px|
  {
    hide Grid, Concat;
    TurnedSize(px, w, h);
  }

  /** Pixel i of row j, upright or as stored. */
  lemma UprightAt(px: seq<Pixel>, w: nat, h: nat, inverted: bool, j: nat, i: nat)
    requires |px| == w * h && j < h && i < w
    ensures Index(j, w, i) < |Upright(px, w, h, inverted)| && Index(if inverted then h - 1 - j else j, w, i) < |px|
    ensures Upright(px, w, h, inverted)[Index(j, w, i)] == Stored(px[Index(if inverted then h - 1 - j else j, w, i)])
  {
    hide Turned, Upright, Stored, StoredRow, Index;
    UprightIs(px, w, h, inverted);
    var t, k := if inverted then Turned(px, w, h) else px, Index(j, w, i);
    TurnedAt(px, w, h, j, i);
    assert StoredRow(t)[k] == Stored(t[k]);
  }

  lemma SaysSize(head: seq<byte>, idLength: nat, width: nat, height: nat, comp: nat, fromTop: bool)
    requires Says(head, idLength, width, height, comp, fromTop)
    ensures |head| == 18 && 1 <= comp <= 4
  {
  }

  lemma StoredColours(px: Pixel)
    requires |px| <= 4
    ensures Stored(px) == Colours(px)
  {
  }

  lemma {:induction false} ExpandSized(comp: nat, ps: seq<Packet>)
    requires AllOk(comp, ps)
    ensures forall k :: 0 <= k < |Expand(ps)| ==> |Expand(ps)[k]| == comp
  {
    if ps == [] {
    } else {
      assert ps[0].Ok(comp);
      ExpandSized(comp, ps[1..]);
    }
  }

  /** Pixel i of row j is pixel i of row j of the file, from its top or from its bottom. */
  ghost predicate ShownAt(shown: seq<Pixel>, px: seq<Pixel>, w: nat, h: nat, fromTop: bool, j: nat, i: nat) {
    && j < h && Index(j, w, i) < |shown| && Index(if fromTop then j else h - 1 - j, w, i) < |px|
    && shown[Index(j, w, i)] == Colours(px[Index(if fromTop then j else h - 1 - j, w, i)])
  }

  /** Any file of that form is shown with its rows in place, whatever its identifier and its packets are. */
  lemma FileShown(head: seq<byte>, id: seq<byte>, width: nat, height: nat, comp: nat, fromTop: bool, ps: seq<Packet>,
                  rest: seq<byte>)
    requires Says(head, |id|, width, height, comp, fromTop) && width * height * comp <= INT_MAX
    requires AllOk(comp, ps) && |Expand(ps)| == width * height
    ensures var input := head + id + Spelled(comp, ps) + rest;
      var r := Shown(input, ParseHead(Bytes(input, 0, 18)), After(input, 0, 18));
      && r.Image? && r.width == width && r.height == height && r.comp == comp && |r.px| == width * height
      && forall j: nat, i: nat :: j < height && i < width ==>
           ShownAt(r.px, Expand(ps), width, height, fromTop, j, i)
  {
    hide Expand, Codes, Spelled, Unpacked, Upright, Concat, Says, ParseHead, Bytes, After, AllOk, Stored, Colours;
    var input, px := head + id + Spelled(comp, ps) + rest, Expand(ps);
    HeadParsed(head, |id|, width, height, comp, fromTop);
    SaysSize(head, |id|, width, height, comp, fromTop);
    SpelledIsCodes(comp, ps);
    BytesInside(input, 0, 18);
    assert input[0..0 + 18] == head;
    assert input == (head + id) + Codes(comp, ps) + rest;
    PacketsRead(head + id, comp, ps, rest);
    ExpandSized(comp, ps);
    UprightIs(px, width, height, !fromTop);
    var shown := Upright(px, width, height, !fromTop);
    forall j: nat, i: nat | j < height && i < width
      ensures ShownAt(shown, px, width, height, fromTop, j, i)
    {
      UprightAt(px, width, height, !fromTop, j, i);
      StoredColours(px[Index(if fromTop then j else height - 1 - j, width, i)]);
    }
  }
}
