/** Writer and reader of PNG pixel data together: filters, compression, decompression, unfiltering. */
module PngRoundTrip {
  import opened Bits
  import opened PngFilter
  import opened PngWrite
  import opened PngRead
  import ImageRows
  import Inflate
  import InflateTheorems
  import ZlibCompress

  lemma {:induction false} RowInRows(im: Image, filters: seq<FilterNo>, y: nat, j: nat)
    requires im.Ok() && j < y <= |filters| <= im.height
    ensures var o := RowStart(im.Len(), j);
      o + 1 + im.Len() <= |Rows(im, filters, y)|
      && Rows(im, filters, y)[o..o + 1 + im.Len()] == Row(im, filters[j], j)
    decreases y
  {
    hide Row, Rows, Piece;
    var o, n := RowStart(im.Len(), j), im.Len() + 1;
    RowsMore(im, filters, y);
    var init, last := Rows(im, filters, y - 1), Row(im, filters[y - 1], y - 1);
    if j >= y - 1 {
      ImageRows.SliceRight(init, last, o, n);
    } else {
      RowInRows(im, filters, y - 1, j);
      ImageRows.SliceLeft(init, last, o, o + n);
    }
  }

  lemma RowsMore(im: Image, filters: seq<FilterNo>, y: nat)
    requires im.Ok() && 0 < y <= |filters| <= im.height
    ensures Rows(im, filters, y) == Rows(im, filters, y - 1) + Row(im, filters[y - 1], y - 1)
    ensures |Rows(im, filters, y - 1)| == Piece(y - 1, im.Len() + 1) && |Row(im, filters[y - 1], y - 1)| == im.Len() + 1
  {
    hide Row;
    RowsSize(im, filters, y - 1);
  }

  /** The lines read are the lines written. */
  lemma {:induction false} LinesAreRows(im: Image, filters: seq<FilterNo>, lines: seq<seq<byte>>, j: nat)
    requires im.Ok() && |filters| == im.height && j < |lines| <= im.height
    requires LinesAt(Rows(im, filters, im.height), im.n, im.Len(), lines)
    ensures lines[j] == im.Line(j)
  {
    hide Rows;
    var raw, len, o := Rows(im, filters, im.height), im.Len(), RowStart(im.Len(), j);
    assert LineAt(raw, im.n, len, lines, j);
    RowInRows(im, filters, im.height, j);
    assert raw[o] == Row(im, filters[j], j)[0] == filters[j] by {
      assert raw[o..o + 1 + len][0] == raw[o];
    }
    var f := Filtered(filters[j], im.n, im.Line(j), im.Prior(j));
    assert raw[o + 1..o + 1 + len] == raw[o..o + 1 + len][1..] == f;
    if j == 0 {
    } else {
      LinesAreRows(im, filters, lines, j - 1);
    }
    FilterRoundTrip(filters[j], im.n, im.Line(j), im.Prior(j));
    RestoredOnce(filters[j], im.n, f, im.Prior(j), im.Line(j), lines[j], len);
    assert im.Line(j)[..len] == im.Line(j) && lines[j][..len] == lines[j];
  }

  /** The rows filtered by the writer are always readable. */
  lemma NoBadFilter(im: Image, filters: seq<FilterNo>, j: nat)
    requires im.Ok() && |filters| == im.height && j < im.height
    ensures RowStart(im.Len(), j) < |Rows(im, filters, im.height)|
    ensures Rows(im, filters, im.height)[RowStart(im.Len(), j)] < 5
  {
    var raw, o := Rows(im, filters, im.height), RowStart(im.Len(), j);
    RowInRows(im, filters, im.height, j);
    assert raw[o..o + 1 + im.Len()][0] == raw[o];
  }

  /** Filters and compresses an image. */
  method WritePngData(im: Image, forceFilter: int, quality: int) returns (zlib: seq<byte>, ghost filters: seq<FilterNo>)
    requires im.Ok() && im.height * (im.Len() + 1) <= INT_MAX
    ensures |filters| == im.height && AllChosen(im, forceFilter, filters)
    ensures im.height > 0 ==> ZlibCompress.Represents(zlib, Rows(im, filters, im.height))
  {
    var filt;
    filt, filters := FilterImage(im, forceFilter);
    RowsSize(im, filters, im.height);
    ghost var fixed;
    zlib, fixed := ZlibCompress.Compress(filt[..], quality);
    if im.height > 0 {
      Piled(im.height, im.Len());
    }
  }

  lemma Piled(h: nat, len: nat)
    requires h > 0
    ensures h * (len + 1) > 0
  {
  }

  datatype Loaded = Loaded(inflated: Inflate.Status, png: PngStatus)

  /** The size the reader expects of the inflated data. */
  function ExpectedSize(n: nat, x: nat, y: nat): nat {
    x * y * n + y
  }

  predicate Channels(n: nat, outN: nat) {
    1 <= n <= 4 && (outN == n || (outN == n + 1 && n in {1, 3}))
  }

  /** What the reader makes of raw data. */
  ghost predicate Unfiltered(png: PngStatus, raw: seq<byte>, lines: seq<seq<byte>>, out: seq<byte>, n: nat, outN: nat,
                             x: nat, y: nat)
  {
    && LinesAt(raw, n, x * n, lines) && |lines| <= y
    && match png
       case TooLarge => !SizesOk(n, outN, x, y)
       case NotEnoughPixels => |raw| < RowStart(x * n, y)
       case InvalidFilter =>
         var o := RowStart(x * n, |lines|); |lines| < y && o < |raw| && raw[o] > 4
       case Ok => |lines| == y && |out| == Piece(y, x * outN) && AllShown(out, lines, n, outN, x)
  }

  /** Inflates pixel data, starting with a buffer of the size expected, and undoes the filters. */
  method ReadPngData(zlib: seq<byte>, n: nat, outN: nat, x: nat, y: nat)
    returns (st: Loaded, out: array<byte>, ghost raw: seq<byte>, ghost lines: seq<seq<byte>>)
    requires x > 0 && Channels(n, outN) && 0 < ExpectedSize(n, x, y) <= Inflate.UINT_MAX
    ensures fresh(out)
    ensures forall data :: ZlibCompress.Represents(zlib, data) && |data| <= INT_MAX ==>
      st.inflated == Inflate.Ok && raw == data
    ensures st.inflated == Inflate.Ok ==> Unfiltered(st.png, raw, lines, out[..], n, outN, x, y)
  {
    hide ExpectedSize, LinesAt, AllShown, Piece, RowStart, SizesOk, ZlibCompress.Represents;
    var inflated, data := InflateTheorems.ZlibDecode(zlib, ExpectedSize(n, x, y));
    raw, lines := data, [];
    forall d | ZlibCompress.Represents(zlib, d) && |d| <= INT_MAX
      ensures inflated == Inflate.Ok && data == d
    {
      ZlibCompress.Readable(zlib, d);
    }
    if inflated != Inflate.Ok {
      out := new byte[0];
      return Loaded(inflated, PngRead.Ok), out, raw, lines;
    }
    var png;
    png, out, lines := CreatePngImageRaw(data, n, outN, x, y);
    st := Loaded(inflated, png);
  }

  function Lines(im: Image): (ls: seq<seq<byte>>)
    requires im.Ok()
    ensures |ls| == im.height && forall j :: 0 <= j < im.height ==> ls[j] == im.Line(j)
  {
    seq<seq<byte>>(im.height, j requires 0 <= j < im.height => im.Line(j))
  }

  /** Sizes for which neither side overflows. */
  predicate Manageable(im: Image, outN: nat) {
    im.height > 0 && im.height * (im.Len() + 1) <= INT_MAX && SizesOk(im.n, outN, im.width, im.height)
  }

  lemma DataSize(im: Image, outN: nat)
    requires Manageable(im, outN)
    ensures 0 < ExpectedSize(im.n, im.width, im.height) <= INT_MAX
  {
    assert im.width * im.height * im.n == im.height * im.Len();
  }

  /** Data made of filtered rows passes all checks. */
  lemma AllRead(im: Image, filters: seq<FilterNo>, outN: nat, png: PngStatus, lines: seq<seq<byte>>, out: seq<byte>)
    requires im.Ok() && |filters| == im.height && Manageable(im, outN)
    requires Unfiltered(png, Rows(im, filters, im.height), lines, out, im.n, outN, im.width, im.height)
    ensures png == PngRead.Ok && lines == Lines(im)
  {
    hide SizesOk, AllShown, Rows, LinesAt;
    RowsSize(im, filters, im.height);
    if png == InvalidFilter {
      NoBadFilter(im, filters, |lines|);
      assert false;
    }
    forall j | 0 <= j < |lines|
      ensures lines[j] == im.Line(j)
    {
      LinesAreRows(im, filters, lines, j);
    }
  }

  /** Whatever the filters, the quality, the stride and the flip, reading gives the rows in written
      order, with an opaque alpha channel if one was asked for. */
  method RoundTrip(im: Image, forceFilter: int, quality: int, outN: nat) returns (st: Loaded, out: array<byte>)
    requires im.Ok() && Channels(im.n, outN) && Manageable(im, outN)
    ensures st == Loaded(Inflate.Ok, PngRead.Ok) && out.Length == Piece(im.height, im.width * outN)
    ensures AllShown(out[..], Lines(im), im.n, outN, im.width)
  {
    hide ExpectedSize, LinesAt, AllShown, Piece, RowStart, SizesOk, ZlibCompress.Represents, Rows, AllChosen, Lines;
    RowsFit(im, outN);
    var zlib;
    ghost var filters, lines, raw;
    zlib, filters := WritePngData(im, forceFilter, quality);
    DataSize(im, outN);
    st, out, raw, lines := ReadPngData(zlib, im.n, outN, im.width, im.height);
    RowsLength(im, filters);
    AllRead(im, filters, outN, st.png, lines, out[..]);
  }

  lemma RowsFit(im: Image, outN: nat)
    requires Manageable(im, outN)
    ensures im.height > 0 && im.height * (im.Len() + 1) <= INT_MAX
  {
  }

  lemma RowsLength(im: Image, filters: seq<FilterNo>)
    requires im.Ok() && |filters| == im.height && im.height * (im.Len() + 1) <= INT_MAX
    ensures |Rows(im, filters, im.height)| <= INT_MAX
  {
    RowsSize(im, filters, im.height);
  }
}
