/** The PNG reader from inflated data to pixels, for eight bits a sample: rows are unfiltered in a
    two-line buffer and copied out, with an alpha channel added on request. */
module PngRead {
  import opened Bits
  import opened PngFilter

  const F_NONE: nat := 0
  const F_SUB: nat := 1
  const F_UP: nat := 2
  const F_AVG: nat := 3
  const F_PAETH: nat := 4
  const F_AVG_FIRST: nat := 5

  /** Filters for the first row, which have no row above to look at. */
  const FIRST_ROW_FILTER: seq<nat> := [F_NONE, F_SUB, F_NONE, F_AVG_FIRST, F_SUB]

  /** The filter as it is carried out. */
  function Kind(filter: FilterNo, first: bool): nat {
    if first then FIRST_ROW_FILTER[filter] else filter
  }

  ghost predicate PriorOk(prior: seq<byte>, first: bool) {
    first ==> forall i :: 0 <= i < |prior| ==> prior[i] == 0
  }

  /** Byte k of the line being restored at cur in buf. */
  method UnfilterByte(filter: FilterNo, first: bool, n: nat, b: byte, buf: array<byte>, cur: nat, prior: nat, k: nat,
                      ghost above: seq<byte>)
    returns (r: byte)
    requires k < |above| && cur + |above| <= buf.Length && prior + |above| <= buf.Length && n > 0
    requires !first ==> above == buf[prior..prior + |above|]
    requires PriorOk(above, first)
    ensures r == (b + Predict(filter, if k < n then 0 else buf[cur + k - n], above[k], Left(above, n, k))) % 256
  {
    var kind := Kind(filter, first);
    PaethHead(if first then 0 else buf[prior + k]);
    if k < n {
      if kind == F_UP || kind == F_PAETH {
        r := (b as int + buf[prior + k]) % 256;
      } else if kind == F_AVG {
        r := (b as int + buf[prior + k] / 2) % 256;
      } else {
        r := b;
      }
    } else {
      if kind == F_NONE {
        r := b;
      } else if kind == F_SUB {
        r := (b as int + buf[cur + k - n]) % 256;
      } else if kind == F_UP {
        r := (b as int + buf[prior + k]) % 256;
      } else if kind == F_AVG {
        r := (b as int + (buf[prior + k] as int + buf[cur + k - n]) / 2) % 256;
      } else if kind == F_PAETH {
        PaethsAgree(buf[cur + k - n], buf[prior + k], buf[prior + k - n]);
        r := (b as int + ReaderPaeth(buf[cur + k - n], buf[prior + k], buf[prior + k - n])) % 256;
      } else {
        r := (b as int + buf[cur + k - n] / 2) % 256;
      }
    }
  }

  /** With nothing to the left Paeth predicts the byte above. */
  lemma PaethHead(b: byte)
    ensures Paeth(0, b, 0) == b as int
  {
  }

  /** The first k bytes are restored. */
  ghost predicate RestoredTo(filter: nat, n: nat, raw: seq<byte>, above: seq<byte>, line: seq<byte>, k: nat) {
    && |raw| == |above| == |line| && k <= |raw|
    && forall i :: 0 <= i < k ==> RestoredAt(filter, n, raw, above, line, i)
  }

  lemma RestoredMore(filter: nat, n: nat, raw: seq<byte>, above: seq<byte>, line: seq<byte>, k: nat, r: byte)
    requires RestoredTo(filter, n, raw, above, line, k) && k < |raw| && n > 0
    requires r == (raw[k] + Predict(filter, if k < n then 0 else line[k - n], above[k], Left(above, n, k))) % 256
    ensures RestoredTo(filter, n, raw, above, line[k := r], k + 1)
  {
    hide Predict;
    var next := line[k := r];
    forall i | 0 <= i < k + 1
      ensures RestoredAt(filter, n, raw, above, next, i)
    {
      assert i < k ==> RestoredAt(filter, n, raw, above, line, i);
    }
  }

  /** Restores a line. */
  method UnfilterLine(raw: seq<byte>, filter: FilterNo, first: bool, n: nat, buf: array<byte>, cur: nat, prior: nat,
                      ghost above: seq<byte>)
    requires |above| == |raw| && 0 < n <= |raw| && PriorOk(above, first)
    requires cur + |raw| <= buf.Length && prior + |raw| <= buf.Length && (cur + |raw| <= prior || prior + |raw| <= cur)
    requires !first ==> above == buf[prior..prior + |raw|]
    modifies buf
    ensures Restored(filter, n, raw, above, buf[cur..cur + |raw|])
  {
    hide Predict, RestoredAt, PriorOk;
    for k := 0 to |raw|
      invariant !first ==> above == buf[prior..prior + |raw|]
      invariant RestoredTo(filter, n, raw, above, buf[cur..cur + |raw|], k)
    {
      ghost var line := buf[cur..cur + |raw|];
      var r := UnfilterByte(filter, first, n, raw[k], buf, cur, prior, k, above);
      buf[cur + k] := r;
      assert buf[cur..cur + |raw|] == line[k := r];
      RestoredMore(filter, n, raw, above, line, k, r);
    }
  }

  // ----- the image

  datatype PngStatus = Ok | TooLarge | NotEnoughPixels | InvalidFilter

  /** Where the j-th of many pieces of the same size begins. */
  function Piece(j: nat, size: nat): nat {
    j * size
  }

  function RowStart(len: nat, j: nat): nat {
    Piece(j, len + 1)
  }

  function Above(lines: seq<seq<byte>>, len: nat, j: nat): seq<byte>
    requires j <= |lines|
  {
    if j == 0 then Zeros(len) else lines[j - 1]
  }

  /** Row j of the data, a filter number and len bytes, stands for line j. */
  ghost predicate LineAt(raw: seq<byte>, n: nat, len: nat, lines: seq<seq<byte>>, j: nat)
    requires j < |lines|
  {
    var o := RowStart(len, j);
    && o + 1 + len <= |raw| && |lines[j]| == len && raw[o] < 5
    && Restored(raw[o], n, raw[o + 1..o + 1 + len], Above(lines, len, j), lines[j])
  }

  ghost predicate LinesAt(raw: seq<byte>, n: nat, len: nat, lines: seq<seq<byte>>) {
    forall j :: 0 <= j < |lines| ==> LineAt(raw, n, len, lines, j)
  }

  /** The pixels of a line, each with an opaque alpha value behind it. */
  ghost predicate HasAlpha(line: seq<byte>, n: nat, x: nat, r: seq<byte>) {
    if n == 1 then
      |line| == x && |r| == 2 * x && forall i :: 0 <= i < x ==> r[2 * i] == line[i] && r[2 * i + 1] == 255
    else
      && n == 3 && |line| == 3 * x && |r| == 4 * x
      && (forall i :: 0 <= i < x ==> r[4 * i] == line[3 * i] && r[4 * i + 1] == line[3 * i + 1])
      && (forall i :: 0 <= i < x ==> r[4 * i + 2] == line[3 * i + 2] && r[4 * i + 3] == 255)
  }

  ghost predicate Shown(line: seq<byte>, n: nat, outN: nat, x: nat, r: seq<byte>) {
    if n == outN then r == line else HasAlpha(line, n, x, r)
  }

  /** Adds the alpha channel, from the last pixel to the first. */
  method AlphaExpand8(dest: array<byte>, d: nat, src: array<byte>, s: nat, x: nat, n: nat)
    requires n in {1, 3} && dest != src && d + x * (n + 1) <= dest.Length && s + x * n <= src.Length
    modifies dest
    ensures HasAlpha(src[s..s + x * n], n, x, dest[d..d + x * (n + 1)])
    ensures dest[..d] == old(dest[..d])
  {
    hide HasAlpha;
    if n == 1 {
      assert x * (n + 1) == 2 * x && x * n == x;
      GreyAlpha(dest, d, src, s, x);
    } else {
      assert x * (n + 1) == 4 * x && x * n == 3 * x;
      ColorAlpha(dest, d, src, s, x);
    }
  }

  method GreyAlpha(dest: array<byte>, d: nat, src: array<byte>, s: nat, x: nat)
    requires dest != src && d + 2 * x <= dest.Length && s + x <= src.Length
    modifies dest
    ensures HasAlpha(src[s..s + x], 1, x, dest[d..d + 2 * x])
    ensures dest[..d] == old(dest[..d])
  {
    var i := x;
    while i > 0
      invariant 0 <= i <= x && dest[..d] == old(dest[..d])
      invariant forall p :: i <= p < x ==> dest[d + 2 * p] == src[s + p] && dest[d + 2 * p + 1] == 255
    {
      i := i - 1;
      dest[d + 2 * i + 1] := 255;
      dest[d + 2 * i] := src[s + i];
    }
  }

  /** One pixel with an opaque alpha value behind it. */
  method ExpandPixel(dest: array<byte>, d: nat, src: array<byte>, s: nat)
    requires dest != src && d + 4 <= dest.Length && s + 3 <= src.Length
    modifies dest
    ensures dest[d] == src[s] && dest[d + 1] == src[s + 1] && dest[d + 2] == src[s + 2] && dest[d + 3] == 255
    ensures forall i :: 0 <= i < dest.Length && (i < d || d + 4 <= i) ==> dest[i] == old(dest[i])
  {
    dest[d + 3] := 255;
    dest[d + 2] := src[s + 2];
    dest[d + 1] := src[s + 1];
    dest[d] := src[s];
  }

  lemma ColorShown(line: seq<byte>, r: seq<byte>, x: nat)
    requires |line| == 3 * x && |r| == 4 * x
    requires forall i :: 0 <= i < x ==> r[4 * i] == line[3 * i] && r[4 * i + 1] == line[3 * i + 1]
    requires forall i :: 0 <= i < x ==> r[4 * i + 2] == line[3 * i + 2] && r[4 * i + 3] == 255
    ensures HasAlpha(line, 3, x, r)
  {
  }

  method ColorAlpha(dest: array<byte>, d: nat, src: array<byte>, s: nat, x: nat)
    requires dest != src && d + 4 * x <= dest.Length && s + 3 * x <= src.Length
    modifies dest
    ensures HasAlpha(src[s..s + 3 * x], 3, x, dest[d..d + 4 * x])
    ensures dest[..d] == old(dest[..d])
  {
    hide HasAlpha;
    var i := x;
    while i > 0
      invariant 0 <= i <= x && dest[..d] == old(dest[..d])
      invariant forall p :: i <= p < x ==>
        dest[d + 4 * p] == src[s + 3 * p] && dest[d + 4 * p + 1] == src[s + 3 * p + 1]
      invariant forall p :: i <= p < x ==>
        dest[d + 4 * p + 2] == src[s + 3 * p + 2] && dest[d + 4 * p + 3] == 255
    {
      i := i - 1;
      ExpandPixel(dest, d + 4 * i, src, s + 3 * i);
    }
    ColorShown(src[s..s + 3 * x], dest[d..d + 4 * x], x);
  }

  /** Copies a restored line to the output. */
  method ShowLine(dest: array<byte>, d: nat, src: array<byte>, s: nat, x: nat, n: nat, outN: nat)
    requires (outN == n || (outN == n + 1 && n in {1, 3})) && dest != src
    requires d + x * outN <= dest.Length && s + x * n <= src.Length
    modifies dest
    ensures Shown(src[s..s + x * n], n, outN, x, dest[d..d + x * outN])
    ensures dest[..d] == old(dest[..d])
  {
    hide HasAlpha;
    if n == outN {
      forall i | 0 <= i < x * n {
        dest[d + i] := src[s + i];
      }
    } else {
      AlphaExpand8(dest, d, src, s, x, n);
    }
  }

  ghost predicate RowShown(out: seq<byte>, lines: seq<seq<byte>>, n: nat, outN: nat, x: nat, j: nat)
    requires j < |lines|
  {
    var d, size := Piece(j, x * outN), x * outN;
    d + size <= |out| && Shown(lines[j], n, outN, x, out[d..d + size])
  }

  ghost predicate AllShown(out: seq<byte>, lines: seq<seq<byte>>, n: nat, outN: nat, x: nat) {
    forall j :: 0 <= j < |lines| ==> RowShown(out, lines, n, outN, x, j)
  }

  lemma NextPiece(j: nat, size: nat)
    ensures Piece(j + 1, size) == Piece(j, size) + size
  {
  }

  lemma {:induction false} PieceInside(j: nat, y: nat, size: nat)
    ensures j < y ==> Piece(j, size) + size <= Piece(y, size)
    decreases y
  {
    hide Piece;
    if j >= y {
    } else {
      NextPiece(y - 1, size);
      PieceInside(j, y - 1, size);
    }
  }

  lemma SameSlice(s: seq<byte>, t: seq<byte>, d: nat, lo: nat, hi: nat)
    requires lo <= hi <= d <= |s| && d <= |t| && s[..d] == t[..d]
    ensures s[lo..hi] == t[lo..hi]
  {
    assert s[lo..hi] == s[..d][lo..hi];
    assert t[lo..hi] == t[..d][lo..hi];
  }

  lemma MoreLines(raw: seq<byte>, n: nat, len: nat, lines: seq<seq<byte>>, line: seq<byte>)
    requires LinesAt(raw, n, len, lines) && RowStart(len, |lines|) + 1 + len <= |raw| && |line| == len
    requires var o := RowStart(len, |lines|);
      raw[o] < 5 && Restored(raw[o], n, raw[o + 1..o + 1 + len], Above(lines, len, |lines|), line)
    ensures LinesAt(raw, n, len, lines + [line])
  {
    hide Restored, RowStart;
    forall j | 0 <= j < |lines| + 1
      ensures LineAt(raw, n, len, lines + [line], j)
    {
      if j < |lines| {
        assert LineAt(raw, n, len, lines, j);
      }
    }
  }

  lemma MoreShown(before: seq<byte>, out: seq<byte>, lines: seq<seq<byte>>, line: seq<byte>, n: nat, outN: nat, x: nat)
    requires AllShown(before, lines, n, outN, x)
    requires var size, d := x * outN, Piece(|lines|, x * outN);
      && d + size <= |out| == |before| && before[..d] == out[..d]
      && Shown(line, n, outN, x, out[d..d + size])
    ensures AllShown(out, lines + [line], n, outN, x)
  {
    hide Shown, Piece;
    var size := x * outN;
    var d := Piece(|lines|, size);
    forall j | 0 <= j < |lines| + 1
      ensures RowShown(out, lines + [line], n, outN, x, j)
    {
      if j < |lines| {
        var e := Piece(j, size);
        PieceInside(j, |lines|, size);
        assert RowShown(before, lines, n, outN, x, j);
        SameSlice(before, out, d, e, e + size);
      }
    }
  }

  /** The current and the previous line take turns in the two halves of the filter buffer. */
  function Half(j: nat, len: nat): nat {
    if j % 2 == 0 then 0 else len
  }

  lemma Halves(j: nat, len: nat)
    ensures Half(j, len) + len == Half(j + 1, len) || Half(j + 1, len) + len == Half(j, len)
    ensures Half(j, len) <= len && Half(j + 1, len) <= len && Half(j + 2, len) == Half(j, len)
  {
  }

  /** Undoes the filters of all rows. */
  method CreatePngImageRaw(raw: seq<byte>, n: nat, outN: nat, x: nat, y: nat)
    returns (st: PngStatus, out: array<byte>, ghost lines: seq<seq<byte>>)
    requires x > 0 && 1 <= n <= 4 && (outN == n || (outN == n + 1 && n in {1, 3}))
    ensures fresh(out) && LinesAt(raw, n, x * n, lines) && |lines| <= y
    ensures st == Ok <==> Sound(raw, n, outN, x, y)
    ensures st == TooLarge <==> !SizesOk(n, outN, x, y)
    ensures st == Ok ==> |lines| == y && out.Length == Piece(y, x * outN) && AllShown(out[..], lines, n, outN, x)
    ensures st == NotEnoughPixels ==> |raw| < RowStart(x * n, y)
    ensures st == InvalidFilter ==> |lines| < y && RowStart(x * n, |lines|) < |raw| && raw[RowStart(x * n, |lines|)] > 4
  {
    hide RowsDone, LinesAt, AllShown, Piece, SizesOk, Sound;
    Unsound(raw, n, outN, x, y);
    lines := [];
    out := new byte[0];
    Nothing(raw, n, outN, x);
    if !SizesOk(n, outN, x, y) {
      return TooLarge, out, lines;
    }
    var len, stride := x * n, x * outN;
    if |raw| < Piece(y, len + 1) {
      return NotEnoughPixels, out, lines;
    }
    LineNotEmpty(x, n);
    out := new byte[Piece(y, stride)](_ => 0);
    var filterBuf := new byte[2 * len](_ => 0);
    NoRows(raw, n, outN, x, out[..], filterBuf[..]);
    for j := 0 to y
      invariant |lines| == j && RowsDone(raw, n, outN, x, lines, out[..], filterBuf[..])
    {
      RowsShown(raw, n, outN, x, lines, out[..], filterBuf[..]);
      PieceInside(j, y, len + 1);
      PieceInside(j, y, stride);
      var o := Piece(j, len + 1);
      if raw[o] > 4 {
        assert RowStart(len, j) == o;
        return InvalidFilter, out, lines;
      }
      ghost var line := CreateRow(raw, n, outN, x, j, out, filterBuf, lines);
      lines := lines + [line];
    }
    RowsShown(raw, n, outN, x, lines, out[..], filterBuf[..]);
    AllSound(raw, n, outN, x, y, lines);
    st := Ok;
  }

  /** The lines so far have been restored and shown, and the last one is in its half of the buffer. */
  ghost predicate RowsDone(raw: seq<byte>, n: nat, outN: nat, x: nat, lines: seq<seq<byte>>, out: seq<byte>,
                           buf: seq<byte>)
  {
    var j, len := |lines|, x * n;
    && LinesAt(raw, n, len, lines) && AllShown(out, lines, n, outN, x) && |buf| == 2 * len
    && (j > 0 ==> |lines[j - 1]| == len && Half(j + 1, len) <= len)
    && (j > 0 ==> lines[j - 1] == buf[Half(j + 1, len)..Half(j + 1, len) + len])
  }

  lemma NoRows(raw: seq<byte>, n: nat, outN: nat, x: nat, out: seq<byte>, buf: seq<byte>)
    requires |buf| == 2 * (x * n)
    ensures RowsDone(raw, n, outN, x, [], out, buf)
  {
  }

  lemma RowsShown(raw: seq<byte>, n: nat, outN: nat, x: nat, lines: seq<seq<byte>>, out: seq<byte>, buf: seq<byte>)
    requires RowsDone(raw, n, outN, x, lines, out, buf)
    ensures LinesAt(raw, n, x * n, lines) && AllShown(out, lines, n, outN, x)
  {
  }

  /** Undoes the filter of one row. */
  method CreateRow(raw: seq<byte>, n: nat, outN: nat, x: nat, j: nat, out: array<byte>, filterBuf: array<byte>,
                   ghost lines: seq<seq<byte>>)
    returns (ghost line: seq<byte>)
    requires x > 0 && 1 <= n <= 4 && (outN == n || (outN == n + 1 && n in {1, 3})) && out != filterBuf
    requires j == |lines| && RowsDone(raw, n, outN, x, lines, out[..], filterBuf[..])
    requires Piece(j, x * n + 1) + 1 + x * n <= |raw| && raw[Piece(j, x * n + 1)] <= 4
    requires Piece(j, x * outN) + x * outN <= out.Length && 0 < n <= x * n
    modifies out, filterBuf
    ensures RowsDone(raw, n, outN, x, lines + [line], out[..], filterBuf[..])
  {
    hide Restored, LinesAt, LineAt, Shown, AllShown, Piece, Half, RowsDone, Above;
    var len, stride := x * n, x * outN;
    LineAbove(raw, n, outN, x, lines, out[..], filterBuf[..]);
    var cur, prior := Half(j, len), Half(j + 1, len);
    Halves(j, len);
    var o := Piece(j, len + 1);
    UnfilterLine(raw[o + 1..o + 1 + len], raw[o], j == 0, n, filterBuf, cur, prior, Above(lines, len, j));
    ghost var before := out[..];
    line := filterBuf[cur..cur + len];
    MoreLines(raw, n, len, lines, line);
    ShowLine(out, Piece(j, stride), filterBuf, cur, x, n, outN);
    MoreShown(before, out[..], lines, line, n, outN, x);
    OneMoreRow(raw, n, outN, x, lines, line, out[..], filterBuf[..]);
  }

  lemma LineAbove(raw: seq<byte>, n: nat, outN: nat, x: nat, lines: seq<seq<byte>>, out: seq<byte>, buf: seq<byte>)
    requires RowsDone(raw, n, outN, x, lines, out, buf)
    ensures var j, len := |lines|, x * n;
      && LinesAt(raw, n, len, lines) && AllShown(out, lines, n, outN, x) && |buf| == 2 * len
      && |Above(lines, len, j)| == len && PriorOk(Above(lines, len, j), j == 0)
      && Half(j, len) <= len && Half(j + 1, len) <= len
      && (j > 0 ==> Above(lines, len, j) == buf[Half(j + 1, len)..Half(j + 1, len) + len])
  {
    hide LinesAt, AllShown;
    Halves(|lines|, x * n);
  }

  lemma OneMoreRow(raw: seq<byte>, n: nat, outN: nat, x: nat, lines: seq<seq<byte>>, line: seq<byte>, out: seq<byte>,
                   buf: seq<byte>)
    requires var j, len := |lines|, x * n;
      && LinesAt(raw, n, len, lines + [line]) && AllShown(out, lines + [line], n, outN, x) && |buf| == 2 * len
      && Half(j, len) <= len && line == buf[Half(j, len)..Half(j, len) + len]
    ensures RowsDone(raw, n, outN, x, lines + [line], out, buf)
  {
    hide LinesAt, AllShown;
    Halves(|lines|, x * n);
  }

  /** The sizes the reader computes do not overflow. */
  predicate SizesOk(n: nat, outN: nat, x: nat, y: nat) {
    x * outN * y <= INT_MAX && n * x * 8 + 7 <= INT_MAX && x * n * y + x * n <= INT_MAX
  }

  /** Data that can be decoded: long enough, with good filter numbers, of manageable size. */
  ghost predicate Sound(raw: seq<byte>, n: nat, outN: nat, x: nat, y: nat) {
    && SizesOk(n, outN, x, y) && RowStart(x * n, y) <= |raw|
    && forall j: nat :: j < y && RowStart(x * n, j) < |raw| ==> raw[RowStart(x * n, j)] <= 4
  }

  lemma Unsound(raw: seq<byte>, n: nat, outN: nat, x: nat, y: nat)
    ensures !SizesOk(n, outN, x, y) ==> !Sound(raw, n, outN, x, y)
    ensures |raw| < RowStart(x * n, y) ==> !Sound(raw, n, outN, x, y)
    ensures forall j: nat :: j < y && RowStart(x * n, j) < |raw| && raw[RowStart(x * n, j)] > 4 ==>
      !Sound(raw, n, outN, x, y)
  {
  }

  lemma AllSound(raw: seq<byte>, n: nat, outN: nat, x: nat, y: nat, lines: seq<seq<byte>>)
    requires SizesOk(n, outN, x, y) && RowStart(x * n, y) <= |raw| && |lines| == y && LinesAt(raw, n, x * n, lines)
    ensures Sound(raw, n, outN, x, y)
  {
    hide Piece, Restored;
    forall j: nat | j < y
      ensures RowStart(x * n, j) < |raw| && raw[RowStart(x * n, j)] <= 4
    {
      assert LineAt(raw, n, x * n, lines, j);
    }
  }

  lemma LineNotEmpty(x: nat, n: nat)
    requires x > 0
    ensures n <= x * n
  {
    assert (x - 1) * n >= 0;
  }

  lemma Nothing(raw: seq<byte>, n: nat, outN: nat, x: nat)
    ensures LinesAt(raw, n, x * n, [])
    ensures forall out: seq<byte> :: AllShown(out, [], n, outN, x)
  {
  }
}
