/** The PNG writer: rows are filtered, one filter each, and the filtered rows compressed. */
module PngWrite {
  import opened Bits
  import opened ImageRows
  import opened PngFilter

  /** An image in memory: row r has its `len` bytes at base + stride * r.  The stride may be longer than
      a row, or negative. */
  datatype Image = Image(pixels: seq<byte>, base: int, stride: int, width: nat, height: nat, n: nat, flip: bool) {
    function Len(): nat {
      width * n
    }

    function Offset(row: int): int {
      base + stride * row
    }

    ghost predicate Inside(row: int) {
      0 <= Offset(row) && Offset(row) + Len() <= |pixels|
    }

    ghost predicate Ok() {
      width > 0 && 1 <= n <= 4 && n <= Len() && forall r :: 0 <= r < height ==> Inside(r)
    }

    /** The row of the image written as row y. */
    function RowAt(y: nat): int {
      if flip then height - 1 - y else y
    }

    function Line(y: nat): (s: seq<byte>)
      requires Ok() && y < height
      ensures |s| == Len()
    {
      assert Inside(RowAt(y));
      pixels[Offset(RowAt(y))..Offset(RowAt(y)) + Len()]
    }

    /** The line above in written order. */
    function Prior(y: nat): (s: seq<byte>)
      requires Ok() && y < height
      ensures |s| == Len()
    {
      if y == 0 then Zeros(Len()) else Line(y - 1)
    }
  }

  /** Conversion to signed char. */
  function SignedChar(v: int): (s: int)
    ensures -128 <= s <= 127 && s % 256 == v % 256
  {
    (v + 128) % 256 - 128
  }

  function Bytes(line: seq<int>): (s: seq<byte>)
    ensures |s| == |line| && forall i :: 0 <= i < |s| ==> s[i] == line[i] % 256
  {
    seq<byte>(|line|, i requires 0 <= i < |line| => line[i] % 256)
  }

  const MAPPING: seq<nat> := [0, 1, 2, 3, 4]
  const FIRSTMAP: seq<nat> := [0, 1, 0, 5, 6]

  /** One line, filtered; the result is kept as signed chars. */
  method EncodePngLine(im: Image, y: nat, filterType: nat, lineBuffer: array<int>)
    requires im.Ok() && y < im.height && filterType < 5 && lineBuffer.Length == im.Len()
    modifies lineBuffer
    ensures Bytes(lineBuffer[..]) == Filtered(filterType, im.n, im.Line(y), im.Prior(y))
    ensures forall i :: 0 <= i < lineBuffer.Length ==> -128 <= lineBuffer[i] <= 127
  {
    hide Filtered, FilteredAt, SignedChar, Bytes;
    var kind := if y != 0 then MAPPING[filterType] else FIRSTMAP[filterType];
    var z := im.Offset(if im.flip then im.height - 1 - y else y);
    var signedStride := if im.flip then -im.stride else im.stride;
    LineOffsets(im, y);
    ghost var f := Filtered(filterType, im.n, im.Line(y), im.Prior(y));
    for i := 0 to im.n
      invariant forall k :: 0 <= k < i ==> lineBuffer[k] == SignedChar(f[k])
    {
      var d := HeadByte(im, y, filterType, kind, z, signedStride, i);
      lineBuffer[i] := SignedChar(d);
      SameChar(d, f[i]);
    }
    for i := im.n to im.Len()
      invariant forall k :: 0 <= k < i ==> lineBuffer[k] == SignedChar(f[k])
    {
      var d := TailByte(im, y, filterType, kind, z, signedStride, i);
      lineBuffer[i] := SignedChar(d);
      SameChar(d, f[i]);
    }
    forall k | 0 <= k < |f|
      ensures Bytes(lineBuffer[..])[k] == f[k] && -128 <= lineBuffer[k] <= 127
    {
      SameChar(f[k], f[k]);
    }
  }

  lemma SameChar(d: int, b: byte)
    requires d % 256 == b as int
    ensures SignedChar(d) == SignedChar(b) && SignedChar(b) % 256 == b as int
  {
  }

  /** A byte of the first pixel. */
  method HeadByte(im: Image, y: nat, filterType: nat, kind: nat, z: int, signedStride: int, i: nat) returns (d: int)
    requires im.Ok() && y < im.height && filterType < 5 && i < im.n
    requires kind == if y != 0 then MAPPING[filterType] else FIRSTMAP[filterType]
    requires z == im.Offset(im.RowAt(y)) && signedStride == if im.flip then -im.stride else im.stride
    ensures d % 256 == FilteredAt(filterType, im.n, im.Line(y), im.Prior(y), i)
  {
    LineOffsets(im, y);
    var p := im.pixels;
    d := p[z + i];
    if kind == 2 {
      d := d - p[z + i - signedStride];
    } else if kind == 3 {
      d := d - p[z + i - signedStride] / 2;
    } else if kind == 4 {
      d := d - Paeth(0, p[z + i - signedStride], 0);
    }
  }

  method TailByte(im: Image, y: nat, filterType: nat, kind: nat, z: int, signedStride: int, i: nat) returns (d: int)
    requires im.Ok() && y < im.height && filterType < 5 && im.n <= i < im.Len()
    requires kind == if y != 0 then MAPPING[filterType] else FIRSTMAP[filterType]
    requires z == im.Offset(im.RowAt(y)) && signedStride == if im.flip then -im.stride else im.stride
    ensures d % 256 == FilteredAt(filterType, im.n, im.Line(y), im.Prior(y), i)
  {
    hide Paeth, Image.Line, Image.Ok, Image.Inside;
    LineOffsets(im, y);
    var p, n := im.pixels, im.n;
    d := p[z + i];
    if kind == 1 {
      d := d - p[z + i - n];
    } else if kind == 2 {
      d := d - p[z + i - signedStride];
    } else if kind == 3 {
      d := d - (p[z + i - n] as int + p[z + i - signedStride] as int) / 2;
    } else if kind == 4 {
      d := d - Paeth(p[z + i - n], p[z + i - signedStride], p[z + i - signedStride - n]);
    } else if kind == 5 {
      d := d - p[z + i - n] / 2;
    } else if kind == 6 {
      d := d - Paeth(p[z + i - n], 0, 0);
    }
  }

  /** Where the bytes of a line and of the line above it are. */
  lemma LineOffsets(im: Image, y: nat)
    requires im.Ok() && y < im.height
    ensures var z := im.Offset(im.RowAt(y));
      && 0 <= z && z + im.Len() <= |im.pixels|
      && (forall i :: 0 <= i < im.Len() ==> im.Line(y)[i] == im.pixels[z + i])
      && (y > 0 ==>
           var u := z - if im.flip then -im.stride else im.stride;
           && 0 <= u && u + im.Len() <= |im.pixels|
           && (forall i :: 0 <= i < im.Len() ==> im.Prior(y)[i] == im.pixels[u + i]))
  {
    hide Image.RowAt;
    RowInside(im, y);
    if y > 0 {
      RowInside(im, y - 1);
      RowStep(im, y);
    }
  }

  lemma RowInside(im: Image, y: nat)
    requires im.Ok() && y < im.height
    ensures im.Inside(im.RowAt(y))
  {
  }

  lemma RowStep(im: Image, y: nat)
    requires 0 < y < im.height
    ensures im.Offset(im.RowAt(y - 1)) == im.Offset(im.RowAt(y)) - if im.flip then -im.stride else im.stride
  {
    if im.flip {
      MulNext(im.RowAt(y), im.stride);
    } else {
      MulNext(im.RowAt(y - 1), im.stride);
    }
  }

  // ----- the choice of a filter

  function Cost(line: seq<int>): nat {
    if line == [] then 0 else Cost(line[..|line| - 1]) + Abs(line[|line| - 1])
  }

  function Chars(f: seq<byte>): (s: seq<int>)
    ensures |s| == |f| && forall i :: 0 <= i < |s| ==> s[i] == SignedChar(f[i])
  {
    seq(|f|, i requires 0 <= i < |f| => SignedChar(f[i]))
  }

  /** The sum of the filtered bytes, taken as signed. */
  function Estimate(im: Image, y: nat, filterType: nat): nat
    requires im.Ok() && y < im.height
  {
    Cost(Chars(Filtered(filterType, im.n, im.Line(y), im.Prior(y))))
  }

  method Entropy(lineBuffer: array<int>) returns (est: nat)
    ensures est == Cost(lineBuffer[..])
  {
    est := 0;
    for i := 0 to lineBuffer.Length
      invariant est == Cost(lineBuffer[..i])
    {
      est := est + Abs(lineBuffer[i]);
      assert lineBuffer[..i + 1][..i] == lineBuffer[..i];
    }
    assert lineBuffer[..] == lineBuffer[..lineBuffer.Length];
  }

  /** The first of the filters with the least estimate. */
  ghost predicate Best(im: Image, y: nat, best: nat, n: nat)
    requires im.Ok() && y < im.height
  {
    && (forall t :: 0 <= t < n && Estimate(im, y, t) < INT_MAX ==> Estimate(im, y, best) <= Estimate(im, y, t))
    && (forall t :: 0 <= t < best ==> Estimate(im, y, best) < Estimate(im, y, t))
  }

  method EncodeAndEstimate(im: Image, y: nat, filterType: nat, lineBuffer: array<int>) returns (est: nat)
    requires im.Ok() && y < im.height && lineBuffer.Length == im.Len() && filterType < 5
    modifies lineBuffer
    ensures est == Estimate(im, y, filterType)
    ensures Bytes(lineBuffer[..]) == Filtered(filterType, im.n, im.Line(y), im.Prior(y))
  {
    EncodePngLine(im, y, filterType, lineBuffer);
    est := Entropy(lineBuffer);
    SameChars(lineBuffer[..], Filtered(filterType, im.n, im.Line(y), im.Prior(y)));
  }

  method ChooseFilter(im: Image, y: nat, lineBuffer: array<int>) returns (filterType: nat)
    requires im.Ok() && y < im.height && lineBuffer.Length == im.Len()
    modifies lineBuffer
    ensures filterType < 5 && Best(im, y, filterType, 5)
    ensures Bytes(lineBuffer[..]) == Filtered(filterType, im.n, im.Line(y), im.Prior(y))
  {
    hide Estimate, Filtered, Bytes, Image.Line, Image.Prior, Image.Ok;
    var bestFilter, bestFilterVal := 0, INT_MAX;
    filterType := 0;
    while filterType < 5
      invariant filterType <= 5 && bestFilter < 5 && bestFilterVal <= INT_MAX
      invariant bestFilterVal == INT_MAX ==> bestFilter == 0
      invariant bestFilterVal < INT_MAX ==> bestFilterVal == Estimate(im, y, bestFilter)
      invariant forall t :: 0 <= t < filterType ==> bestFilterVal <= Estimate(im, y, t)
      invariant forall t :: 0 <= t < bestFilter ==> bestFilterVal < Estimate(im, y, t)
    {
      var est := EncodeAndEstimate(im, y, filterType, lineBuffer);
      if est < bestFilterVal {
        bestFilterVal := est;
        bestFilter := filterType;
      }
      filterType := filterType + 1;
    }
    if filterType != bestFilter {
      EncodePngLine(im, y, bestFilter, lineBuffer);
      filterType := bestFilter;
    }
  }

  lemma SameChars(line: seq<int>, f: seq<byte>)
    requires Bytes(line) == f && forall i :: 0 <= i < |line| ==> -128 <= line[i] <= 127
    ensures line == Chars(f)
  {
    forall i | 0 <= i < |line|
      ensures line[i] == SignedChar(f[i])
    {
      assert Bytes(line)[i] == line[i] % 256;
    }
  }

  // ----- the filtered image

  function Row(im: Image, filter: FilterNo, y: nat): (s: seq<byte>)
    requires im.Ok() && y < im.height
    ensures |s| == im.Len() + 1
  {
    [filter] + Filtered(filter, im.n, im.Line(y), im.Prior(y))
  }

  /** Rows 0 to y, each after its filter number. */
  function Rows(im: Image, filters: seq<FilterNo>, y: nat): seq<byte>
    requires im.Ok() && y <= |filters| <= im.height
  {
    if y == 0 then [] else Rows(im, filters, y - 1) + Row(im, filters[y - 1], y - 1)
  }

  lemma {:induction false} RowsSize(im: Image, filters: seq<FilterNo>, y: nat)
    requires im.Ok() && y <= |filters| <= im.height
    ensures |Rows(im, filters, y)| == y * (im.Len() + 1)
  {
    hide Row;
    if y == 0 {
    } else {
      RowsSize(im, filters, y - 1);
      MulNext(y - 1, im.Len() + 1);
    }
  }

  lemma {:induction false} RowsPrefix(im: Image, filters: seq<FilterNo>, more: seq<FilterNo>, y: nat)
    requires im.Ok() && y <= |filters| <= |more| <= im.height && filters == more[..|filters|]
    ensures Rows(im, filters, y) == Rows(im, more, y)
  {
    if y == 0 {
    } else {
      assert filters[y - 1] == more[y - 1];
      RowsPrefix(im, filters, more, y - 1);
    }
  }

  ghost predicate Chosen(im: Image, forced: int, y: nat, filterType: FilterNo)
    requires im.Ok() && y < im.height
  {
    if 0 <= forced < 5 then filterType == forced else Best(im, y, filterType, 5)
  }

  ghost predicate AllChosen(im: Image, forced: int, filters: seq<FilterNo>)
    requires im.Ok() && |filters| <= im.height
  {
    forall j :: 0 <= j < |filters| ==> Chosen(im, forced, j, filters[j])
  }

  /** Filters all rows, with one forced filter or the best for each row. */
  method FilterImage(im: Image, forceFilter: int) returns (filt: array<byte>, ghost filters: seq<FilterNo>)
    requires im.Ok()
    ensures fresh(filt) && |filters| == im.height && filt.Length == im.height * (im.Len() + 1)
    ensures AllChosen(im, forceFilter, filters) && filt[..] == Rows(im, filters, im.height)
  {
    hide Rows, Best, Row, Filtered, Bytes, Image.Line, Image.Prior, Image.Ok;
    var force := if forceFilter >= 5 then -1 else forceFilter;
    var size := im.width * im.n + 1;
    NextRow(0, im.height, size);
    filt := new byte[im.height * size](_ => 0);
    var lineBuffer := new int[im.width * im.n](_ => 0);
    filters := [];
    NoRows(im);
    for j := 0 to im.height
      invariant |filters| == j && j * size <= filt.Length && AllChosen(im, forceFilter, filters)
      invariant filt[..j * size] == Rows(im, filters, j)
    {
      var filterType: FilterNo;
      if force > -1 {
        filterType := force;
        EncodePngLine(im, j, force, lineBuffer);
      } else {
        filterType := ChooseFilter(im, j, lineBuffer);
      }
      NextRow(j, im.height, size);
      StoreRow(filt, j * size, filterType, lineBuffer);
      MoreRows(im, filters, filterType, Bytes(lineBuffer[..]));
      filters := filters + [filterType];
    }
  }

  lemma NoRows(im: Image)
    requires im.Ok()
    ensures Rows(im, [], 0) == []
  {
  }

  lemma MoreRows(im: Image, filters: seq<FilterNo>, filter: FilterNo, line: seq<byte>)
    requires im.Ok() && |filters| < im.height
    requires line == Filtered(filter, im.n, im.Line(|filters|), im.Prior(|filters|))
    ensures Rows(im, filters + [filter], |filters| + 1) == Rows(im, filters, |filters|) + ([filter] + line)
  {
    RowsPrefix(im, filters, filters + [filter], |filters|);
  }

  lemma NextRow(j: nat, h: nat, size: nat)
    ensures j * size >= 0 && h * size >= 0
    ensures j < h ==> j * size + size == (j + 1) * size <= h * size
  {
    MulNotLess(0, j, size);
    MulNotLess(0, h, size);
    if j < h {
      MulNext(j, size);
      MulNotLess(j + 1, h, size);
    }
  }

  method StoreRow(filt: array<byte>, off: nat, filterType: byte, lineBuffer: array<int>)
    requires off + 1 + lineBuffer.Length <= filt.Length
    modifies filt
    ensures filt[..off + 1 + lineBuffer.Length] == old(filt[..off]) + ([filterType] + Bytes(lineBuffer[..]))
  {
    filt[off] := filterType;
    forall i | 0 <= i < lineBuffer.Length {
      filt[off + 1 + i] := lineBuffer[i] % 256;
    }
  }
}
