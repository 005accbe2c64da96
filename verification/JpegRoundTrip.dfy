/** A scan: the blocks of all components, written and read back. */
module JpegRoundTrip {
  import opened Bits
  import opened BitPieces
  import opened ByteSource
  import opened JpegBits
  import opened JpegFormat
  import opened JpegBlock
  import opened JpegWrite
  import opened JpegHuffman
  import opened JpegRead
  import opened JpegDecode
  import opened JpegScan
  import opened JpegTables

  /** The tables of a component: as in the file, and as the writer spells them out. */
  datatype Coder = Coder(dc: HuffTable, ac: HuffTable, hdc: CodeWords, hac: CodeWords) {
    ghost predicate Ok() {
      SpellsDc(dc, hdc) && SpellsAc(ac, hac) && WordsFit(hdc) && WordsFit(hac)
    }
  }

  /** A block of a component, its quantised coefficients row by row. */
  datatype Unit = Unit(comp: nat, q: seq<int>)

  function Zig(q: seq<int>): (du: seq<int>)
    requires |q| == 64
    ensures |du| == 64
  {
    ZigZagIn();
    seq(64, k requires 0 <= k < 64 => q[DeZigZag(k)])
  }

  lemma ZigZagIn()
    ensures forall k :: 0 <= k < 64 ==> DeZigZag(k) < 64
  {
    forall k: nat | k < 64
      ensures DeZigZag(k) < 64
    {
      ZigZagInverse(k);
    }
  }

  /** Coefficients of baseline size, the first ones relative to the block of the component before. */
  predicate Codable(preds: seq<int>, units: seq<Unit>)
    decreases |units|
  {
    units == [] ||
    var u := units[0];
    && u.comp < |preds| && |u.q| == 64 && INT_MIN <= u.q[0] <= INT_MAX
    && Abs(u.q[0] - preds[u.comp]) < 2048 && (forall j :: 1 <= j < 64 ==> Abs(u.q[j]) < 1024)
    && Codable(preds[u.comp := u.q[0]], units[1..])
  }

  lemma UnitBaseline(preds: seq<int>, u: Unit)
    requires u.comp < |preds| && |u.q| == 64
    requires Abs(u.q[0] - preds[u.comp]) < 2048 && (forall j :: 1 <= j < 64 ==> Abs(u.q[j]) < 1024)
    ensures Baseline(Zig(u.q)) && Zig(u.q)[0] == u.q[0] && Category(Abs(u.q[0] - preds[u.comp])) <= 11
  {
    hide DeZigZag, ZigZag, Category;
    ZigZagIn();
    FirstPlaces();
    forall k: nat | k < 64
      ensures DeZigZag(k) == 0 <==> k == 0
    {
      FirstIsFirst(k);
    }
    DifferenceSize();
  }

  function UnitPieces(cs: seq<Coder>, preds: seq<int>, u: Unit): seq<Piece>
    requires |cs| == |preds| && Codable(preds, [u])
  {
    UnitBaseline(preds, u);
    BlockPieces(cs[u.comp].hdc, cs[u.comp].hac, preds[u.comp], Zig(u.q))
  }

  function ScanPieces(cs: seq<Coder>, preds: seq<int>, units: seq<Unit>): seq<Piece>
    requires |cs| == |preds| && Codable(preds, units)
    decreases |units|
  {
    if units == [] then []
    else UnitPieces(cs, preds, units[0]) + ScanPieces(cs, preds[units[0].comp := units[0].q[0]], units[1..])
  }

  // ----- writing

  /** What comes next. */
  lemma NextUnit(cs: seq<Coder>, preds: seq<int>, units: seq<Unit>, i: nat)
    requires |cs| == |preds| && i < |units| && Codable(preds, units[i..])
    ensures var u := units[i];
      && u.comp < |preds| && |u.q| == 64 && INT_MIN <= u.q[0] <= INT_MAX
      && Abs(u.q[0] - preds[u.comp]) < 2048 && (forall j :: 1 <= j < 64 ==> Abs(u.q[j]) < 1024)
      && Codable(preds, [u]) && Codable(preds[u.comp := u.q[0]], units[i + 1..])
      && ScanPieces(cs, preds, units[i..])
         == UnitPieces(cs, preds, u) + ScanPieces(cs, preds[u.comp := u.q[0]], units[i + 1..])
  {
    assert units[i..][0] == units[i] && units[i..][1..] == units[i + 1..];
    assert [units[i]][1..] == [];
  }

  lemma SameZig(q: seq<int>, zig: seq<int>)
    requires InZigZag(q, zig)
    ensures zig == Zig(q)
  {
    hide DeZigZag, ZigZag, ScanPlace;
    forall k: nat | k < 64
      ensures zig[k] == Zig(q)[k]
    {
      ZigZagInverse(k);
      var j := DeZigZag(k);
      ScanIsZigZag(j / 8, j % 8);
      assert ScannedAt(q, zig, j / 8, j % 8);
    }
  }

  /** Codes all blocks, fills the last byte with ones and ends the image. */
  method WriteScan(cs: seq<Coder>, units: seq<Unit>) returns (out: seq<byte>, ghost bytes: seq<byte>, ghost tail: nat)
    requires Codable(Zeros(|cs|), units) && forall i :: 0 <= i < |cs| ==> cs[i].Ok()
    ensures out == Stuffed(bytes) + [0xFF, 0xD9]
    ensures BitsOf(bytes) == StreamOf(ScanPieces(cs, Zeros(|cs|), units), tail)
    ensures FilledUp(Width(ScanPieces(cs, Zeros(|cs|), units)), |bytes|, tail)
  {
    hide Category, StreamOf, Width, Stuffed, BitsOf, Baseline, SpellsDc, SpellsAc, WordsFit, Rev, Pow2, Shl;
    hide Zig, InZigZag, BlockPieces, ScanPieces, Codable;
    var s := new JpegSink();
    var preds := Zeros(|cs|);
    ghost var goal := ScanPieces(cs, preds, units);
    for i := 0 to |units|
      invariant s.Valid() && fresh(s) && |preds| == |cs| && Codable(preds, units[i..])
      invariant s.pieces + ScanPieces(cs, preds, units[i..]) == goal
    {
      var u := units[i];
      NextUnit(cs, preds, units, i);
      var dc;
      ghost var zig;
      dc, zig := ProcessDU(s, u.q, preds[u.comp], cs[u.comp].hdc, cs[u.comp].hac);
      SameZig(u.q, zig);
      assert s.pieces + ScanPieces(cs, preds[u.comp := dc], units[i + 1..]) == goal;
      preds := preds[u.comp := dc];
    }
    assert units[|units|..] == [];
    NothingLeft(cs, preds, s.pieces);
    ghost var ps := s.pieces;
    s.Bounded();
    SevenOnes();
    s.WriteBits(0x7F, 7);
    out := s.out + [0xFF, 0xD9];
    bytes := s.bytes;
    tail := LastByte(ps, bytes, s.Pending(), s.bitCnt);
  }

  lemma NothingLeft(cs: seq<Coder>, preds: seq<int>, ps: seq<Piece>)
    requires |cs| == |preds|
    ensures ps + ScanPieces(cs, preds, []) == ps
  {
  }

  lemma SevenOnes()
    ensures 0x7F < Pow2(7)
  {
  }

  /** The bytes written hold all the pieces, and then some of the filling ones. */
  lemma LastByte(ps: seq<Piece>, bytes: seq<byte>, pending: nat, cnt: nat) returns (tail: nat)
    requires StreamOf(ps, 0) < Pow2(Width(ps)) && cnt < 8
    requires var fill := Piece(Rev(0x7F, 7), 7);
      && StreamOf(ps + [fill], 0) == BitsOf(bytes) + Shl(pending, 8 * |bytes|)
      && Width(ps + [fill]) == 8 * |bytes| + cnt
    ensures BitsOf(bytes) == StreamOf(ps, tail) && FilledUp(Width(ps), |bytes|, tail)
  {
    hide StreamOf, Width, Rev, Shl, Pow2, Take, BitsOf;
    var fill, w, n := Piece(Rev(0x7F, 7), 7), Width(ps), 8 * |bytes|;
    StreamSnoc(ps, fill);
    BitsBound(bytes);
    SplitLow(BitsOf(bytes), pending, n);
    TakeConcat(StreamOf(ps, 0), w, fill.code, n - w);
    tail := Take(fill.code, n - w);
    StreamTail(ps, tail);
    Ones(n - w);
  }

  /** The last byte is filled up with ones. */
  ghost predicate FilledUp(width: nat, bytes: nat, tail: nat) {
    width <= 8 * bytes < width + 8 && tail == Pow2(8 * bytes - width) - 1
  }

  lemma Ones(m: nat)
    requires m <= 7
    ensures Take(Rev(0x7F, 7), m) == Pow2(m) - 1
  {
    SevenBits();
    assert Pow2(7) == 128;
    TakeOnes(7, m);
  }

  lemma {:induction false} TakeOnes(k: nat, m: nat)
    requires m <= k
    ensures Take(Pow2(k) - 1, m) == Pow2(m) - 1
    decreases m
  {
    if m == 0 {
    } else {
      TakeOnes(k - 1, m - 1);
    }
  }

  lemma SevenBits()
    ensures Rev(0x7F, 7) == 127
  {
    assert Pow2(6) == 64 && Pow2(5) == 32 && Pow2(4) == 16 && Pow2(3) == 8 && Pow2(2) == 4 && Pow2(1) == 2;
    assert Rev(1, 1) == 1 && Rev(3, 2) == 3 && Rev(7, 3) == 7;
    assert Rev(15, 4) == 15 && Rev(31, 5) == 31 && Rev(63, 6) == 63;
  }

  // ----- reading

  /** The block's values, row by row, each multiplied by its quantisation step. */
  predicate Multiplied(data: seq<int>, q: seq<int>, steps: seq<nat>) {
    |data| == |q| == |steps| == 64 && forall j :: 0 <= j < 64 ==> data[j] == ToShort(q[j] * steps[j])
  }

  lemma Natural(data: seq<int>, q: seq<int>, steps: seq<nat>)
    requires |q| == 64 && Shows(data, Zig(q), steps)
    ensures Multiplied(data, q, steps)
  {
    hide DeZigZag, ZigZag, ToShort, ScanPlace;
    forall j: nat | j < 64
      ensures data[j] == ToShort(q[j] * steps[j])
    {
      ScanIsZigZag(j / 8, j % 8);
      assert ShownAt(data, Zig(q), steps, j / 8, j % 8);
    }
  }

  /** The first value of the block fits sixteen bits when multiplied. */
  predicate Merges(u: Unit, steps: seq<seq<nat>>) {
    u.comp < |steps| && |steps[u.comp]| == 64 && |u.q| == 64 && -32768 <= u.q[0] * steps[u.comp][0] <= 32767
  }

  /** The reader is at the beginning of units. */
  ghost predicate Facing(v: nat, left: int, cs: seq<Coder>, preds: seq<int>, units: seq<Unit>, tail: nat)
    requires |cs| == |preds|
  {
    && Codable(preds, units)
    && v == StreamOf(ScanPieces(cs, preds, units), tail) && left >= Width(ScanPieces(cs, preds, units))
    && forall c :: 0 <= c < |preds| ==> INT_MIN <= preds[c] <= INT_MAX
  }

  /** A block is read back. */
  lemma UnitDecodes(cs: seq<Coder>, preds: seq<int>, u: Unit, tail: nat)
    requires |cs| == |preds| && Codable(preds, [u]) && cs[u.comp].Ok()
    ensures var c, ps := cs[u.comp], UnitPieces(cs, preds, u);
      var v := StreamOf(ps, tail);
      && BlockFrom(c.dc, c.ac, preds[u.comp], v) == Good(Zig(u.q), Width(ps)) && Drop(v, Width(ps)) == tail
      && Zig(u.q)[0] == u.q[0]
  {
    hide StreamOf, Width, BlockFrom, Spells, Zig, Drop, Category;
    UnitBaseline(preds, u);
    var c := cs[u.comp];
    BlockReads(c.dc, c.ac, c.hdc, c.hac, preds[u.comp], Zig(u.q), tail);
  }

  /** The next block in the stream, and what follows it. */
  lemma NextBlock(cs: seq<Coder>, preds: seq<int>, units: seq<Unit>, tail: nat, v: nat, left: int, left': int)
    requires |cs| == |preds| && units != [] && Facing(v, left, cs, preds, units, tail)
    requires units[0].comp < |preds| && cs[units[0].comp].Ok()
    ensures |units[0].q| == 64
    ensures var u, c, pred := units[0], cs[units[0].comp], preds[units[0].comp];
      var d := BlockFrom(c.dc, c.ac, pred, v);
      && INT_MIN <= u.q[0] <= INT_MAX && Abs(u.q[0] - pred) < 2048
      && d == Good(Zig(u.q), d.used) && Zig(u.q)[0] == u.q[0] && d.used <= left
      && (left' >= left - d.used ==> Facing(Drop(v, d.used), left', cs, preds[u.comp := u.q[0]], units[1..], tail))
  {
    hide ScanPieces, StreamOf, Width, BlockFrom, Zig, Codable, Drop, UnitPieces, SpellsDc, SpellsAc, WordsFit;
    var u := units[0];
    assert units[0..] == units;
    NextUnit(cs, preds, units, 0);
    var first, rest := UnitPieces(cs, preds, u), ScanPieces(cs, preds[u.comp := u.q[0]], units[1..]);
    StreamAppend(first, rest, tail);
    UnitDecodes(cs, preds, u, StreamOf(rest, tail));
  }

  /** What decoding the next block gives. */
  lemma UnitReads(cs: seq<Coder>, preds: seq<int>, units: seq<Unit>, tail: nat, v: nat, left: int, steps: seq<nat>,
                  ok: bool, dc: int, data: seq<int>, v': nat, left': int)
    requires |cs| == |preds| && units != [] && Facing(v, left, cs, preds, units, tail) && |steps| == 64
    requires units[0].comp < |preds| && cs[units[0].comp].Ok()
    requires var c, pred := cs[units[0].comp], preds[units[0].comp];
      BlockMay(c.dc, c.ac, pred, steps, v, left, ok, dc, data, v', left')
    ensures |units[0].q| == 64
    ensures ok <==> -32768 <= units[0].q[0] * steps[0] <= 32767
    ensures ok ==> dc == units[0].q[0] && Multiplied(data, units[0].q, steps)
    ensures ok ==> Facing(v', left', cs, preds[units[0].comp := dc], units[1..], tail)
  {
    var u, pred := units[0], preds[units[0].comp];
    assert INT_MIN <= pred <= INT_MAX;
    hide Facing, BlockFrom, BlockMay, Zig, AddIntsValid, Mul2ShortsValid, Drop, Shows, Multiplied, SpellsDc, SpellsAc;
    hide WordsFit;
    var c := cs[u.comp];
    BlockEnough(c.dc, c.ac, pred, steps, v, left, ok, dc, data, v', left');
    NextBlock(cs, preds, units, tail, v, left, left');
    AddIntsExact(pred, u.q[0] - pred);
    MulShortsExact(u.q[0], steps[0]);
    if ok {
      Natural(data, u.q, steps);
    }
  }

  ghost predicate AllMultiplied(datas: seq<seq<int>>, units: seq<Unit>, steps: seq<seq<nat>>) {
    |datas| <= |units| && forall i :: 0 <= i < |datas| ==>
      units[i].comp < |steps| && Multiplied(datas[i], units[i].q, steps[units[i].comp])
  }

  function TablesOf(cs: seq<Coder>): (ts: seq<Tables>)
    ensures |ts| == |cs|
  {
    seq(|cs|, i requires 0 <= i < |cs| => Tables(cs[i].dc, cs[i].ac))
  }

  function Components(units: seq<Unit>): (comps: seq<nat>)
    ensures |comps| == |units|
  {
    seq(|units|, i requires 0 <= i < |units| => units[i].comp)
  }

  /** A scan of units is decoded to them, as far as the first values fit. */
  lemma {:induction false} UnitsRead(cs: seq<Coder>, steps: seq<seq<nat>>, preds: seq<int>, units: seq<Unit>, tail: nat,
                                     v: nat, left: int, ok: bool, datas: seq<seq<int>>)
    requires |cs| == |preds| && (forall i :: 0 <= i < |cs| ==> cs[i].Ok())
    requires ScanOk(TablesOf(cs), steps, Components(units), preds)
    requires Facing(v, left, cs, preds, units, tail)
    requires ScanDone(TablesOf(cs), steps, Components(units), preds, v, left, ok, datas)
    ensures ok <==> forall i :: 0 <= i < |units| ==> Merges(units[i], steps)
    ensures ok ==> |datas| == |units| && AllMultiplied(datas, units, steps)
    decreases |units|
  {
    hide Facing, Multiplied, BlockFrom, BlockMay, Coder.Ok;
    if units == [] {
    } else {
      var u, ts, comps := units[0], TablesOf(cs), Components(units);
      var pred := preds[u.comp];
      if datas == [] {
        var dc, data, v', left' :| NextDone(ts, steps, u.comp, pred, v, left, false, dc, data, v', left');
        UnitReads(cs, preds, units, tail, v, left, steps[u.comp], false, dc, data, v', left');
        assert !Merges(u, steps);
      } else {
        var dc, v', left' :|
          && NextDone(ts, steps, u.comp, pred, v, left, true, dc, datas[0], v', left')
          && ScanDone(ts, steps, comps[1..], preds[u.comp := dc], v', left', ok, datas[1..]);
        UnitReads(cs, preds, units, tail, v, left, steps[u.comp], true, dc, datas[0], v', left');
        assert comps[1..] == Components(units[1..]);
        UnitsRead(cs, steps, preds[u.comp := dc], units[1..], tail, v', left', ok, datas[1..]);
        FirstAndRest(datas, units, steps, ok);
      }
    }
  }

  lemma FirstAndRest(datas: seq<seq<int>>, units: seq<Unit>, steps: seq<seq<nat>>, ok: bool)
    requires datas != [] && units != [] && Merges(units[0], steps)
    requires Multiplied(datas[0], units[0].q, steps[units[0].comp])
    requires ok <==> forall i :: 0 <= i < |units[1..]| ==> Merges(units[1..][i], steps)
    requires ok ==> |datas[1..]| == |units[1..]| && AllMultiplied(datas[1..], units[1..], steps)
    ensures ok <==> forall i :: 0 <= i < |units| ==> Merges(units[i], steps)
    ensures ok ==> |datas| == |units| && AllMultiplied(datas, units, steps)
  {
    hide Multiplied;
    assert forall i :: 0 <= i < |units[1..]| ==> units[1..][i] == units[i + 1];
    assert forall i :: 0 < i < |units| ==> units[i] == units[1..][i - 1];
    assert forall i :: 0 < i < |datas| ==> datas[i] == datas[1..][i - 1];
  }

  lemma Faced(cs: seq<Coder>, preds: seq<int>, units: seq<Unit>, tail: nat, v: nat, left: int)
    requires preds == Zeros(|cs|) && Codable(preds, units)
    requires v == StreamOf(ScanPieces(cs, preds, units), tail) && left >= Width(ScanPieces(cs, preds, units))
    ensures Facing(v, left, cs, preds, units, tail)
  {
  }

  /** A scan that is written can be read exactly if every first value fits sixteen bits when multiplied;
      then all values come back multiplied by their quantisation steps. */
  method RoundTrip(cs: seq<Coder>, units: seq<Unit>, hdcs: seq<Huffman>, hacs: seq<Huffman>, facs: seq<array<int>>,
                   steps: seq<seq<nat>>)
    returns (ok: bool, datas: seq<seq<int>>)
    requires |hdcs| == |hacs| == |facs| == |steps| == |cs|
    requires forall i :: 0 <= i < |cs| ==>
      cs[i].Ok() && hdcs[i].Represents(cs[i].dc) && hacs[i].Represents(cs[i].ac)
      && FastAcTable(cs[i].ac, facs[i][..]) && |steps[i]| == 64
    requires Codable(Zeros(|cs|), units)
    ensures ok <==> forall i :: 0 <= i < |units| ==> Merges(units[i], steps)
    ensures ok ==> |datas| == |units| && AllMultiplied(datas, units, steps)
  {
    hide Category, StreamOf, Width, Stuffed, BitsOf, ScanPieces, Codable, SpellsDc, SpellsAc, WordsFit;
    hide FastAcTable, FastTable, SizeTable, CodeTable, BoundTable, Multiplied;
    var out;
    ghost var bytes, tail;
    out, bytes, tail := WriteScan(cs, units);
    ComponentsIn(Zeros(|cs|), units);
    ok, datas := ReadScan(out, Components(units), hdcs, hacs, facs, steps, TablesOf(cs));
    ScanBegins(out, bytes);
    Faced(cs, Zeros(|cs|), units, tail, BitsOf(bytes), 8 * |bytes|);
    UnitsRead(cs, steps, Zeros(|cs|), units, tail, BitsOf(bytes), 8 * |bytes|, ok, datas);
  }

  lemma {:induction false} ComponentsIn(preds: seq<int>, units: seq<Unit>)
    requires Codable(preds, units)
    ensures forall i :: 0 <= i < |units| ==> units[i].comp < |preds|
    decreases |units|
  {
    if units == [] {
    } else {
      var u := units[0];
      ComponentsIn(preds[u.comp := u.q[0]], units[1..]);
      assert forall i :: 1 <= i < |units| ==> units[i] == units[1..][i - 1];
    }
  }

  lemma ScanBegins(input: seq<byte>, bytes: seq<byte>)
    requires input == Stuffed(bytes) + [0xFF, 0xD9]
    ensures Destuffed(input, 0) == bytes
  {
    var n, rest: seq<byte> := |Stuffed(bytes)|, [0xFF, 0xD9];
    DestuffStuffed(input, 0, bytes, rest);
    assert input[n] == 0xFF && input[n + 1] == 0xD9;
    assert SkipFill(input, n + 1) == n + 1;
    assert bytes + [] == bytes;
  }

  // ----- with the tables of the writer

  function Luminance(): Coder {
    Coder(LUMINANCE_DC.Table(), LUMINANCE_AC.Table(), LUMINANCE_DC.Words(), LUMINANCE_AC.Words())
  }

  function Chrominance(): Coder {
    Coder(CHROMINANCE_DC.Table(), CHROMINANCE_AC.Table(), CHROMINANCE_DC.Words(), CHROMINANCE_AC.Words())
  }

  lemma LuminanceOk()
    ensures Luminance().Ok() && Luminance().dc.counts[0] == 0 && Luminance().ac.counts[0] == 0
  {
    hide SpellsDc, SpellsAc, WordsFit;
    LuminanceDc();
    LuminanceAc();
  }

  lemma ChrominanceOk()
    ensures Chrominance().Ok() && Chrominance().dc.counts[0] == 0 && Chrominance().ac.counts[0] == 0
  {
    hide SpellsDc, SpellsAc, WordsFit;
    ChrominanceDc();
    ChrominanceAc();
  }

  /** Builds the reader's tables from counts and values. */
  method MakeHuffman(t: HuffTable) returns (h: Huffman)
    requires t.Usable() && t.counts[0] == 0
    ensures fresh(h.Arrays()) && h.Represents(t)
  {
    hide SizeTable, CodeTable, BoundTable, FastTable;
    h := new Huffman();
    var count := t.counts[1..];
    assert [0] + count == t.counts;
    var ok := h.BuildHuffman(count);
    for i := 0 to 256
      invariant h.Built(t.counts) && forall k :: 0 <= k < i ==> h.values[k] == t.values[k]
    {
      h.values[i] := t.values[i];
    }
    assert h.values[..] == t.values;
  }

  method MakeFastAc(h: Huffman, t: HuffTable) returns (fac: array<int>)
    requires h.Represents(t)
    ensures fresh(fac) && FastAcTable(t, fac[..])
  {
    fac := new int[512](_ => 0);
    BuildFastAc(fac, h, t);
  }

  /** Blocks of luminance (component 0) and chrominance (1 and 2), each kind with a coder of its own. */
  method RoundTripWith(luma: Coder, chroma: Coder, units: seq<Unit>, steps: seq<seq<nat>>)
    returns (ok: bool, datas: seq<seq<int>>)
    requires luma.Ok() && luma.dc.counts[0] == 0 && luma.ac.counts[0] == 0
    requires chroma.Ok() && chroma.dc.counts[0] == 0 && chroma.ac.counts[0] == 0
    requires |steps| == 3 && forall c :: 0 <= c < 3 ==> |steps[c]| == 64
    requires Codable(Zeros(3), units)
    ensures ok <==> forall i :: 0 <= i < |units| ==> Merges(units[i], steps)
    ensures ok ==> |datas| == |units| && AllMultiplied(datas, units, steps)
  {
    hide Codable, SpellsDc, SpellsAc, WordsFit, FastAcTable, Huffman.Represents, Merges, AllMultiplied;
    hide HuffTable.Usable;
    TablesUsable(luma);
    TablesUsable(chroma);
    var lumaDc := MakeHuffman(luma.dc);
    var lumaAc := MakeHuffman(luma.ac);
    var lumaFast := MakeFastAc(lumaAc, luma.ac);
    var chromaDc := MakeHuffman(chroma.dc);
    var chromaAc := MakeHuffman(chroma.ac);
    var chromaFast := MakeFastAc(chromaAc, chroma.ac);
    ok, datas := RoundTrip([luma, chroma, chroma], units, [lumaDc, chromaDc, chromaDc], [lumaAc, chromaAc, chromaAc],
                           [lumaFast, chromaFast, chromaFast], steps);
  }

  /** The image data of the writer, with its own tables. */
  method StandardRoundTrip(units: seq<Unit>, steps: seq<seq<nat>>) returns (ok: bool, datas: seq<seq<int>>)
    requires |steps| == 3 && forall c :: 0 <= c < 3 ==> |steps[c]| == 64
    requires Codable([0, 0, 0], units)
    ensures ok <==> forall i :: 0 <= i < |units| ==> Merges(units[i], steps)
    ensures ok ==> |datas| == |units| && AllMultiplied(datas, units, steps)
  {
    hide Codable, Merges, AllMultiplied, Coder.Ok;
    LuminanceOk();
    ChrominanceOk();
    assert Zeros(3) == [0, 0, 0];
    ok, datas := RoundTripWith(Luminance(), Chrominance(), units, steps);
  }

  lemma TablesUsable(c: Coder)
    requires c.Ok()
    ensures c.dc.Usable() && c.ac.Usable()
  {
  }
}
