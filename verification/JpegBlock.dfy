/** One block of quantised coefficients: how it is spelled out in pieces (section F.1.2 of ITU-T T.81),
    how a stream is read back (section F.2.2), and that the one undoes the other. */
module JpegBlock {
  import opened Bits
  import opened Canonical
  import opened BitPieces
  import opened JpegFormat

  const EOB: nat := 0
  const ZRL: nat := 0xF0

  // ----- the order of the coefficients

  /** For each coefficient, row by row, its position in zigzag order. */
  const ZIGZAG: seq<seq<nat>> := [
    [0, 1, 5, 6, 14, 15, 27, 28], [2, 4, 7, 13, 16, 26, 29, 42], [3, 8, 12, 17, 25, 30, 41, 43],
    [9, 11, 18, 24, 31, 40, 44, 53], [10, 19, 23, 32, 39, 45, 52, 54], [20, 22, 33, 38, 46, 51, 55, 60],
    [21, 34, 37, 47, 50, 56, 59, 61], [35, 36, 48, 49, 57, 58, 62, 63]]

  /** For each position in zigzag order, its place in the matrix; positions past the end fall on the
      last place. */
  const DEZIGZAG: seq<seq<nat>> := [
    [0, 1, 8, 16, 9, 2, 3, 10], [17, 24, 32, 25, 18, 11, 4, 5], [12, 19, 26, 33, 40, 48, 41, 34],
    [27, 20, 13, 6, 7, 14, 21, 28], [35, 42, 49, 56, 57, 50, 43, 36], [29, 22, 15, 23, 30, 37, 44, 51],
    [58, 59, 52, 45, 38, 31, 39, 46], [53, 60, 61, 54, 47, 55, 62, 63],
    [63, 63, 63, 63, 63, 63, 63, 63], [63, 63, 63, 63, 63, 63, 63]]

  /** Positions past the end fall on the last coefficient. */
  function Position(k: nat): (p: nat)
    ensures p < 64
  {
    if k < 64 then k else 63
  }

  function ZigZag(j: nat): nat
    requires j < 64
  {
    ZIGZAG[j / 8][j % 8]
  }

  function DeZigZag(k: nat): nat
    requires k < 79
  {
    DEZIGZAG[k / 8][k % 8]
  }

  /** The writer's and the reader's tables are inverse to each other. */
  lemma ZigZagInverse(j: nat)
    requires j < 64
    ensures ZigZag(j) < 64 && DeZigZag(ZigZag(j)) == j
    ensures DeZigZag(j) < 64 && ZigZag(DeZigZag(j)) == j
  {
    hide ZigZag, DeZigZag;
    if j < 32 {
      ThereUpper(j);
      BackUpper(j);
    } else {
      ThereLower(j);
      BackLower(j);
    }
  }

  lemma ThereUpper(j: nat)
    requires j < 32
    ensures ZigZag(j) < 64 && DeZigZag(ZigZag(j)) == j
  {
  }

  lemma ThereLower(j: nat)
    requires 32 <= j < 64
    ensures ZigZag(j) < 64 && DeZigZag(ZigZag(j)) == j
  {
  }

  lemma BackUpper(j: nat)
    requires j < 32
    ensures DeZigZag(j) < 64 && ZigZag(DeZigZag(j)) == j
  {
  }

  lemma BackLower(j: nat)
    requires 32 <= j < 64
    ensures DeZigZag(j) < 64 && ZigZag(DeZigZag(j)) == j
  {
  }

  /** The scan of a block: diagonal after diagonal, up and down in turn (figure A.6 of ITU-T T.81); its second
      half is the first one backwards. */
  function ScanPlace(row: nat, column: nat): (k: nat)
    requires row < 8 && column < 8
  {
    if row + column < 8 then Diagonal(row, column) else 63 - Diagonal(7 - row, 7 - column)
  }

  /** Place in the first half: after all shorter diagonals; even ones lead up, odd ones down. */
  function Diagonal(row: nat, column: nat): (k: nat)
    requires row + column < 8
    ensures k <= 35
  {
    var s := row + column;
    assert s * (s + 1) <= 56;
    s * (s + 1) / 2 + if s % 2 == 1 then row else column
  }

  /** The tables are the scan. */
  lemma ScanIsZigZag(row: nat, column: nat)
    requires row < 8 && column < 8
    ensures ZigZag(8 * row + column) == ScanPlace(row, column) < 64
    ensures DeZigZag(ScanPlace(row, column)) == 8 * row + column
  {
    hide ZigZag, DeZigZag, ScanPlace;
    ZigZagInverse(8 * row + column);
    TablePlace(row, column);
    if row < 4 {
      ScanUpper(row, column);
    } else {
      ScanLower(row, column);
    }
  }

  lemma TablePlace(row: nat, column: nat)
    requires row < 8 && column < 8
    ensures ZigZag(8 * row + column) == ZIGZAG[row][column]
  {
  }

  lemma ScanUpper(row: nat, column: nat)
    requires row < 4 && column < 8
    ensures ZIGZAG[row][column] == ScanPlace(row, column)
  {
  }

  lemma ScanLower(row: nat, column: nat)
    requires 4 <= row < 8 && column < 8
    ensures ZIGZAG[row][column] == ScanPlace(row, column)
  {
  }

  lemma PastTheEnd(k: nat)
    requires k < 79
    ensures DeZigZag(k) == DeZigZag(Position(k))
  {
  }

  // ----- reading

  /** Reading failed, or gave coefficients in zigzag order; either way after `used` bits. */
  datatype Decoded = Bad(used: nat) | Good(du: seq<int>, used: nat) {
    function After(n: nat): Decoded {
      match this
      case Bad(u) => Bad(n + u)
      case Good(du, u) => Good(du, n + u)
    }
  }

  /** The coefficients from position k on. */
  function AcFrom(t: HuffTable, v: nat, k: nat, du: seq<int>): (r: Decoded)
    requires |t.values| == 256 && t.Total() <= 256 && |du| == 64 && k < 64
    ensures r.Good? ==> |r.du| == 64
    decreases 64 - k
  {
    var len := CodeLength(t.counts, v);
    if len > 16 then Bad(0)
    else
      var rs := t.values[CodeIndex(t.counts, v)];
      var run, size := rs / 16, rs % 16;
      if size == 0 then
        if rs != ZRL || k + 16 >= 64 then Good(du, len) else AcFrom(t, Drop(v, len), k + 16, du).After(len)
      else
        var x := Extend(Rev(Drop(v, len), size), size);
        var next, n := du[Position(k + run) := x], len + size;
        if k + run + 1 >= 64 then Good(next, n) else AcFrom(t, Drop(v, n), k + run + 1, next).After(n)
  }

  function Zeros(n: nat): (s: seq<int>)
    ensures |s| == n && forall i :: 0 <= i < n ==> s[i] == 0
  {
    seq(n, _ => 0)
  }

  /** A block, whose first coefficient is told as a difference. */
  function BlockFrom(dc: HuffTable, ac: HuffTable, pred: int, v: nat): (r: Decoded)
    requires |dc.values| == 256 && dc.Total() <= 256 && |ac.values| == 256 && ac.Total() <= 256
    ensures r.Good? ==> |r.du| == 64
  {
    var len := CodeLength(dc.counts, v);
    if len > 16 then Bad(0)
    else
      var size := dc.values[CodeIndex(dc.counts, v)];
      if size > 15 then Bad(len)
      else
        var diff := Extend(Rev(Drop(v, len), size), size);
        var n := len + size;
        AcFrom(ac, Drop(v, n), 1, [pred + diff] + Zeros(63)).After(n)
  }

  // ----- writing

  /** Code word and length for each symbol. */
  type CodeWords = ht: seq<(nat, nat)> | |ht| == 256 witness seq(256, i => (0, 0))

  function SymbolPiece(ht: CodeWords, sym: byte): Piece {
    Piece(Rev(ht[sym].0, ht[sym].1), ht[sym].1)
  }

  function MagnitudePiece(x: int): Piece {
    var n := Category(Abs(x));
    Piece(if x == 0 then 0 else MagnitudeFits(x); Rev(Magnitude(x, n), n), n)
  }

  lemma MagnitudeFits(x: int)
    requires x != 0
    ensures 0 <= Magnitude(x, Category(Abs(x)))
  {
    ExtendMagnitude(x);
  }

  function DcPieces(ht: CodeWords, diff: int): seq<Piece>
    requires Category(Abs(diff)) < 256
  {
    if diff == 0 then [SymbolPiece(ht, 0)] else [SymbolPiece(ht, Category(Abs(diff))), MagnitudePiece(diff)]
  }

  function ZerosAt(du: seq<int>, k: nat): (z: nat)
    requires |du| == 64 && k <= 64
    ensures k + z <= 64 && forall i :: k <= i < k + z ==> du[i] == 0
    ensures k + z < 64 ==> du[k + z] != 0
    decreases 64 - k
  {
    if k == 64 || du[k] != 0 then 0 else 1 + ZerosAt(du, k + 1)
  }

  /** Coefficients of at most ten bits. */
  predicate Baseline(du: seq<int>) {
    |du| == 64 && forall i :: 1 <= i < 64 ==> Abs(du[i]) < 1024
  }

  lemma RunSize(x: int, z: nat)
    requires 0 < Abs(x) < 1024 && z < 16
    ensures 1 <= Category(Abs(x)) <= 10 && 16 * z + Category(Abs(x)) < 256
    ensures (16 * z + Category(Abs(x))) / 16 == z && (16 * z + Category(Abs(x))) % 16 == Category(Abs(x))
  {
    assert Pow2(10) == 1024;
    CategoryBounds(Abs(x));
    CategoryAtMost(Abs(x), 10);
  }

  /** The coefficients from position k on: run lengths with values, and an end mark unless the last
      coefficient was written. */
  function AcPieces(ht: CodeWords, du: seq<int>, k: nat): seq<Piece>
    requires Baseline(du) && 1 <= k <= 64
    decreases 64 - k
  {
    var z := ZerosAt(du, k);
    if k == 64 then []
    else if k + z == 64 then [SymbolPiece(ht, EOB)]
    else if z >= 16 then [SymbolPiece(ht, ZRL)] + AcPieces(ht, du, k + 16)
    else
      RunSize(du[k + z], z);
      [SymbolPiece(ht, 16 * z + Category(Abs(du[k + z]))), MagnitudePiece(du[k + z])] + AcPieces(ht, du, k + z + 1)
  }

  function BlockPieces(hdc: CodeWords, hac: CodeWords, pred: int, du: seq<int>): seq<Piece>
    requires Baseline(du) && Category(Abs(du[0] - pred)) < 256
  {
    DcPieces(hdc, du[0] - pred) + AcPieces(hac, du, 1)
  }

  // ----- the writer's code words and the tables in the file

  ghost predicate Spells(t: HuffTable, ht: CodeWords, sym: byte) {
    exists k: nat :: k < |t.values| && t.values[k] == sym && IsCode(t.counts, k, ht[sym].0, ht[sym].1)
  }

  /** The code words of all categories of differences, up to eleven bits. */
  ghost predicate SpellsDc(t: HuffTable, ht: CodeWords) {
    t.Usable() && forall n: byte :: n <= 11 ==> Spells(t, ht, n)
  }

  predicate AcSymbol(sym: byte) {
    sym == EOB || sym == ZRL || 1 <= sym % 16 <= 10
  }

  /** The code words of all runs and sizes of baseline coefficients. */
  ghost predicate SpellsAc(t: HuffTable, ht: CodeWords) {
    t.Usable() && forall sym: byte :: AcSymbol(sym) ==> Spells(t, ht, sym)
  }

  // ----- round trip

  lemma SymbolReads(t: HuffTable, ht: CodeWords, sym: byte, tail: nat)
    requires t.Usable() && Spells(t, ht, sym)
    ensures var v := StreamOf([SymbolPiece(ht, sym)], tail);
      var len := CodeLength(t.counts, v);
      && len == ht[sym].1 <= 16 && t.values[CodeIndex(t.counts, v)] == sym && Drop(v, len) == tail
  {
    hide CodeLength, IsCode, Drop, Shl, Rev, Fits, FirstIndex, StreamOf;
    var k: nat :| k < |t.values| && t.values[k] == sym && IsCode(t.counts, k, ht[sym].0, ht[sym].1);
    OneInStream(SymbolPiece(ht, sym), tail);
    CodeLengths(t.counts, k, ht[sym].0, ht[sym].1);
    CodeReads(t.counts, k, ht[sym].0, ht[sym].1, tail);
  }

  lemma OneInStream(p: Piece, tail: nat)
    ensures StreamOf([p], tail) == p.code + Shl(tail, p.n)
  {
    assert [p][1..] == [];
  }

  lemma CodeLengths(c: Counts, k: nat, code: nat, s: nat)
    requires IsCode(c, k, code, s)
    ensures 1 <= s <= 16
  {
  }

  lemma MagnitudeReads(x: int, tail: nat)
    requires x != 0
    ensures var n, v := Category(Abs(x)), StreamOf([MagnitudePiece(x)], tail);
      Extend(Rev(v, n), n) == x && Drop(v, n) == tail
  {
    var n := Category(Abs(x));
    var m := Magnitude(x, n);
    ExtendMagnitude(x);
    var v := Rev(m, n) + Shl(tail, n);
    assert StreamOf([MagnitudePiece(x)][1..], tail) == tail;
    SplitLow(Rev(m, n), tail, n);
    RevLow(v, n);
    RevRev(m, n);
  }

  /** The coefficients before position k, zeros from there on. */
  function Part(du: seq<int>, k: nat): (s: seq<int>)
    requires |du| == 64 && k <= 64
    ensures |s| == 64
  {
    du[..k] + Zeros(64 - k)
  }

  lemma PartZeros(du: seq<int>, k: nat, z: nat)
    requires |du| == 64 && k + z <= 64 && forall i :: k <= i < k + z ==> du[i] == 0
    ensures Part(du, k) == Part(du, k + z)
  {
  }

  lemma PartNext(du: seq<int>, k: nat, z: nat)
    requires |du| == 64 && k + z < 64 && forall i :: k <= i < k + z ==> du[i] == 0
    ensures Part(du, k)[k + z := du[k + z]] == Part(du, k + z + 1)
  {
  }

  /** The next symbol of the coefficients, and its value if it has one. */
  function StepPieces(ht: CodeWords, du: seq<int>, k: nat): seq<Piece>
    requires Baseline(du) && 1 <= k < 64
  {
    var z := ZerosAt(du, k);
    if k + z == 64 then [SymbolPiece(ht, EOB)]
    else if z >= 16 then [SymbolPiece(ht, ZRL)]
    else
      RunSize(du[k + z], z);
      [SymbolPiece(ht, 16 * z + Category(Abs(du[k + z])))] + [MagnitudePiece(du[k + z])]
  }

  function StepEnd(du: seq<int>, k: nat): (e: nat)
    requires |du| == 64 && 1 <= k < 64
    ensures k < e <= 64
  {
    var z := ZerosAt(du, k);
    if k + z == 64 then 64 else if z >= 16 then k + 16 else k + z + 1
  }

  lemma AcSteps(ht: CodeWords, du: seq<int>, k: nat)
    requires Baseline(du) && 1 <= k < 64
    ensures AcPieces(ht, du, k) == StepPieces(ht, du, k) + AcPieces(ht, du, StepEnd(du, k))
  {
  }

  /** One symbol is read back. */
  lemma StepReads(t: HuffTable, ht: CodeWords, du: seq<int>, k: nat, tail: nat)
    requires SpellsAc(t, ht) && Baseline(du) && 1 <= k < 64
    ensures var ps, e := StepPieces(ht, du, k), StepEnd(du, k);
      var v := StreamOf(ps, tail);
      && Drop(v, Width(ps)) == tail
      && AcFrom(t, v, k, Part(du, k))
         == if e == 64 then Good(du, Width(ps)) else AcFrom(t, tail, e, Part(du, e)).After(Width(ps))
  {
    hide Spells, SymbolPiece, MagnitudePiece, AcFrom, Part, Drop, StreamOf, Width, Category, ZerosAt, HuffTable.Usable;
    var z := ZerosAt(du, k);
    assert Part(du, 64) == du by { WholePart(du); }
    if k + z == 64 || z >= 16 {
      var sym: byte := if k + z == 64 then EOB else ZRL;
      OnePiece(SymbolPiece(ht, sym));
      MarkReads(t, ht, sym, k, Part(du, k), tail);
      PartZeros(du, k, if k + z == 64 then z else 16);
    } else {
      RunSize(du[k + z], z);
      ValueReads(t, ht, z, du[k + z], k, Part(du, k), tail);
      PartNext(du, k, z);
    }
  }

  lemma WholePart(du: seq<int>)
    requires |du| == 64
    ensures Part(du, 64) == du
  {
  }

  /** An end mark, or sixteen zeros. */
  lemma MarkReads(t: HuffTable, ht: CodeWords, sym: byte, k: nat, part: seq<int>, tail: nat)
    requires t.Usable() && Spells(t, ht, sym) && sym in {EOB, ZRL} && k < 64 && |part| == 64
    requires sym == ZRL ==> k + 16 < 64
    ensures var n, v := SymbolPiece(ht, sym).n, StreamOf([SymbolPiece(ht, sym)], tail);
      && Drop(v, n) == tail
      && AcFrom(t, v, k, part) == if sym == EOB then Good(part, n) else AcFrom(t, tail, k + 16, part).After(n)
  {
    hide Spells, CodeLength, CodeIndex, Extend, Drop, Rev, StreamOf, SymbolPiece, FirstIndex, Canonical.Fits, Position;
    SymbolWidth(ht, sym);
    SymbolReads(t, ht, sym, tail);
  }

  /** A run of zeros with the value after it. */
  lemma ValueReads(t: HuffTable, ht: CodeWords, z: nat, x: int, k: nat, part: seq<int>, tail: nat)
    requires t.Usable() && 0 < Abs(x) < 1024 && z < 16 && k + z < 64 && |part| == 64
    requires 16 * z + Category(Abs(x)) < 256 && Spells(t, ht, 16 * z + Category(Abs(x)))
    ensures var sym: byte := 16 * z + Category(Abs(x));
      var ps := [SymbolPiece(ht, sym)] + [MagnitudePiece(x)];
      var n, v, next := Width(ps), StreamOf(ps, tail), part[k + z := x];
      && Drop(v, n) == tail
      && AcFrom(t, v, k, part) == if k + z + 1 == 64 then Good(next, n) else AcFrom(t, tail, k + z + 1, next).After(n)
  {
    hide Spells, CodeLength, CodeIndex, Extend, Drop, Rev, Category, MagnitudePiece, SymbolPiece, StreamOf;
    RunSize(x, z);
    SymbolWidth(ht, 16 * z + Category(Abs(x)));
    var sym: byte := 16 * z + Category(Abs(x));
    var s, m := [SymbolPiece(ht, sym)], [MagnitudePiece(x)];
    StreamAppend(s, m, tail);
    SymbolReads(t, ht, sym, StreamOf(m, tail));
    MagnitudeReads(x, tail);
    OnePiece(SymbolPiece(ht, sym));
    OnePiece(MagnitudePiece(x));
    MagnitudeWidth(x);
    DropDrop(StreamOf(s + m, tail), ht[sym].1, Category(Abs(x)));
  }

  lemma SymbolWidth(ht: CodeWords, sym: byte)
    ensures SymbolPiece(ht, sym).n == ht[sym].1
  {
  }

  lemma MagnitudeWidth(x: int)
    ensures MagnitudePiece(x).n == Category(Abs(x))
  {
  }

  lemma OnePiece(p: Piece)
    ensures Width([p]) == p.n
  {
  }

  lemma {:induction false} AcReads(t: HuffTable, ht: CodeWords, du: seq<int>, k: nat, tail: nat)
    requires SpellsAc(t, ht) && Baseline(du) && 1 <= k < 64
    ensures var ps := AcPieces(ht, du, k);
      var v := StreamOf(ps, tail);
      Drop(v, Width(ps)) == tail && AcFrom(t, v, k, Part(du, k)) == Good(du, Width(ps))
    decreases 64 - k
  {
    hide SpellsAc, AcPieces, StepPieces, AcFrom, Drop, Part;
    var e := StepEnd(du, k);
    var s, rest := StepPieces(ht, du, k), AcPieces(ht, du, e);
    AcSteps(ht, du, k);
    StreamAppend(s, rest, tail);
    StepReads(t, ht, du, k, StreamOf(rest, tail));
    if e == 64 {
      NoMore(ht, du);
      assert StreamOf([], tail) == tail && Width([]) == 0;
    } else {
      AcReads(t, ht, du, e, tail);
      DropDrop(StreamOf(s + rest, tail), Width(s), Width(rest));
    }
  }

  lemma NoMore(ht: CodeWords, du: seq<int>)
    requires Baseline(du)
    ensures AcPieces(ht, du, 64) == []
  {
  }

  /** A block written with the writer's code words is read back from tables that have the same codes. */
  lemma BlockReads(dc: HuffTable, ac: HuffTable, hdc: CodeWords, hac: CodeWords, pred: int, du: seq<int>, tail: nat)
    requires SpellsDc(dc, hdc) && SpellsAc(ac, hac) && Baseline(du) && Abs(du[0] - pred) < 2048
    ensures Category(Abs(du[0] - pred)) <= 11
    ensures var ps := BlockPieces(hdc, hac, pred, du);
      var v := StreamOf(ps, tail);
      BlockFrom(dc, ac, pred, v) == Good(du, Width(ps)) && Drop(v, Width(ps)) == tail
  {
    hide SpellsAc, Spells, DcPieces, AcPieces, AcFrom, Drop, Rev, CodeLength, CodeIndex, SymbolPiece;
    hide MagnitudePiece, Extend, StreamOf, Width, Category;
    var diff := du[0] - pred;
    assert Pow2(11) == 2048;
    CategoryAtMost(Abs(diff), 11);
    var n: byte := Category(Abs(diff));
    var rest := AcPieces(hac, du, 1);
    var tail1 := StreamOf(rest, tail);
    DcReads(dc, hdc, diff, tail1);
    AcReads(ac, hac, du, 1, tail);
    StreamAppend(DcPieces(hdc, diff), rest, tail);
    DropDrop(StreamOf(DcPieces(hdc, diff) + rest, tail), Width(DcPieces(hdc, diff)), Width(rest));
    assert [pred + diff] + Zeros(63) == Part(du, 1);
  }

  lemma DcReads(t: HuffTable, ht: CodeWords, diff: int, tail: nat)
    requires SpellsDc(t, ht) && Abs(diff) < 2048 && Category(Abs(diff)) <= 11
    ensures var ps, size := DcPieces(ht, diff), Category(Abs(diff));
      var v := StreamOf(ps, tail);
      var len := CodeLength(t.counts, v);
      && len <= 16 && t.values[CodeIndex(t.counts, v)] == size && Width(ps) == len + size
      && Extend(Rev(Drop(v, len), size), size) == diff && Drop(v, len + size) == tail
  {
    hide Spells, SymbolPiece, MagnitudePiece, CodeLength, CodeIndex, Drop;
    var n: byte := Category(Abs(diff));
    OnePiece(SymbolPiece(ht, n));
    SymbolWidth(ht, n);
    if diff == 0 {
      SymbolReads(t, ht, 0, tail);
    } else {
      var s, m := [SymbolPiece(ht, n)], [MagnitudePiece(diff)];
      OnePiece(MagnitudePiece(diff));
      MagnitudeWidth(diff);
      assert DcPieces(ht, diff) == s + m;
      StreamAppend(s, m, tail);
      SymbolReads(t, ht, n, StreamOf(m, tail));
      MagnitudeReads(diff, tail);
      DropDrop(StreamOf(s + m, tail), ht[n].1, n);
    }
  }

  lemma DifferenceSize()
    ensures forall d: int :: Abs(d) < 2048 ==> Category(Abs(d)) <= 11
  {
    assert Pow2(11) == 2048;
    forall d: int | Abs(d) < 2048
      ensures Category(Abs(d)) <= 11
    {
      CategoryAtMost(Abs(d), 11);
    }
  }
}
