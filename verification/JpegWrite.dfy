/** The JPEG writer's entropy coder: bits collected at the top of a word, bytes of all ones marked by a
    zero byte, and the coding of a block of quantised coefficients. */
module JpegWrite {
  import opened Bits
  import opened BitPieces
  import opened JpegBits
  import opened JpegFormat
  import opened JpegBlock

  // ----- writing bits

  class JpegSink {
    var out: seq<byte>
    var bitBuf: nat
    var bitCnt: nat
    ghost var bytes: seq<byte>  // the bytes before stuffing
    ghost var pieces: seq<Piece>

    constructor ()
      ensures Valid() && out == [] && pieces == []
    {
      out, bitBuf, bitCnt, bytes, pieces := [], 0, 0, [], [];
      new;
      RevZero(24);
    }

    /** The waiting bits, at the top of the low 24 bits of the word. */
    ghost function Pending(): nat
      reads this
    {
      Rev(bitBuf, 24)
    }

    /** Bytes and waiting bits together are the pieces written. */
    ghost predicate Consistent()
      reads this
    {
      && bitCnt <= 24 && bitBuf < 0x1_0000_0000 && Pending() < Pow2(bitCnt)
      && out == Stuffed(bytes)
      && StreamOf(pieces, 0) == BitsOf(bytes) + Shl(Pending(), 8 * |bytes|)
      && Width(pieces) == 8 * |bytes| + bitCnt
    }

    ghost predicate Valid()
      reads this
    {
      bitCnt < 8 && Consistent()
    }

    /** The pieces written have no bits beyond their width. */
    lemma Bounded()
      requires Valid()
      ensures StreamOf(pieces, 0) < Pow2(Width(pieces))
    {
      hide Rev, Shl, Pow2, BitsOf, StreamOf, Width, Stuffed;
      BitsBound(bytes);
      ConcatBound(BitsOf(bytes), 8 * |bytes|, Pending(), bitCnt);
    }

    /** Writes n bits, the top one first. */
    method WriteBits(code: nat, n: nat)
      requires Valid() && n <= 16 && code < Pow2(n)
      modifies this
      ensures Valid() && pieces == old(pieces) + [Piece(Rev(code, n), n)]
    {
      hide Rev, Shl, Or, Take, Drop, Pow2, BitsOf, StreamOf, Width, Stuffed;
      AddBits(bitBuf, 24, bitCnt, code, n);
      ghost var p := Pending();
      bitCnt := bitCnt + n;
      bitBuf := Or(bitBuf, Shl(code, 24 - bitCnt));
      StreamSnoc(pieces, Piece(Rev(code, n), n));
      pieces := pieces + [Piece(Rev(code, n), n)];
      ShlAdd(p, Shl(Rev(code, n), bitCnt - n), 8 * |bytes|);
      ShlShl(Rev(code, n), bitCnt - n, 8 * |bytes|);
      while bitCnt >= 8
        invariant Consistent() && bitCnt <= 24 && pieces == old(pieces) + [Piece(Rev(code, n), n)]
        decreases bitCnt
      {
        MoveByte(bitBuf, bitCnt, 8 * |bytes|);
        var c := Take(Drop(bitBuf, 16), 8);
        BitsAppend(bytes, [c]);
        OneByte(c);
        StuffMore(bytes, c);
        bytes := bytes + [c];
        out := out + [c];
        if c == 255 {
          out := out + [0];
        }
        bitBuf := Take(Shl(bitBuf, 8), 32);
        bitCnt := bitCnt - 8;
      }
    }
  }

  // ----- a block

  /** Number of bits of a value's magnitude, and the bits. */
  method CalcBits(val: int) returns (code: nat, n: nat)
    requires 0 < Abs(val) < 0x8000
    ensures n == Category(Abs(val)) <= 15 && code == Magnitude(val, n) < Pow2(n)
  {
    var tmp1 := Abs(val);
    var v := if val < 0 then val - 1 else val;
    n := 1;
    CategoryAtMost(Abs(val), 15);
    assert Pow2(15) == 0x8000 by { Fifteen(); }
    tmp1 := tmp1 / 2;
    while tmp1 != 0
      invariant tmp1 >= 0 && n + Category(tmp1) == Category(Abs(val))
    {
      n := n + 1;
      tmp1 := tmp1 / 2;
    }
    ExtendMagnitude(val);
    code := v % Pow2(n);
    ModOnce(v, Pow2(n), Magnitude(val, n));
  }

  lemma Fifteen()
    ensures Pow2(15) == 0x8000
  {
    assert Pow2(7) == 128;
    Pow2Byte(7);
  }

  lemma ModOnce(v: int, p: nat, m: int)
    requires 0 <= m < p && (v == m || v == m - p)
    ensures v % p == m
  {
    if v == m {
      DivModUnique(v, p, 0, m);
    } else {
      DivModUnique(v, p, -1, m);
    }
  }

  /** The code words fit their lengths. */
  ghost predicate WordsFit(ht: CodeWords) {
    forall i :: 0 <= i < 256 ==> ht[i].1 <= 16 && ht[i].0 < Pow2(ht[i].1)
  }

  method WriteSymbol(s: JpegSink, ht: CodeWords, sym: byte)
    requires s.Valid() && WordsFit(ht)
    modifies s
    ensures s.Valid() && s.pieces == old(s.pieces) + [SymbolPiece(ht, sym)]
  {
    s.WriteBits(ht[sym].0, ht[sym].1);
  }

  method WriteMagnitude(s: JpegSink, code: nat, n: nat, ghost x: int)
    requires s.Valid() && x != 0 && n == Category(Abs(x)) <= 15 && code == Magnitude(x, n) < Pow2(n)
    modifies s
    ensures s.Valid() && s.pieces == old(s.pieces) + [MagnitudePiece(x)]
  {
    s.WriteBits(code, n);
  }

  lemma {:induction false} ZerosAre(du: seq<int>, k: nat, z: nat)
    requires |du| == 64 && k + z <= 64 && (forall i :: k <= i < k + z ==> du[i] == 0) && (k + z < 64 ==> du[k + z] != 0)
    ensures ZerosAt(du, k) == z
    decreases z
  {
    if z == 0 {
    } else {
      ZerosAre(du, k + 1, z - 1);
    }
  }

  /** The loop over the coefficients after the first. */
  method WriteAc(s: JpegSink, du: array<int>, hac: CodeWords)
    requires s.Valid() && WordsFit(hac) && Baseline(du[..])
    modifies s
    ensures s.Valid() && s.pieces == old(s.pieces) + AcPieces(hac, du[..], 1)
  {
    hide AcPieces, SymbolPiece, MagnitudePiece, JpegSink.Consistent, WordsFit, Category;
    ghost var d, goal := du[..], old(s.pieces) + AcPieces(hac, du[..], 1);
    var end0pos := 63;
    while end0pos > 0 && du[end0pos] == 0
      invariant 0 <= end0pos <= 63 && forall j :: end0pos < j < 64 ==> du[j] == 0
    {
      end0pos := end0pos - 1;
    }
    AcEnd(hac, d, end0pos);
    if end0pos == 0 {
      WriteSymbol(s, hac, EOB);
      return;
    }
    var i := 1;
    assert s.pieces + AcPieces(hac, d, 1) == goal;
    while i <= end0pos
      invariant 1 <= i <= end0pos + 1 && s.Valid() && du[..] == d
      invariant s.pieces + AcPieces(hac, d, i) == goal
    {
      i := WriteRun(s, du, hac, i, end0pos, goal);
    }
    if end0pos != 63 {
      WriteSymbol(s, hac, EOB);
    } else {
      assert s.pieces + [] == s.pieces;
    }
  }

  /** Nothing but zeros is left behind the last coefficient that is not zero. */
  lemma AcEnd(hac: CodeWords, du: seq<int>, end0pos: nat)
    requires Baseline(du) && end0pos <= 63 && (forall j :: end0pos < j < 64 ==> du[j] == 0)
    ensures AcPieces(hac, du, end0pos + 1) == if end0pos == 63 then [] else [SymbolPiece(hac, EOB)]
  {
    ZerosAre(du, end0pos + 1, 63 - end0pos);
  }

  /** One run of zeros and the value after it. */
  method WriteRun(s: JpegSink, du: array<int>, hac: CodeWords, startpos: nat, end0pos: nat, ghost goal: seq<Piece>)
    returns (next: nat)
    requires s.Valid() && WordsFit(hac) && Baseline(du[..]) && 1 <= startpos <= end0pos < 64 && du[end0pos] != 0
    requires s.pieces + AcPieces(hac, du[..], startpos) == goal
    modifies s
    ensures s.Valid() && startpos < next <= end0pos + 1 && s.pieces + AcPieces(hac, du[..], next) == goal
  {
    hide AcPieces, SymbolPiece, MagnitudePiece, JpegSink.Consistent, WordsFit, Category, Pow2, Shl, Rev, Take, Drop;
    ghost var d := du[..];
    var i := startpos;
    while du[i] == 0 && i <= end0pos
      invariant startpos <= i <= end0pos && forall j :: startpos <= j < i ==> du[j] == 0
    {
      i := i + 1;
    }
    var nrzeroes := i - startpos;
    if nrzeroes >= 16 {
      var lng := nrzeroes / 16;
      for nrmarker := 0 to lng
        invariant s.Valid() && du[..] == d
        invariant s.pieces + AcPieces(hac, d, startpos + 16 * nrmarker) == goal
      {
        LongRun(hac, d, startpos + 16 * nrmarker, i);
        Regroup2(s.pieces, [SymbolPiece(hac, ZRL)], AcPieces(hac, d, startpos + 16 * nrmarker + 16));
        WriteSymbol(s, hac, ZRL);
      }
      nrzeroes := nrzeroes % 16;
    }
    ShortRun(hac, d, i - nrzeroes, i);
    var code, n := CalcBits(du[i]);
    var sym := nrzeroes * 16 + n;
    Regroup3(s.pieces, [SymbolPiece(hac, sym)], [MagnitudePiece(d[i])], AcPieces(hac, d, i + 1));
    WriteSymbol(s, hac, sym);
    WriteMagnitude(s, code, n, d[i]);
    next := i + 1;
  }

  lemma Regroup2<T>(a: seq<T>, b: seq<T>, c: seq<T>)
    ensures a + (b + c) == (a + b) + c
  {
  }

  lemma Regroup3<T>(a: seq<T>, b: seq<T>, c: seq<T>, d: seq<T>)
    ensures a + (b + c + d) == ((a + b) + c) + d
  {
  }

  lemma LongRun(hac: CodeWords, du: seq<int>, k: nat, i: nat)
    requires Baseline(du) && 1 <= k && k + 16 <= i < 64 && du[i] != 0 && (forall j :: k <= j < i ==> du[j] == 0)
    ensures AcPieces(hac, du, k) == [SymbolPiece(hac, ZRL)] + AcPieces(hac, du, k + 16)
  {
    ZerosAre(du, k, i - k);
  }

  lemma ShortRun(hac: CodeWords, du: seq<int>, k: nat, i: nat)
    requires Baseline(du) && 1 <= k <= i < 64 && i < k + 16 && du[i] != 0 && (forall j :: k <= j < i ==> du[j] == 0)
    ensures 1 <= Category(Abs(du[i])) <= 10 && Abs(du[i]) < 0x8000
    ensures AcPieces(hac, du, k)
         == [SymbolPiece(hac, 16 * (i - k) + Category(Abs(du[i])))] + [MagnitudePiece(du[i])] + AcPieces(hac, du, i + 1)
  {
    hide SymbolPiece, MagnitudePiece, Category, ZerosAt;
    ZerosAre(du, k, i - k);
    RunSize(du[i], i - k);
  }

  method WriteDc(s: JpegSink, diff: int, hdc: CodeWords)
    requires s.Valid() && WordsFit(hdc) && Abs(diff) < 2048 && Category(Abs(diff)) <= 11
    modifies s
    ensures s.Valid() && s.pieces == old(s.pieces) + DcPieces(hdc, diff)
  {
    hide SymbolPiece, MagnitudePiece, JpegSink.Consistent, WordsFit, Category;
    if diff == 0 {
      WriteSymbol(s, hdc, 0);
    } else {
      var code, n := CalcBits(diff);
      WriteSymbol(s, hdc, n);
      WriteMagnitude(s, code, n, diff);
    }
  }

  /** The quantised coefficients, given row by row, in the order of the scan. */
  ghost predicate InZigZag(q: seq<int>, du: seq<int>) {
    |q| == |du| == 64 && forall row: nat, column: nat :: row < 8 && column < 8 ==> ScannedAt(q, du, row, column)
  }

  ghost predicate ScannedAt(q: seq<int>, du: seq<int>, row: nat, column: nat)
    requires |q| == |du| == 64 && row < 8 && column < 8
  {
    ScanPlace(row, column) < 64 && du[ScanPlace(row, column)] == q[8 * row + column]
  }

  /** Codes a block of quantised coefficients, given row by row, after a block whose first coefficient
      was pred; returns the first coefficient. */
  method ProcessDU(s: JpegSink, q: seq<int>, pred: int, hdc: CodeWords, hac: CodeWords)
    returns (dc: int, ghost zig: seq<int>)
    requires s.Valid() && WordsFit(hdc) && WordsFit(hac) && |q| == 64
    requires Abs(q[0] - pred) < 2048 && forall j :: 1 <= j < 64 ==> Abs(q[j]) < 1024
    modifies s
    ensures InZigZag(q, zig) && Baseline(zig) && dc == zig[0] == q[0] && Category(Abs(zig[0] - pred)) <= 11
    ensures s.Valid() && s.pieces == old(s.pieces) + BlockPieces(hdc, hac, pred, zig)
  {
    hide AcPieces, DcPieces, JpegSink.Consistent, WordsFit, Category, ZigZag, DeZigZag;
    var du := new int[64](_ => 0);
    for j := 0 to 64
      invariant s.Valid() && s.pieces == old(s.pieces)
      invariant forall k :: 0 <= k < 64 && DeZigZag(k) < j ==> du[k] == q[DeZigZag(k)]
    {
      ZigZagInverse(j);
      forall k: nat | k < 64
        ensures DeZigZag(k) < 64 && ZigZag(DeZigZag(k)) == k
      {
        ZigZagInverse(k);
      }
      du[ZigZag(j)] := q[j];
    }
    zig := du[..];
    Zigged(q, zig);
    DifferenceSize();
    WriteDc(s, du[0] - pred, hdc);
    assert du[..] == zig;
    WriteAc(s, du, hac);
    Regroup2(old(s.pieces), DcPieces(hdc, zig[0] - pred), AcPieces(hac, zig, 1));
    dc := du[0];
  }

  lemma Zigged(q: seq<int>, zig: seq<int>)
    requires |q| == |zig| == 64 && forall k :: 0 <= k < 64 && DeZigZag(k) < 64 ==> zig[k] == q[DeZigZag(k)]
    requires forall j :: 1 <= j < 64 ==> Abs(q[j]) < 1024
    ensures InZigZag(q, zig) && Baseline(zig) && zig[0] == q[0]
  {
    hide ZigZag, DeZigZag, ScanPlace;
    FirstPlace();
    forall k: nat | k < 64
      ensures DeZigZag(k) < 64 && (k > 0 ==> DeZigZag(k) > 0)
    {
      ZigZagInverse(k);
    }
    forall row: nat, column: nat | row < 8 && column < 8
      ensures ScannedAt(q, zig, row, column)
    {
      ScanIsZigZag(row, column);
    }
  }

  lemma FirstPlace()
    ensures DeZigZag(0) == 0 && ZigZag(0) == 0
  {
  }
}
