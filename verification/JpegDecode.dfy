/** The JPEG reader's blocks, with the table that decodes a short code and its magnitude in one step. */
module JpegDecode {
  import opened Bits
  import opened Canonical
  import opened ByteSource
  import opened JpegBits
  import opened JpegFormat
  import opened JpegHuffman
  import opened JpegLost
  import opened JpegBlock
  import opened JpegRead

  // ----- the fast table for AC coefficients

  /** The bits of a nine-bit window behind a code of n bits, size of them. */
  function FieldOf(w: nat, n: nat, size: nat): nat
    requires n + size <= 9
  {
    Drop(Take(Shl(w, n), 9), 9 - size)
  }

  /** An entry packs the value, the run, and the number of bits of code and magnitude together. */
  ghost predicate Packs(t: HuffTable, w: nat, k: nat, r: int)
    requires |t.values| == 256
  {
    k < 256 && LeadsFast(t.counts, w, k)
    && var rs, len := t.values[k] as nat, SizeAt(t.counts, k);
       var run, size := rs / 16, rs % 16;
       && size > 0 && len + size <= 9
       && var x := Extend(FieldOf(w, len, size), size);
          -128 <= x <= 127 && r == x * 256 + run * 16 + (len + size)
  }

  /** The entry of a window: what packs its code and magnitude, or zero if nothing does. */
  ghost predicate PackedFor(t: HuffTable, w: nat, r: int)
    requires |t.values| == 256
  {
    && (r != 0 ==> exists k: nat :: Packs(t, w, k, r))
    && forall k: nat, x: int :: Packs(t, w, k, x) ==> x == r
  }

  ghost predicate FastAcEntry(t: HuffTable, fac: seq<int>, w: nat)
    requires |t.values| == 256
  {
    w < |fac| && PackedFor(t, w, fac[w])
  }

  ghost predicate FastAcTable(t: HuffTable, fac: seq<int>)
    requires |t.values| == 256
  {
    |fac| == 512 && forall w :: 0 <= w < 512 ==> FastAcEntry(t, fac, w)
  }

  /** Combines codes and small magnitudes that together fit nine bits. */
  method BuildFastAc(fastAc: array<int>, h: Huffman, ghost t: HuffTable)
    requires fastAc.Length == 512 && h.Represents(t) && fastAc != h.delta
    modifies fastAc
    ensures FastAcTable(t, fastAc[..])
  {
    for i := 0 to 512
      invariant forall w: nat :: w < i ==> FastAcEntry(t, fastAc[..], w)
    {
      ghost var before := fastAc[..];
      fastAc[i] := FastAcValue(h, t, i);
      MoreEntries(t, before, fastAc[..], i);
    }
  }

  lemma MoreEntries(t: HuffTable, before: seq<int>, fac: seq<int>, i: nat)
    requires |t.values| == 256 && |before| == |fac| == 512 && i < 512
    requires forall w: nat :: w < i ==> FastAcEntry(t, before, w)
    requires forall w :: 0 <= w < 512 && w != i ==> fac[w] == before[w]
    requires PackedFor(t, i, fac[i])
    ensures forall w: nat :: w < i + 1 ==> FastAcEntry(t, fac, w)
  {
    forall w: nat | w < i + 1
      ensures FastAcEntry(t, fac, w)
    {
      if w < i {
        assert FastAcEntry(t, before, w);
      }
    }
  }

  /** The value of the magnitude bits behind a code of n bits. */
  method FastMagnitude(w: nat, n: nat, magbits: nat) returns (k: int)
    requires magbits > 0 && n + magbits <= FAST_BITS
    ensures k == Extend(FieldOf(w, n, magbits), magbits)
  {
    hide Take, Drop, Shl, Pow2;
    k := Drop(Take(Shl(w, n), FAST_BITS), FAST_BITS - magbits);
    var m := Shl(1, magbits - 1);
    ShlIsMul(1, magbits - 1);
    if k < m {
      k := k - Pow2(magbits) + 1;
    }
  }

  method FastAcValue(h: Huffman, ghost t: HuffTable, i: nat) returns (r: int)
    requires h.Represents(t) && i < 512
    ensures PackedFor(t, i, r)
  {
    hide FastTable, SizeTable, CodeTable, BoundTable, Fits, LeadsFast, FirstIndex, Packs, FieldOf, Extend, PackedFor;
    r := 0;
    var fast := h.fast[i] as nat;
    if fast < 255 {
      EntryLeads(h, t, i);
      var rs := h.values[fast] as nat;
      var run, magbits := rs / 16 % 16, rs % 16;
      var len := h.size[fast] as nat;
      if magbits != 0 && len + magbits <= FAST_BITS {
        var k := FastMagnitude(i, len, magbits);
        if k >= -128 && k <= 127 {
          r := k * 256 + run * 16 + (len + magbits);
        }
      }
      PacksOne(t, i, fast, r);
    } else {
      PacksNone(h, t, i);
    }
  }

  /** The code that leads the window decides. */
  lemma PacksOne(t: HuffTable, w: nat, k: nat, r: int)
    requires |t.values| == 256 && w < 512 && k < 256 && LeadsFast(t.counts, w, k)
    requires var rs, len := t.values[k] as nat, SizeAt(t.counts, k);
      var run, size := rs / 16, rs % 16;
      if size > 0 && len + size <= 9 && -128 <= Extend(FieldOf(w, len, size), size) <= 127 then
        r == Extend(FieldOf(w, len, size), size) * 256 + run * 16 + (len + size)
      else r == 0
    ensures PackedFor(t, w, r)
  {
    hide LeadsFast, FieldOf, Extend, SizeAt;
    if r != 0 {
      assert Packs(t, w, k, r);
    }
    forall k': nat, x: int | Packs(t, w, k', x)
      ensures x == r
    {
      LeadsOnce(t.counts, w, k, k');
    }
  }

  lemma PacksNone(h: Huffman, t: HuffTable, w: nat)
    requires h.Represents(t) && w < 512 && h.fast[w] == 255
    ensures PackedFor(t, w, 0)
  {
    hide SizeTable, CodeTable, BoundTable, Fits, LeadsFast;
    assert FastEntry(t.counts, h.fast[..], FirstIndex(t.counts, 17), w);
    forall k: nat, x: int
      ensures !Packs(t, w, k, x)
    {
      if LeadsFast(t.counts, w, k) {
        LeadsOk(t.counts, w, k);
        ShortIndex(t.counts, k);
      }
    }
  }

  lemma EntryLeads(h: Huffman, t: HuffTable, w: nat)
    requires h.Represents(t) && w < 512 && h.fast[w] < 255
    ensures LeadsFast(t.counts, w, h.fast[w]) && h.size[h.fast[w]] == SizeAt(t.counts, h.fast[w])
    ensures h.values[h.fast[w]] == t.values[h.fast[w]]
  {
    hide CodeTable, BoundTable, Fits;
    assert FastEntry(t.counts, h.fast[..], FirstIndex(t.counts, 17), w);
    assert SizeEntry(t.counts, h.size[..], h.fast[w]);
  }

  /** What an entry says of a stream with that window is what decoding the symbol and then its magnitude
      gives, in the same number of bits. */
  lemma PackedReads(t: HuffTable, v: nat, k: nat, r: int)
    requires |t.values| == 256 && t.Total() <= 256 && Packs(t, Rev(v, 9), k, r)
    ensures var len := CodeLength(t.counts, v);
      len <= 9 &&
      var rs := t.values[CodeIndex(t.counts, v)] as nat;
      var size := rs % 16;
      && size > 0 && r % 16 == len + size <= 9
      && r / 16 % 16 == rs / 16
      && r / 256 == Extend(Rev(Drop(v, len), size), size)
  {
    hide CodeLength, CodeIndex, LeadsFast, Rev, Drop, Extend, Take, Shl;
    LeadsOk(t.counts, Rev(v, 9), k);
    LeadsIsRead(t.counts, v, k);
    var rs, len := t.values[k] as nat, SizeAt(t.counts, k);
    var run, size := rs / 16, rs % 16;
    var x := Extend(FieldOf(Rev(v, 9), len, size), size);
    FieldInside(v, 9, len, size);
    DivModUnique(r, 16, x * 16 + run, len + size);
    DivModUnique(r, 256, x, run * 16 + len + size);
    DivModUnique(x * 16 + run, 16, x, run);
  }

  // ----- blocks

  const INT_MIN := -0x8000_0000

  /** Conversion to a 16-bit integer. */
  function ToShort(x: int): int {
    (x + 0x8000) % 0x1_0000 - 0x8000
  }

  predicate AddIntsValid(a: int, b: int) {
    if (a >= 0) != (b >= 0) then true
    else if a < 0 && b < 0 then a >= INT_MIN - b
    else a <= INT_MAX - b
  }

  /** Division as in C, for a positive divisor. */
  function Quotient(a: int, b: nat): int
    requires b > 0
  {
    if a >= 0 then a / b else -(-a / b)
  }

  /** The product of a and a quantisation step fits 16 bits. */
  predicate Mul2ShortsValid(a: int, b: nat) {
    if b == 0 then true
    else if a >= 0 then a <= Quotient(32767, b)
    else a >= Quotient(-32768, b)
  }

  /** The checks hold exactly when there is no overflow. */
  lemma AddIntsExact(a: int, b: int)
    requires INT_MIN <= a <= INT_MAX && INT_MIN <= b <= INT_MAX
    ensures AddIntsValid(a, b) <==> -0x8000_0000 <= a + b <= 0x7FFF_FFFF
  {
  }

  lemma MulShortsExact(a: int, b: nat)
    ensures Mul2ShortsValid(a, b) <==> -32768 <= a * b <= 32767
  {
    if b > 0 {
      if a >= 0 {
        DivBounds(32767, b, a);
      } else {
        DivBounds(32768, b, -a);
        assert (-a) * b == -(a * b);
      }
    } else {
      assert a * b == 0;
    }
  }

  lemma DivBounds(n: nat, b: nat, a: nat)
    requires b > 0
    ensures a <= n / b <==> a * b <= n
  {
    var q, r := n / b, n % b;
    assert n == q * b + r;
    if a <= q {
      MulLe(a, q, b);
    } else {
      MulLe(q + 1, a, b);
      assert (q + 1) * b == q * b + b;
    }
  }

  /** The block shows the coefficients row by row, each multiplied by its quantisation step. */
  ghost predicate Shows(data: seq<int>, du: seq<int>, dequant: seq<nat>) {
    |data| == |du| == |dequant| == 64
    && forall row: nat, column: nat :: row < 8 && column < 8 ==> ShownAt(data, du, dequant, row, column)
  }

  ghost predicate ShownAt(data: seq<int>, du: seq<int>, dequant: seq<nat>, row: nat, column: nat)
    requires |data| == |du| == |dequant| == 64 && row < 8 && column < 8
  {
    var k, j := ScanPlace(row, column), 8 * row + column;
    k < 64 && data[j] == ToShort(du[k] * dequant[j])
  }

  lemma ShowsZeros(data: seq<int>, dc: int, dequant: seq<nat>)
    requires |data| == |dequant| == 64 && data[0] == ToShort(dc * dequant[0])
    requires forall i :: 1 <= i < 64 ==> data[i] == 0
    ensures Shows(data, [dc] + Zeros(63), dequant)
  {
    hide DeZigZag, ZigZag, ScanPlace;
    var du := [dc] + Zeros(63);
    forall row: nat, column: nat | row < 8 && column < 8
      ensures ShownAt(data, du, dequant, row, column)
    {
      var k, j := ScanPlace(row, column), 8 * row + column;
      ScanIsZigZag(row, column);
      FirstIsFirst(k);
      if k > 0 {
        assert du[k] == 0;
        assert 0 * dequant[j] == 0;
      }
    }
  }

  lemma FirstIsFirst(k: nat)
    requires k < 64
    ensures DeZigZag(k) == 0 <==> k == 0
  {
    hide DeZigZag, ZigZag;
    assert DeZigZag(0) == 0 && ZigZag(0) == 0 by { FirstPlaces(); }
    ZigZagInverse(k);
  }

  lemma FirstPlaces()
    ensures DeZigZag(0) == 0 && ZigZag(0) == 0
  {
  }

  /** Storing a coefficient at its place. */
  lemma ShowsMore(data: seq<int>, du: seq<int>, dequant: seq<nat>, k: nat, x: int)
    requires Shows(data, du, dequant) && k < 79
    ensures DeZigZag(k) < 64
    ensures var zig := DeZigZag(k);
      Shows(data[zig := ToShort(x * dequant[zig])], du[Position(k) := x], dequant)
  {
    hide DeZigZag, ZigZag, ToShort, ScanPlace;
    var p := Position(k);
    PastTheEnd(k);
    ZigZagInverse(p);
    var zig := DeZigZag(k);
    var more, next := data[zig := ToShort(x * dequant[zig])], du[p := x];
    forall row: nat, column: nat | row < 8 && column < 8
      ensures ShownAt(more, next, dequant, row, column)
    {
      ScanIsZigZag(row, column);
      assert ShownAt(data, du, dequant, row, column);
      assert 8 * row + column == zig <==> ScanPlace(row, column) == p;
    }
  }

  // ----- the first coefficient

  predicate DcOk(t: HuffTable, v: nat)
    requires |t.values| == 256 && t.Total() <= 256
  {
    CodeLength(t.counts, v) <= 16 && t.values[CodeIndex(t.counts, v)] <= 15
  }

  function DcSize(t: HuffTable, v: nat): nat
    requires |t.values| == 256 && t.Total() <= 256 && DcOk(t, v)
  {
    t.values[CodeIndex(t.counts, v)]
  }

  function DcBits(t: HuffTable, v: nat): nat
    requires |t.values| == 256 && t.Total() <= 256 && DcOk(t, v)
  {
    CodeLength(t.counts, v) + DcSize(t, v)
  }

  function DcDiff(t: HuffTable, v: nat): int
    requires |t.values| == 256 && t.Total() <= 256 && DcOk(t, v)
  {
    Extend(Rev(Drop(v, CodeLength(t.counts, v)), DcSize(t, v)), DcSize(t, v))
  }

  lemma BlockSplit(dc: HuffTable, ac: HuffTable, pred: int, v: nat)
    requires |dc.values| == 256 && dc.Total() <= 256 && |ac.values| == 256 && ac.Total() <= 256
    ensures !DcOk(dc, v) ==> BlockFrom(dc, ac, pred, v).Bad?
    ensures DcOk(dc, v) ==>
      var n := DcBits(dc, v);
      BlockFrom(dc, ac, pred, v) == AcFrom(ac, Drop(v, n), 1, [pred + DcDiff(dc, v)] + Zeros(63)).After(n)
  {
    hide CodeLength, CodeIndex, Drop, Rev, AcFrom, Extend, Zeros;
  }

  /** The outcome, from stream v with `left` bits before the marker. */
  ghost predicate DcDone(t: HuffTable, v: nat, left: int, pred: int, step: nat, ok: bool, dc: int, v': nat, left': int)
    requires |t.values| == 256 && t.Total() <= 256
  {
    if !DcOk(t, v) then !ok
    else DcBits(t, v) <= left ==>
      && (ok <==> AddIntsValid(pred, DcDiff(t, v)) && Mul2ShortsValid(pred + DcDiff(t, v), step))
      && (ok ==> v' == Drop(v, DcBits(t, v)) && left' >= left - DcBits(t, v) && dc == pred + DcDiff(t, v))
  }

  /** No difference can be taken: no code leads the stream, it is not all there, or it stands for none. */
  ghost predicate NoDiff(t: HuffTable, v: nat, left: int)
    requires |t.values| == 256 && t.Total() <= 256
  {
    var len := CodeLength(t.counts, v);
    len > 16 || left < len || t.values[CodeIndex(t.counts, v)] > 15
  }

  /** A difference that n bits tell; if its magnitude is not all there it is zero, and only the symbol is
      consumed. */
  ghost predicate OneDiff(t: HuffTable, v: nat, left: int, diff: int, n: nat)
    requires |t.values| == 256 && t.Total() <= 256
  {
    && DcOk(t, v)
    && (|| (n == DcBits(t, v) && diff == DcDiff(t, v))
        || (left < DcBits(t, v) && n == CodeLength(t.counts, v) && diff == 0))
  }

  /** The outcome for the first coefficient, from stream v with `left` bits before the marker. */
  ghost predicate DcMay(t: HuffTable, v: nat, left: int, pred: int, step: nat, ok: bool, dc: int, v': nat, left': int)
    requires |t.values| == 256 && t.Total() <= 256
  {
    || (!ok && NoDiff(t, v, left))
    || exists diff: int, n: nat ::
         && OneDiff(t, v, left, diff, n)
         && (ok <==> AddIntsValid(pred, diff) && Mul2ShortsValid(pred + diff, step))
         && (ok ==> v' == Drop(v, n) && left' >= left - n && dc == pred + diff)
  }

  /** With bits enough it is the one difference. */
  lemma DcEnough(t: HuffTable, v: nat, left: int, pred: int, step: nat, ok: bool, dc: int, v': nat, left': int)
    requires |t.values| == 256 && t.Total() <= 256 && DcMay(t, v, left, pred, step, ok, dc, v', left')
    ensures DcDone(t, v, left, pred, step, ok, dc, v', left')
  {
    hide CodeLength, CodeIndex, DcDiff, AddIntsValid, Mul2ShortsValid, Drop;
  }

  /** The difference to the block before, with the checks on sums and products. */
  method DecodeDc(j: Jpeg, h: Huffman, pred: int, step: nat, ghost t: HuffTable) returns (ok: bool, dc: int)
    requires j.Valid() && h.Represents(t)
    modifies j, j.s
    ensures DcMay(t, old(j.Stream()), old(j.Real()), pred, step, ok, dc, j.Stream(), j.Real())
    ensures ok ==> j.Valid()
  {
    hide CodeLength, CodeIndex, Drop, Rev, Jpeg.Stream, Jpeg.Real, AddIntsValid, Mul2ShortsValid, Extend, Lost;
    hide OneDiff, DcMay, Fits, SizeTable, CodeTable, BoundTable, FastTable;
    dc := pred;
    ghost var v, left := j.Stream(), j.Real();
    if j.codeBits < 16 {
      j.GrowBufferUnsafe();
    }
    NoneLost(t.counts, v);
    var size := j.HuffDecode(h, t);
    if size < 0 || size > 15 {
      NotBegun(t, v, left, pred, step, dc, j.Stream(), j.Real());
      return false, dc;
    }
    var diff := 0;
    ghost var n: nat := CodeLength(t.counts, v);
    if size != 0 {
      ghost var v1, left1 := j.Stream(), j.Real();
      diff := j.ExtendReceive(size);
      n := DiffRead(t, v, left, size, v1, left1, diff, j.Stream(), j.Real());
    } else {
      NoDifference(t, v, left);
    }
    DcTaken(t, v, left, pred, step, diff, n, j.Stream(), j.Real());
    if !AddIntsValid(pred, diff) {
      return false, dc;
    }
    dc := pred + diff;
    ok := Mul2ShortsValid(dc, step);
  }

  /** What the difference leads to. */
  lemma DcTaken(t: HuffTable, v: nat, left: int, pred: int, step: nat, diff: int, n: nat, v': nat, left': int)
    requires |t.values| == 256 && t.Total() <= 256 && OneDiff(t, v, left, diff, n)
    requires v' == Drop(v, n) && left' >= left - n
    ensures
      if AddIntsValid(pred, diff) && Mul2ShortsValid(pred + diff, step) then
        DcMay(t, v, left, pred, step, true, pred + diff, v', left')
      else forall dc: int :: DcMay(t, v, left, pred, step, false, dc, v', left')
  {
    hide OneDiff, Drop, AddIntsValid, Mul2ShortsValid;
    forall dc: int | !(AddIntsValid(pred, diff) && Mul2ShortsValid(pred + diff, step))
      ensures DcMay(t, v, left, pred, step, false, dc, v', left')
    {
    }
  }

  lemma NotBegun(t: HuffTable, v: nat, left: int, pred: int, step: nat, dc: int, v': nat, left': int)
    requires |t.values| == 256 && t.Total() <= 256 && NoDiff(t, v, left)
    ensures DcMay(t, v, left, pred, step, false, dc, v', left')
  {
    hide NoDiff;
  }

  lemma DiffRead(t: HuffTable, v: nat, left: int, size: nat, v1: nat, left1: int, diff: int, v2: nat, left2: int)
    returns (n: nat)
    requires |t.values| == 256 && t.Total() <= 256 && DcOk(t, v) && size == DcSize(t, v)
    requires v1 == Drop(v, CodeLength(t.counts, v)) && left1 >= left - CodeLength(t.counts, v)
    requires
      || (diff == Extend(Rev(v1, size), size) && v2 == Drop(v1, size) && left2 >= left1 - size)
      || (left1 < size && diff == 0 && v2 == v1 && left2 >= left1)
    ensures OneDiff(t, v, left, diff, n) && v2 == Drop(v, n) && left2 >= left - n
  {
    hide CodeLength, CodeIndex, Drop, Rev, Extend;
    DropDrop(v, CodeLength(t.counts, v), size);
    n := CodeLength(t.counts, v);
    if diff == Extend(Rev(v1, size), size) && v2 == Drop(v1, size) && left2 >= left1 - size {
      n := n + size;
    }
  }

  lemma NoDifference(t: HuffTable, v: nat, left: int)
    requires |t.values| == 256 && t.Total() <= 256 && DcOk(t, v) && DcSize(t, v) == 0
    ensures OneDiff(t, v, left, 0, CodeLength(t.counts, v))
  {
    hide CodeLength, CodeIndex, Drop;
    NoMagnitude(Drop(v, CodeLength(t.counts, v)));
  }

  lemma NoMagnitude(v: nat)
    ensures Extend(Rev(v, 0), 0) == 0
  {
  }

  // ----- the other coefficients

  datatype Going = More | Stop | Failed

  /** No symbol can be taken: no code leads the stream, or it or its magnitude is not all there. */
  ghost predicate NoneTaken(t: HuffTable, v: nat, left: int)
    requires |t.values| == 256 && t.Total() <= 256
  {
    var len := CodeLength(t.counts, v);
    len > 16 || left < len || left < len + t.values[CodeIndex(t.counts, v)] % 16
  }

  /** A symbol of n bits at position k, and where it leads; if its magnitude is not all there the value is
      zero, and only the symbol is consumed. */
  ghost predicate OneSymbol(t: HuffTable, v: nat, left: int, k: nat, du: seq<int>, next: nat, du': seq<int>, n: nat)
    requires |t.values| == 256 && t.Total() <= 256 && |du| == 64
  {
    var len := CodeLength(t.counts, v);
    && len <= 16
    && var rs := t.values[CodeIndex(t.counts, v)] as nat;
       var run, size := rs / 16, rs % 16;
       if size == 0 then du' == du && n == len && next == if rs == ZRL then k + 16 else 64
       else
         && next == k + run + 1
         && (|| (n == len + size && du' == du[Position(k + run) := Extend(Rev(Drop(v, len), size), size)])
             || (left < len + size && n == len && du' == du[Position(k + run) := 0]))
  }

  /** What decoding the coefficients from position k on can lead to, with `left` bits before the marker. */
  ghost predicate AcMay(t: HuffTable, v: nat, left: int, k: nat, du: seq<int>, ok: bool, du': seq<int>,
                        v': nat, left': int)
    requires |t.values| == 256 && t.Total() <= 256 && |du| == 64 && k < 64
    decreases 64 - k
  {
    || (!ok && NoneTaken(t, v, left))
    || exists next: nat, du1: seq<int>, n: nat ::
         && OneSymbol(t, v, left, k, du, next, du1, n) && |du1| == 64 && next > k
         && if next >= 64 then ok && du' == du1 && v' == Drop(v, n) && left' >= left - n
            else AcMay(t, Drop(v, n), left - n, next, du1, ok, du', v', left')
  }

  /** What one symbol does. */
  ghost predicate Stepped(t: HuffTable, v: nat, left: int, k: nat, du: seq<int>, going: Going, next: nat, du': seq<int>,
                          v': nat, left': int)
    requires |t.values| == 256 && t.Total() <= 256 && |du| == 64
  {
    if going == Failed then NoneTaken(t, v, left)
    else
      && (going == Stop <==> next >= 64)
      && exists n: nat :: OneSymbol(t, v, left, k, du, next, du', n) && v' == Drop(v, n) && left' >= left - n
  }

  /** What is promised for more bits holds for fewer. */
  lemma {:induction false} AcFewer(t: HuffTable, v: nat, left0: int, left: int, k: nat, du: seq<int>, ok: bool,
                                   du': seq<int>, v': nat, left': int)
    requires |t.values| == 256 && t.Total() <= 256 && |du| == 64 && k < 64 && left0 <= left
    requires AcMay(t, v, left, k, du, ok, du', v', left')
    ensures AcMay(t, v, left0, k, du, ok, du', v', left')
    decreases 64 - k
  {
    hide CodeLength, CodeIndex, Drop, Rev, Extend, Position;
    if !ok && NoneTaken(t, v, left) {
    } else {
      var next: nat, du1: seq<int>, n: nat :|
        && OneSymbol(t, v, left, k, du, next, du1, n) && |du1| == 64 && next > k
        && if next >= 64 then ok && du' == du1 && v' == Drop(v, n) && left' >= left - n
           else AcMay(t, Drop(v, n), left - n, next, du1, ok, du', v', left');
      assert OneSymbol(t, v, left0, k, du, next, du1, n);
      if next < 64 {
        AcFewer(t, Drop(v, n), left0 - n, left - n, next, du1, ok, du', v', left');
      }
    }
  }

  /** A value at position k, after the run that led there. */
  lemma ValueStep(t: HuffTable, v: nat, k: nat, du: seq<int>)
    requires |t.values| == 256 && t.Total() <= 256 && |du| == 64 && k < 64
    requires CodeLength(t.counts, v) <= 16 && t.values[CodeIndex(t.counts, v)] % 16 != 0
    ensures var len, rs := CodeLength(t.counts, v), t.values[CodeIndex(t.counts, v)] as nat;
      var run, size := rs / 16, rs % 16;
      var next, n := du[Position(k + run) := Extend(Rev(Drop(v, len), size), size)], len + size;
      AcFrom(t, v, k, du)
      == if k + run + 1 >= 64 then Good(next, n) else AcFrom(t, Drop(v, n), k + run + 1, next).After(n)
  {
    hide CodeLength, CodeIndex, Drop, Rev, Extend;
  }

  lemma MarkStep(t: HuffTable, v: nat, k: nat, du: seq<int>)
    requires |t.values| == 256 && t.Total() <= 256 && |du| == 64 && k < 64
    ensures CodeLength(t.counts, v) > 16 ==> AcFrom(t, v, k, du) == Bad(0)
    ensures CodeLength(t.counts, v) <= 16 && t.values[CodeIndex(t.counts, v)] % 16 == 0 ==>
      AcFrom(t, v, k, du)
      == if t.values[CodeIndex(t.counts, v)] != ZRL || k + 16 >= 64 then Good(du, CodeLength(t.counts, v))
         else AcFrom(t, Drop(v, CodeLength(t.counts, v)), k + 16, du).After(CodeLength(t.counts, v))
  {
    hide CodeLength, CodeIndex, Drop, Rev, Extend;
  }

  /** Every decoding takes at least the bits of its first symbol. */
  lemma AtLeastSymbol(t: HuffTable, v: nat, k: nat, du: seq<int>)
    requires |t.values| == 256 && t.Total() <= 256 && |du| == 64 && k < 64 && CodeLength(t.counts, v) <= 16
    ensures AcFrom(t, v, k, du).used >= CodeLength(t.counts, v) + t.values[CodeIndex(t.counts, v)] % 16
  {
    hide CodeLength, CodeIndex, Drop, Rev, Extend;
  }

  /** The decoding that began at v0 has ended, if there were enough bits. */
  ghost predicate Finished(goal: Decoded, v0: nat, left0: int, ok: bool, du: seq<int>, v: nat, left: int) {
    goal.used <= left0 ==>
      && (ok <==> goal.Good?)
      && (ok ==> goal.du == du && v == Drop(v0, goal.used) && left >= left0 - goal.used)
  }

  /** With bits enough there is one outcome. */
  lemma {:induction false} AcEnough(t: HuffTable, v: nat, left: int, k: nat, du: seq<int>, ok: bool, du': seq<int>,
                                    v': nat, left': int)
    requires |t.values| == 256 && t.Total() <= 256 && |du| == 64 && k < 64
    requires AcMay(t, v, left, k, du, ok, du', v', left')
    ensures Finished(AcFrom(t, v, k, du), v, left, ok, du', v', left')
    decreases 64 - k
  {
    hide CodeLength, CodeIndex, Drop, Rev, Extend, Position, AcFrom;
    MarkStep(t, v, k, du);
    if CodeLength(t.counts, v) > 16 {
    } else {
      AtLeastSymbol(t, v, k, du);
      if !ok && NoneTaken(t, v, left) {
      } else {
        var next: nat, du1: seq<int>, n: nat :|
          && OneSymbol(t, v, left, k, du, next, du1, n) && |du1| == 64 && next > k
          && if next >= 64 then ok && du' == du1 && v' == Drop(v, n) && left' >= left - n
             else AcMay(t, Drop(v, n), left - n, next, du1, ok, du', v', left');
        if t.values[CodeIndex(t.counts, v)] % 16 != 0 {
          ValueStep(t, v, k, du);
        }
        if next < 64 {
          AcEnough(t, Drop(v, n), left - n, next, du1, ok, du', v', left');
          DropDrop(v, n, AcFrom(t, Drop(v, n), next, du1).used);
        }
      }
    }
  }

  /** Stores a value and moves on. */
  method Store(data: array<int>, k0: nat, x: int, dequant: seq<nat>, ghost du: seq<int>) returns (k: nat)
    requires k0 < 79 && data.Length == 64 && Shows(data[..], du, dequant)
    modifies data
    ensures k == k0 + 1 && |du| == 64 && Shows(data[..], du[Position(k0) := x], dequant)
  {
    ShowsMore(data[..], du, dequant, k0, x);
    var zig := DeZigZag(k0);
    k := k0 + 1;
    data[zig] := ToShort(x * dequant[zig]);
  }

  /** The symbol taken. */
  lemma Taken(t: HuffTable, v: nat, left: int, k: nat, du: seq<int>, next: nat, du': seq<int>, n: nat,
              v': nat, left': int)
    requires |t.values| == 256 && t.Total() <= 256 && |du| == 64
    requires OneSymbol(t, v, left, k, du, next, du', n) && v' == Drop(v, n) && left' >= left - n
    ensures Stepped(t, v, left, k, du, if next < 64 then More else Stop, next, du', v', left')
  {
    hide OneSymbol, Drop;
  }

  /** A value taken in two steps, or its symbol alone if its magnitude is not all there. */
  lemma ValueTaken(t: HuffTable, v: nat, left: int, k: nat, du: seq<int>, x: int, v1: nat, left1: int,
                   v2: nat, left2: int)
    requires |t.values| == 256 && t.Total() <= 256 && |du| == 64 && k < 64 && CodeLength(t.counts, v) <= 16
    requires var len := CodeLength(t.counts, v);
      var size := t.values[CodeIndex(t.counts, v)] as nat % 16;
      && size != 0 && v1 == Drop(v, len) && left1 >= left - len
      && (|| (x == Extend(Rev(v1, size), size) && v2 == Drop(v1, size) && left2 >= left1 - size)
          || (left1 < size && x == 0 && v2 == v1 && left2 >= left1))
    ensures var next := k + t.values[CodeIndex(t.counts, v)] as nat / 16;
      Stepped(t, v, left, k, du, if next + 1 < 64 then More else Stop, next + 1, du[Position(next) := x], v2, left2)
  {
    hide CodeLength, CodeIndex, Drop, Rev, Extend, Position, Stepped;
    var len, rs := CodeLength(t.counts, v), t.values[CodeIndex(t.counts, v)] as nat;
    var size, next := rs % 16, k + rs / 16;
    DropDrop(v, len, size);
    if x == Extend(Rev(v1, size), size) && v2 == Drop(v1, size) && left2 >= left1 - size {
      Taken(t, v, left, k, du, next + 1, du[Position(next) := x], len + size, v2, left2);
    } else {
      Taken(t, v, left, k, du, next + 1, du[Position(next) := x], len, v2, left2);
    }
  }

  /** A symbol without a value: sixteen zeros, or the end of the block. */
  lemma MarkTaken(t: HuffTable, v: nat, left: int, k: nat, du: seq<int>, v': nat, left': int)
    requires |t.values| == 256 && t.Total() <= 256 && |du| == 64 && k < 64 && CodeLength(t.counts, v) <= 16
    requires t.values[CodeIndex(t.counts, v)] % 16 == 0
    requires v' == Drop(v, CodeLength(t.counts, v)) && left' >= left - CodeLength(t.counts, v)
    ensures var next := if t.values[CodeIndex(t.counts, v)] == ZRL then k + 16 else 64;
      Stepped(t, v, left, k, du, if next < 64 then More else Stop, next, du, v', left')
  {
    hide CodeLength, CodeIndex, Drop, Rev, Extend, Position, Stepped;
    var next := if t.values[CodeIndex(t.counts, v)] == ZRL then k + 16 else 64;
    Taken(t, v, left, k, du, next, du, CodeLength(t.counts, v), v', left');
  }

  lemma NotTaken(t: HuffTable, v: nat, left: int, k: nat, du: seq<int>, next: nat, du': seq<int>, v': nat, left': int)
    requires |t.values| == 256 && t.Total() <= 256 && |du| == 64 && NoneTaken(t, v, left)
    ensures Stepped(t, v, left, k, du, Failed, next, du', v', left')
  {
    hide NoneTaken;
  }

  /** The fast path: entry r of the table. */
  method DecodePacked(j: Jpeg, data: array<int>, r: int, k0: nat, dequant: seq<nat>, ghost t: HuffTable,
                      ghost du: seq<int>, ghost id: nat)
    returns (going: Going, k: nat, ghost du': seq<int>)
    requires j.Valid() && (j.codeBits >= 16 || j.Filled()) && t.Usable() && Packs(t, Rev(j.Stream(), 9), id, r)
    requires k0 < 64
    requires data.Length == 64 && |du| == 64 && Shows(data[..], du, dequant)
    modifies j`codeBuffer, j`codeBits, data
    ensures Stepped(t, old(j.Stream()), old(j.Real()), k0, du, going, k, du', j.Stream(), j.Real())
    ensures going != Failed ==>
      j.Valid() && |du'| == 64 && Shows(data[..], du', dequant) && k > k0 && (going == More ==> k < 64)
  {
    hide Packs, AcFrom, Shows, CodeLength, CodeIndex, Drop, Rev, Extend, Shl, Pow2, Fits, Stepped;
    hide Jpeg.Stream, Jpeg.Real, Jpeg.Valid, Jpeg.Filled;
    ghost var v, left := j.Stream(), j.Real();
    PackedReads(t, v, id, r);
    k, du' := k0 + r / 16 % 16, du;
    var n := r % 16;
    if n > j.codeBits {
      j.Short(n);
      NotTaken(t, v, left, k0, du, k, du', v, left);
      return Failed, k, du';
    }
    j.Consume(n);
    du' := du[Position(k) := r / 256];
    k := Store(data, k, r / 256, dequant, du);
    going := if k < 64 then More else Stop;
    Taken(t, v, left, k0, du, k, du', n, j.Stream(), j.Real());
  }

  /** The slow path. */
  method DecodePlain(j: Jpeg, data: array<int>, h: Huffman, k0: nat, dequant: seq<nat>, ghost t: HuffTable,
                     ghost du: seq<int>)
    returns (going: Going, k: nat, ghost du': seq<int>)
    requires j.Valid() && h.Represents(t) && k0 < 64 && data.Length == 64 && data != h.delta && |du| == 64
    requires Shows(data[..], du, dequant)
    modifies j, j.s, data
    ensures Stepped(t, old(j.Stream()), old(j.Real()), k0, du, going, k, du', j.Stream(), j.Real())
    ensures going != Failed ==>
      j.Valid() && |du'| == 64 && Shows(data[..], du', dequant) && k > k0 && (going == More ==> k < 64)
  {
    hide AcFrom, Shows, CodeLength, CodeIndex, Drop, Rev, Extend, Shl, Pow2, Fits, SizeTable, CodeTable;
    hide BoundTable, FastTable, Stepped, Jpeg.Stream, Jpeg.Real, Jpeg.Valid, Lost;
    ghost var v, left := j.Stream(), j.Real();
    k, du' := k0, du;
    NoneLost(t.counts, v);
    var rs := j.HuffDecode(h, t);
    if rs < 0 {
      NotTaken(t, v, left, k0, du, k, du', j.Stream(), j.Real());
      return Failed, k, du';
    }
    var size, run := rs % 16, rs / 16;
    ghost var v1, left1 := j.Stream(), j.Real();
    if size == 0 {
      MarkTaken(t, v, left, k0, du, v1, left1);
      if rs != 0xf0 {
        return Stop, 64, du';
      }
      k := k + 16;
    } else {
      k := k + run;
      var x := j.ExtendReceive(size);
      du' := du[Position(k) := x];
      k := Store(data, k, x, dequant, du);
      ValueTaken(t, v, left, k0, du, x, v1, left1, j.Stream(), j.Real());
    }
    going := if k < 64 then More else Stop;
  }

  /** One symbol, by way of the fast table if it has an entry. */
  method DecodeSymbol(j: Jpeg, data: array<int>, h: Huffman, fac: array<int>, k0: nat, dequant: seq<nat>,
                      ghost t: HuffTable, ghost du: seq<int>)
    returns (going: Going, k: nat, ghost du': seq<int>)
    requires j.Valid() && h.Represents(t) && FastAcTable(t, fac[..]) && k0 < 64 && data.Length == 64
    requires data != fac && data != h.delta && |du| == 64 && Shows(data[..], du, dequant)
    modifies j, j.s, data
    ensures Stepped(t, old(j.Stream()), old(j.Real()), k0, du, going, k, du', j.Stream(), j.Real())
    ensures going != Failed ==>
      j.Valid() && |du'| == 64 && Shows(data[..], du', dequant) && k > k0 && (going == More ==> k < 64)
  {
    hide Shows, CodeLength, CodeIndex, Drop, Rev, Extend, Shl, Pow2, Fits, SizeTable, CodeTable, BoundTable;
    hide FastTable, Packs, Jpeg.Stream, Jpeg.Real, Stepped;
    ghost var left0 := j.Real();
    if j.codeBits < 16 {
      j.GrowBufferUnsafe();
    }
    ghost var v, left := j.Stream(), j.Real();
    j.Peek(9);
    NineBits();
    var w := Drop(j.codeBuffer, 32 - FAST_BITS);
    var r := fac[w];
    if r != 0 {
      assert FastAcEntry(t, fac[..], w);
      ghost var id: nat :| Packs(t, w, id, r);
      going, k, du' := DecodePacked(j, data, r, k0, dequant, t, du, id);
    } else {
      going, k, du' := DecodePlain(j, data, h, k0, dequant, t, du);
    }
    SteppedFewer(t, v, left0, left, k0, du, going, k, du', j.Stream(), j.Real());
  }

  /** Zeros may have been supplied meanwhile; what was promised for more bits holds for fewer. */
  lemma SteppedFewer(t: HuffTable, v: nat, left0: int, left: int, k: nat, du: seq<int>, going: Going, next: nat,
                     du': seq<int>, v': nat, left': int)
    requires |t.values| == 256 && t.Total() <= 256 && |du| == 64 && left0 <= left
    requires Stepped(t, v, left, k, du, going, next, du', v', left')
    ensures Stepped(t, v, left0, k, du, going, next, du', v', left')
  {
    hide CodeLength, CodeIndex, Drop, Rev, Extend, Position;
    if going != Failed {
      var n: nat :| OneSymbol(t, v, left, k, du, next, du', n) && v' == Drop(v, n) && left' >= left - n;
      assert OneSymbol(t, v, left0, k, du, next, du', n);
    }
  }

  /** Where the decoding that began at v0 has come: what it can lead to from here, it can from there. */
  ghost predicate Reached(t: HuffTable, v0: nat, left0: int, du0: seq<int>, k: nat, du: seq<int>, v: nat, left: int)
    requires |t.values| == 256 && t.Total() <= 256 && |du0| == |du| == 64 && k < 64
  {
    forall ok: bool, du': seq<int>, v': nat, left': int ::
      AcMay(t, v, left, k, du, ok, du', v', left') ==> AcMay(t, v0, left0, 1, du0, ok, du', v', left')
  }

  lemma GoesOn(t: HuffTable, v0: nat, left0: int, du0: seq<int>, k: nat, du: seq<int>, v: nat, left: int,
               next: nat, du1: seq<int>, v1: nat, left1: int)
    requires |t.values| == 256 && t.Total() <= 256 && |du0| == |du| == |du1| == 64 && k < next < 64
    requires Reached(t, v0, left0, du0, k, du, v, left) && Stepped(t, v, left, k, du, More, next, du1, v1, left1)
    ensures Reached(t, v0, left0, du0, next, du1, v1, left1)
  {
    hide OneSymbol, NoneTaken, Drop;
    var n: nat :| OneSymbol(t, v, left, k, du, next, du1, n) && v1 == Drop(v, n) && left1 >= left - n;
    forall ok: bool, du': seq<int>, v': nat, left': int | AcMay(t, v1, left1, next, du1, ok, du', v', left')
      ensures AcMay(t, v0, left0, 1, du0, ok, du', v', left')
    {
      AcFewer(t, v1, left - n, left1, next, du1, ok, du', v', left');
      assert AcMay(t, v, left, k, du, ok, du', v', left');
    }
  }

  lemma Ends(t: HuffTable, v0: nat, left0: int, du0: seq<int>, k: nat, du: seq<int>, v: nat, left: int,
             going: Going, next: nat, du1: seq<int>, v1: nat, left1: int)
    requires |t.values| == 256 && t.Total() <= 256 && |du0| == |du| == 64 && k < 64 && going != More
    requires Reached(t, v0, left0, du0, k, du, v, left) && Stepped(t, v, left, k, du, going, next, du1, v1, left1)
    requires going == Stop ==> |du1| == 64
    ensures AcMay(t, v0, left0, 1, du0, going == Stop, du1, v1, left1)
  {
    hide OneSymbol, NoneTaken, Drop;
    assert AcMay(t, v, left, k, du, going == Stop, du1, v1, left1);
  }

  /** The coefficients after the first. */
  method DecodeAc(j: Jpeg, data: array<int>, h: Huffman, fac: array<int>, dequant: seq<nat>, ghost t: HuffTable,
                  ghost du0: seq<int>)
    returns (ok: bool, ghost du: seq<int>)
    requires j.Valid() && h.Represents(t) && FastAcTable(t, fac[..]) && data.Length == 64
    requires data != fac && data != h.delta && |du0| == 64 && Shows(data[..], du0, dequant)
    modifies j, j.s, data
    ensures AcMay(t, old(j.Stream()), old(j.Real()), 1, du0, ok, du, j.Stream(), j.Real())
    ensures ok ==> j.Valid() && Shows(data[..], du, dequant)
  {
    hide AcMay, Shows, Drop, SizeTable, CodeTable, BoundTable, FastTable, Fits, FastAcTable, Stepped;
    hide Jpeg.Stream, Jpeg.Real, Jpeg.Valid;
    ghost var v0, left0 := j.Stream(), j.Real();
    var k := 1;
    du := du0;
    var going := More;
    while going == More
      invariant going != Failed ==> j.Valid() && |du| == 64 && Shows(data[..], du, dequant)
      invariant going == More ==> k < 64 && Reached(t, v0, left0, du0, k, du, j.Stream(), j.Real())
      invariant going != More ==> AcMay(t, v0, left0, 1, du0, going == Stop, du, j.Stream(), j.Real())
      decreases going == More, if k < 64 then 64 - k else 0
    {
      ghost var v, left, k0, d0 := j.Stream(), j.Real(), k, du;
      going, k, du := DecodeSymbol(j, data, h, fac, k, dequant, t, du);
      if going == More {
        GoesOn(t, v0, left0, du0, k0, d0, v, left, k, du, j.Stream(), j.Real());
      } else {
        Ends(t, v0, left0, du0, k0, d0, v, left, going, k, du, j.Stream(), j.Real());
      }
    }
    ok := going == Stop;
  }

  /** What decoding a block can lead to, with `left` bits before the marker. */
  ghost predicate BlockMay(dct: HuffTable, act: HuffTable, pred: int, dequant: seq<nat>, v: nat, left: int, ok: bool,
                           dc: int, data: seq<int>, v': nat, left': int)
    requires |dct.values| == 256 && dct.Total() <= 256 && |act.values| == 256 && act.Total() <= 256 && |dequant| == 64
  {
    || (!ok && DcMay(dct, v, left, pred, dequant[0], false, dc, v', left'))
    || exists v1: nat, left1: int, du: seq<int> ::
         && DcMay(dct, v, left, pred, dequant[0], true, dc, v1, left1)
         && AcMay(act, v1, left1, 1, [dc] + Zeros(63), ok, du, v', left')
         && (ok ==> Shows(data, du, dequant))
  }

  /** What decoding a block does, if the data goes on long enough. */
  ghost predicate BlockDone(d: Decoded, v: nat, left: int, pred: int, dequant: seq<nat>, ok: bool, dc: int,
                            data: seq<int>, v': nat, left': int)
    requires |dequant| == 64 && (d.Good? ==> |d.du| == 64)
  {
    d.used <= left ==>
      && (ok <==> d.Good? && AddIntsValid(pred, d.du[0] - pred) && Mul2ShortsValid(d.du[0], dequant[0]))
      && (ok ==> v' == Drop(v, d.used) && left' >= left - d.used && dc == d.du[0] && Shows(data, d.du, dequant))
  }

  /** Decodes a block after one whose first coefficient was pred, and multiplies by the quantisation
      steps. */
  method DecodeBlock(j: Jpeg, data: array<int>, hdc: Huffman, hac: Huffman, fac: array<int>, pred: int,
                     dequant: seq<nat>,
                     ghost dct: HuffTable, ghost act: HuffTable) returns (ok: bool, dc: int)
    requires j.Valid() && hdc.Represents(dct) && hac.Represents(act) && FastAcTable(act, fac[..])
    requires data.Length == |dequant| == 64 && data != fac && data != hdc.delta && data != hac.delta
    modifies j, j.s, data
    ensures BlockMay(dct, act, pred, dequant, old(j.Stream()), old(j.Real()), ok, dc, data[..], j.Stream(), j.Real())
    ensures ok ==> j.Valid()
  {
    hide AcMay, DcMay, Shows, Drop, Rev, SizeTable, CodeTable, BoundTable, FastTable, Fits, FastAcTable;
    hide Jpeg.Stream, Jpeg.Real, Jpeg.Valid, ToShort;
    ghost var v, left := j.Stream(), j.Real();
    ok, dc := DecodeDc(j, hdc, pred, dequant[0], dct);
    if !ok {
      return;
    }
    ghost var v1, left1 := j.Stream(), j.Real();
    ClearBlock(data);
    data[0] := ToShort(dc * dequant[0]);
    ShowsZeros(data[..], dc, dequant);
    ghost var du;
    ok, du := DecodeAc(j, data, hac, fac, dequant, act, [dc] + Zeros(63));
    assert DcMay(dct, v, left, pred, dequant[0], true, dc, v1, left1);
  }

  method ClearBlock(data: array<int>)
    modifies data
    ensures forall k :: 0 <= k < data.Length ==> data[k] == 0
  {
    for i := 0 to data.Length
      invariant forall k :: 0 <= k < i ==> data[k] == 0
    {
      data[i] := 0;
    }
  }

  /** The first coefficient is not touched by the others. */
  lemma {:induction false} KeepsFirst(t: HuffTable, v: nat, k: nat, du: seq<int>)
    requires |t.values| == 256 && t.Total() <= 256 && |du| == 64 && 1 <= k < 64
    ensures AcFrom(t, v, k, du).Good? ==> AcFrom(t, v, k, du).du[0] == du[0]
    decreases 64 - k
  {
    hide CodeLength, CodeIndex, Drop, Rev, Extend;
    var len := CodeLength(t.counts, v);
    if len > 16 {
    } else {
      var rs := t.values[CodeIndex(t.counts, v)] as nat;
      var run, size := rs / 16, rs % 16;
      if size == 0 {
        if k + 16 < 64 {
          KeepsFirst(t, Drop(v, len), k + 16, du);
        }
      } else if k + run + 1 < 64 {
        var x := Extend(Rev(Drop(v, len), size), size);
        KeepsFirst(t, Drop(v, len + size), k + run + 1, du[Position(k + run) := x]);
      }
    }
  }

  lemma NoBlock(dct: HuffTable, act: HuffTable, v: nat, left: int, pred: int, dequant: seq<nat>, dc: int,
                data: seq<int>, v': nat, left': int)
    requires |dct.values| == 256 && dct.Total() <= 256 && |act.values| == 256 && act.Total() <= 256 && |dequant| == 64
    requires DcDone(dct, v, left, pred, dequant[0], false, dc, v', left')
    ensures BlockDone(BlockFrom(dct, act, pred, v), v, left, pred, dequant, false, dc, data, v', left')
  {
    hide BlockFrom, AcFrom, Drop, Shows, Zeros, DcBits, DcDiff, AddIntsValid, Mul2ShortsValid;
    BlockSplit(dct, act, pred, v);
    if DcOk(dct, v) {
      KeepsFirst(act, Drop(v, DcBits(dct, v)), 1, [pred + DcDiff(dct, v)] + Zeros(63));
    }
  }

  lemma BlockEnds(dct: HuffTable, act: HuffTable, v: nat, left: int, pred: int, dequant: seq<nat>, dc: int, v1: nat,
                  left1: int,
                  ok: bool, du: seq<int>, data: seq<int>, v': nat, left': int)
    requires |dct.values| == 256 && dct.Total() <= 256 && |act.values| == 256 && act.Total() <= 256 && |dequant| == 64
    requires DcDone(dct, v, left, pred, dequant[0], true, dc, v1, left1)
    requires Finished(AcFrom(act, v1, 1, [dc] + Zeros(63)), v1, left1, ok, du, v', left')
    requires ok ==> Shows(data, du, dequant)
    ensures BlockDone(BlockFrom(dct, act, pred, v), v, left, pred, dequant, ok, dc, data, v', left')
  {
    hide BlockFrom, AcFrom, Drop, Shows, Zeros, DcBits, DcDiff, AddIntsValid, Mul2ShortsValid;
    BlockSplit(dct, act, pred, v);
    if DcOk(dct, v) && BlockFrom(dct, act, pred, v).used <= left {
      var n := DcBits(dct, v);
      var d := AcFrom(act, Drop(v, n), 1, [pred + DcDiff(dct, v)] + Zeros(63));
      KeepsFirst(act, Drop(v, n), 1, [pred + DcDiff(dct, v)] + Zeros(63));
      DropDrop(v, n, d.used);
    }
  }

  /** With bits enough the block is the one that is coded. */
  lemma BlockEnough(dct: HuffTable, act: HuffTable, pred: int, dequant: seq<nat>, v: nat, left: int, ok: bool,
                    dc: int, data: seq<int>, v': nat, left': int)
    requires |dct.values| == 256 && dct.Total() <= 256 && |act.values| == 256 && act.Total() <= 256 && |dequant| == 64
    requires BlockMay(dct, act, pred, dequant, v, left, ok, dc, data, v', left')
    ensures BlockDone(BlockFrom(dct, act, pred, v), v, left, pred, dequant, ok, dc, data, v', left')
  {
    hide DcMay, DcDone, AcMay, Finished, BlockDone, BlockFrom, AcFrom, Shows, Zeros, Drop;
    if !ok && DcMay(dct, v, left, pred, dequant[0], false, dc, v', left') {
      DcEnough(dct, v, left, pred, dequant[0], false, dc, v', left');
      NoBlock(dct, act, v, left, pred, dequant, dc, data, v', left');
    } else {
      var v1: nat, left1: int, du: seq<int> :|
        && DcMay(dct, v, left, pred, dequant[0], true, dc, v1, left1)
        && AcMay(act, v1, left1, 1, [dc] + Zeros(63), ok, du, v', left')
        && (ok ==> Shows(data, du, dequant));
      DcEnough(dct, v, left, pred, dequant[0], true, dc, v1, left1);
      AcEnough(act, v1, left1, 1, [dc] + Zeros(63), ok, du, v', left');
      BlockEnds(dct, act, v, left, pred, dequant, dc, v1, left1, ok, du, data, v', left');
    }
  }
}
