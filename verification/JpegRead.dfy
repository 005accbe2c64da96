/** The JPEG reader's entropy decoder: a word of bits filled from the file, Huffman symbols, magnitudes,
    the table that does both at once, and blocks of coefficients. */
module JpegRead {
  import opened Bits
  import opened Canonical
  import opened ByteSource
  import opened JpegBits
  import opened JpegFormat
  import opened JpegHuffman
  import opened JpegLost
  import opened JpegBlock

  const JBIAS: seq<int> := [0, -1, -3, -7, -15, -31, -63, -127, -255, -511, -1023, -2047, -4095, -8191, -16383, -32767]

  class Jpeg {
    const s: Context
    var codeBuffer: nat
    var codeBits: int
    var marker: byte
    var nomore: bool

    constructor (source: Context)
      ensures s == source && codeBuffer == 0 && codeBits == 0 && !nomore && Valid()
      ensures Stream() == BitsOf(Destuffed(s.input, s.pos)) && Real() == 8 * |Destuffed(s.input, s.pos)|
    {
      s, codeBuffer, codeBits, marker, nomore := source, 0, 0, 255, false;
      new;
      RevZero(32);
    }

    /** The bits in the word, the first one lowest. */
    ghost function Buf(): nat
      reads this
    {
      Rev(codeBuffer, 32)
    }

    /** The word holds codeBits bits at its top, and zeros. */
    ghost predicate Valid()
      reads this
    {
      0 <= codeBits <= 32 && codeBuffer < 0x1_0000_0000 && Buf() < Pow2(codeBits)
    }

    /** The data bytes still to come. */
    ghost function Ahead(): seq<byte>
      reads this, s
    {
      if nomore then [] else Destuffed(s.input, s.pos)
    }

    /** The bits still to come, followed by zeros. */
    ghost function Stream(): nat
      reads this, s
    {
      Buf() + Shl(BitsOf(Ahead()), if codeBits >= 0 then codeBits else 0)
    }

    /** How many bits there are before the marker. */
    ghost function Real(): int
      reads this, s
    {
      codeBits + 8 * |Ahead()|
    }

    /** The word has more than 24 bits, or all there are. */
    ghost predicate Filled()
      reads this, s
    {
      codeBits > 24 || Ahead() == []
    }

    /** The next data byte; at a marker it is noted and no byte comes, and from then on zeros do. */
    method NextByte() returns (b: byte, stop: bool)
      modifies `marker, `nomore, s
      ensures stop ==> old(Ahead()) == [] && Ahead() == []
      ensures !stop ==> b == (if old(Ahead()) == [] then 0 else old(Ahead())[0])
      ensures !stop ==> Ahead() == (if old(Ahead()) == [] then [] else old(Ahead())[1..])
    {
      stop := false;
      b := 0;
      if !nomore {
        b := s.Get8();
      }
      if b == 0xff {
        ghost var start := s.pos;
        AfterOnes(s.input, old(s.pos));
        var c := s.Get8();
        while c == 0xff
          invariant !nomore && (c == 0xff ==> SkipFill(s.input, start) == SkipFill(s.input, s.pos))
          invariant c != 0xff ==> c == At(s.input, SkipFill(s.input, start))
          invariant c != 0xff ==> s.pos == Next(s.input, SkipFill(s.input, start))
          decreases Remaining(s.input, s.pos), c == 0xff
        {
          c := s.Get8();
        }
        if c != 0 {
          marker := c;
          nomore := true;
          stop := true;
        }
      }
      assert !stop && old(Ahead()) != [] ==> old(Ahead()) == [b] + Ahead();
    }

    /** Fills the word up to more than 24 bits, if there are that many before the marker. */
    method GrowBufferUnsafe()
      requires Valid() && codeBits <= 24
      modifies this, s
      ensures Valid() && Filled() && Stream() == old(Stream()) && Real() >= old(Real()) && codeBits >= old(codeBits)
    {
      hide Rev, Pow2, Shl, BitsOf, Destuffed, Or;
      var more := true;
      while more
        invariant Valid() && Stream() == old(Stream()) && Real() >= old(Real()) && codeBits >= old(codeBits)
        invariant if more then codeBits <= 24 else Filled()
        decreases more, 32 - codeBits
      {
        ghost var buf, ahead := Buf(), Ahead();
        var b, stop := NextByte();
        if stop {
          return;
        }
        ByteFits(b);
        AddBits(codeBuffer, 32, codeBits, b, 8);
        FeedByte(buf, codeBits, b, ahead);
        codeBuffer := Or(codeBuffer, Shl(b, 24 - codeBits));
        codeBits := codeBits + 8;
        more := codeBits <= 24;
      }
    }

    /** The word's top n bits are the next n bits of the stream. */
    lemma Peek(n: nat)
      requires Valid() && n <= 32 && (n <= codeBits || Ahead() == [])
      ensures Drop(codeBuffer, 32 - n) == Rev(Stream(), n) < Pow2(n)
    {
      hide Rev, Pow2, Shl, BitsOf, Destuffed, Take, Drop;
      var buf := Buf();
      ThirtyTwo();
      RevRev(codeBuffer, 32);
      RevTop(buf, n, 32);
      RevLow(buf, n);
      RevLow(Stream(), n);
      if n <= codeBits {
        LowPart(buf, BitsOf(Ahead()), codeBits, n);
      } else {
        NoBits();
        ShlZero(codeBits);
      }
    }

    /** A filled word that lacks bits has no more to come. */
    lemma Short(n: nat)
      requires Filled() && codeBits < n <= 24
      ensures Real() < n
    {
    }

    /** Drops the next n bits. */
    method Consume(n: nat)
      requires Valid() && n <= codeBits
      modifies `codeBuffer, `codeBits
      ensures Valid() && codeBits == old(codeBits) - n && Stream() == Drop(old(Stream()), n)
      ensures Real() == old(Real()) - n
    {
      hide Rev, Pow2, Shl, BitsOf, Destuffed, Take, Drop;
      ShiftOut(codeBuffer, n, codeBits, BitsOf(Ahead()));
      codeBuffer := Take(Shl(codeBuffer, n), 32);
      codeBits := codeBits - n;
    }

    /** The next symbol, or -1 if no code leads the stream or the data has ended within it.  A lost code
        is read as another of the last four values, and as ten bits. */
    method HuffDecode(h: Huffman, ghost t: HuffTable) returns (r: int)
      requires Valid() && h.Holds(t)
      modifies this, s
      ensures if Lost(t.counts, old(Stream())) then
                MisreadDone(t, old(Stream()), old(Real()), r, Stream(), Real())
              else SymbolDone(t, old(Stream()), old(Real()), r, Stream(), Real())
      ensures r >= 0 ==> Valid()
    {
      hide Destuffed, BitsOf, Shl, Drop, Take, Rev, CodeLength, CodeIndex, Lost, Misread;
      hide SizeTable, CodeTable, BoundTable, FastTable, Fits, FirstIndex;
      if codeBits < 16 {
        GrowBufferUnsafe();
      }
      ghost var v := Stream();
      Peek(9);
      var w := Drop(codeBuffer, 32 - FAST_BITS);
      NineBits();
      var k := h.fast[w] as nat;
      if k < 255 {
        FastFound(h, t, v, k);
        var s := h.size[k] as nat;
        if s > codeBits {
          return -1;
        }
        Consume(s);
        return h.values[k];
      }
      r := HuffDecodeSlow(h, t);
    }

    /** The search for a code of more than nine bits. */
    method HuffDecodeSlow(h: Huffman, ghost t: HuffTable) returns (r: int)
      requires Valid() && h.Holds(t) && (codeBits >= 16 || Ahead() == [])
      requires Rev(Stream(), 9) < 512 && h.fast[Rev(Stream(), 9)] == 255
      modifies `codeBuffer, `codeBits
      ensures if Lost(t.counts, old(Stream())) then
                MisreadDone(t, old(Stream()), old(Real()), r, Stream(), Real())
              else SymbolDone(t, old(Stream()), old(Real()), r, Stream(), Real())
      ensures r >= 0 ==> Valid()
    {
      hide Destuffed, BitsOf, Shl, Drop, Take, Rev, CodeLength, CodeIndex, Lost, Misread, SymbolDone, MisreadDone;
      hide SizeTable, CodeTable, BoundTable, FastTable, Fits, FirstIndex;
      ghost var v, left := Stream(), Real();
      Peek(16);
      SixteenBits();
      var temp := Drop(codeBuffer, 16);
      var len := FindLength(h, t, temp, v);
      if len == 17 {
        codeBits := codeBits - 16;
        NoSymbol(t, v, left, len, Stream(), Real());
        return -1;
      }
      if len > codeBits {
        NoSymbol(t, v, left, len, v, left);
        return -1;
      }
      Peek(len);
      TakeSmall(Drop(codeBuffer, 32 - len), len);
      var id := Take(Drop(codeBuffer, 32 - len), len) + h.delta[len];
      SlowIndex(h, t, v, len);
      if id < 0 || id >= 256 {
        return -1;
      }
      // the source's assertion fails for most lost codes: LostCodeMisread
      assert !Lost(t.counts, v) ==> Take(Drop(codeBuffer, 32 - h.size[id] as nat), h.size[id]) == h.code[id];
      Consume(len);
      SymbolFound(t, v, left, len, id, Stream(), Real());
      return h.values[id];
    }

    /** The next n bits as a signed value; zero, with nothing consumed, if the marker comes first. */
    method ExtendReceive(n: nat) returns (r: int)
      requires Valid() && 1 <= n <= 15
      modifies this, s
      ensures Valid()
      ensures
        || (r == Extend(Rev(old(Stream()), n), n) && Stream() == Drop(old(Stream()), n) && Real() >= old(Real()) - n)
        || (old(Real()) < n && r == 0 && Stream() == old(Stream()) && Real() >= old(Real()))
    {
      hide Destuffed, BitsOf, Shl, Drop, Take, Rev, Pow2;
      if codeBits < n {
        GrowBufferUnsafe();
      }
      if codeBits < n {
        Short(n);
        return 0;
      }
      Peek(n);
      Peek(1);
      ShiftOut(codeBuffer, n, codeBits, BitsOf(Ahead()));
      Rotated(codeBuffer, n);
      TopBit(Stream(), n);
      Biases(n);
      var sgn := Drop(codeBuffer, 31);
      var k := RotateLeft(codeBuffer, n);
      codeBuffer := Shl(Drop(k, n), n);
      k := Take(k, n);
      codeBits := codeBits - n;
      r := k + if sgn == 0 then JBIAS[n] else 0;
    }
  }

  /** The symbol r of the code that leads the stream has been read, or there is none, or the data end. */
  ghost predicate SymbolDone(t: HuffTable, v: nat, left: int, r: int, v': nat, left': int)
    requires |t.values| == 256 && t.Total() <= 256
  {
    var len := CodeLength(t.counts, v);
    if r < 0 then len == 17 || left < len
    else len <= 16 && r == t.values[CodeIndex(t.counts, v)] && v' == Drop(v, len) && left' >= left - len
  }

  /** The lost code that leads the stream has been taken for another of ten bits, or the data end. */
  ghost predicate MisreadDone(t: HuffTable, v: nat, left: int, r: int, v': nat, left': int)
    requires |t.values| == 256 && t.Total() <= 256 && Fits(t.counts, 16) && Lost(t.counts, v)
  {
    if r < 0 then left < 10
    else r == t.values[Misread(t.counts, v)] && v' == Drop(v, 10) && left' >= left - 10
  }

  lemma NoSymbol(t: HuffTable, v: nat, left: int, len: nat, v': nat, left': int)
    requires |t.values| == 256 && t.Total() <= 256 && Fits(t.counts, 16)
    requires len == (if Lost(t.counts, v) then 10 else CodeLength(t.counts, v)) && (len == 17 || left < len)
    ensures if Lost(t.counts, v) then MisreadDone(t, v, left, -1, v', left') else SymbolDone(t, v, left, -1, v', left')
  {
    hide Lost, CodeLength;
  }

  lemma SymbolFound(t: HuffTable, v: nat, left: int, len: nat, id: nat, v': nat, left': int)
    requires |t.values| == 256 && t.Total() <= 256 && Fits(t.counts, 16) && id < 256
    requires len == (if Lost(t.counts, v) then 10 else CodeLength(t.counts, v)) && len <= 16
    requires if Lost(t.counts, v) then id == Misread(t.counts, v) else id == CodeIndex(t.counts, v)
    requires v' == Drop(v, len) && left' >= left - len
    ensures if Lost(t.counts, v) then MisreadDone(t, v, left, t.values[id], v', left')
            else SymbolDone(t, v, left, t.values[id], v', left')
  {
    hide Lost, CodeLength, CodeIndex, Misread, Drop;
  }

  lemma SixteenBits()
    ensures Pow2(16) == 0x1_0000
  {
    assert Pow2(8) == 256;
    Pow2Byte(8);
  }

  /** The low n bits are those of the lower part. */
  lemma LowPart(low: nat, high: nat, m: nat, n: nat)
    requires n <= m && low < Pow2(m)
    ensures Take(low + Shl(high, m), n) == Take(low, n)
  {
    ConsumeStep(low, n, m, high);
  }

  /** Shifting the word left by n drops the first n bits of the stream. */
  lemma ShiftOut(x: nat, n: nat, bits: nat, ahead: nat)
    requires x < 0x1_0000_0000 && n <= bits <= 32 && Rev(x, 32) < Pow2(bits)
    ensures var y := Take(Shl(x, n), 32);
      && y < 0x1_0000_0000 && Rev(y, 32) < Pow2(bits - n)
      && Rev(y, 32) + Shl(ahead, bits - n) == Drop(Rev(x, 32) + Shl(ahead, bits), n)
  {
    hide Rev, Shl, Take, Drop, Pow2;
    ThirtyTwo();
    TakeBound(Shl(x, n), 32);
    RevLow(Shl(x, n), 32);
    RevShl(x, n, 32 - n);
    RevTop(x, 32 - n, 32);
    ConsumeStep(Rev(x, 32), n, bits, ahead);
  }

  // ----- magnitudes

  function RotateLeft(x: nat, n: nat): nat
    requires n <= 32
  {
    Take(Shl(x, n), 32) + Drop(x, 32 - n)
  }

  /** Rotation brings the top n bits to the bottom. */
  lemma Rotated(x: nat, n: nat)
    requires x < 0x1_0000_0000 && n <= 32
    ensures var k := RotateLeft(x, n); Take(k, n) == Drop(x, 32 - n) && Shl(Drop(k, n), n) == Take(Shl(x, n), 32)
  {
    hide Take, Drop, Shl, Pow2;
    ThirtyTwo();
    DropBound(x, 32 - n, 32);
    TakeShl(x, n, 32 - n);
    SplitLow(Drop(x, 32 - n), Take(x, 32 - n), n);
  }

  lemma TopBit(v: nat, n: nat)
    requires n > 0
    ensures Rev(v, 1) == 0 <==> Rev(v, n) < Pow2(n - 1)
    ensures Rev(v, 1) < 2
  {
    RevTop(v, 1, n);
    TakeDropIsModDiv(Rev(v, n), n - 1);
    if Rev(v, n) < Pow2(n - 1) {
      TakeSmall(Rev(v, n), n - 1);
    }
  }

  lemma Biases(n: nat)
    requires 1 <= n <= 15
    ensures JBIAS[n] == 1 - Pow2(n)
  {
    assert Pow2(1) == 2 && Pow2(2) == 4 && Pow2(3) == 8 && Pow2(4) == 16 && Pow2(5) == 32 && Pow2(6) == 64;
    assert Pow2(7) == 128 && Pow2(8) == 256 && Pow2(9) == 512 && Pow2(10) == 1024 && Pow2(11) == 2048;
    assert Pow2(12) == 4096 && Pow2(13) == 8192 && Pow2(14) == 16384 && Pow2(15) == 32768;
  }

  // ----- finding a symbol

  lemma FastFound(h: Huffman, t: HuffTable, v: nat, k: nat)
    requires h.Holds(t) && Rev(v, 9) < 512 && h.fast[Rev(v, 9)] == k < 255
    ensures !Lost(t.counts, v)
    ensures CodeLength(t.counts, v) <= 16 && h.size[k] == CodeLength(t.counts, v) && k == CodeIndex(t.counts, v)
  {
    hide CodeLength, CodeIndex, Rev, LeadsFast;
    var c := t.counts;
    assert FastEntry(c, h.fast[..], FirstIndex(c, 17), Rev(v, 9));
    LeadsOk(c, Rev(v, 9), k);
    LeadsIsRead(c, v, k);
    assert SizeEntry(c, h.size[..], k);
    if Lost(c, v) {
      LostCodeMisread(h, c, v);
    }
  }

  /** The search over the bounds finds the length of the code, or ten for a lost one. */
  method FindLength(h: Huffman, ghost t: HuffTable, temp: nat, ghost v: nat) returns (len: nat)
    requires h.Holds(t) && temp == Rev(v, 16) < 0x1_0000 && Rev(v, 9) < 512 && h.fast[Rev(v, 9)] == 255
    ensures len == if Lost(t.counts, v) then 10 else CodeLength(t.counts, v)
    ensures 10 <= len <= 17
  {
    hide CodeLength, Rev, Lost;
    ghost var lost := Lost(t.counts, v);
    if lost {
      LostCodeMisread(h, t.counts, v);
    } else {
      LostOrLong(h, t.counts, v);
    }
    len := FAST_BITS + 1;
    while temp >= h.maxcode[len]
      invariant FAST_BITS < len <= 17 && if lost then len == 10 else CodeLength(t.counts, v) >= len
      decreases 17 - len
    {
      LongerCode(h, t, v, len);
      len := len + 1;
    }
    if !lost {
      FoundLength(h, t, v, len);
    }
  }

  lemma LongerCode(h: Huffman, t: HuffTable, v: nat, len: nat)
    requires h.Holds(t) && 10 <= len <= 17 && CodeLength(t.counts, v) >= len && Rev(v, 16) < 0x1_0000
    requires h.maxcode[len] <= Rev(v, 16)
    ensures len <= 16 && CodeLength(t.counts, v) >= len + 1
  {
    hide LengthFrom, Rev;
    assert len <= 16;
    assert BoundEntry(t.counts, h.maxcode[..], h.delta[..], len);
    LengthLeast(t.counts, Rev(v, 16), 1, len);
  }

  lemma FoundLength(h: Huffman, t: HuffTable, v: nat, len: nat)
    requires h.Holds(t) && 10 <= len <= 17 && CodeLength(t.counts, v) >= len && Rev(v, 16) < h.maxcode[len]
    ensures CodeLength(t.counts, v) == len
  {
    hide LengthFrom, Rev;
    if len <= 16 {
      assert BoundEntry(t.counts, h.maxcode[..], h.delta[..], len);
      LengthLeast(t.counts, Rev(v, 16), 1, len);
    }
  }

  /** What the slow path computes is an index; unless the code is lost, it is the right one. */
  lemma SlowIndex(h: Huffman, t: HuffTable, v: nat, len: nat)
    requires h.Holds(t) && len <= 16 && len == if Lost(t.counts, v) then 10 else CodeLength(t.counts, v)
    ensures var id := Rev(v, len) + h.delta[len];
      && 0 <= id < 256
      && if Lost(t.counts, v) then id == Misread(t.counts, v)
         else id == CodeIndex(t.counts, v) && h.size[id] == len && h.code[id] == Rev(v, len)
  {
    hide Lost;
    if Lost(t.counts, v) {
      LostCodeMisread(h, t.counts, v);
    } else {
      SlowFound(h, t, v, len);
    }
  }

  /** What the slow path computes is the index; its consistency check holds. */
  lemma SlowFound(h: Huffman, t: HuffTable, v: nat, len: nat)
    requires h.Holds(t) && CodeLength(t.counts, v) == len <= 16
    ensures var id := CodeIndex(t.counts, v);
      id == Rev(v, len) + h.delta[len] && id < 256 && h.size[id] == len && h.code[id] == Rev(v, len)
  {
    var c, id := t.counts, CodeIndex(t.counts, v);
    assert BoundEntry(c, h.maxcode[..], h.delta[..], len);
    LengthIsCode(c, v, len);
    SizeIs(c, id, len);
    assert SizeEntry(c, h.size[..], id) && CodeEntry(c, h.code[..], id);
  }

  lemma ByteFits(b: byte)
    ensures b < Pow2(8)
  {
    assert Pow2(8) == 256;
  }

  /** Taking a byte from the data into the word leaves the stream as it is. */
  lemma FeedByte(buf: nat, bits: nat, b: byte, ahead: seq<byte>)
    requires b == if ahead == [] then 0 else ahead[0]
    ensures var rest := if ahead == [] then [] else ahead[1..];
      buf + Shl(BitsOf(ahead), bits) == buf + Shl(Rev(b, 8), bits) + Shl(BitsOf(rest), bits + 8)
  {
    hide Rev, BitsOf, Shl;
    if ahead == [] {
      NoBits();
      RevZero(8);
      ShlZero(bits);
      ShlZero(bits + 8);
    } else {
      assert ahead == [b] + ahead[1..];
      BitsAppend([b], ahead[1..]);
      OneByte(b);
      ShlAdd(Rev(b, 8), Shl(BitsOf(ahead[1..]), 8), bits);
      ShlShl(BitsOf(ahead[1..]), 8, bits);
    }
  }

  lemma NoBits()
    ensures BitsOf([]) == 0
  {
  }
}