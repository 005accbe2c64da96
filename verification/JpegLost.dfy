/** The code that the fast table of the JPEG reader cannot name: index 255 is its mark for an empty entry,
    so the last of 256 short codes is taken for a longer one. */
module JpegLost {
  import opened Bits
  import opened Canonical
  import opened JpegFormat
  import opened JpegHuffman

  /** The stream begins with the short code of index 255. */
  ghost predicate Lost(c: Counts, v: nat) {
    LeadsFast(c, Rev(v, FAST_BITS), 255)
  }

  /** The index for which a lost code is taken: one of the last four, told by the bits after the code. */
  ghost function Misread(c: Counts, v: nat): (k: nat)
    requires Fits(c, 16) && FirstIndex(c, 17) <= 256 && Lost(c, v)
    ensures 252 <= k < 256
  {
    LostIsLast(c, v);
    var more := 10 - SizeAt(c, 255);
    FewBits(more);
    256 - Pow2(more) + Rev(Drop(v, SizeAt(c, 255)), more)
  }

  lemma FewBits(n: nat)
    requires n <= 2
    ensures Pow2(n) <= 4
  {
  }

  lemma LeadsOk(c: Counts, w: nat, k: nat)
    requires LeadsFast(c, w, k)
    ensures k < FirstIndex(c, 17) && SizeAt(c, k) <= 9
  {
  }

  /** There are at most as many codes up to a length as fit below its last. */
  lemma {:induction false} CodesFit(c: Counts, s: nat)
    requires 1 <= s <= 16
    ensures FirstIndex(c, s + 1) <= EndCode(c, s)
  {
    if s == 1 {
    } else {
      CodesFit(c, s - 1);
    }
  }

  /** A lost code is the last of all, and has eight bits or nine. */
  lemma LostIsLast(c: Counts, v: nat)
    requires Fits(c, 16) && FirstIndex(c, 17) <= 256 && Lost(c, v)
    ensures var s := SizeAt(c, 255);
      && 8 <= s <= 9 && FirstIndex(c, s + 1) == 256 && Rev(v, s) + 1 == EndCode(c, s)
      && CodeLength(c, v) == s && CodeIndex(c, v) == 255
  {
    hide Rev, CodeLength, SizeFrom, Pow2;
    var s := SizeAt(c, 255);
    LeadsOk(c, Rev(v, 9), 255);
    LeadsIsRead(c, v, 255);
    SizeIs(c, 255, s);
    IndexMono(c, s + 1, 17);
    LengthIsCode(c, v, s);
    CodesFit(c, s);
    assert EndCode(c, s) <= Pow2(s);
    if s <= 7 {
      Pow2Mono(s, 7);
      SevenBits();
    }
  }

  lemma SevenBits()
    ensures Pow2(7) == 128
  {
  }

  /** Without codes in between, the first code of a length follows the last one by as many zeros. */
  lemma {:induction false} NoMoreCodes(c: Counts, s: nat, t: nat)
    requires 1 <= s < t <= 16 && FirstIndex(c, s + 1) == FirstIndex(c, t)
    ensures FirstCode(c, t) == Shl(EndCode(c, s), t - s)
    decreases t
  {
    if t == s + 1 {
      assert Shl(EndCode(c, s), 1) == 2 * EndCode(c, s);
    } else {
      IndexMono(c, s + 1, t - 1);
      NoMoreCodes(c, s, t - 1);
    }
  }

  lemma RevNone(v: nat)
    ensures Rev(v, 0) == 0
  {
  }

  lemma {:induction false} RevSplit(v: nat, a: nat, b: nat)
    ensures Rev(v, a + b) == Shl(Rev(v, a), b) + Rev(Drop(v, a), b)
  {
    hide Rev, Drop;
    if b == 0 {
      RevNone(Drop(v, a));
    } else {
      RevSplit(v, a, b - 1);
      RevSnoc(v, a + b - 1);
      RevSnoc(Drop(v, a), b - 1);
      DropDrop(v, a, b - 1);
    }
  }

  /** What the search computes from ten bits of a stream that begins with a lost code. */
  lemma TenBits(c: Counts, v: nat)
    requires Fits(c, 16) && FirstIndex(c, 17) <= 256 && Lost(c, v)
    ensures Rev(v, 10) + FirstIndex(c, 10) - FirstCode(c, 10) == Misread(c, v)
  {
    hide Rev, Shl, Drop, Pow2, FirstCode, FirstIndex, Lost, SizeFrom;
    var s := SizeAt(c, 255);
    LostIsLast(c, v);
    IndexMono(c, s + 1, 10);
    IndexMono(c, 10, 17);
    NoMoreCodes(c, s, 10);
    RevSplit(v, s, 10 - s);
    ShlAdd(Rev(v, s), 1, 10 - s);
    ShlIsMul(1, 10 - s);
  }

  /** A stream that begins with a lost code is searched on from ten bits, and the search ends there with
      the index of a misread code.  That code's word is in the stream only if it is the lost one. */
  lemma LostCodeMisread(h: Huffman, c: Counts, v: nat)
    requires h.Built(c) && Lost(c, v)
    ensures Rev(v, 9) < 512 && h.fast[Rev(v, 9)] == 255 && CodeLength(c, v) <= 9 && Rev(v, 16) < h.maxcode[10]
    ensures var id := Rev(v, 10) + h.delta[10];
      id == Misread(c, v) && (h.code[id] == Rev(v, h.size[id]) <==> id == 255)
  {
    hide LengthFrom, Rev, LeadsFast, FastTable, Misread;
    NineBits();
    LeadsOk(c, Rev(v, 9), 255);
    LastCodeLost(c, h.fast[..], Rev(v, 9));
    LeadsIsRead(c, v, 255);
    LengthLeast(c, Rev(v, 16), 1, CodeLength(c, v));
    MaxCodeMono(c, CodeLength(c, v), 10);
    assert BoundEntry(c, h.maxcode[..], h.delta[..], 10);
    TenBits(c, v);
    LostIsLast(c, v);
    WordInStream(h, c, v, Misread(c, v));
  }

  lemma WordInStream(h: Huffman, c: Counts, v: nat, id: nat)
    requires h.Built(c) && id < 256 == FirstIndex(c, 17) && CodeLength(c, v) <= 16
    ensures h.code[id] == Rev(v, h.size[id]) <==> id == CodeIndex(c, v)
  {
    hide CodeLength, Rev, FirstIndex, FirstCode, FastTable;
    assert SizeEntry(c, h.size[..], id) && CodeEntry(c, h.code[..], id);
    CodeAtIsCode(c, id);
    LengthIsCode(c, v, SizeAt(c, id));
    SizeIs(c, CodeIndex(c, v), CodeLength(c, v));
    LengthIsCode(c, v, CodeLength(c, v));
  }

  lemma NotLed(c: Counts, fast: seq<byte>, w: nat, k: nat)
    requires FastTable(c, fast, FirstIndex(c, 17)) && w < 512 && fast[w] == 255 && k < FirstIndex(c, 17) && k < 255
    ensures !LeadsFast(c, w, k)
  {
    assert FastEntry(c, fast, FirstIndex(c, 17), w);
  }

  /** An empty entry means a longer code, or the lost one. */
  lemma LostOrLong(h: Huffman, c: Counts, v: nat)
    requires h.Built(c) && Rev(v, 9) < 512 && h.fast[Rev(v, 9)] == 255
    ensures Lost(c, v) || CodeLength(c, v) >= 10
  {
    hide LeadsFast, FastTable, CodeLength, Rev;
    if CodeLength(c, v) <= 9 {
      ReadLeads(c, v);
      if CodeIndex(c, v) < 255 {
        NotLed(c, h.fast[..], Rev(v, 9), CodeIndex(c, v));
        assert false;
      }
    }
  }

  lemma ShortIndex(c: Counts, k: nat)
    requires k < FirstIndex(c, 17) && SizeAt(c, k) <= 9
    ensures k < FirstIndex(c, 10)
  {
    SizeLeast(c, k, 1, 9);
  }

  /** With at most 255 short codes none is lost. */
  lemma NoneLost(c: Counts, v: nat)
    requires FirstIndex(c, 10) <= 255
    ensures !Lost(c, v)
  {
    if Lost(c, v) {
      ShortIndex(c, 255);
    }
  }

  /** The mark of an empty entry can be trusted exactly if at most 255 codes are short. */
  lemma MarkTrusted(h: Huffman, c: Counts)
    requires h.Built(c)
    ensures FirstIndex(c, 10) <= 255 <==>
      forall v: nat :: Rev(v, 9) < 512 && h.fast[Rev(v, 9)] == 255 ==> CodeLength(c, v) > 9
  {
    hide LeadsFast, FastTable, SizeTable, CodeTable, BoundTable, CodeLength, CodeIndex, Rev, Fits, Lost;
    if FirstIndex(c, 10) <= 255 {
      forall v: nat | Rev(v, 9) < 512 && h.fast[Rev(v, 9)] == 255
        ensures CodeLength(c, v) > 9
      {
        NoneLost(c, v);
        LostOrLong(h, c, v);
      }
    } else {
      var v := LostStream(h, c);
      assert Rev(v, 9) < 512 && h.fast[Rev(v, 9)] == 255 && CodeLength(c, v) <= 9;
    }
  }

  /** With 256 short codes, a stream that begins with the last of them. */
  lemma LostStream(h: Huffman, c: Counts) returns (v: nat)
    requires h.Built(c) && FirstIndex(c, 10) > 255
    ensures Lost(c, v) && Rev(v, 9) < 512 && h.fast[Rev(v, 9)] == 255 && CodeLength(c, v) <= 9
  {
    hide LeadsFast, FastTable, SizeTable, CodeTable, BoundTable, CodeLength, CodeIndex, Rev, Fits;
    FirstIndexMono(c, 10, 17);
    CodeAtIsCode(c, 255);
    var s := SizeAt(c, 255);
    LastIsShort(c);
    v := Rev(CodeAt(c, 255), s) + Shl(0, s);
    CodeReads(c, 255, CodeAt(c, 255), s, 0);
    NineBits();
    ReadLeads(c, v);
    LastCodeLost(c, h.fast[..], Rev(v, 9));
  }

  lemma LastIsShort(c: Counts)
    requires FirstIndex(c, 10) > 255 && FirstIndex(c, 17) > 255
    ensures SizeAt(c, 255) <= 9
  {
    SizeLeast(c, 255, 1, 9);
  }
}
