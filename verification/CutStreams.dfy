/** Streams cut short.  Past the end of its input the reader supplies zero bits, and a block that ends in
    them is not always refused. */
module CutStreams {
  import opened Bits
  import opened BitPieces
  import opened DeflateFormat
  import opened FixedCode
  import opened TokenWriter
  import opened ZlibFormat
  import opened Inflate
  import opened InflateTheorems
  import opened ZlibCompress

  predicate AllZero(s: seq<byte>) {
    forall i :: 0 <= i < |s| ==> s[i] == 0
  }

  lemma {:induction false} LeZeros(s: seq<byte>, zeros: seq<byte>)
    requires AllZero(zeros)
    ensures Le(s + zeros) == Le(s)
    decreases |s| + |zeros|
  {
    if s != [] {
      assert (s + zeros)[1..] == s[1..] + zeros;
      LeZeros(s[1..], zeros);
    } else if zeros != [] {
      assert s + zeros == zeros;
      LeZeros(s, zeros[1..]);
      assert s + zeros[1..] == zeros[1..];
    } else {
      assert s + zeros == [];
    }
  }

  /** A stream says the same without the zero bytes at its end. */
  lemma ZerosSayNothing(input: seq<byte>, zeros: seq<byte>, bs: seq<Block>, last: Block)
    requires |input| > 2 && AllZero(zeros)
    ensures ZlibStream(input + zeros, bs, last) <==> ZlibStream(input, bs, last)
    ensures ZlibStream(input, bs, last) ==> ZlibEnd(input + zeros, bs, last) == ZlibEnd(input, bs, last)
  {
    hide BlocksAt, NextBlock, AfterBlock, AfterBlocks;
    assert (input + zeros)[2..] == input[2..] + zeros;
    LeZeros(input[2..], zeros);
  }

  /** A stream whose blocks end within four bytes is decoded from its first byte of blocks on, when the
      others are zero and have been cut off. */
  method DecodeCut(input: seq<byte>, zeros: seq<byte>, initialSize: nat) returns (st: Status, out: seq<byte>)
    requires |input| > 2 && AllZero(zeros) && 0 < initialSize <= UINT_MAX
    ensures forall bs, last :: ZlibStream(input + zeros, bs, last) ==>
      var end := ZlibEnd(input + zeros, bs, last);
      end.used <= Max(8 * |input|, FIRST_FILL) && |end.out| <= 0x8000_0000 ==> st == Ok && out == end.out
  {
    hide ZlibStream, ZlibEnd;
    st, out := ZlibDecode(input, initialSize);
    forall bs, last | ZlibStream(input + zeros, bs, last)
      ensures ZlibStream(input, bs, last) && ZlibEnd(input, bs, last) == ZlibEnd(input + zeros, bs, last)
    {
      ZerosSayNothing(input, zeros, bs, last);
    }
    forall bs, last | ZlibStream(input + zeros, bs, last)
      ensures var end := ZlibEnd(input + zeros, bs, last);
        end.used <= Max(8 * |input|, FIRST_FILL) && |end.out| <= 0x8000_0000 ==> st == Ok && out == end.out
    {
      assert ZlibEnd(input, bs, last).used <= Max(8 * |input|, FIRST_FILL) ==> Complete(input, bs, last);
    }
  }

  /** A final block of the fixed code that holds one letter. */
  lemma LetterBlock(input: seq<byte>, b: byte, tail: nat)
    requires HeaderOk(input) && Le(input[2..]) % 8 == 3
    requires Le(input[2..]) / 8 == StreamOf([HuffPiece(b), HuffPiece(END_OF_BLOCK)], tail)
    ensures ZlibStream(input, [], Fixed([Literal(b)]))
    ensures var end := ZlibEnd(input, [], Fixed([Literal(b)]));
      end.out == [b] && end.used == 16 + 3 + HuffPiece(b).n + 7
  {
    var v, toks := Le(input[2..]), [Literal(b)];
    hide BlockAt, BlockOut, BlockBits, BlockEnd, StreamOf, HuffPiece;
    ThreeBits(v);
    assert AllPieces(toks) + [HuffPiece(END_OF_BLOCK)] == [HuffPiece(b), HuffPiece(END_OF_BLOCK)];
    LetterTokens(b);
    FixedBlockReads([b], toks, v, tail);
  }

  lemma ThreeBits(v: nat)
    requires v % 8 == 3
    ensures Take(v, 1) == 1 && Take(Drop(v, 1), 2) == 1 && Drop(v, 3) == v / 8
  {
    assert Pow2(1) == 2 && Pow2(2) == 4 && Pow2(3) == 8;
    TakeDropIsModDiv(v, 1);
    TakeDropIsModDiv(v, 3);
    TakeDropIsModDiv(v / 2, 2);
  }

  lemma LetterTokens(b: byte)
    ensures var toks := [Literal(b)];
      AllEncodable(toks) && Sound([], toks) && Expand([], toks) == [b] && AllPieces(toks) == [HuffPiece(b)]
      && Width(AllPieces(toks) + [HuffPiece(END_OF_BLOCK)]) == HuffPiece(b).n + 7
  {
    var last := [HuffPiece(END_OF_BLOCK)];
    assert [Literal(b)][1..] == [];
    assert last[1..] == [];
    assert Width(last) == 7;
    assert ([HuffPiece(b)] + last)[1..] == last;
  }

  lemma LetterCodes()
    ensures HuffPiece(0x60) == Piece(9, 8) && HuffPiece(0x61) == Piece(137, 8)
    ensures HuffPiece(END_OF_BLOCK) == Piece(0, 7)
  {
    assert Pow2(7) == 128 && Pow2(3) == 8;
    assert Rev(4, 3) == 1 && Rev(9, 4) == 9;
    assert Rev(36, 6) == Rev(18, 5) == Rev(9, 4);
    assert Rev(144, 8) == Rev(72, 7) == Rev(36, 6);
    assert Rev(145, 8) == 128 + Rev(72, 7);
    assert Rev(0, 4) == 0;
    assert Rev(0, 7) == 0;
  }

  lemma LetterStream(b: byte, code: nat, tail: nat)
    requires HuffPiece(b) == Piece(code, 8)
    ensures StreamOf([HuffPiece(b), HuffPiece(END_OF_BLOCK)], tail) == code + 0x8000 * tail
  {
    LetterCodes();
    var ps, last := [HuffPiece(b), HuffPiece(END_OF_BLOCK)], [HuffPiece(END_OF_BLOCK)];
    assert ps[1..] == last && last[1..] == [];
    assert Pow2(7) == 128 && Pow2(8) == 256;
    ShlIsMul(tail, 7);
    ShlIsMul(128 * tail, 8);
    assert StreamOf(last, tail) == 128 * tail;
  }

  /** A stream of one letter is decoded to it; cut off within the code of that letter it is decoded to
      another letter, ten bits beyond the end of the input, and that is not refused. */
  method CutShort() returns (st: Status, out: seq<byte>, stCut: Status, outCut: seq<byte>)
    ensures st == Ok && out == [0x61] && stCut == Ok && outCut == [0x60]
    ensures var input: seq<byte> := [0x78, 0x9C, 0x4B];
      exists last :: ZlibStream(input, [], last) && ZlibEnd(input, [], last).used == 8 * |input| + 10
  {
    hide ZlibStream, ZlibEnd, StreamOf, HuffPiece, Le;
    var input, rest: seq<byte> := [0x78, 0x9C, 0x4B], [4, 0, 0, 0x62, 0, 0x62];
    Letters(input, rest);
    st, out := ZlibDecode(input + rest, 1);
    stCut, outCut := ZlibDecode(input, 1);
    assert Complete(input + rest, [], Fixed([Literal(0x61)]));
    assert Complete(input, [], Fixed([Literal(0x60)]));
  }

  lemma Letters(input: seq<byte>, rest: seq<byte>)
    requires input == [0x78, 0x9C, 0x4B] && rest == [4, 0, 0, 0x62, 0, 0x62]
    ensures var a := Fixed([Literal(0x61)]);
      ZlibStream(input + rest, [], a) && ZlibEnd(input + rest, [], a).out == [0x61]
      && ZlibEnd(input + rest, [], a).used == 34
    ensures var b := Fixed([Literal(0x60)]);
      ZlibStream(input, [], b) && ZlibEnd(input, [], b).out == [0x60] && ZlibEnd(input, [], b).used == 34
  {
    hide ZlibStream, ZlibEnd, StreamOf, HuffPiece, Le;
    assert input[2..] == [0x4B] && (input + rest)[2..] == [0x4B] + rest;
    LeOne(0x4B);
    Letter(input, 0x60, 9, 0);
    var tail := RestBits(rest);
    Letter(input + rest, 0x61, 137, tail);
  }

  lemma Letter(input: seq<byte>, b: byte, code: nat, tail: nat)
    requires |input| > 2 && HeaderOk(input) && Le(input[2..]) == 3 + 8 * (code + 0x8000 * tail)
    requires (b == 0x60 && code == 9) || (b == 0x61 && code == 137)
    ensures var block := Fixed([Literal(b)]);
      ZlibStream(input, [], block) && ZlibEnd(input, [], block).out == [b] && ZlibEnd(input, [], block).used == 34
  {
    hide ZlibStream, ZlibEnd, StreamOf, HuffPiece, Le, HeaderOk;
    LetterCodes();
    LetterStream(b, code, tail);
    var v := Le(input[2..]);
    DivModUnique(v, 8, code + 0x8000 * tail, 3);
    LetterBlock(input, b, tail);
  }

  lemma RestBits(rest: seq<byte>) returns (tail: nat)
    requires rest == [4, 0, 0, 0x62, 0, 0x62]
    ensures Le([0x4B] + rest) == 1099 + 0x4_0000 * tail
  {
    var s2, s3: seq<byte>, s4: seq<byte> := rest[1..], rest[2..], rest[3..];
    assert s2 == [0, 0, 0x62, 0, 0x62] && s2[1..] == s3 && s3[1..] == s4;
    assert ([0x4B] + rest)[1..] == rest && rest[1..] == s2;
    assert Le(s2) == 256 * Le(s3);
    assert Le(s3) == 256 * Le(s4);
    tail := 0x4000 * Le(s4);
    assert Le(rest) == 4 + 256 * Le(s2);
  }
}
