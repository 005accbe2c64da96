/** The compressor as a whole: the fixed-code form or stored blocks, then the checksum; and the proof
    that the inflater gives the data back. */
module ZlibCompress {
  import opened Bits
  import opened DeflateFormat
  import opened Runs
  import opened ZlibFormat
  import opened FixedCode
  import opened TokenWriter
  import opened BitPieces
  import opened Deflate
  import opened Inflate
  import opened InflateStored
  import opened InflateTheorems
  import Adler

  // ----- stored blocks

  function ChunkLength(data: seq<byte>, j: nat): (n: nat)
    requires j < |data|
    ensures 0 < n <= 32767 && j + n <= |data|
  {
    if |data| - j > 32767 then 32767 else |data| - j
  }

  /** The five header bytes of a stored block of n bytes. */
  function ChunkHeader(n: nat, final: bool): seq<byte>
    requires n <= 32767
  {
    [if final then 1 else 0, n % 256, n / 256, 255 - n % 256, 255 - n / 256]
  }

  function StoredFrom(data: seq<byte>, j: nat): seq<byte>
    requires j <= |data|
    decreases |data| - j
  {
    if j == |data| then []
    else
      var n := ChunkLength(data, j);
      ChunkHeader(n, n == |data| - j) + (data[j..j + n] + StoredFrom(data, j + n))
  }

  /** The fallback loop. */
  method StoreBlocks(data: seq<byte>) returns (out: seq<byte>)
    ensures out == [0x78, 0x5e] + StoredFrom(data, 0)
  {
    out := [0x78, 0x5e];
    var j := 0;
    while j < |data|
      invariant j <= |data|
      invariant out + StoredFrom(data, j) == [0x78, 0x5e] + StoredFrom(data, 0)
    {
      var blocklen := |data| - j;
      if blocklen > 32767 {
        blocklen := 32767;
      }
      var final := if |data| - j == blocklen then 1 else 0;
      ghost var before := out;
      out := out + [final];
      out := out + [blocklen % 256];
      out := out + [blocklen / 256 % 256];
      out := out + [(-1 - blocklen) % 256];
      out := out + [(-1 - blocklen) / 256 % 256];
      Complement(blocklen);
      assert out == before + ChunkHeader(blocklen, final == 1);
      out := out + data[j..j + blocklen];
      Reassociate3(before, ChunkHeader(blocklen, final == 1), data[j..j + blocklen], StoredFrom(data, j + blocklen));
      j := j + blocklen;
    }
    assert out + [] == out;
  }

  /** The bytes of ~n. */
  lemma Complement(n: nat)
    requires n <= 32767
    ensures (-1 - n) % 256 == 255 - n % 256
    ensures (-1 - n) / 256 % 256 == 255 - n / 256
    ensures n / 256 % 256 == n / 256
  {
    var q, r := n / 256, n % 256;
    assert n == 256 * q + r;
    assert -1 - n == 256 * (-1 - q) + (255 - r);
  }

  lemma Reassociate3<T>(a: seq<T>, b: seq<T>, c: seq<T>, d: seq<T>)
    ensures ((a + b) + c) + d == a + (b + (c + d))
  {
  }

  /** Number of stored blocks. */
  function Chunks(n: nat): nat {
    (n + 32766) / 32767
  }

  lemma {:induction false} StoredSize(data: seq<byte>, j: nat)
    requires j <= |data|
    ensures |StoredFrom(data, j)| == |data| - j + 5 * Chunks(|data| - j)
    decreases |data| - j
  {
    if j >= |data| {
    } else {
      var n := ChunkLength(data, j);
      StoredSize(data, j + n);
      assert Chunks(|data| - j) == 1 + Chunks(|data| - j - n);
    }
  }

  /** A stored block on a byte boundary reads back. */
  lemma ChunkReads(v: nat, used: nat, out: seq<byte>, chunk: seq<byte>, final: bool, rest: seq<byte>)
    requires |chunk| <= 32767 && used % 8 == 0
    requires v == Le(ChunkHeader(|chunk|, final) + (chunk + rest))
    ensures BlockAt(v, used, out, Stored(chunk)) && (IsFinal(v) <==> final)
    ensures BlockEnd(v, used, out, Stored(chunk)) == Le(rest)
    ensures BlockBits(v, used, out, Stored(chunk)) == 8 * (5 + |chunk|)
  {
    hide Shl, Take;
    var n := |chunk|;
    var f: byte, lens: seq<byte> := if final then 1 else 0, ChunkHeader(n, final)[1..];
    assert ChunkHeader(n, final) + (chunk + rest) == [f] + (lens + (chunk + rest));
    assert ([f] + (lens + (chunk + rest)))[1..] == lens + (chunk + rest);
    var w, body := Le(lens + (chunk + rest)), Le(chunk + rest);
    assert v == f + 256 * w;
    HeaderByte(f, w);
    assert Pad(used + 3) == 5;
    DropDrop(v, 3, 5);
    LeAppend(lens, chunk + rest);
    LengthsOf(w, lens, body);
    LeAppend(chunk, rest);
    LeBound(chunk);
    SplitLow(Le(chunk), Le(rest), 8 * n);
    DropDrop(Drop(v, 3), 5, 32);
    DropDrop(Drop(v, 3), 37, 8 * n);
  }

  lemma HeaderByte(f: nat, w: nat)
    requires f < 2
    ensures var v := f + 256 * w; Take(v, 1) == f && Take(Drop(v, 1), 2) == 0 && Drop(v, 8) == w
  {
    var v := f + 256 * w;
    SplitLow(f, 128 * w, 1);
    assert Shl(128 * w, 1) == 256 * w && Pow2(1) == 2;
    SplitLow(0, 32 * w, 2);
    assert Shl(32 * w, 2) == 2 * Shl(32 * w, 1) == 128 * w;
    SplitLow(f, w, 8);
    assert Pow2(8) == 256;
    ShlByte(w, 0);
  }

  /** The stored form of the data from j on, followed by the tail, after data[..j] has been output. */
  function StoredPlace(data: seq<byte>, j: nat, used: nat, tail: seq<byte>): Place
    requires j <= |data|
  {
    Place(Le(StoredFrom(data, j) + tail), used, data[..j])
  }

  lemma FirstChunkReads(data: seq<byte>, j: nat, used: nat, tail: seq<byte>)
    requires j < |data| && used % 8 == 0
    ensures var p, n := StoredPlace(data, j, used, tail), ChunkLength(data, j);
      var b := Stored(data[j..j + n]);
      && NextBlock(p, b)
      && (IsFinal(p.v) <==> n == |data| - j)
      && AfterBlock(p, b) == StoredPlace(data, j + n, used + 8 * (5 + n), tail)
  {
    hide StoredFrom, BlockAt, BlockEnd, BlockBits, IsFinal, Le, ChunkHeader;
    var n := ChunkLength(data, j);
    var chunk, final, more := data[j..j + n], n == |data| - j, StoredFrom(data, j + n);
    StoredSplits(data, j, tail);
    ChunkReads(Le(StoredFrom(data, j) + tail), used, data[..j], chunk, final, more + tail);
    assert data[..j] + chunk == data[..j + n];
  }

  lemma StoredSplits(data: seq<byte>, j: nat, tail: seq<byte>)
    requires j < |data|
    ensures var n := ChunkLength(data, j);
      StoredFrom(data, j) + tail
      == ChunkHeader(n, n == |data| - j) + (data[j..j + n] + (StoredFrom(data, j + n) + tail))
  {
    var n := ChunkLength(data, j);
    var chunk, more := data[j..j + n], StoredFrom(data, j + n);
    Reassociate3([], ChunkHeader(n, n == |data| - j), chunk + more, tail);
    Reassociate3([], chunk, more, tail);
  }

  /** The stored form is a stream of blocks that stand for the data. */
  lemma {:induction false} StoredReads(data: seq<byte>, j: nat, used: nat, tail: seq<byte>)
    returns (bs: seq<Block>, last: Block)
    requires j < |data| && used % 8 == 0
    ensures var p := StoredPlace(data, j, used, tail);
      && BlocksAt(p, bs)
      && var q := AfterBlocks(p, bs);
         NextBlock(q, last) && IsFinal(q.v)
         && AfterBlock(q, last) == Place(Le(tail), used + 8 * |StoredFrom(data, j)|, data)
    decreases |data| - j
  {
    hide NextBlock, AfterBlock, IsFinal;
    var n := ChunkLength(data, j);
    var p, b := StoredPlace(data, j, used, tail), Stored(data[j..j + n]);
    FirstChunkReads(data, j, used, tail);
    if n == |data| - j {
      bs, last := [], b;
      assert data[..j + n] == data;
      assert StoredFrom(data, j + n) + tail == tail;
    } else {
      bs, last := StoredReads(data, j + n, used + 8 * (5 + n), tail);
      RunCons(PlainBlock, AfterPlain, p, b, bs);
      bs := [b] + bs;
    }
  }

  // ----- the fixed-code form

  lemma {:induction false} PaddingWidth(n: nat)
    ensures Width(Padding(n)) == n
  {
    if n == 0 {
    } else {
      PaddingWidth(n - 1);
      StreamAppend(Padding(n - 1), [Piece(0, 1)], 0);
    }
  }

  /** What the compressor wrote, followed by any bytes, is one final block for the data. */
  lemma FixedReads(data: seq<byte>, toks: seq<Token>, pad: nat, v: nat, tail: nat)
    requires AllEncodable(toks) && Sound([], toks) && Expand([], toks) == data
    requires v == StreamOf((Opening() + AllPieces(toks)) + ([HuffPiece(END_OF_BLOCK)] + Padding(pad)), tail)
    ensures BlockAt(v, 16, [], Fixed(toks)) && IsFinal(v)
    ensures BlockOut(v, 16, [], Fixed(toks)) == data
    ensures BlockBits(v, 16, [], Fixed(toks)) + pad
         == Width((Opening() + AllPieces(toks)) + ([HuffPiece(END_OF_BLOCK)] + Padding(pad)))
  {
    hide BlockAt, BlockOut, BlockBits, StreamOf, Sound, Expand, IsFinal;
    var eob, pads := [HuffPiece(END_OF_BLOCK)], Padding(pad);
    var body := AllPieces(toks) + eob;
    assert (Opening() + AllPieces(toks)) + (eob + pads) == Opening() + (body + pads);
    StreamAppend(Opening(), body + pads, tail);
    StreamAppend(body, pads, tail);
    PaddingWidth(pad);
    OpeningReads(StreamOf(body, StreamOf(pads, tail)));
    FixedBlockReads(data, toks, v, StreamOf(pads, tail));
  }

  lemma FixedBlockReads(data: seq<byte>, toks: seq<Token>, v: nat, tail: nat)
    requires AllEncodable(toks) && Sound([], toks) && Expand([], toks) == data
    requires Take(v, 1) == 1 && Take(Drop(v, 1), 2) == 1
    requires Drop(v, 3) == StreamOf(AllPieces(toks) + [HuffPiece(END_OF_BLOCK)], tail)
    ensures BlockAt(v, 16, [], Fixed(toks)) && IsFinal(v)
    ensures BlockOut(v, 16, [], Fixed(toks)) == data
    ensures BlockBits(v, 16, [], Fixed(toks)) == 3 + Width(AllPieces(toks) + [HuffPiece(END_OF_BLOCK)])
  {
    BlockWritten(toks, tail);
  }

  lemma OpeningReads(w: nat)
    ensures var v := StreamOf(Opening(), w);
      Take(v, 1) == 1 && Take(Drop(v, 1), 2) == 1 && Drop(v, 3) == w
    ensures Width(Opening()) == 3
  {
    var v1 := StreamOf([Piece(1, 2)], w);
    assert Opening()[1..] == [Piece(1, 2)];
    assert [Piece(1, 2)][1..] == [];
    StreamAppend([Piece(1, 1)], [Piece(1, 2)], w);
    assert [Piece(1, 1)] + [Piece(1, 2)] == Opening();
    assert [Piece(1, 1)][1..] == [];
    SplitLow(1, w, 2);
    SplitLow(1, v1, 1);
    assert Pow2(1) == 2 && Pow2(2) == 4;
    DropDrop(StreamOf(Opening(), w), 1, 2);
  }

  // ----- the whole

  /** The output is a complete zlib stream for the data. */
  ghost predicate Represents(out: seq<byte>, data: seq<byte>) {
    exists bs, last :: ZlibStream(out, bs, last) && ZlibEnd(out, bs, last).used + 32 <= 8 * |out|
                       && ZlibEnd(out, bs, last).out == data
  }

  lemma HeaderAccepted(out: seq<byte>)
    requires |out| > 2 && out[0] == 0x78 && out[1] == 0x5e
    ensures HeaderOk(out)
  {
  }

  /** The body is the fixed-code form of the data with these tokens and padding. */
  ghost predicate FixedForm(data: seq<byte>, body: seq<byte>, toks: seq<Token>, pad: nat) {
    && AllEncodable(toks) && Sound([], toks) && Expand([], toks) == data
    && |body| >= 2 && body[0] == 0x78 && body[1] == 0x5e
    && var ps := (Opening() + AllPieces(toks)) + ([HuffPiece(END_OF_BLOCK)] + Padding(pad));
       StreamOf(ps, 0) == Le(body[2..]) && Width(ps) == 8 * (|body| - 2)
  }

  /** The tokens are those the matching chooses, and the padding ends within a byte. */
  ghost predicate ChosenForm(data: seq<byte>, quality: nat, body: seq<byte>, toks: seq<Token>, pad: nat) {
    FixedForm(data, body, toks, pad) && AllChosen(data, quality, toks) && pad < 8
  }

  lemma FixedRepresents(data: seq<byte>, body: seq<byte>, toks: seq<Token>, pad: nat, trailer: seq<byte>)
    requires FixedForm(data, body, toks, pad) && |trailer| == 4
    ensures Represents(body + trailer, data)
  {
    hide StreamOf, Sound, Expand, Padding, AllPieces, BlockAt, BlockOut, BlockBits, BlockEnd, IsFinal, Le;
    var ps := (Opening() + AllPieces(toks)) + ([HuffPiece(END_OF_BLOCK)] + Padding(pad));
    var out := body + trailer;
    HeaderAccepted(out);
    assert out[2..] == body[2..] + trailer;
    LeAppend(body[2..], trailer);
    StreamTail(ps, Le(trailer));
    FixedReads(data, toks, pad, Le(out[2..]), Le(trailer));
    var bs: seq<Block>, last := [], Fixed(toks);
    assert BlocksAt(Start(out), bs) && AfterBlocks(Start(out), bs) == Start(out);
    assert ZlibStream(out, bs, last) && ZlibEnd(out, bs, last).out == data;
  }

  lemma StoredRepresents(data: seq<byte>, trailer: seq<byte>)
    requires data != [] && |trailer| == 4
    ensures Represents(([0x78, 0x5e] + StoredFrom(data, 0)) + trailer, data)
  {
    var out := ([0x78, 0x5e] + StoredFrom(data, 0)) + trailer;
    HeaderAccepted(out);
    assert out[2..] == StoredFrom(data, 0) + trailer;
    var bs, last := StoredReads(data, 0, 16, trailer);
    assert data[..0] == [];
    assert ZlibStream(out, bs, last) && ZlibEnd(out, bs, last).out == data;
  }

  /** Even the empty block is longer than the empty stored form, so it is not kept. */
  lemma EmptyIsStored(toks: seq<Token>, pad: nat, out: seq<byte>)
    requires AllEncodable(toks) && |out| >= 2
    requires Width((Opening() + AllPieces(toks)) + ([HuffPiece(END_OF_BLOCK)] + Padding(pad))) == 8 * (|out| - 2)
    ensures |out| > 2
  {
    var eob := [HuffPiece(END_OF_BLOCK)];
    StreamAppend(Opening() + AllPieces(toks), eob + Padding(pad), 0);
    StreamAppend(eob, Padding(pad), 0);
    assert Width(eob) == 7;
  }

  /** How many positions a chain keeps. */
  function Effort(quality: int): nat {
    if quality < 5 then 5 else quality
  }

  /** The value of four bytes, most significant first. */
  function BigEndian(s: seq<byte>): nat
    requires |s| == 4
  {
    0x100_0000 * (s[0] as int) + 0x1_0000 * (s[1] as int) + 0x100 * (s[2] as int) + s[3] as int
  }

  lemma ChecksumLast(body: seq<byte>, data: seq<byte>)
    ensures var out := body + Adler.Trailer(data);
      |out| >= 4 && BigEndian(out[|out| - 4..]) == Adler.Checksum(data)
  {
    var out := body + Adler.Trailer(data);
    assert out[|out| - 4..] == Adler.Trailer(data);
    Adler.TrailerIsChecksum(data);
  }

  /** Compresses data.  Every non-empty input is represented; the result is never longer than stored
      blocks would be; the empty input yields no block at all. */
  method Compress(data: seq<byte>, quality: int) returns (out: seq<byte>, ghost fixed: seq<byte>)
    requires |data| <= INT_MAX
    ensures data != [] ==> Represents(out, data)
    ensures exists toks, pad :: ChosenForm(data, Effort(quality), fixed, toks, pad)
    ensures var kept := |fixed| <= |data| + 2 + 5 * Chunks(|data|);
      out == (if kept then fixed else [0x78, 0x5e] + StoredFrom(data, 0)) + Adler.Trailer(data)
    ensures |out| >= 4 && BigEndian(out[|out| - 4..]) == Adler.Checksum(data)
    ensures data == [] ==> out == [0x78, 0x5e, 0, 0, 0, 1]
    ensures |out| <= |data| + 2 + 5 * Chunks(|data|) + 4
  {
    hide Represents, StoredFrom, StreamOf, Sound, Expand, Padding, AllPieces, Width, Le, AllChosen, BigEndian;
    var q := Effort(quality);
    ghost var toks, pad;
    var w;
    w, toks, pad := CompressFixed(data, q);
    out, fixed := w.out, w.out;
    assert Shl(w.bitbuf, 8 * (|out| - 2)) == 0 by { ShlZero(8 * (|out| - 2)); }
    assert ChosenForm(data, q, fixed, toks, pad);
    hide FixedForm;
    var stored := |out| > |data| + 2 + (|data| + 32766) / 32767 * 5;
    if stored {
      out := StoreBlocks(data);
      StoredSize(data, 0);
    } else if data == [] {
      EmptyIsStored(toks, pad, out);
      assert false;
    }
    var s1, s2 := Adler.Adler32(data);
    ghost var body := out;
    out := out + [s2 / 256, s2 % 256, s1 / 256, s1 % 256];
    assert out == body + Adler.Trailer(data);
    ChecksumLast(body, data);
    if data != [] {
      if stored {
        StoredRepresents(data, Adler.Trailer(data));
      } else {
        FixedRepresents(data, body, toks, pad, Adler.Trailer(data));
      }
    }
  }

  // ----- round trip

  /** However it is read, a representation of data means data. */
  lemma OneMeaning(out: seq<byte>, data: seq<byte>, bs: seq<Block>, last: Block)
    requires Represents(out, data) && ZlibStream(out, bs, last)
    ensures ZlibEnd(out, bs, last).out == data
  {
    var bs', last' :| ZlibStream(out, bs', last') && ZlibEnd(out, bs', last').out == data;
    Uniqueness(out, bs, last, bs', last');
  }

  /** A representation of data is decoded to it. */
  lemma Readable(out: seq<byte>, data: seq<byte>)
    requires Represents(out, data)
    ensures exists bs, last :: Complete(out, bs, last) && ZlibEnd(out, bs, last).out == data
  {
    var bs, last :| ZlibStream(out, bs, last) && ZlibEnd(out, bs, last).used + 32 <= 8 * |out|
                    && ZlibEnd(out, bs, last).out == data;
    assert Complete(out, bs, last);
  }

  lemma FirstOfStream(out: seq<byte>, bs: seq<Block>, last: Block)
    requires ZlibStream(out, bs, last)
    ensures NextBlock(Start(out), (bs + [last])[0])
  {
    if bs != [] {
      BlocksProgress();
      RunPrefix(PlainBlock, AfterPlain, NoLater, Start(out), bs, 0);
    }
  }

  /** What the compressor makes of the empty input holds no block: the checksum is read as a stored
      block whose lengths do not match. */
  lemma EmptyHoldsNothing(bs: seq<Block>, last: Block)
    ensures !ZlibStream([0x78, 0x5e, 0, 0, 0, 1], bs, last)
  {
    hide NextBlock;
    var out: seq<byte> := [0x78, 0x5e, 0, 0, 0, 1];
    if ZlibStream(out, bs, last) {
      FirstOfStream(out, bs, last);
      EmptyLengths(out, (bs + [last])[0]);
      assert false;
    }
  }

  lemma EmptyLengths(out: seq<byte>, b: Block)
    requires out == [0x78, 0x5e, 0, 0, 0, 1]
    ensures !NextBlock(Start(out), b)
  {
    hide BlockAt, Take, Drop;
    var v, w := Le(out[2..]), 0x1_0000;
    assert out[2..] == [0, 0, 0, 1];
    LeValue(out[2..]);
    HeaderByte(0, w);
    WordSize();
    SplitLow(0, 1, 16);
    ShlIsMul(1, 16);
    TakeSmall(1, 16);
    DropDrop(v, 3, 5);
    NoStored(v, b);
  }

  lemma NoStored(v: nat, b: Block)
    requires Take(Drop(v, 1), 2) == 0
    requires var w := Drop(Drop(v, 3), 5); Take(w, 16) == 0 && Take(Drop(w, 16), 16) == 1
    ensures !BlockAt(v, 16, [], b)
  {
    hide Take, Drop;
    assert Pad(19) == 5;
  }

  lemma LeValue(s: seq<byte>)
    requires s == [0, 0, 0, 1]
    ensures Le(s) == 0x100_0000
  {
    var s1: seq<byte>, s2: seq<byte>, s3: seq<byte> := [0, 0, 1], [0, 1], [1];
    assert s[1..] == s1 && s1[1..] == s2 && s2[1..] == s3 && s3[1..] == [];
    assert Le(s3) == 1;
    assert Le(s2) == 256;
    assert Le(s1) == 65536;
  }

  /** Decompression undoes compression exactly for the non-empty inputs, whatever the quality and the
      initial size of the output buffer, unless that is zero: then the doubling does not end. */
  method RoundTrip(data: seq<byte>, quality: int, initialSize: nat) returns (st: Status, back: seq<byte>)
    requires |data| <= INT_MAX && initialSize <= UINT_MAX
    ensures st == Ok <==> data != [] && initialSize > 0
    ensures st == Ok ==> back == data
    ensures data != [] && initialSize == 0 ==> st == NoEnd
  {
    hide ZlibStream, ZlibEnd;
    var out;
    ghost var fixed;
    out, fixed := Compress(data, quality);
    st, back := ZlibDecode(out, initialSize);
    if data != [] {
      Readable(out, data);
    } else if st == Ok {
      ghost var bs, last :| ZlibStream(out, bs, last);
      EmptyHoldsNothing(bs, last);
    }
  }
}
