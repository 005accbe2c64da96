/** The compressor: hash chains over three-byte prefixes, greedy matching with one byte of lookahead,
    the fixed Huffman code, and stored blocks when that came out longer. */
module Deflate {
  import opened Bits
  import opened BitReverse
  import opened DeflateFormat
  import opened ZlibFormat
  import opened FixedCode
  import opened TokenWriter
  import opened BitPieces

  const ZHASH := 16384

  // ----- bit output

  /** Bytes written, and up to seven bits waiting for their byte. */
  class BitSink {
    var out: seq<byte>
    var bitbuf: nat
    var bitcount: nat
    ghost var pieces: seq<Piece>

    constructor ()
      ensures Valid() && out == [0x78, 0x5e] && pieces == []
    {
      out := [0x78, 0x5e];
      bitbuf, bitcount := 0, 0;
      pieces := [];
      new;
      assert out[2..] == [];
    }

    /** The waiting bits fit, and bytes and bits together are the pieces written. */
    ghost predicate Valid()
      reads this
    {
      bitcount < 8 && Consistent()
    }

    ghost predicate Consistent()
      reads this
    {
      && |out| >= 2 && out[0] == 0x78 && out[1] == 0x5e
      && bitbuf < Pow2(bitcount)
      && StreamOf(pieces, 0) == Le(out[2..]) + Shl(bitbuf, 8 * (|out| - 2))
      && Width(pieces) == 8 * (|out| - 2) + bitcount
    }

    /** Moves whole bytes from the bit buffer to the output. */
    method Flush()
      requires Consistent() && bitcount <= 24
      modifies `out, `bitbuf, `bitcount
      ensures Valid() && 8 * |out| + bitcount == old(8 * |out| + bitcount)
    {
      hide Take, Drop, Shl, Pow2, Le, StreamOf, Width;
      while bitcount >= 8
        invariant Consistent() && bitcount <= 24 && 8 * |out| + bitcount == old(8 * |out| + bitcount)
        decreases bitcount
      {
        ghost var n := 8 * (|out| - 2);
        MoveByte(bitbuf, bitcount, n);
        LeAppend(out[2..], [Take(bitbuf, 8)]);
        assert (out + [Take(bitbuf, 8)])[2..] == out[2..] + [Take(bitbuf, 8)];
        out := out + [Take(bitbuf, 8)];
        bitbuf := Drop(bitbuf, 8);
        bitcount := bitcount - 8;
      }
    }

    /** Writes n bits. */
    method Add(code: nat, n: nat)
      requires Valid() && code < Pow2(n) && n <= 16
      modifies this
      ensures Valid() && pieces == old(pieces) + [Piece(code, n)]
      ensures 8 * |out| + bitcount == old(8 * |out| + bitcount) + n
    {
      hide Pow2, Or, Shl, Le, StreamOf, Width;
      AddStep(bitbuf, bitcount, code, n, 8 * (|out| - 2));
      StreamSnoc(pieces, Piece(code, n));
      pieces := pieces + [Piece(code, n)];
      bitbuf := Or(bitbuf, Shl(code, bitcount));
      bitcount := bitcount + n;
      Flush();
    }

    /** Writes a code word of n bits, most significant bit first. */
    method Huffa(code: nat, n: nat)
      requires Valid() && n <= 16
      modifies this
      ensures Valid() && pieces == old(pieces) + [Piece(Rev(code, n), n)]
    {
      var r := BitRev(code, n);
      Add(r, n);
    }

    /** Writes a literal/length symbol. */
    method Huff(n: nat)
      requires Valid() && n < 288
      modifies this
      ensures Valid() && pieces == old(pieces) + [HuffPiece(n)]
    {
      if n <= 143 {
        Huffa(0x30 + n, 8);
      } else if n <= 255 {
        Huffa(0x190 + n - 144, 9);
      } else if n <= 279 {
        Huffa(0 + n - 256, 7);
      } else {
        Huffa(0xc0 + n - 280, 8);
      }
    }
  }

  lemma MoveByte(bitbuf: nat, bitcount: nat, n: nat)
    requires 8 <= bitcount && bitbuf < Pow2(bitcount)
    ensures Take(bitbuf, 8) < 256 && Le([Take(bitbuf, 8)]) == Take(bitbuf, 8)
    ensures Drop(bitbuf, 8) < Pow2(bitcount - 8)
    ensures Shl(bitbuf, n) == Shl(Take(bitbuf, 8), n) + Shl(Drop(bitbuf, 8), n + 8)
  {
    hide Take, Drop, Shl, Pow2, Le;
    ByteOf(bitbuf);
    LeOne(Take(bitbuf, 8));
    Pow2Byte(bitcount - 8);
    ShlEight(Drop(bitbuf, 8));
    ShlAdd(Take(bitbuf, 8), 256 * Drop(bitbuf, 8), n);
    ShlShl(Drop(bitbuf, 8), 8, n);
  }

  lemma AddStep(bitbuf: nat, bitcount: nat, code: nat, n: nat, w: nat)
    requires bitbuf < Pow2(bitcount) && code < Pow2(n)
    ensures Or(bitbuf, Shl(code, bitcount)) < Pow2(bitcount + n)
    ensures Shl(Or(bitbuf, Shl(code, bitcount)), w) == Shl(bitbuf, w) + Shl(code, w + bitcount)
  {
    hide Or, Shl, Pow2;
    OrDisjoint(bitbuf, code, bitcount);
    ShlBound(code, n, bitcount);
    ShlAdd(bitbuf, Shl(code, bitcount), w);
    ShlShl(code, bitcount, w);
  }

  // ----- tables

  const LENGTHC: seq<nat> := [3,4,5,6,7,8,9,10,11,13,15,17,19,23,27,31,35,43,51,59,67,83,99,115,131,163,195,227,258,259]
  const LENGTHEB: seq<nat> := [0,0,0,0,0,0,0,0,1,1,1,1,2,2,2,2,3,3,3,3,4,4,4,4,5,5,5,5,0]
  const DISTC: seq<nat> := [1, 2, 3, 4, 5, 7, 9, 13, 17, 25, 33, 49, 65, 97, 129, 193, 257, 385, 513, 769, 1025,
                            1537, 2049, 3073, 4097, 6145, 8193, 12289, 16385, 24577, 32768]
  const DISTEB: seq<nat> := [0,0,0,0,1,1,2,2,3,3,4,4,5,5,6,6,7,7,8,8,9,9,10,10,11,11,12,12,13,13]

  /** The first index whose successor in the table is above x. */
  method FindSlot(table: seq<nat>, x: nat) returns (j: nat)
    requires |table| >= 2 && table[0] <= x < table[|table| - 1]
    ensures j + 1 < |table| && table[j] <= x < table[j + 1]
  {
    j := 0;
    while x > table[j + 1] as int - 1
      invariant j + 1 < |table| && table[j] <= x
      decreases |table| - j
    {
      j := j + 1;
    }
  }

  // ----- matching

  /** a and b agree for the first n bytes. */
  predicate Agree(data: seq<byte>, a: nat, b: nat, n: nat) {
    a <= b && b + n <= |data| && forall k :: a <= k < a + n ==> data[k] == data[k + (b - a)]
  }

  /** The length of the common prefix at a and b, at most limit and at most 258. */
  method CountM(data: seq<byte>, a: nat, b: nat, limit: nat) returns (n: nat)
    requires a <= b && b + limit <= |data|
    ensures Agree(data, a, b, n) && n <= limit && n <= 258
    ensures n < limit && n < 258 ==> data[a + n] != data[b + n]
  {
    n := 0;
    while n < limit && n < 258
      invariant n <= limit && n <= 258 && Agree(data, a, b, n)
    {
      if data[a + n] != data[b + n] {
        return;
      }
      n := n + 1;
    }
  }

  /** A back reference from i: at least three bytes that agree, within the window. */
  predicate GoodMatch(data: seq<byte>, i: nat, loc: nat, n: nat) {
    loc < i <= loc + 32767 && 3 <= n <= 258 && Agree(data, loc, i, n)
  }

  /** Every entry of the list is an earlier position than i. */
  predicate Earlier(list: seq<nat>, i: nat) {
    forall j :: 0 <= j < |list| ==> list[j] < i
  }

  /** Of the matches at listed positions inside the window, one of the longest, and of those the last
      listed; none if there is no match. */
  ghost predicate Longest(data: seq<byte>, i: nat, list: seq<nat>, best: nat, loc: int) {
    && (forall j, n: nat :: 0 <= j < |list| && GoodMatch(data, i, list[j], n) ==> n <= best && loc >= 0)
    && (loc >= 0 ==> exists m :: LastBest(data, i, list, best, loc, m))
  }

  ghost predicate LastBest(data: seq<byte>, i: nat, list: seq<nat>, best: nat, loc: nat, m: int) {
    && 0 <= m < |list| && list[m] == loc && GoodMatch(data, i, loc, best)
    && forall j, n: nat :: m < j < |list| && GoodMatch(data, i, list[j], n) ==> n < best
  }

  method FindMatch(data: seq<byte>, i: nat, list: seq<nat>) returns (best: nat, loc: int)
    requires i < |data| && Earlier(list, i)
    ensures Longest(data, i, list, best, loc)
  {
    best, loc := 3, -1;
    ghost var m := -1;
    for j := 0 to |list|
      invariant 3 <= best <= 258 && (loc < 0 ==> best == 3)
      invariant loc >= 0 ==> 0 <= m < j && list[m] == loc && GoodMatch(data, i, loc, best)
      invariant loc >= 0 ==> forall k, n: nat :: m < k < j && GoodMatch(data, i, list[k], n) ==> n < best
      invariant forall k, n: nat :: 0 <= k < j && GoodMatch(data, i, list[k], n) ==> n <= best && loc >= 0
    {
      if list[j] > i - 32768 {
        var d := CountM(data, list[j], i, |data| - i);
        MatchIsPrefix(data, i, list[j], d);
        if d >= best {
          best, loc := d, list[j];
          m := j;
        }
      }
    }
    assert loc >= 0 ==> LastBest(data, i, list, best, loc, m);
  }

  lemma MatchIsPrefix(data: seq<byte>, i: nat, loc: nat, d: nat)
    requires loc < i < |data| && d <= |data| - i && d <= 258
    requires d < |data| - i && d < 258 ==> data[loc + d] != data[i + d]
    ensures forall n: nat :: GoodMatch(data, i, loc, n) ==> n <= d
  {
    if d < |data| - i && d < 258 {
      assert data[loc + d] != data[i + d];
    }
  }

  /** Some listed position has a match of more than best bytes. */
  ghost predicate Outdone(data: seq<byte>, i: nat, list: seq<nat>, best: nat) {
    exists j, n: nat :: 0 <= j < |list| && n > best && GoodMatch(data, i, list[j], n)
  }

  method BetterMatch(data: seq<byte>, i: nat, list: seq<nat>, best: nat) returns (better: bool)
    requires i < |data| && Earlier(list, i) && best >= 3
    ensures better <==> Outdone(data, i, list, best)
  {
    for j := 0 to |list|
      invariant forall k, n: nat :: 0 <= k < j && GoodMatch(data, i, list[k], n) ==> n <= best
    {
      if list[j] > i - 32768 {
        var e := CountM(data, list[j], i, |data| - i);
        MatchIsPrefix(data, i, list[j], e);
        if e > best {
          assert GoodMatch(data, i, list[j], e);
          return true;
        }
      }
    }
    return false;
  }

  /** Copying from a match reproduces the data. */
  lemma {:induction false} MatchCopies(data: seq<byte>, i: nat, loc: nat, n: nat)
    requires loc < i && Agree(data, loc, i, n)
    ensures CopyBack(data[..i], n, i - loc) == data[..i + n]
    decreases n
  {
    if n == 0 {
    } else {
      assert data[loc] == data[loc + (i - loc)];
      assert data[..i] + [data[loc]] == data[..i + 1];
      MatchCopies(data, i + 1, loc + 1, n - 1);
    }
  }

  // ----- the compressed form

  /** The length symbol's range: the table agrees with the standard's and leaves no gap. */
  lemma LengthSlot(j: nat, best: nat)
    requires j < 29 && LENGTHC[j] <= best < LENGTHC[j + 1]
    ensures LENGTHC[j] == LengthBase(257 + j) && LENGTHEB[j] == LengthExtra(257 + j)
    ensures best - LENGTHC[j] < Pow2(LENGTHEB[j])
  {
    assert Pow2(0) == 1 && Pow2(1) == 2 && Pow2(2) == 4 && Pow2(3) == 8 && Pow2(4) == 16 && Pow2(5) == 32;
  }

  lemma DistSlot(j: nat, d: nat)
    requires j < 30 && DISTC[j] <= d < DISTC[j + 1]
    ensures DISTC[j] == DistBase(j) && DISTEB[j] == DistExtra(j)
    ensures d - DISTC[j] < Pow2(DISTEB[j])
  {
    Powers();
    assert Pow2(0) == 1;
  }

  /** Writes a match of best bytes from distance d. */
  method WriteMatch(w: BitSink, best: nat, d: nat) returns (ghost t: Token)
    requires w.Valid() && 3 <= best <= 258 && 1 <= d <= 32767
    modifies w
    ensures w.Valid() && Encodable(t) && t.Copy? && t.Len() == best && t.Dist() == d
    ensures w.pieces == old(w.pieces) + Pieces(t)
  {
    ghost var p0 := w.pieces;
    var j := FindSlot(LENGTHC, best);
    LengthSlot(j, best);
    w.Huff(j + 257);
    AddExtra(w, best - LENGTHC[j], LENGTHEB[j]);
    var k := FindSlot(DISTC, d);
    DistSlot(k, d);
    w.Huffa(k, 5);
    AddExtra(w, d - DISTC[k], DISTEB[k]);
    t := Copy(j + 257, best - LENGTHC[j], k, d - DISTC[k]);
    FourParts(p0, [HuffPiece(j + 257)], Extra(best - LENGTHC[j], LENGTHEB[j]), [DistPiece(k)],
              Extra(d - DISTC[k], DISTEB[k]));
  }

  lemma FourParts<T>(p: seq<T>, a: seq<T>, b: seq<T>, c: seq<T>, d: seq<T>)
    ensures (((p + a) + b) + c) + d == p + (a + (b + (c + d)))
  {
  }

  method AddExtra(w: BitSink, x: nat, n: nat)
    requires w.Valid() && x < Pow2(n) && n <= 16
    modifies w
    ensures w.Valid() && w.pieces == old(w.pieces) + Extra(x, n)
  {
    if n != 0 {
      w.Add(x, n);
    }
  }

  /** A hash of the next three bytes. */
  function ZHash(a: byte, b: byte, c: byte): bv32 {
    var h0 := (a as bv32) + ((b as bv32) << 8) + ((c as bv32) << 16);
    var h1 := h0 ^ (h0 << 3);
    var h2 := h1 + (h1 >> 5);
    var h3 := h2 ^ (h2 << 4);
    var h4 := h3 + (h3 >> 17);
    var h5 := h4 ^ (h4 << 25);
    h5 + (h5 >> 6)
  }

  function Bucket(data: seq<byte>, i: nat): (h: nat)
    requires i + 2 < |data|
    ensures h < ZHASH
  {
    (ZHash(data[i], data[i + 1], data[i + 2]) & 16383) as nat
  }

  /** Every chain lists earlier positions than i. */
  predicate TableBefore(table: seq<seq<nat>>, i: nat) {
    forall h :: 0 <= h < |table| ==> Earlier(table[h], i)
  }

  /** Enters position i in its chain, dropping the older half of a full chain first. */
  method Enter(table: array<seq<nat>>, h: nat, i: nat, quality: nat)
    requires h < table.Length && TableBefore(table[..], i)
    modifies table
    ensures TableBefore(table[..], i + 1)
    ensures table[..] == old(table[..])[h := Kept(old(table[h]), quality) + [i]]
  {
    ghost var before := table[..];
    var chain := table[h];
    assert Earlier(before[h], i);
    if |chain| == 2 * quality {
      chain := chain[quality..];
    }
    table[h] := chain + [i];
    assert table[..] == before[h := chain + [i]];
    forall k | 0 <= k < table.Length
      ensures Earlier(table[..][k], i + 1)
    {
      assert Earlier(before[k], i);
    }
  }

  /** A chain that has reached twice the quality keeps its younger half. */
  function Kept(chain: seq<nat>, quality: nat): seq<nat> {
    if |chain| == 2 * quality then chain[quality..] else chain
  }

  /** What the loop has produced: the tokens stand for the first i bytes, and are what was written. */
  ghost predicate Produced(data: seq<byte>, i: nat, toks: seq<Token>, pieces: seq<Piece>) {
    && i <= |data| && AllEncodable(toks)
    && Sound([], toks) && Expand([], toks) == data[..i]
    && pieces == Opening() + AllPieces(toks)
  }

  /** Final block, fixed code. */
  function Opening(): seq<Piece> {
    [Piece(1, 1), Piece(1, 2)]
  }

  lemma Produce(data: seq<byte>, i: nat, toks: seq<Token>, pieces: seq<Piece>, t: Token)
    requires Produced(data, i, toks, pieces) && Encodable(t) && i + t.Len() <= |data|
    requires CanApply(data[..i], t) && Apply(data[..i], t) == data[..i + t.Len()]
    ensures Produced(data, i + t.Len(), toks + [t], pieces + Pieces(t))
  {
    ExpandSnoc([], toks, t);
    AllPiecesSnoc(toks, t);
    Reassociate(Opening(), AllPieces(toks), Pieces(t));
  }

  method WriteLiteral(w: BitSink, data: seq<byte>, i: nat, ghost toks: seq<Token>) returns (ghost t: Token)
    requires w.Valid() && i < |data| && Produced(data, i, toks, w.pieces)
    modifies w
    ensures w.Valid() && t == Literal(data[i]) && Produced(data, i + 1, toks + [t], w.pieces)
  {
    t := Literal(data[i]);
    Produce(data, i, toks, w.pieces, t);
    w.Huff(data[i]);
  }

  /** What is chosen at i: the longest match in the chain, unless there is none, or the next position has
      a longer one. */
  ghost predicate Choice(data: seq<byte>, i: nat, chain: seq<nat>, later: seq<nat>, best: nat, loc: int) {
    if loc >= 0 then Longest(data, i, chain, best, loc) && !Outdone(data, i + 1, later, best)
    else exists l: int :: Longest(data, i, chain, best, l) && (l >= 0 ==> Outdone(data, i + 1, later, best))
  }

  method ChooseMatch(data: seq<byte>, i: nat, table: array<seq<nat>>, quality: nat) returns (best: nat, loc: int)
    requires i + 3 < |data| && table.Length == ZHASH && TableBefore(table[..], i)
    modifies table
    ensures TableBefore(table[..], i + 1)
    ensures var h := Bucket(data, i); table[..] == old(table[..])[h := Kept(old(table[h]), quality) + [i]]
    ensures Choice(data, i, old(table[Bucket(data, i)]), table[Bucket(data, i + 1)], best, loc)
    ensures loc >= 0 ==> GoodMatch(data, i, loc, best)
  {
    hide Outdone, GoodMatch, Bucket, ZHash, Kept;
    var h := Bucket(data, i);
    assert Earlier(table[..][h], i);
    best, loc := FindMatch(data, i, table[h]);
    ghost var l := loc;
    MatchFound(data, i, table[h], best, loc);
    Enter(table, h, i, quality);
    if loc >= 0 {
      h := Bucket(data, i + 1);
      assert Earlier(table[..][h], i + 1);
      var better := BetterMatch(data, i + 1, table[h], best);
      if better {
        loc := -1;
      }
    }
  }

  lemma MatchFound(data: seq<byte>, i: nat, list: seq<nat>, best: nat, loc: int)
    requires Longest(data, i, list, best, loc)
    ensures loc >= 0 ==> best >= 3 && GoodMatch(data, i, loc, best)
  {
  }

  /** The token for what was chosen at i. */
  predicate Tells(data: seq<byte>, i: nat, best: nat, loc: int, t: Token)
    requires i < |data|
  {
    if loc >= 0 then t.Copy? && t.WellFormed() && t.Len() == best && t.Dist() == i - loc else t == Literal(data[i])
  }

  /** How many bytes the tokens stand for. */
  function Sizes(toks: seq<Token>): nat {
    if toks == [] then 0 else Sizes(toks[..|toks| - 1]) + Size(toks[|toks| - 1])
  }

  function Size(t: Token): nat {
    if t.WellFormed() then t.Len() else 0
  }

  function Entered(data: seq<byte>, i: nat, quality: nat, table: seq<seq<nat>>): (r: seq<seq<nat>>)
    requires |table| == ZHASH
    ensures |r| == ZHASH
  {
    if i + 3 < |data| then
      var h := Bucket(data, i);
      table[h := Kept(table[h], quality) + [i]]
    else table
  }

  /** The chains after the tokens: the positions at which a token began, in their order. */
  function Chains(data: seq<byte>, quality: nat, toks: seq<Token>): (table: seq<seq<nat>>)
    ensures |table| == ZHASH
    decreases |toks|
  {
    if toks == [] then seq(ZHASH, _ => [])
    else
      var before := toks[..|toks| - 1];
      Entered(data, Sizes(before), quality, Chains(data, quality, before))
  }

  /** The token t comes after the tokens before: what is chosen there, or, for the last three bytes, a
      literal. */
  ghost predicate Chosen(data: seq<byte>, quality: nat, before: seq<Token>, t: Token) {
    var i, table := Sizes(before), Chains(data, quality, before);
    if i + 3 < |data| then
      var chain, later := table[Bucket(data, i)], Entered(data, i, quality, table)[Bucket(data, i + 1)];
      exists best: nat, loc: int :: Choice(data, i, chain, later, best, loc) && Tells(data, i, best, loc, t)
    else i < |data| && t == Literal(data[i])
  }

  /** Every token is the one chosen at its place. */
  ghost predicate AllChosen(data: seq<byte>, quality: nat, toks: seq<Token>) {
    forall k :: 0 <= k < |toks| ==> Chosen(data, quality, toks[..k], toks[k])
  }

  lemma OneMoreChosen(data: seq<byte>, quality: nat, toks: seq<Token>, t: Token)
    requires AllChosen(data, quality, toks) && Chosen(data, quality, toks, t)
    ensures AllChosen(data, quality, toks + [t]) && Sizes(toks + [t]) == Sizes(toks) + Size(t)
    ensures Chains(data, quality, toks + [t]) == Entered(data, Sizes(toks), quality, Chains(data, quality, toks))
  {
    hide Chosen, Entered;
    var more := toks + [t];
    assert more[..|toks|] == toks;
    forall k | 0 <= k < |more|
      ensures Chosen(data, quality, more[..k], more[k])
    {
      assert k < |toks| ==> more[..k] == toks[..k];
    }
  }

  lemma MatchFits(data: seq<byte>, i: nat, loc: nat, n: nat)
    requires GoodMatch(data, i, loc, n)
    ensures 3 <= n <= 258 && 1 <= i - loc <= 32767
  {
  }

  /** The copy of a match stands for the next bytes. */
  lemma CopyProduced(data: seq<byte>, i: nat, toks: seq<Token>, pieces: seq<Piece>, t: Token, loc: nat, best: nat)
    requires Produced(data, i, toks, pieces) && GoodMatch(data, i, loc, best) && Encodable(t)
    requires t.Copy? && t.Len() == best && t.Dist() == i - loc
    ensures Produced(data, i + best, toks + [t], pieces + Pieces(t)) && t.WellFormed()
  {
    hide Pieces, AllPieces, Sound, Expand, AllEncodable;
    MatchCopies(data, i, loc, best);
    Produce(data, i, toks, pieces, t);
  }

  /** Writes one token for position i. */
  method WriteToken(w: BitSink, data: seq<byte>, i: nat, best: nat, loc: int, ghost toks: seq<Token>)
    returns (next: nat, ghost t: Token)
    requires w.Valid() && i < |data| && Produced(data, i, toks, w.pieces)
    requires loc >= 0 ==> GoodMatch(data, i, loc, best)
    modifies w
    ensures w.Valid() && i < next == i + Size(t) && Produced(data, next, toks + [t], w.pieces)
    ensures Tells(data, i, best, loc, t)
  {
    hide Produced, BitSink.Valid, GoodMatch, Encodable, Pieces;
    if loc >= 0 {
      ghost var p := w.pieces;
      MatchFits(data, i, loc, best);
      t := WriteMatch(w, best, i - loc);
      CopyProduced(data, i, toks, p, t, loc, best);
      next := i + best;
    } else {
      t := WriteLiteral(w, data, i, toks);
      next := i + 1;
    }
  }

  /** The loop has reached position i: what it has written and entered are the tokens chosen. */
  ghost predicate Reached(data: seq<byte>, quality: nat, i: nat, table: seq<seq<nat>>, toks: seq<Token>) {
    && TableBefore(table, i) && table == Chains(data, quality, toks)
    && i == Sizes(toks) && AllChosen(data, quality, toks)
  }

  /** One turn of the loop. */
  method CompressNext(w: BitSink, data: seq<byte>, i: nat, table: array<seq<nat>>, quality: nat, ghost toks: seq<Token>)
    returns (next: nat, ghost t: Token)
    requires w.Valid() && i + 3 < |data| && Produced(data, i, toks, w.pieces)
    requires Reached(data, quality, i, table[..], toks)
    modifies w, table
    ensures w.Valid() && i < next && Produced(data, next, toks + [t], w.pieces)
    ensures Reached(data, quality, next, table[..], toks + [t])
  {
    hide Choice, Kept, GoodMatch, Earlier, Produced, BitSink.Valid, TableBefore, Chains, Sizes, AllChosen;
    hide Tells, Bucket;
    var best, loc := ChooseMatch(data, i, table, quality);
    next, t := WriteToken(w, data, i, best, loc, toks);
    assert Chosen(data, quality, toks, t);
    OneMoreChosen(data, quality, toks, t);
    TableLater(table[..], i + 1, next);
  }

  /** The last bytes as literals. */
  method CompressRest(w: BitSink, data: seq<byte>, i0: nat, quality: nat, ghost toks0: seq<Token>)
    returns (ghost toks: seq<Token>)
    requires w.Valid() && Produced(data, i0, toks0, w.pieces)
    requires |data| - 3 <= i0 == Sizes(toks0) && AllChosen(data, quality, toks0)
    modifies w
    ensures w.Valid() && AllChosen(data, quality, toks)
    ensures AllEncodable(toks) && Sound([], toks) && Expand([], toks) == data
    ensures w.pieces == Opening() + AllPieces(toks)
  {
    hide Produced, BitSink.Valid, Chains, Sizes, AllChosen, Sound, Expand, AllEncodable, AllPieces, Opening;
    var i := i0;
    toks := toks0;
    while i < |data|
      invariant w.Valid() && Produced(data, i, toks, w.pieces)
      invariant |data| - 3 <= i == Sizes(toks) && AllChosen(data, quality, toks)
    {
      ghost var t := WriteLiteral(w, data, i, toks);
      OneMoreChosen(data, quality, toks, t);
      toks := toks + [t];
      i := i + 1;
    }
    AllProduced(data, i, toks, w.pieces);
  }

  /** Compresses everything and pads to a whole byte. */
  method CompressFixed(data: seq<byte>, quality: nat) returns (w: BitSink, ghost toks: seq<Token>, ghost pad: nat)
    requires quality > 0
    ensures fresh(w) && w.Valid() && w.bitcount == 0
    ensures AllEncodable(toks) && Sound([], toks) && Expand([], toks) == data
    ensures w.pieces == (Opening() + AllPieces(toks)) + ([HuffPiece(END_OF_BLOCK)] + Padding(pad)) && pad < 8
    ensures AllChosen(data, quality, toks)
  {
    hide Chains, Sizes, AllChosen, Produced, TableBefore, Padding, Opening, Sound, Expand, AllEncodable, AllPieces;
    hide BitSink.Consistent;
    w := new BitSink();
    OneBit();
    w.Add(1, 1);
    w.Add(1, 2);
    assert w.pieces == [Piece(1, 1)] + [Piece(1, 2)];
    var i := 0;
    var table := new seq<nat>[ZHASH](_ => []);
    toks := [];
    NothingProduced(data, quality, table[..]);
    while i < |data| - 3
      invariant w.Valid() && fresh(w) && Produced(data, i, toks, w.pieces)
      invariant Reached(data, quality, i, table[..], toks)
    {
      ghost var t;
      i, t := CompressNext(w, data, i, table, quality, toks);
      toks := toks + [t];
    }
    toks := CompressRest(w, data, i, quality, toks);
    pad := Finish(w);
  }

  lemma AllProduced(data: seq<byte>, i: nat, toks: seq<Token>, pieces: seq<Piece>)
    requires Produced(data, i, toks, pieces) && i >= |data|
    ensures AllEncodable(toks) && Sound([], toks) && Expand([], toks) == data
    ensures pieces == Opening() + AllPieces(toks)
  {
    assert data[..i] == data;
  }

  lemma NothingProduced(data: seq<byte>, quality: nat, table: seq<seq<nat>>)
    requires |table| == ZHASH && forall h :: 0 <= h < |table| ==> table[h] == []
    ensures TableBefore(table, 0) && Produced(data, 0, [], [Piece(1, 1)] + [Piece(1, 2)])
    ensures AllChosen(data, quality, []) && Sizes([]) == 0 && Chains(data, quality, []) == table
  {
    assert Opening() + AllPieces([]) == [Piece(1, 1)] + [Piece(1, 2)];
  }

  lemma OneBit()
    ensures 1 < Pow2(1) && 1 < Pow2(2)
  {
  }

  lemma TableLater(table: seq<seq<nat>>, i: nat, n: nat)
    requires TableBefore(table, i) && i <= n
    ensures TableBefore(table, n)
  {
    forall h | 0 <= h < |table|
      ensures Earlier(table[h], n)
    {
      assert Earlier(table[h], i);
    }
  }

  function Padding(n: nat): seq<Piece> {
    if n == 0 then [] else Padding(n - 1) + [Piece(0, 1)]
  }

  /** The end mark, then zero bits up to a byte boundary. */
  method Finish(w: BitSink) returns (ghost pad: nat)
    requires w.Valid()
    modifies w
    ensures w.Valid() && w.bitcount == 0
    ensures w.pieces == old(w.pieces) + ([HuffPiece(END_OF_BLOCK)] + Padding(pad)) && pad < 8
  {
    hide StreamOf, Pow2, Le, Width, BitSink.Consistent;
    w.Huff(END_OF_BLOCK);
    pad := 0;
    ghost var p, waiting := w.pieces, w.bitcount;
    while w.bitcount != 0
      invariant w.Valid() && w.pieces == p + Padding(pad)
      invariant pad < 8 && (w.bitcount != 0 ==> w.bitcount == waiting + pad && waiting > 0)
      decreases if w.bitcount == 0 then 0 else 8 - w.bitcount
    {
      ghost var bytes, bits := |w.out|, w.bitcount;
      w.Add(0, 1);
      OneBitMore(bytes, bits, |w.out|, w.bitcount);
      pad := pad + 1;
    }
  }

  lemma OneBitMore(bytes: nat, bits: nat, bytes': nat, bits': nat)
    requires bits < 8 && bits' < 8 && 8 * bytes' + bits' == 8 * bytes + bits + 1
    ensures bits' == if bits == 7 then 0 else bits + 1
  {
  }
}
