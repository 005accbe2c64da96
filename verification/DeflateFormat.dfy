/** What a DEFLATE stream means, independent of the programs that read and write it: symbols with
    extra bits, back references into the bytes already produced, and blocks (sections 3.2.3 to 3.2.7
    of RFC 1951).  Streams are numbers, least significant bit first (see Bits). */
module DeflateFormat {
  import opened Bits
  import opened ZHuffman

  // ----- symbols and their extra bits

  function LengthBase(lsym: nat): (n: nat)
    requires 257 <= lsym < 286
    ensures 3 <= n <= 258
  {
    [3,4,5,6,7,8,9,10,11,13,15,17,19,23,27,31,35,43,51,59,67,83,99,115,131,163,195,227,258][lsym - 257]
  }

  function LengthExtra(lsym: nat): (n: nat)
    requires 257 <= lsym < 286
    ensures n <= 5
  {
    [0,0,0,0,0,0,0,0,1,1,1,1,2,2,2,2,3,3,3,3,4,4,4,4,5,5,5,5,0][lsym - 257]
  }

  function DistBase(dsym: nat): (n: nat)
    requires dsym < 30
    ensures 1 <= n <= 24577
  {
    [1,2,3,4,5,7,9,13,17,25,33,49,65,97,129,193,257,385,513,769,
     1025,1537,2049,3073,4097,6145,8193,12289,16385,24577][dsym]
  }

  function DistExtra(dsym: nat): (n: nat)
    requires dsym < 30
    ensures n <= 13
  {
    [0,0,0,0,1,1,2,2,3,3,4,4,5,5,6,6,7,7,8,8,9,9,10,10,11,11,12,12,13,13][dsym]
  }

  /** The tables of section 3.2.5 by rule.  The number of extra bits grows by one every four length symbols
      after the eighth and every two distance symbols after the fourth; 258 has a symbol for itself ... */
  lemma ExtraRule(j: nat)
    ensures j < 29 ==> LengthExtra(257 + j) == if j < 8 || j == 28 then 0 else (j - 4) / 4
    ensures j < 30 ==> DistExtra(j) == if j < 4 then 0 else (j - 2) / 2
  {
  }

  /** ... and each symbol begins where the one before it ends, from lengths of 3 and distances of 1 on. */
  lemma LengthsTile(j: nat)
    requires j < 27
    ensures LengthBase(257) == 3 && LengthBase(285) == 258
    ensures LengthBase(257 + j + 1) == LengthBase(257 + j) + Pow2(LengthExtra(257 + j))
  {
    hide Pow2, LengthExtra, DistExtra;
    ExtraRule(j);
    SmallPowers();
  }

  lemma DistancesTile(j: nat)
    requires j < 29
    ensures DistBase(0) == 1 && DistBase(j + 1) == DistBase(j) + Pow2(DistExtra(j))
  {
    hide Pow2, LengthExtra, DistExtra;
    ExtraRule(j);
    SmallPowers();
  }

  lemma SmallPowers()
    ensures Pow2(0) == 1 && Pow2(1) == 2 && Pow2(2) == 4 && Pow2(3) == 8 && Pow2(4) == 16 && Pow2(5) == 32
    ensures Pow2(6) == 64 && Pow2(7) == 128 && Pow2(8) == 256 && Pow2(9) == 512 && Pow2(10) == 1024
    ensures Pow2(11) == 2048 && Pow2(12) == 4096 && Pow2(13) == 8192
  {
  }

  const END_OF_BLOCK := 256

  /** One literal byte, or a copy given by its two symbols and their extra bits. */
  datatype Token = Literal(b: byte) | Copy(lsym: nat, lextra: nat, dsym: nat, dextra: nat) {
    predicate WellFormed() {
      Copy? ==> 257 <= lsym < 286 && dsym < 30
    }

    /** Number of bytes produced. */
    function Len(): (n: nat)
      requires WellFormed()
      ensures n >= 1
    {
      if Literal? then 1 else LengthBase(lsym) + lextra
    }

    function Dist(): (n: nat)
      requires WellFormed() && Copy?
      ensures n >= 1
    {
      DistBase(dsym) + dextra
    }
  }

  // ----- meaning of tokens

  /** Copying n bytes from dist back, one at a time, so that the copy may read what it wrote. */
  function CopyBack(out: seq<byte>, n: nat, dist: nat): (r: seq<byte>)
    requires 1 <= dist <= |out|
    ensures |r| == |out| + n && out <= r
    decreases n
  {
    if n == 0 then out else CopyBack(out + [out[|out| - dist]], n - 1, dist)
  }

  /** Every copy reaches back to bytes that exist. */
  ghost predicate Sound(out: seq<byte>, toks: seq<Token>)
    decreases |toks|
  {
    toks == [] || (CanApply(out, toks[0]) && Sound(Apply(out, toks[0]), toks[1..]))
  }

  predicate CanApply(out: seq<byte>, t: Token) {
    t.WellFormed() && (t.Copy? ==> t.Dist() <= |out|)
  }

  function Apply(out: seq<byte>, t: Token): (r: seq<byte>)
    requires CanApply(out, t)
    ensures |r| == |out| + t.Len() && out <= r
  {
    if t.Literal? then out + [t.b] else CopyBack(out, t.Len(), t.Dist())
  }

  ghost function Expand(out: seq<byte>, toks: seq<Token>): (r: seq<byte>)
    requires Sound(out, toks)
    ensures out <= r
    decreases |toks|
  {
    if toks == [] then out else Expand(Apply(out, toks[0]), toks[1..])
  }

  lemma {:induction false} ExpandSnoc(out: seq<byte>, toks: seq<Token>, t: Token)
    requires Sound(out, toks) && CanApply(Expand(out, toks), t)
    ensures Sound(out, toks + [t]) && Expand(out, toks + [t]) == Apply(Expand(out, toks), t)
    decreases |toks|
  {
    if toks == [] {
      assert toks + [t] == [t];
      assert Sound(Apply(out, t), []);
    } else {
      ExpandSnoc(Apply(out, toks[0]), toks[1..], t);
      assert (toks + [t])[1..] == toks[1..] + [t];
    }
  }

  // ----- tokens in a stream

  /** The stream after symbol i of the alphabet. */
  function AfterSymbol(lens: Lengths, i: nat, v: nat): nat
    requires i < |lens|
  {
    Drop(v, lens[i])
  }

  /** The stream v begins with the encoding of t. */
  ghost predicate TokenAt(ll: Lengths, dl: Lengths, v: nat, t: Token) {
    match t
    case Literal(b) => Matches(ll, b, v)
    case Copy(lsym, lextra, dsym, dextra) =>
      && t.WellFormed()
      && Matches(ll, lsym, v)
      && var v1 := AfterSymbol(ll, lsym, v);
      && lextra == Take(v1, LengthExtra(lsym))
      && var v2 := Drop(v1, LengthExtra(lsym));
      && Matches(dl, dsym, v2)
      && var v3 := AfterSymbol(dl, dsym, v2);
      && dextra == Take(v3, DistExtra(dsym))
  }

  ghost function Skip(ll: Lengths, dl: Lengths, v: nat, t: Token): nat
    requires TokenAt(ll, dl, v, t)
  {
    match t
    case Literal(b) => AfterSymbol(ll, b, v)
    case Copy(lsym, _, dsym, _) =>
      Drop(AfterSymbol(dl, dsym, Drop(AfterSymbol(ll, lsym, v), LengthExtra(lsym))), DistExtra(dsym))
  }

  ghost function TokenBits(ll: Lengths, dl: Lengths, v: nat, t: Token): (n: nat)
    requires TokenAt(ll, dl, v, t)
    ensures n <= 48
  {
    match t
    case Literal(b) => ll[b]
    case Copy(lsym, _, dsym, _) => ll[lsym] + LengthExtra(lsym) + dl[dsym] + DistExtra(dsym)
  }

  /** At most one token begins a stream. */
  lemma TokenUnique(ll: Lengths, dl: Lengths, v: nat, t: Token, u: Token)
    requires Acceptable(ll) && Acceptable(dl)
    requires TokenAt(ll, dl, v, t) && TokenAt(ll, dl, v, u)
    ensures t == u
  {
    var a := if t.Literal? then t.b as int else t.lsym;
    var b := if u.Literal? then u.b as int else u.lsym;
    MatchUnique(ll, a, b, v);
    if t.Copy? {
      MatchUnique(dl, t.dsym, u.dsym, Drop(AfterSymbol(ll, t.lsym, v), LengthExtra(t.lsym)));
    }
  }

  /** A token is never the end of the block. */
  lemma TokenNotEnd(ll: Lengths, dl: Lengths, v: nat, t: Token)
    requires Acceptable(ll) && TokenAt(ll, dl, v, t)
    ensures !Matches(ll, END_OF_BLOCK, v)
  {
    if Matches(ll, END_OF_BLOCK, v) {
      MatchUnique(ll, END_OF_BLOCK, if t.Literal? then t.b as int else t.lsym, v);
    }
  }

  /** The stream v begins with these tokens. */
  ghost predicate Parses(ll: Lengths, dl: Lengths, v: nat, toks: seq<Token>)
    decreases |toks|
  {
    toks == [] || (TokenAt(ll, dl, v, toks[0]) && Parses(ll, dl, Skip(ll, dl, v, toks[0]), toks[1..]))
  }

  ghost function Rest(ll: Lengths, dl: Lengths, v: nat, toks: seq<Token>): nat
    requires Parses(ll, dl, v, toks)
    decreases |toks|
  {
    if toks == [] then v else Rest(ll, dl, Skip(ll, dl, v, toks[0]), toks[1..])
  }

  ghost function BitLength(ll: Lengths, dl: Lengths, v: nat, toks: seq<Token>): nat
    requires Parses(ll, dl, v, toks)
    decreases |toks|
  {
    if toks == [] then 0
    else TokenBits(ll, dl, v, toks[0]) + BitLength(ll, dl, Skip(ll, dl, v, toks[0]), toks[1..])
  }

  lemma {:induction false} ParsesSnoc(ll: Lengths, dl: Lengths, v: nat, toks: seq<Token>, t: Token)
    requires Parses(ll, dl, v, toks) && TokenAt(ll, dl, Rest(ll, dl, v, toks), t)
    ensures Parses(ll, dl, v, toks + [t])
    ensures Rest(ll, dl, v, toks + [t]) == Skip(ll, dl, Rest(ll, dl, v, toks), t)
    ensures BitLength(ll, dl, v, toks + [t]) == BitLength(ll, dl, v, toks) + TokenBits(ll, dl, Rest(ll, dl, v, toks), t)
    decreases |toks|
  {
    if toks == [] {
      assert toks + [t] == [t];
      assert Parses(ll, dl, Skip(ll, dl, v, t), []);
    } else {
      ParsesSnoc(ll, dl, Skip(ll, dl, v, toks[0]), toks[1..], t);
      assert (toks + [t])[1..] == toks[1..] + [t];
    }
  }

  /** The reader can go no further: neither a usable token nor the end of the block comes next. */
  ghost predicate Stuck(ll: Lengths, dl: Lengths, v: nat, out: seq<byte>) {
    !Matches(ll, END_OF_BLOCK, v) && forall t :: TokenAt(ll, dl, v, t) ==> !CanApply(out, t)
  }

  /** A complete block: all its tokens and the end mark. */
  ghost predicate BlockBody(ll: Lengths, dl: Lengths, v: nat, out: seq<byte>, toks: seq<Token>) {
    Parses(ll, dl, v, toks) && Sound(out, toks) && Matches(ll, END_OF_BLOCK, Rest(ll, dl, v, toks))
  }

  /** Any sound parse of a stream that holds a complete block is a beginning of that block, and the
      remaining tokens are a complete block from there. */
  lemma {:induction false} ParseIsPrefix(ll: Lengths, dl: Lengths, v: nat, out: seq<byte>, whole: seq<Token>,
                                         part: seq<Token>)
    requires Acceptable(ll) && Acceptable(dl)
    requires BlockBody(ll, dl, v, out, whole)
    requires Parses(ll, dl, v, part) && Sound(out, part)
    ensures part <= whole
    ensures BlockBody(ll, dl, Rest(ll, dl, v, part), Expand(out, part), whole[|part|..])
    ensures Expand(Expand(out, part), whole[|part|..]) == Expand(out, whole)
    ensures BitLength(ll, dl, v, part) <= BitLength(ll, dl, v, whole)
    decreases |part|
  {
    hide Acceptable, CanApply, Apply, TokenAt, TokenBits, Skip, Matches;
    if part == [] {
      assert whole[0..] == whole;
    } else {
      NextIsForced(ll, dl, v, out, whole);
      assert part[0] == whole[0];
      ParseIsPrefix(ll, dl, Skip(ll, dl, v, part[0]), Apply(out, part[0]), whole[1..], part[1..]);
      PrefixCons(part, whole);
    }
  }

  lemma PrefixCons(part: seq<Token>, whole: seq<Token>)
    requires part != [] && whole != [] && part[0] == whole[0] && part[1..] <= whole[1..]
    ensures part <= whole && whole[1..][|part| - 1..] == whole[|part|..]
  {
    assert part == [part[0]] + part[1..];
    assert whole == [part[0]] + whole[1..];
  }

  /** The reader of a complete block has no choice, and is never stuck. */
  lemma NextIsForced(ll: Lengths, dl: Lengths, v: nat, out: seq<byte>, whole: seq<Token>)
    requires Acceptable(ll) && Acceptable(dl)
    requires BlockBody(ll, dl, v, out, whole)
    ensures !Stuck(ll, dl, v, out)
    ensures Matches(ll, END_OF_BLOCK, v) <==> whole == []
    ensures forall t :: TokenAt(ll, dl, v, t) ==> whole != [] && t == whole[0]
  {
    forall t | TokenAt(ll, dl, v, t)
      ensures whole != [] && t == whole[0]
    {
      TokenNotEnd(ll, dl, v, t);
      if whole != [] {
        TokenUnique(ll, dl, v, t, whole[0]);
      }
    }
    if whole != [] {
      assert TokenAt(ll, dl, v, whole[0]);
      TokenNotEnd(ll, dl, v, whole[0]);
    }
  }
}
