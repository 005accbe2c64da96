/** The inflater as a whole: header, blocks, and what a caller learns from the result. */
module InflateStream {
  import opened Bits
  import opened ZHuffman
  import opened DeflateFormat
  import opened Runs
  import opened ZlibFormat
  import opened Inflate
  import opened InflateStored
  import opened InflateDynamic

  // ----- every block makes the stream smaller

  lemma {:induction false} RestMono(ll: Lengths, dl: Lengths, v: nat, toks: seq<Token>)
    requires Parses(ll, dl, v, toks)
    ensures Rest(ll, dl, v, toks) <= v
    decreases |toks|
  {
    if toks == [] {
    } else {
      SkipMono(ll, dl, v, toks[0]);
      RestMono(ll, dl, Skip(ll, dl, v, toks[0]), toks[1..]);
    }
  }

  lemma SkipMono(ll: Lengths, dl: Lengths, v: nat, t: Token)
    requires TokenAt(ll, dl, v, t)
    ensures Skip(ll, dl, v, t) <= v
  {
    match t
    case Literal(b) => DropMono(v, ll[b]);
    case Copy(lsym, _, dsym, _) =>
      var v1 := Drop(v, ll[lsym]);
      var v2 := Drop(v1, LengthExtra(lsym));
      var v3 := Drop(v2, dl[dsym]);
      DropMono(v, ll[lsym]);
      DropMono(v1, LengthExtra(lsym));
      DropMono(v2, dl[dsym]);
      DropMono(v3, DistExtra(dsym));
  }

  lemma BodyEndMono(ll: Lengths, dl: Lengths, v: nat, out: seq<byte>, toks: seq<Token>)
    requires BlockBody(ll, dl, v, out, toks)
    ensures BodyEnd(ll, dl, v, out, toks) <= v
  {
    RestMono(ll, dl, v, toks);
    DropMono(Rest(ll, dl, v, toks), ll[END_OF_BLOCK]);
  }

  lemma AfterHeaderMono(v: nat, used: nat, out: seq<byte>, b: Block)
    requires BlockAt(v, used, out, b)
    ensures BlockEnd(v, used, out, b) <= Drop(v, 3)
  {
    hide BlockBody, BodyEnd, StoredAt, Drop, Take, FixedLiteralLengths, FixedDistLengths;
    var v3 := Drop(v, 3);
    match b
    case Stored(data) => DropMono(v3, StoredBits(used + 3, data));
    case Fixed(toks) => BodyEndMono(FixedLiteralLengths(), FixedDistLengths(), v3, out, toks);
    case Dynamic(h, toks) =>
      DropMono(v3, HeaderBits(h));
      BodyEndMono(LiteralLengths(h), DistLengths(h), Drop(v3, HeaderBits(h)), out, toks);
  }

  /** Implicit zero bits cannot go on for ever: zero is not the beginning of a block. */
  lemma BlockEndSmaller(v: nat, used: nat, out: seq<byte>, b: Block)
    requires BlockAt(v, used, out, b)
    ensures BlockEnd(v, used, out, b) < v
  {
    hide BlockBody, BlockEnd, DynHeaderAt, StoredAt, Drop, Take, FixedLiteralLengths, FixedDistLengths;
    AfterHeaderMono(v, used, out, b);
    DropThree(v);
    if v == 0 {
      ZeroNotStored(used + 3, b.data);
    }
  }

  lemma DropThree(v: nat)
    ensures Drop(v, 3) == v / 8
    ensures v == 0 ==> Take(Drop(v, 1), 2) == 0
  {
    TakeDropIsModDiv(v, 3);
    assert Pow2(3) == 8;
  }

  lemma {:induction false} TakeZero(n: nat)
    ensures Take(0, n) == 0 && Drop(0, n) == 0
  {
    if n == 0 {
    } else {
      TakeZero(n - 1);
    }
  }

  lemma ZeroNotStored(used: nat, data: seq<byte>)
    ensures !StoredAt(0, used, data)
  {
    TakeZero(Pad(used));
    TakeZero(16);
  }

  // ----- failures

  /** A failure at place p rules out the block b, or has an excuse: the input ends before or within b,
      or b's output does not fit. */
  ghost predicate Excused(st: Status, p: Place, b: Block, inputBits: nat, pastEnd: bool, used: nat, bufLen: nat,
                          expandable: bool)
    requires NextBlock(p, b)
  {
    || (pastEnd && used <= AfterBlock(p, b).used)
    || Max(inputBits, FIRST_FILL) < AfterBlock(p, b).used
    || NoRoom(st, |AfterBlock(p, b).out|, bufLen, expandable)
  }

  ghost predicate BlockFailure(st: Status, p: Place, inputBits: nat, pastEnd: bool, used: nat, bufLen: nat,
                               expandable: bool)
  {
    forall b :: NextBlock(p, b) ==> Excused(st, p, b, inputBits, pastEnd, used, bufLen, expandable)
  }

  lemma StoredFailureExcused(st: Status, p: Place, inputBits: nat, pastEnd: bool, used: nat, bufLen: nat,
                             expandable: bool)
    requires Take(Drop(p.v, 1), 2) == 0 && p.used >= 16
    requires StoredFailure(st, Drop(p.v, 3), p.used + 3, |p.out|, inputBits, bufLen, expandable)
    ensures BlockFailure(st, p, inputBits, pastEnd, used, bufLen, expandable)
  {
    forall b | NextBlock(p, b)
      ensures Excused(st, p, b, inputBits, pastEnd, used, bufLen, expandable)
    {
      assert b.Stored?;
    }
  }

  ghost predicate BodyExcuse(st: Status, ll: Lengths, dl: Lengths, v: nat, out: seq<byte>, whole: seq<Token>,
                             used0: nat, used: nat, pastEnd: bool, bufLen: nat, expandable: bool)
    requires BlockBody(ll, dl, v, out, whole)
  {
    || (pastEnd && used <= used0 + BodyBits(ll, dl, v, out, whole))
    || NoRoom(st, |Expand(out, whole)|, bufLen, expandable)
  }

  ghost predicate BodyExcused(st: Status, ll: Lengths, dl: Lengths, v: nat, out: seq<byte>,
                              used0: nat, used: nat, pastEnd: bool, bufLen: nat, expandable: bool) {
    forall whole :: BlockBody(ll, dl, v, out, whole) ==>
      BodyExcuse(st, ll, dl, v, out, whole, used0, used, pastEnd, bufLen, expandable)
  }

  /** A block body that could not be begun against a complete one. */
  lemma NextFailure(st: Status, ll: Lengths, dl: Lengths, v: nat, out: seq<byte>, rest: seq<Token>,
                    used0: nat, used: nat, pastEnd: bool, bufLen: nat, expandable: bool)
    requires Acceptable(ll) && Acceptable(dl) && BlockBody(ll, dl, v, out, rest)
    requires Explains(st, ll, dl, v, out, pastEnd && Within(ll, dl, v, used0, used), bufLen, expandable)
    ensures BodyExcuse(st, ll, dl, v, out, rest, used0, used, pastEnd, bufLen, expandable)
  {
    hide Acceptable, IsLengths, Expand, TokenBits, Skip, TokenAt, Apply, Stuck;
    NextIsForced(ll, dl, v, out, rest);
    if rest != [] {
      OneToken(ll, dl, v, out, rest);
    }
  }

  /** A block body that could not be finished against a complete one. */
  lemma BodyFailure(st: Status, ll: Lengths, dl: Lengths, v: nat, out: seq<byte>, part: seq<Token>, whole: seq<Token>,
                    used0: nat, used: nat, pastEnd: bool, bufLen: nat, expandable: bool)
    requires Acceptable(ll) && Acceptable(dl)
    requires Parses(ll, dl, v, part) && Sound(out, part) && BlockBody(ll, dl, v, out, whole)
    requires Explains(st, ll, dl, Rest(ll, dl, v, part), Expand(out, part),
                      pastEnd && Within(ll, dl, Rest(ll, dl, v, part), used0 + BitLength(ll, dl, v, part), used),
                      bufLen, expandable)
    ensures BodyExcuse(st, ll, dl, v, out, whole, used0, used, pastEnd, bufLen, expandable)
  {
    hide Explains, Within, Acceptable, Parses, Sound, Expand, Rest, BitLength, NoRoom, Matches;
    ParseIsPrefix(ll, dl, v, out, whole, part);
    RestBits(ll, dl, v, out, whole, part);
    NextFailure(st, ll, dl, Rest(ll, dl, v, part), Expand(out, part), whole[|part|..],
                used0 + BitLength(ll, dl, v, part), used, pastEnd, bufLen, expandable);
  }

  lemma OneToken(ll: Lengths, dl: Lengths, v: nat, out: seq<byte>, toks: seq<Token>)
    requires BlockBody(ll, dl, v, out, toks) && toks != []
    ensures TokenAt(ll, dl, v, toks[0]) && CanApply(out, toks[0])
    ensures |out| + toks[0].Len() <= |Expand(out, toks)|
    ensures TokenBits(ll, dl, v, toks[0]) <= BitLength(ll, dl, v, toks)
  {
    assert Apply(out, toks[0]) <= Expand(out, toks);
  }

  lemma {:induction false} RestBits(ll: Lengths, dl: Lengths, v: nat, out: seq<byte>, whole: seq<Token>,
                                    part: seq<Token>)
    requires Parses(ll, dl, v, part) && Parses(ll, dl, v, whole) && part <= whole
    ensures Parses(ll, dl, Rest(ll, dl, v, part), whole[|part|..])
    ensures BitLength(ll, dl, v, whole)
         == BitLength(ll, dl, v, part) + BitLength(ll, dl, Rest(ll, dl, v, part), whole[|part|..])
    ensures Rest(ll, dl, v, whole) == Rest(ll, dl, Rest(ll, dl, v, part), whole[|part|..])
    decreases |part|
  {
    if part == [] {
      assert whole[0..] == whole;
    } else {
      RestBits(ll, dl, Skip(ll, dl, v, part[0]), out, whole[1..], part[1..]);
      assert whole[1..][|part| - 1..] == whole[|part|..];
    }
  }

  // ----- the block loop

  ghost function PlaceOf(a: Zbuf): Place
    reads a, a.outBuf
    requires a.Valid()
  {
    Place(a.Stream(), a.used, a.Out())
  }

  /** The body of a block whose tables are in place. */
  method ParseBody(a: Zbuf, ghost ll: Lengths, ghost dl: Lengths) returns (st: Status, ghost toks: seq<Token>)
    requires a.Valid() && a.Separate() && a.zLength.Represents(ll) && a.zDistance.Represents(dl)
    modifies a, a.outBuf
    ensures a.Valid() && a.Separate() && (a.outBuf == old(a.outBuf) || fresh(a.outBuf))
    ensures (!a.expandable ==> a.outBuf == old(a.outBuf)) && GrownFrom(old(a.outBuf.Length), a.outBuf.Length)
    ensures st == Ok ==> BlockBody(ll, dl, old(a.Stream()), old(a.Out()), toks)
    ensures st == Ok ==> a.Stream() == BodyEnd(ll, dl, old(a.Stream()), old(a.Out()), toks)
    ensures st == Ok ==> a.used == old(a.used) + BodyBits(ll, dl, old(a.Stream()), old(a.Out()), toks)
    ensures st == Ok ==> a.Out() == Expand(old(a.Out()), toks)
    ensures st != BadHeader
    ensures st != Ok ==>
      BodyExcused(st, ll, dl, old(a.Stream()), old(a.Out()), old(a.used), a.used, a.PastEnd(), old(a.outBuf.Length),
                  a.expandable)
  {
    hide Explains, BodyExcused, BlockBody, BodyEnd, BodyBits, Table.Represents, Table.Shape;
    hide Parses, Sound, Expand, Rest, BitLength, Matches, Acceptable;
    RepresentedFits(a.zLength, ll);
    RepresentedFits(a.zDistance, dl);
    ghost var v, out, used := a.Stream(), a.Out(), a.used;
    st, toks := a.ParseHuffmanBlock(ll, dl);
    if st == Ok {
      BodyRead(ll, dl, v, out, toks);
    } else {
      BodyRefused(st, ll, dl, v, out, toks, used, a.used, a.PastEnd(), old(a.outBuf.Length), a.expandable);
    }
  }

  lemma RepresentedFits(z: Table, lens: Lengths)
    requires z.Represents(lens)
    ensures Acceptable(lens)
  {
  }

  lemma BodyRead(ll: Lengths, dl: Lengths, v: nat, out: seq<byte>, toks: seq<Token>)
    requires Parses(ll, dl, v, toks) && Sound(out, toks) && Matches(ll, END_OF_BLOCK, Rest(ll, dl, v, toks))
    ensures BlockBody(ll, dl, v, out, toks)
    ensures BodyEnd(ll, dl, v, out, toks) == AfterSymbol(ll, END_OF_BLOCK, Rest(ll, dl, v, toks))
    ensures BodyBits(ll, dl, v, out, toks) == BitLength(ll, dl, v, toks) + ll[END_OF_BLOCK]
  {
  }

  lemma BodyRefused(st: Status, ll: Lengths, dl: Lengths, v: nat, out: seq<byte>, part: seq<Token>,
                    used0: nat, used: nat, pastEnd: bool, bufLen: nat, expandable: bool)
    requires Acceptable(ll) && Acceptable(dl) && Parses(ll, dl, v, part) && Sound(out, part)
    requires Explains(st, ll, dl, Rest(ll, dl, v, part), Expand(out, part),
                      pastEnd && Within(ll, dl, Rest(ll, dl, v, part), used0 + BitLength(ll, dl, v, part), used),
                      bufLen, expandable)
    ensures st != BadHeader && BodyExcused(st, ll, dl, v, out, used0, used, pastEnd, bufLen, expandable)
  {
    hide BlockBody, Within, Acceptable, Parses, Sound, Expand, Rest, BitLength;
    forall whole | BlockBody(ll, dl, v, out, whole)
      ensures BodyExcuse(st, ll, dl, v, out, whole, used0, used, pastEnd, bufLen, expandable)
    {
      BodyFailure(st, ll, dl, v, out, part, whole, used0, used, pastEnd, bufLen, expandable);
    }
  }

  /** The three header bits of the block at p have been read and said `kind`. */
  ghost predicate AfterHeader(a: Zbuf, p: Place, kind: nat)
    reads a, a.outBuf
  {
    && a.Valid() && a.Separate() && p.used >= 16
    && Take(Drop(p.v, 1), 2) == kind
    && a.Stream() == Drop(p.v, 3) && a.used == p.used + 3 && a.Out() == p.out
  }

  ghost predicate Failed(a: Zbuf, st: Status, p: Place, bufLen: nat)
    reads a
  {
    BlockFailure(st, p, 8 * |a.zbuffer|, a.PastEnd(), a.used, bufLen, a.expandable)
  }

  lemma StoredNext(p: Place, data: seq<byte>)
    requires Take(Drop(p.v, 1), 2) == 0 && StoredAt(Drop(p.v, 3), p.used + 3, data)
    ensures NextBlock(p, Stored(data))
    ensures var n := StoredBits(p.used + 3, data);
      AfterBlock(p, Stored(data)) == Place(Drop(Drop(p.v, 3), n), p.used + 3 + n, p.out + data)
  {
    hide StoredAt, StoredBits, Drop, Take;
  }

  method ParseStored(a: Zbuf, ghost p: Place) returns (st: Status, ghost b: Block)
    requires AfterHeader(a, p, 0)
    modifies a, a.outBuf
    ensures a.Valid() && a.Separate() && (a.outBuf == old(a.outBuf) || fresh(a.outBuf))
    ensures (!a.expandable ==> a.outBuf == old(a.outBuf)) && GrownFrom(old(a.outBuf.Length), a.outBuf.Length)
    ensures st == Ok ==> NextBlock(p, b) && PlaceOf(a) == AfterBlock(p, b)
    ensures st != Ok ==> st != BadHeader && Failed(a, st, p, old(a.outBuf.Length))
  {
    hide NextBlock, AfterBlock, StoredAt, StoredBits, Drop, Take, Pow2, Shl, Le, Zbuf.Begun;
    ghost var data;
    st, data := ParseUncompressedBlock(a);
    b := Stored(data);
    if st == Ok {
      StoredNext(p, data);
    } else {
      StoredFailureExcused(st, p, 8 * |a.zbuffer|, a.PastEnd(), a.used, old(a.outBuf.Length), a.expandable);
    }
  }

  method ParseFixed(a: Zbuf, ghost p: Place) returns (st: Status, ghost b: Block)
    requires AfterHeader(a, p, 1)
    modifies a, a.outBuf, a.zLength.Arrays(), a.zDistance.Arrays()
    ensures a.Valid() && a.Separate() && (a.outBuf == old(a.outBuf) || fresh(a.outBuf))
    ensures (!a.expandable ==> a.outBuf == old(a.outBuf)) && GrownFrom(old(a.outBuf.Length), a.outBuf.Length)
    ensures st == Ok ==> NextBlock(p, b) && PlaceOf(a) == AfterBlock(p, b)
    ensures st != Ok ==> st != BadHeader && Failed(a, st, p, old(a.outBuf.Length))
  {
    hide Drop, Take, BlockBody, Acceptable, FastTable, SymbolTable, BoundTable, BodyBits, BodyEnd;
    FixedAcceptable();
    var ok := BuildBoth(a, FixedLiteralLengths(), FixedDistLengths());
    assert a.Out() == p.out;
    ghost var toks;
    st, toks := ParseBody(a, FixedLiteralLengths(), FixedDistLengths());
    b := Fixed(toks);
    if st != Ok {
      FixedFailure(st, p, old(a.used), 8 * |a.zbuffer|, a.PastEnd(), a.used, old(a.outBuf.Length), a.expandable);
    }
  }

  lemma FixedFailure(st: Status, p: Place, used0: nat, inputBits: nat, pastEnd: bool, used: nat, bufLen: nat,
                     expandable: bool)
    requires Take(Drop(p.v, 1), 2) == 1 && used0 == p.used + 3
    requires BodyExcused(st, FixedLiteralLengths(), FixedDistLengths(), Drop(p.v, 3), p.out, used0, used, pastEnd,
                         bufLen, expandable)
    ensures BlockFailure(st, p, inputBits, pastEnd, used, bufLen, expandable)
  {
    forall b | NextBlock(p, b)
      ensures Excused(st, p, b, inputBits, pastEnd, used, bufLen, expandable)
    {
      assert b.Fixed?;
      assert BodyExcuse(st, FixedLiteralLengths(), FixedDistLengths(), Drop(p.v, 3), p.out, b.toks, used0, used,
                        pastEnd, bufLen, expandable);
    }
  }

  method ParseDynamic(a: Zbuf, ghost p: Place) returns (st: Status, ghost b: Block)
    requires AfterHeader(a, p, 2)
    modifies a, a.outBuf, a.zLength.Arrays(), a.zDistance.Arrays()
    ensures a.Valid() && a.Separate() && (a.outBuf == old(a.outBuf) || fresh(a.outBuf))
    ensures (!a.expandable ==> a.outBuf == old(a.outBuf)) && GrownFrom(old(a.outBuf.Length), a.outBuf.Length)
    ensures st == Ok ==> NextBlock(p, b) && PlaceOf(a) == AfterBlock(p, b)
    ensures st != Ok ==> st != BadHeader && Failed(a, st, p, old(a.outBuf.Length))
  {
    hide Drop, Take, BlockBody, Acceptable, FastTable, SymbolTable, BoundTable, BodyBits, BodyEnd, NoHeader;
    hide HeaderStarved;
    ghost var h;
    st, h := ComputeHuffmanCodes(a);
    b := Dynamic(h, []);
    assert a.Out() == p.out;
    if st != Ok {
      HeaderFailure(a, st, p, old(a.outBuf.Length));
      return;
    }
    ghost var used0 := a.used;
    ghost var toks;
    st, toks := ParseBody(a, LiteralLengths(h), DistLengths(h));
    b := Dynamic(h, toks);
    if st != Ok {
      DynamicFailure(st, p, h, used0, 8 * |a.zbuffer|, a.PastEnd(), a.used, old(a.outBuf.Length), a.expandable);
    }
  }

  lemma HeaderFailure(a: Zbuf, st: Status, p: Place, bufLen: nat)
    requires Take(Drop(p.v, 1), 2) == 2
    requires NoHeader(Drop(p.v, 3)) || HeaderStarved(a, Drop(p.v, 3), p.used + 3)
    ensures Failed(a, st, p, bufLen)
  {
    forall b | NextBlock(p, b)
      ensures Excused(st, p, b, 8 * |a.zbuffer|, a.PastEnd(), a.used, bufLen, a.expandable)
    {
      HeaderInside(p, b);
      if !NoHeader(Drop(p.v, 3)) {
        StarvedWithin(a, Drop(p.v, 3), p.used + 3, b.h);
      }
    }
  }

  lemma StarvedWithin(a: Zbuf, v: nat, used0: nat, h: DynHeader)
    requires HeaderStarved(a, v, used0) && DynHeaderAt(v, h)
    ensures a.PastEnd() && a.used <= used0 + HeaderBits(h)
  {
  }

  lemma HeaderInside(p: Place, b: Block)
    requires Take(Drop(p.v, 1), 2) == 2 && NextBlock(p, b)
    ensures b.Dynamic? && DynHeaderAt(Drop(p.v, 3), b.h)
    ensures p.used + 3 + HeaderBits(b.h) <= AfterBlock(p, b).used
  {
  }

  lemma DynamicFailure(st: Status, p: Place, h: DynHeader, used0: nat, inputBits: nat, pastEnd: bool, used: nat,
                       bufLen: nat, expandable: bool)
    requires Take(Drop(p.v, 1), 2) == 2 && DynHeaderAt(Drop(p.v, 3), h) && used0 == p.used + 3 + HeaderBits(h)
    requires BodyExcused(st, LiteralLengths(h), DistLengths(h), Drop(Drop(p.v, 3), HeaderBits(h)), p.out, used0, used,
                         pastEnd, bufLen, expandable)
    ensures BlockFailure(st, p, inputBits, pastEnd, used, bufLen, expandable)
  {
    forall b | NextBlock(p, b)
      ensures Excused(st, p, b, inputBits, pastEnd, used, bufLen, expandable)
    {
      assert b.Dynamic?;
      DynHeaderUnique(Drop(p.v, 3), h, b.h);
      assert BodyExcuse(st, LiteralLengths(h), DistLengths(h), Drop(Drop(p.v, 3), HeaderBits(h)), p.out, b.toks, used0,
                        used, pastEnd, bufLen, expandable);
    }
  }

  /** One block, and whether it says it is the last. */
  method ParseBlock(a: Zbuf) returns (st: Status, final: bool, ghost b: Block)
    requires a.Valid() && a.Separate()
    modifies a, a.outBuf, a.zLength.Arrays(), a.zDistance.Arrays()
    ensures a.Valid() && a.Separate() && (a.outBuf == old(a.outBuf) || fresh(a.outBuf))
    ensures (!a.expandable ==> a.outBuf == old(a.outBuf)) && GrownFrom(old(a.outBuf.Length), a.outBuf.Length)
    ensures final <==> IsFinal(old(a.Stream()))
    ensures st == Ok ==> NextBlock(old(PlaceOf(a)), b) && PlaceOf(a) == AfterBlock(old(PlaceOf(a)), b)
    ensures st != Ok ==> st != BadHeader && Failed(a, st, old(PlaceOf(a)), old(a.outBuf.Length))
  {
    ghost var p := PlaceOf(a);
    var f := a.Receive(1);
    final := f == 1;
    var kind := a.Receive(2);
    DropDrop(p.v, 1, 2);
    TakeBound(Drop(p.v, 1), 2);
    assert Pow2(2) == 4;
    assert a.Out() == p.out;
    if kind == 0 {
      st, b := ParseStored(a, p);
    } else if kind == 1 {
      st, b := ParseFixed(a, p);
    } else if kind == 2 {
      st, b := ParseDynamic(a, p);
    } else {
      st, b := BadBlockType, Stored([]);
    }
  }

  // ----- header and stream

  method ParseZlibHeader(a: Zbuf) returns (ok: bool)
    requires a.Basic() && a.pos == 0 && a.used == 0 && a.numBits == 0 && !a.hitZeofOnce
    modifies a`pos, a`used
    ensures ok <==> HeaderOk(a.zbuffer)
    ensures ok ==> a.Valid() && a.used == 16 && a.Stream() == Le(a.zbuffer[2..])
  {
    var cmf := a.Get8();
    var flg := a.Get8();
    a.used := 16;
    if a.AtEnd() {
      return false;
    }
    ok := HeaderBytesOk(cmf, flg);
  }

  /** Why no stream could be read: with bs read, every continuation has an excuse. */
  ghost predicate ZlibFailure(a: Zbuf, st: Status, bs: seq<Block>, bufLen: nat)
    reads a
  {
    if st == BadHeader then !HeaderOk(a.zbuffer)
    else
      && HeaderOk(a.zbuffer) && BlocksAt(Start(a.zbuffer), bs)
      && Failed(a, st, AfterBlocks(Start(a.zbuffer), bs), bufLen)
  }

  lemma NoBlocks(p: Place)
    ensures BlocksAt(p, []) && AfterBlocks(p, []) == p
  {
  }

  lemma BlocksMore(p: Place, bs: seq<Block>, b: Block)
    requires BlocksAt(p, bs) && NextBlock(AfterBlocks(p, bs), b) && !IsFinal(AfterBlocks(p, bs).v)
    ensures BlocksAt(p, bs + [b]) && AfterBlocks(p, bs + [b]) == AfterBlock(AfterBlocks(p, bs), b)
  {
    hide NextBlock, AfterBlock, IsFinal;
    RunSnoc(PlainBlock, AfterPlain, p, bs, b);
  }

  lemma PlaceSmaller(p: Place, b: Block)
    requires NextBlock(p, b)
    ensures AfterBlock(p, b).v < p.v
  {
    hide BlockAt, BlockEnd, BlockOut, BlockBits;
    BlockEndSmaller(p.v, p.used, p.out, b);
  }

  /** What a grown buffer cannot hold, the buffer could not hold before. */
  lemma FailureSmaller(st: Status, p: Place, inputBits: nat, pastEnd: bool, used: nat, m: nat, n: nat, expandable: bool)
    requires GrownFrom(m, n) && BlockFailure(st, p, inputBits, pastEnd, used, n, expandable)
    ensures BlockFailure(st, p, inputBits, pastEnd, used, m, expandable)
  {
    hide NextBlock, AfterBlock;
    forall b | NextBlock(p, b)
      ensures Excused(st, p, b, inputBits, pastEnd, used, m, expandable)
    {
      assert Excused(st, p, b, inputBits, pastEnd, used, n, expandable);
    }
  }

  /** Inflates a whole zlib stream. */
  method ParseZlib(a: Zbuf) returns (st: Status, ghost bs: seq<Block>, ghost last: Block)
    requires a.Basic() && a.Separate() && a.pos == 0 && a.used == 0 && a.numBits == 0 && a.zout == 0 && !a.hitZeofOnce
    modifies a, a.outBuf, a.zLength.Arrays(), a.zDistance.Arrays()
    ensures a.zout <= a.outBuf.Length && (!a.expandable ==> a.outBuf == old(a.outBuf))
    ensures GrownFrom(old(a.outBuf.Length), a.outBuf.Length)
    ensures st == Ok ==> ZlibStream(a.zbuffer, bs, last) && a.Out() == ZlibEnd(a.zbuffer, bs, last).out
    ensures st != Ok ==> ZlibFailure(a, st, bs, old(a.outBuf.Length))
  {
    hide Zbuf.Begun, Table.Shape, BlockFailure, HeaderBytesOk, Le, Pow2, Shl;
    hide BlocksAt, AfterBlocks, NextBlock, AfterBlock, IsFinal;
    bs, last := [], Stored([]);
    var ok := ParseZlibHeader(a);
    if !ok {
      return BadHeader, bs, last;
    }
    ghost var start := Start(a.zbuffer);
    assert PlaceOf(a) == start;
    NoBlocks(start);
    var final := false;
    while !final
      invariant a.Valid() && a.Separate() && (a.outBuf == old(a.outBuf) || fresh(a.outBuf))
      invariant (!a.expandable ==> a.outBuf == old(a.outBuf)) && GrownFrom(old(a.outBuf.Length), a.outBuf.Length)
      invariant BlocksAt(start, bs)
      invariant !final ==> PlaceOf(a) == AfterBlocks(start, bs)
      invariant final ==> NextBlock(AfterBlocks(start, bs), last) && IsFinal(AfterBlocks(start, bs).v)
      invariant final ==> PlaceOf(a) == AfterBlock(AfterBlocks(start, bs), last)
      decreases !final, a.Stream()
    {
      ghost var p := PlaceOf(a);
      ghost var b;
      ghost var size := a.outBuf.Length;
      st, final, b := ParseBlock(a);
      if st != Ok {
        FailureSmaller(st, p, 8 * |a.zbuffer|, a.PastEnd(), a.used, old(a.outBuf.Length), size, a.expandable);
        return;
      }
      PlaceSmaller(p, b);
      if final {
        last := b;
      } else {
        BlocksMore(start, bs, b);
        bs := bs + [b];
      }
    }
    st := Ok;
  }
}
