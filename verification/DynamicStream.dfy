/** Whole zlib streams of dynamic blocks, written after RFC 1950 and RFC 1951, and that the inflater decodes
    them. */
module DynamicStream {
  import opened Bits
  import opened BitPieces
  import opened ZHuffman
  import opened DeflateFormat
  import opened Runs
  import opened ZlibFormat
  import opened TokenWriter
  import opened DynamicWriter
  import opened Inflate
  import opened InflateTheorems

  /** A block: how its codes are announced, and its tokens. */
  datatype Part = Part(plan: Plan, toks: seq<Token>) {
    ghost predicate Valid() {
      plan.Valid() && AllWritable(plan.ll, plan.dl, toks)
    }

    ghost function Pieces(final: bool): seq<Piece>
      requires Valid()
    {
      [Piece(if final then 1 else 0, 1)] + ([Piece(2, 2)] + (plan.Pieces() + BodyPieces(plan.ll, plan.dl, toks)))
    }
  }

  ghost predicate AllValid(parts: seq<Part>) {
    forall i :: 0 <= i < |parts| ==> parts[i].Valid()
  }

  /** The blocks one after the other, the last of them marked. */
  ghost function AllPieces(parts: seq<Part>): seq<Piece>
    requires AllValid(parts) && parts != []
  {
    if |parts| == 1 then parts[0].Pieces(true) else parts[0].Pieces(false) + AllPieces(parts[1..])
  }

  /** No copy reaches back before the first byte. */
  ghost predicate Meaningful(out: seq<byte>, parts: seq<Part>)
    decreases |parts|
  {
    parts == [] || (Sound(out, parts[0].toks) && Meaningful(Expand(out, parts[0].toks), parts[1..]))
  }

  ghost function Content(out: seq<byte>, parts: seq<Part>): seq<byte>
    requires Meaningful(out, parts)
    decreases |parts|
  {
    if parts == [] then out else Content(Expand(out, parts[0].toks), parts[1..])
  }

  /** Two header bytes (deflate, no preset dictionary, a check value that makes them a multiple of 31), the
      blocks, and any trailer. */
  ghost predicate ZlibFile(input: seq<byte>, window: nat, level: nat, check: nat, parts: seq<Part>, trailer: seq<byte>)
    requires AllValid(parts) && parts != []
  {
    && HeaderFields(16 * window + 8, 64 * level + check, window, level, check)
    && input == [16 * window + 8, 64 * level + check] + (Packed(AllPieces(parts)) + trailer)
  }

  // ----- a block is read back

  ghost function BlockOf(part: Part): Block
    requires part.Valid()
  {
    Dynamic(Meant(part.plan), part.toks)
  }

  lemma Opening(final: bool, ps: seq<Piece>, tail: nat)
    ensures var all := [Piece(if final then 1 else 0, 1)] + ([Piece(2, 2)] + ps);
      var v := StreamOf(all, tail);
      && (IsFinal(v) <==> final) && Take(Drop(v, 1), 2) == 2 && Drop(v, 3) == StreamOf(ps, tail)
      && Width(all) == 3 + Width(ps)
  {
    hide Take, Drop, StreamOf, Width;
    var first, kind := Piece(if final then 1 else 0, 1), Piece(2, 2);
    assert Pow2(1) == 2 && Pow2(2) == 4;
    OnePiece(first, [kind] + ps, tail);
    OnePiece(kind, ps, tail);
    DropDrop(StreamOf([first] + ([kind] + ps), tail), 1, 2);
  }

  lemma PartRead(part: Part, final: bool, used: nat, out: seq<byte>, tail: nat)
    requires part.Valid() && Sound(out, part.toks)
    ensures var p, b := Place(StreamOf(part.Pieces(final), tail), used, out), BlockOf(part);
      && NextBlock(p, b) && (IsFinal(p.v) <==> final)
      && AfterBlock(p, b) == Place(tail, used + Width(part.Pieces(final)), Expand(out, part.toks))
  {
    hide Take, Drop, StreamOf, Width, DynHeaderAt, HeaderBits, LiteralLengths, DistLengths, IsFinal;
    hide Parses, Rest, BitLength, Matches, AfterSymbol, Sound, Expand, Meant, AllWritable;
    var plan := part.plan;
    var body := BodyPieces(plan.ll, plan.dl, part.toks);
    Opening(final, plan.Pieces() + body, tail);
    StreamAppend(plan.Pieces(), body, tail);
    HeaderWritten(plan, StreamOf(body, tail));
    BodyRead(plan.ll, plan.dl, part.toks, tail);
  }

  /** The blocks are read back one after the other. */
  lemma {:induction false} PartsRead(parts: seq<Part>, used: nat, out: seq<byte>, tail: nat)
    returns (bs: seq<Block>, last: Block)
    requires AllValid(parts) && parts != [] && Meaningful(out, parts)
    ensures var p := Place(StreamOf(AllPieces(parts), tail), used, out);
      && BlocksAt(p, bs)
      && var q := AfterBlocks(p, bs);
         NextBlock(q, last) && IsFinal(q.v)
         && AfterBlock(q, last) == Place(tail, used + Width(AllPieces(parts)), Content(out, parts))
    decreases |parts|
  {
    hide NextBlock, AfterBlock, IsFinal, Sound, Expand, Part.Pieces, StreamOf, Width;
    var b, more := BlockOf(parts[0]), parts[1..];
    if |parts| == 1 {
      PartRead(parts[0], true, used, out, tail);
      assert more == [];
      bs, last := [], b;
    } else {
      var first, w := parts[0].Pieces(false), StreamOf(AllPieces(more), tail);
      StreamAppend(first, AllPieces(more), tail);
      PartRead(parts[0], false, used, out, w);
      bs, last := PartsRead(more, used + Width(first), Expand(out, parts[0].toks), tail);
      RunCons(PlainBlock, AfterPlain, Place(StreamOf(AllPieces(parts), tail), used, out), b, bs);
      bs := [b] + bs;
    }
  }

  // ----- the whole

  lemma PartFits(part: Part, final: bool)
    requires part.Valid()
    ensures AllFit(part.Pieces(final))
  {
    hide Plan.Valid, Plan.Pieces, BodyPieces, AllWritable;
    assert Pow2(1) == 2 && Pow2(2) == 4;
    PlanFits(part.plan);
    BodyFits(part.plan.ll, part.plan.dl, part.toks);
    FitBoth(part.plan.Pieces(), BodyPieces(part.plan.ll, part.plan.dl, part.toks));
  }

  lemma {:induction false} PartsFit(parts: seq<Part>)
    requires AllValid(parts) && parts != []
    ensures AllFit(AllPieces(parts))
    decreases |parts|
  {
    hide Part.Pieces, Part.Valid, AllFit;
    if |parts| == 1 {
      PartFits(parts[0], true);
    } else {
      PartFits(parts[0], false);
      PartsFit(parts[1..]);
      FitBoth(parts[0].Pieces(false), AllPieces(parts[1..]));
    }
  }

  /** The file is a complete zlib stream of the content. */
  lemma FileRead(input: seq<byte>, window: nat, level: nat, check: nat, parts: seq<Part>, trailer: seq<byte>)
    requires AllValid(parts) && parts != [] && ZlibFile(input, window, level, check, parts, trailer)
    requires Meaningful([], parts)
    ensures exists bs, last :: Complete(input, bs, last) && ZlibEnd(input, bs, last).out == Content([], parts)
  {
    hide AllPieces, AllFit, AllValid, Meaningful, Content, NextBlock, AfterBlock, AfterBlocks, BlocksAt, IsFinal, Le;
    hide StreamOf, Width, ZlibFile, HeaderOk;
    var ps := AllPieces(parts);
    PartsFit(parts);
    var tail := PackedTail(ps, trailer);
    PartsNotEmpty(parts);
    FileBegins(input, window, level, check, parts, trailer);
    var bs, last := PartsRead(parts, 16, [], tail);
    assert Complete(input, bs, last);
  }

  lemma FileBegins(input: seq<byte>, window: nat, level: nat, check: nat, parts: seq<Part>, trailer: seq<byte>)
    requires AllValid(parts) && parts != [] && ZlibFile(input, window, level, check, parts, trailer)
    requires Width(AllPieces(parts)) > 0
    ensures HeaderOk(input) && input[2..] == Packed(AllPieces(parts)) + trailer
    ensures 16 + Width(AllPieces(parts)) <= 8 * |input|
  {
    hide AllPieces, AllValid, Width, HeaderFields, HeaderBytesOk;
    assert input[2..] == Packed(AllPieces(parts)) + trailer;
    FieldsAccepted(input[0], input[1], window, level, check);
  }

  lemma PartsNotEmpty(parts: seq<Part>)
    requires AllValid(parts) && parts != []
    ensures Width(AllPieces(parts)) > 0
  {
    hide Plan.Valid, Plan.Pieces, BodyPieces;
    var final := |parts| == 1;
    Opening(final, parts[0].plan.Pieces() + BodyPieces(parts[0].plan.ll, parts[0].plan.dl, parts[0].toks), 0);
    StreamAppend(parts[0].Pieces(final), if final then [] else AllPieces(parts[1..]), 0);
  }

  /** The inflater gives back the content of any such file, whatever its codes are and however their lengths
      are told. */
  method DecodeFile(input: seq<byte>, initialSize: nat, ghost window: nat, ghost level: nat, ghost check: nat,
                    ghost parts: seq<Part>, ghost trailer: seq<byte>) returns (st: Status, out: seq<byte>)
    requires initialSize <= UINT_MAX
    requires AllValid(parts) && parts != [] && ZlibFile(input, window, level, check, parts, trailer)
    requires Meaningful([], parts)
    ensures st == Ok ==> out == Content([], parts)
    ensures |Content([], parts)| <= 0x8000_0000 ==> (st == Ok <==> initialSize > 0 || Content([], parts) == [])
  {
    hide AllPieces, AllValid, Meaningful, Content, ZlibFile, Complete, ZlibStream, ZlibEnd;
    FileRead(input, window, level, check, parts, trailer);
    st, out := ZlibDecode(input, initialSize);
  }
}
