/** What a caller of the inflater can rely on: it returns the meaning of the stream, and it accepts
    every stream that is followed by two more bytes (the checksum has four). */
module InflateTheorems {
  import opened Bits
  import opened DeflateFormat
  import opened Runs
  import opened ZlibFormat
  import opened Inflate
  import opened InflateStream

  ghost predicate NoLater(p: Place, q: Place) {
    p.used <= q.used && p.out <= q.out
  }

  lemma BlocksProgress()
    ensures Progresses(PlainBlock, AfterPlain, NoLater)
  {
  }

  lemma BlocksDeterministic()
    ensures Deterministic(PlainBlock)
  {
    forall p, a, b | PlainBlock(p, a) && PlainBlock(p, b)
      ensures a == b
    {
      BlockUnique(p.v, p.used, p.out, a, b);
    }
  }

  /** A run of blocks is a beginning of any complete reading of the stream, and whatever came next in
      that reading comes next after the run. */
  lemma RunInReading(input: seq<byte>, part: seq<Block>, bs: seq<Block>, last: Block) returns (b: Block)
    requires ZlibStream(input, bs, last) && BlocksAt(Start(input), part)
    ensures NextBlock(AfterBlocks(Start(input), part), b)
    ensures NoLater(AfterBlock(AfterBlocks(Start(input), part), b), ZlibEnd(input, bs, last))
    ensures part <= bs && b == (bs + [last])[|part|]
  {
    hide NextBlock, AfterBlock;
    var p, k := Start(input), |part|;
    BlocksProgress();
    BlocksDeterministic();
    assert forall c :: !PlainBlock(AfterBlocks(p, bs), c);
    RunIsPrefix(PlainBlock, AfterPlain, NoLater, p, part, bs);
    RunPrefix(PlainBlock, AfterPlain, NoLater, p, bs, k);
    assert part == bs[..k];
    if k < |bs| {
      b := bs[k];
    } else {
      assert bs[..k] == bs;
      b := last;
    }
  }

  /** A complete reading that ends within the input, or within the first four bytes after the header even
      if they are not all there. */
  ghost predicate Complete(input: seq<byte>, bs: seq<Block>, last: Block) {
    && ZlibStream(input, bs, last)
    && ZlibEnd(input, bs, last).used <= Max(8 * |input|, FIRST_FILL)
  }

  lemma Uniqueness(input: seq<byte>, bs: seq<Block>, last: Block, bs': seq<Block>, last': Block)
    requires ZlibStream(input, bs, last) && ZlibStream(input, bs', last')
    ensures bs == bs' && last == last'
  {
    var b := RunInReading(input, bs', bs, last);
    var b' := RunInReading(input, bs, bs', last');
    var q := AfterBlocks(Start(input), bs);
    BlockUnique(q.v, q.used, q.out, last, last');
  }

  lemma FailureExcused(a: Zbuf, st: Status, part: seq<Block>, bufLen: nat, b: Block)
    requires HeaderOk(a.zbuffer) && ZlibFailure(a, st, part, bufLen)
    requires NextBlock(AfterBlocks(Start(a.zbuffer), part), b)
    ensures st == BadHeader
      || Excused(st, AfterBlocks(Start(a.zbuffer), part), b, 8 * |a.zbuffer|, a.PastEnd(), a.used, bufLen, a.expandable)
  {
  }

  /** A complete stream can only fail for want of room. */
  lemma OnlyRoom(a: Zbuf, st: Status, part: seq<Block>, bufLen: nat, bs: seq<Block>, last: Block)
    requires Complete(a.zbuffer, bs, last) && ZlibFailure(a, st, part, bufLen)
    ensures NoRoom(st, |ZlibEnd(a.zbuffer, bs, last).out|, bufLen, a.expandable)
  {
    hide NextBlock, AfterBlock, Failed;
    var b := RunInReading(a.zbuffer, part, bs, last);
    FailureExcused(a, st, part, bufLen, b);
  }

  /** The content of the stream, and nothing else, is what was decoded, unless there was no room. */
  ghost predicate Decoded(st: Status, out: seq<byte>, content: seq<byte>, size: nat, expandable: bool) {
    if st == Ok then out == content && (!expandable || size == 0 ==> |content| <= size)
    else NoRoom(st, |content|, size, expandable)
  }

  method Decompress(input: seq<byte>, size: nat, growable: bool) returns (st: Status, out: seq<byte>)
    requires size <= UINT_MAX
    ensures st == Ok ==> exists bs, last :: ZlibStream(input, bs, last) && out == ZlibEnd(input, bs, last).out
    ensures forall bs, last :: Complete(input, bs, last) ==>
      Decoded(st, out, ZlibEnd(input, bs, last).out, size, growable)
  {
    var a := new Zbuf(input, size, growable);
    ghost var bs', last';
    st, bs', last' := ParseZlib(a);
    out := a.outBuf[..a.zout];
    forall bs, last | Complete(input, bs, last)
      ensures Decoded(st, out, ZlibEnd(input, bs, last).out, size, growable)
    {
      if st != Ok {
        OnlyRoom(a, st, bs', size, bs, last);
      } else {
        Uniqueness(input, bs, last, bs', last');
      }
    }
  }

  /** Decodes a zlib stream into a growing buffer.  A complete stream is decoded from any positive initial
      size; from zero only if it holds nothing, and otherwise the doubling does not end. */
  method ZlibDecode(input: seq<byte>, initialSize: nat) returns (st: Status, out: seq<byte>)
    requires initialSize <= UINT_MAX
    ensures st == Ok ==> exists bs, last :: ZlibStream(input, bs, last) && out == ZlibEnd(input, bs, last).out
    ensures forall bs, last :: Complete(input, bs, last) ==>
      var content := ZlibEnd(input, bs, last).out;
      && (|content| <= 0x8000_0000 ==> (st == Ok <==> initialSize > 0 || content == []))
      && (st == Ok ==> out == content)
      && (initialSize == 0 && content != [] && |content| <= 0x8000_0000 ==> st == NoEnd)
  {
    st, out := Decompress(input, initialSize, true);
  }

  /** Decodes into a buffer of fixed size: a complete stream is decoded exactly if its content fits. */
  method ZlibDecodeBuffer(input: seq<byte>, size: nat) returns (st: Status, out: seq<byte>)
    requires size <= UINT_MAX
    ensures st == Ok ==> exists bs, last :: ZlibStream(input, bs, last) && out == ZlibEnd(input, bs, last).out
    ensures forall bs, last :: Complete(input, bs, last) ==>
      var content := ZlibEnd(input, bs, last).out;
      if |content| <= size then st == Ok && out == content else st == BufferLimit
  {
    st, out := Decompress(input, size, false);
  }
}
