/** The inflater: a bit buffer filled from a byte string, table-driven symbol decoding, and an output
    buffer that grows on demand.  It is total: every byte string leads to a result, and each result
    is explained by what DeflateFormat says about the stream. */
module Inflate {
  import opened Bits
  import opened Canonical
  import opened BitReverse
  import opened ZHuffman
  import opened DeflateFormat

  const UINT_MAX := 0xFFFF_FFFF

  /** The bits of the header and of the four bytes fetched first. */
  const FIRST_FILL := 48

  datatype Status =
    | Ok
    | BadCode          // no symbol, or one that must not appear, comes next
    | BadDist          // a copy reaches before the first byte
    | BufferLimit      // a fixed output buffer is full
    | OutOfMemory      // the output would outgrow 32-bit sizes
    | NoEnd            // a growing buffer of no bytes is doubled for ever
    | UnexpectedEnd    // a block ended in bits that were not there
    | BadStored        // the length of a stored block and its complement disagree
    | ReadPast         // a stored block is longer than the input
    | BadHeader        // the two zlib header bytes are wrong
    | BadBlockType
    | BadLengths       // a code length list is malformed

  class Zbuf {
    const zbuffer: seq<byte>
    const expandable: bool
    const zLength: Table
    const zDistance: Table
    var pos: nat
    var numBits: nat
    var hitZeofOnce: bool
    var codeBuffer: nat
    ghost var used: nat  // bits consumed so far, header included
    var outBuf: array<byte>
    var zout: nat

    constructor (input: seq<byte>, initialSize: nat, growable: bool)
      requires initialSize <= UINT_MAX
      ensures Basic() && zbuffer == input && expandable == growable && pos == 0 && zout == 0
      ensures outBuf.Length == initialSize && fresh(outBuf)
      ensures numBits == 0 && codeBuffer == 0 && !hitZeofOnce && used == 0
      ensures zLength.Shape() && zDistance.Shape()
      ensures fresh(zLength.Arrays()) && fresh(zDistance.Arrays()) && Separate()
    {
      zbuffer, expandable := input, growable;
      pos, numBits, hitZeofOnce, codeBuffer, zout := 0, 0, false, 0, 0;
      used := 0;
      outBuf := new byte[initialSize](_ => 0);
      zLength := new Table();
      zDistance := new Table();
    }

    /** The bits in the buffer, and how many have come from the input. */
    ghost predicate Basic()
      reads this
    {
      && pos <= |zbuffer|
      && numBits <= 32
      && codeBuffer < Pow2(numBits)
      && zout <= outBuf.Length <= UINT_MAX
      && used + numBits >= 8 * pos
      && (used + numBits) % 8 == 0
    }

    /** The header has been read; after it four bytes are fetched at once, and the padding comes on top of
        all that has been fetched. */
    ghost predicate Begun()
      reads this
    {
      && |zbuffer| > 2 && used >= 16
      && (used + numBits >= FIRST_FILL || (used == 16 && numBits == 0))
      && (hitZeofOnce ==> used + numBits >= Max(8 * |zbuffer|, FIRST_FILL) + 16)
    }

    ghost predicate Valid()
      reads this
    {
      Basic() && Begun()
    }

    ghost predicate Separate()
      reads this
    {
      && zLength.Shape() && zDistance.Shape() && zLength.Arrays() !! zDistance.Arrays()
      && outBuf !in zLength.Arrays() && outBuf !in zDistance.Arrays()
    }

    /** The unread stream, least significant bit next. */
    ghost function Stream(): nat
      reads this
      requires pos <= |zbuffer|
    {
      codeBuffer + Shl(Le(zbuffer[pos..]), numBits)
    }

    /** Bits have been used that are not in the input, and more than the first four bytes of blocks. */
    ghost predicate PastEnd()
      reads this
    {
      Max(8 * |zbuffer|, FIRST_FILL) < used
    }

    /** The input ended within the token or end mark that begins at stream v. */
    ghost predicate StarvedIn(ll: Lengths, dl: Lengths, v: nat, used0: nat)
      reads this
    {
      PastEnd() && Within(ll, dl, v, used0, used)
    }

    ghost function Out(): seq<byte>
      reads this, outBuf
      requires zout <= outBuf.Length
    {
      outBuf[..zout]
    }

    predicate AtEnd()
      reads this
    {
      pos >= |zbuffer|
    }

    /** The next byte, or zero past the end. */
    method Get8() returns (b: byte)
      requires pos <= |zbuffer|
      modifies `pos
      ensures pos <= |zbuffer|
      ensures Le(old(zbuffer[pos..])) == b + 256 * Le(zbuffer[pos..])
      ensures old(pos) < |zbuffer| ==> pos == old(pos) + 1 && b == zbuffer[old(pos)]
      ensures old(pos) == |zbuffer| ==> pos == old(pos) && b == 0
    {
      if AtEnd() {
        b := 0;
      } else {
        b := zbuffer[pos];
        assert zbuffer[pos..][1..] == zbuffer[pos + 1..];
        pos := pos + 1;
      }
    }

    method FillByte()
      requires Basic() && numBits <= 24
      modifies `pos, `numBits, `codeBuffer
      ensures Basic() && numBits == old(numBits) + 8
      ensures Stream() == old(Stream())
    {
      hide Pow2, Or, Shl, Le;
      if codeBuffer >= Pow2(numBits) {
        // the source treats this as end of input; the buffer never holds such a value
        assert false;
      }
      var b := Get8();
      FillStep(codeBuffer, numBits, b, Le(zbuffer[pos..]));
      codeBuffer := Or(codeBuffer, Shl(b, numBits));
      numBits := numBits + 8;
    }

    /** Tops the bit buffer up to more than 24 bits.  The stream does not change: past the end the
        bytes are zero. */
    method FillBits()
      requires Valid() && numBits <= 24
      modifies `pos, `numBits, `codeBuffer
      ensures Valid() && numBits > 24
      ensures Stream() == old(Stream())
    {
      FillByte();
      while numBits <= 24
        invariant Basic() && numBits >= old(numBits)
        invariant Stream() == old(Stream())
        decreases 32 - numBits
      {
        FillByte();
      }
    }

    /** Takes n bits out of the buffer. */
    method Consume(n: nat) returns (k: nat)
      requires Valid() && n <= numBits
      modifies `numBits, `codeBuffer, `used
      ensures Valid() && numBits == old(numBits) - n && used == old(used) + n
      ensures k == Take(old(Stream()), n) && Stream() == Drop(old(Stream()), n)
    {
      ConsumeStep(codeBuffer, n, numBits, Le(zbuffer[pos..]));
      k := Take(codeBuffer, n);
      codeBuffer := Drop(codeBuffer, n);
      numBits := numBits - n;
      used := used + n;
    }

    method PeekFast() returns (j: nat)
      requires Valid() && numBits >= 16
      ensures j == Take(Stream(), FAST_BITS)
    {
      ConsumeStep(codeBuffer, FAST_BITS, numBits, Le(zbuffer[pos..]));
      j := Take(codeBuffer, FAST_BITS);
    }

    /** The next sixteen bits as a number, first bit on top. */
    method PeekReversed() returns (k: nat)
      requires Valid() && numBits >= 16
      ensures k == Rev(Stream(), 16) < 0x1_0000
    {
      ConsumeStep(codeBuffer, 16, numBits, Le(zbuffer[pos..]));
      k := ReverseLow16(codeBuffer, Stream());
    }

    /** Reads n bits. */
    method Receive(n: nat) returns (k: nat)
      requires Valid() && n <= 16
      modifies `pos, `numBits, `codeBuffer, `used
      ensures Valid()
      ensures k == Take(old(Stream()), n) && Stream() == Drop(old(Stream()), n)
      ensures used == old(used) + n
      ensures numBits <= 32 - n
    {
      if numBits < n {
        FillBits();
      }
      k := Consume(n);
    }

    /** The table search for codes longer than nine bits. */
    method DecodeSlowPath(z: Table, ghost lens: Lengths) returns (r: int)
      requires Valid() && z.Represents(lens) && numBits >= 16
      requires forall i :: Matches(lens, i, Stream()) ==> lens[i] > FAST_BITS
      modifies `numBits, `codeBuffer, `used
      ensures Valid()
      ensures r < 0 ==> Stream() == old(Stream()) && used == old(used)
      ensures r < 0 ==> forall i :: !Matches(lens, i, old(Stream()))
      ensures r >= 0 ==> Matches(lens, r, old(Stream()))
      ensures r >= 0 ==> Stream() == AfterSymbol(lens, r, old(Stream())) && used == old(used) + lens[r]
    {
      var k := PeekReversed();
      var s;
      r, s := LookupLong(z, k, lens, Stream());
      if r >= 0 {
        var _ := Consume(s);
      }
    }

    /** Makes sixteen bits available, if need be by one grant of zero bits at the end of the input. */
    method EnsureBits() returns (ok: bool)
      requires Valid()
      modifies `pos, `numBits, `codeBuffer, `hitZeofOnce
      ensures Valid() && Stream() == old(Stream())
      ensures ok ==> numBits >= 16
      ensures !ok ==> PastEnd()
    {
      hide Shl, Pow2, Le;
      if numBits < 16 {
        if AtEnd() {
          if !hitZeofOnce {
            hitZeofOnce := true;
            Padded(codeBuffer, numBits);
            assert zbuffer[pos..] == [];
            numBits := numBits + 16;
          } else {
            return false;
          }
        } else {
          FillBits();
        }
      }
      return true;
    }

    /** Decodes one symbol of the alphabet whose tables are z. */
    method Decode(z: Table, ghost lens: Lengths) returns (r: int)
      requires Valid() && z.Represents(lens)
      modifies `pos, `numBits, `codeBuffer, `hitZeofOnce, `used
      ensures Valid()
      ensures r < 0 ==> used == old(used) && ((forall i :: !Matches(lens, i, old(Stream()))) || PastEnd())
      ensures r >= 0 ==> Matches(lens, r, old(Stream())) && Stream() == AfterSymbol(lens, r, old(Stream()))
      ensures r >= 0 ==> used == old(used) + lens[r]
    {
      var ok := EnsureBits();
      if ok {
        r := DecodeBuffered(z, lens);
      } else {
        r := -1;
      }
    }

    method DecodeBuffered(z: Table, ghost lens: Lengths) returns (r: int)
      requires Valid() && z.Represents(lens) && numBits >= 16
      modifies `numBits, `codeBuffer, `used
      ensures Valid()
      ensures r < 0 ==> used == old(used) && forall i :: !Matches(lens, i, old(Stream()))
      ensures r >= 0 ==> Matches(lens, r, old(Stream())) && Stream() == AfterSymbol(lens, r, old(Stream()))
      ensures r >= 0 ==> used == old(used) + lens[r]
    {
      var j := PeekFast();
      var b := LookupFast(z, j, lens, Stream());
      if b != 0 {
        var _ := Consume(b / 512);
        r := b % 512;
      } else {
        r := DecodeSlowPath(z, lens);
      }
    }

    // ----- output

    /** Makes room for n more bytes after the cursor, doubling the buffer as often as needed. */
    method Grow(cursor: nat, n: nat) returns (st: Status)
      requires Valid() && Separate() && cursor <= outBuf.Length && n <= 0x1_0000
      modifies `outBuf, `zout
      ensures Valid() && Separate() && cursor <= outBuf.Length && zout == cursor
      ensures outBuf == old(outBuf) || fresh(outBuf)
      ensures outBuf[..cursor] == old(outBuf[..cursor])
      ensures st == Ok ==> cursor + n <= outBuf.Length
      ensures st != Ok || !expandable ==> outBuf == old(outBuf)
      ensures GrownFrom(old(outBuf.Length), outBuf.Length)
      ensures st != Ok && cursor + n > old(outBuf.Length) ==> NoRoom(st, cursor + n, old(outBuf.Length), expandable)
    {
      zout := cursor;
      if !expandable {
        return BufferLimit;
      }
      var limit := outBuf.Length;
      if UINT_MAX - cursor < n {
        return OutOfMemory;
      }
      while cursor + n > limit
        invariant GrownFrom(outBuf.Length, limit) && limit <= UINT_MAX
        decreases UINT_MAX - limit
      {
        if limit == 0 {
          // the source does not leave this loop: ZeroStays
          return NoEnd;
        }
        if limit > UINT_MAX / 2 {
          return OutOfMemory;
        }
        limit := limit * 2;
      }
      var q := new byte[limit](_ => 0);
      forall i | 0 <= i < outBuf.Length {
        q[i] := outBuf[i];
      }
      assert q[..cursor] == outBuf[..cursor];
      outBuf := q;
      return Ok;
    }

    /** Copies len bytes from dist back, one at a time. */
    method CopyMatch(cursor: nat, len: nat, dist: nat) returns (end: nat)
      requires 1 <= dist <= cursor && cursor + len <= outBuf.Length
      modifies outBuf
      ensures end == cursor + len
      ensures outBuf[..end] == CopyBack(old(outBuf[..cursor]), len, dist)
    {
      hide CopyBack;
      end := cursor;
      var left := len;
      if dist == 1 {
        var v := outBuf[cursor - 1];
        while left > 0
          invariant end + left == cursor + len && cursor <= end
          invariant outBuf[end - 1] == v
          invariant CopyBack(outBuf[..end], left, 1) == CopyBack(old(outBuf[..cursor]), len, 1)
        {
          CopyOne(outBuf[..end], v, left, 1);
          ghost var before := outBuf[..end];
          outBuf[end] := v;
          end := end + 1;
          left := left - 1;
          assert outBuf[..end] == before + [v];
        }
      } else {
        var p := cursor - dist;
        while left > 0
          invariant end + left == cursor + len && cursor <= end && p == end - dist
          invariant CopyBack(outBuf[..end], left, dist) == CopyBack(old(outBuf[..cursor]), len, dist)
        {
          CopyOne(outBuf[..end], outBuf[p], left, dist);
          ghost var before := outBuf[..end];
          outBuf[end] := outBuf[p];
          end := end + 1;
          p := p + 1;
          left := left - 1;
          assert outBuf[..end] == before + [before[end - 1 - dist]];
        }
      }
      CopyNone(outBuf[..end], dist);
    }

    // ----- blocks

    /** Reads the rest of a copy whose length symbol has just been decoded. */
    method ReadCopy(lsym: nat, ghost ll: Lengths, ghost dl: Lengths, ghost v: nat) returns (st: Status, t: Token)
      requires Valid() && zDistance.Represents(dl)
      requires 257 <= lsym < 286 && Matches(ll, lsym, v) && Stream() == AfterSymbol(ll, lsym, v)
      modifies `pos, `numBits, `codeBuffer, `hitZeofOnce, `used
      ensures Valid()
      ensures st == Ok ==> t.Copy? && TokenAt(ll, dl, v, t) && Stream() == Skip(ll, dl, v, t)
      ensures st == Ok ==> used + ll[lsym] == old(used) + TokenBits(ll, dl, v, t)
      ensures st != Ok ==> st == BadCode
      ensures st != Ok ==> NoCopyAt(ll, dl, v, lsym) || (PastEnd() && used == old(used) + LengthExtra(lsym))
    {
      var lextra, dextra := 0, 0;
      if LengthExtra(lsym) != 0 {
        lextra := Receive(LengthExtra(lsym));
      }
      ghost var v2 := Stream();
      var dsym := Decode(zDistance, dl);
      if dsym < 0 || dsym >= 30 {
        if dsym >= 0 || forall i :: !Matches(dl, i, v2) {
          BadDistSymbol(ll, dl, v, lsym, v2, dsym);
        }
        return BadCode, Literal(0);
      }
      if DistExtra(dsym) != 0 {
        dextra := Receive(DistExtra(dsym));
      }
      return Ok, Copy(lsym, lextra, dsym, dextra);
    }

    /** Reads one literal, copy or end mark. */
    method ReadItem(ghost ll: Lengths, ghost dl: Lengths) returns (st: Status, done: bool, t: Token)
      requires Valid() && zLength.Represents(ll) && zDistance.Represents(dl)
      modifies `pos, `numBits, `codeBuffer, `hitZeofOnce, `used
      ensures Valid() && st in {Ok, BadCode}
      ensures st == Ok && done ==> EndStep(ll, old(Stream()), old(used), Stream(), used)
      ensures st == Ok && !done ==> ReadStep(ll, dl, old(Stream()), old(used), t, Stream(), used)
      ensures st == BadCode ==> Unreadable(ll, dl, old(Stream())) || StarvedIn(ll, dl, old(Stream()), old(used))
    {
      st, done, t := Ok, false, Literal(0);
      ghost var v, u := Stream(), used;
      var z := Decode(zLength, ll);
      if z < 0 || z >= 286 {
        if z >= 0 || forall i :: !Matches(ll, i, v) {
          BadLengthSymbol(ll, dl, v, z);
        }
        st := BadCode;
      } else if z < 256 {
        t := Literal(z);
      } else if z == 256 {
        done := true;
      } else {
        st, t := ReadCopy(z, ll, dl, v);
        if st != Ok {
          if NoCopyAt(ll, dl, v, z) {
            NoCopyUnreadable(ll, dl, v, z);
          } else {
            WithinSymbol(ll, dl, v, z, u, used);
          }
        }
      }
    }

    /** Appends what t stands for, growing the buffer if need be. */
    method Emit(cursor: nat, t: Token) returns (st: Status, next: nat)
      requires Valid() && Separate() && cursor <= outBuf.Length && CanApply(outBuf[..cursor], t)
      requires t.Len() <= 0x1_0000
      modifies `outBuf, `zout, outBuf
      ensures Valid() && Separate() && (outBuf == old(outBuf) || fresh(outBuf))
      ensures (!expandable ==> outBuf == old(outBuf)) && GrownFrom(old(outBuf.Length), outBuf.Length)
      ensures st == Ok ==> next == cursor + t.Len() <= outBuf.Length
      ensures st == Ok ==> outBuf[..next] == Apply(old(outBuf[..cursor]), t)
      ensures st != Ok ==> NoRoom(st, cursor + t.Len(), old(outBuf.Length), expandable)
      ensures st != Ok ==> cursor + t.Len() > old(outBuf.Length)
    {
      st, next := Ok, cursor;
      if t.Len() > outBuf.Length - cursor {
        st := Grow(cursor, t.Len());
      }
      if st == Ok {
        if t.Literal? {
          ghost var out := outBuf[..cursor];
          outBuf[cursor] := t.b;
          next := cursor + 1;
          assert outBuf[..next] == out + [t.b];
        } else {
          next := CopyMatch(cursor, t.Len(), t.Dist());
        }
      }
    }

    /** Produces the output of a token read at stream v. */
    method Produce(cursor: nat, t: Token, ghost ll: Lengths, ghost dl: Lengths, ghost v: nat)
      returns (st: Status, next: nat)
      requires Valid() && Separate() && cursor <= outBuf.Length
      requires Acceptable(ll) && Acceptable(dl) && TokenAt(ll, dl, v, t)
      modifies `outBuf, `zout, outBuf
      ensures Valid() && Separate() && (outBuf == old(outBuf) || fresh(outBuf))
      ensures (!expandable ==> outBuf == old(outBuf)) && GrownFrom(old(outBuf.Length), outBuf.Length)
      ensures st == Ok ==> CanApply(old(outBuf[..cursor]), t) && cursor < next <= outBuf.Length
      ensures st == Ok ==> outBuf[..next] == Apply(old(outBuf[..cursor]), t)
      ensures st != Ok ==>
        Explains(st, ll, dl, v, old(outBuf[..cursor]), false, old(outBuf.Length), expandable)
    {
      next := cursor;
      TokenSize(ll, dl, v, t);
      if t.Copy? && cursor < t.Dist() {
        FarCopyMeansStuck(ll, dl, v, t, outBuf[..cursor]);
        st := BadDist;
      } else {
        assert CanApply(outBuf[..cursor], t);
        st, next := Emit(cursor, t);
      }
    }

    lemma StarvedExplained(ll: Lengths, dl: Lengths, v: nat, u: nat, out: seq<byte>, bufLen: nat)
      requires Within(ll, dl, v, u, used)
      ensures PastEnd() ==> Explains(UnexpectedEnd, ll, dl, v, out, StarvedIn(ll, dl, v, u), bufLen, expandable)
    {
      EndExplained(ll, dl, v, out, bufLen, expandable);
    }

    /** One turn of the block loop. */
    method Step(cursor: nat, ghost ll: Lengths, ghost dl: Lengths)
      returns (st: Status, done: bool, next: nat, ghost t: Token)
      requires Valid() && Separate() && zLength.Represents(ll) && zDistance.Represents(dl)
      requires cursor <= outBuf.Length
      modifies this, outBuf
      ensures Valid() && Separate() && (outBuf == old(outBuf) || fresh(outBuf))
      ensures (!expandable ==> outBuf == old(outBuf)) && GrownFrom(old(outBuf.Length), outBuf.Length)
      ensures st == Ok && done ==> next == cursor == zout && outBuf[..zout] == old(outBuf[..cursor])
      ensures st == Ok && done ==> EndStep(ll, old(Stream()), old(used), Stream(), used)
      ensures st == Ok && !done ==> cursor < next <= outBuf.Length
      ensures st == Ok && !done ==>
        TokenStep(ll, dl, old(Stream()), old(outBuf[..cursor]), old(used), t, Stream(), outBuf[..next], used)
      ensures st != Ok ==>
        Explains(st, ll, dl, old(Stream()), old(outBuf[..cursor]), StarvedIn(ll, dl, old(Stream()), old(used)),
                 old(outBuf.Length), expandable)
    {
      hide Table.Represents, Table.Shape, Explains, EndStep, ReadStep, CanApply, Apply, TokenAt, Unreadable, Within;
      hide Le, Shl, Pow2, Begun, StarvedIn;
      ghost var v, u, out := Stream(), used, outBuf[..cursor];
      next := cursor;
      var item;
      st, done, item := ReadItem(ll, dl);
      t := item;
      if st != Ok {
        CodeExplained(ll, dl, v, out, StarvedIn(ll, dl, v, u), outBuf.Length, expandable);
      } else if done {
        WithinEndStep(zLength, ll, dl, v, u, Stream(), used);
        st := Finish(cursor);
        StarvedExplained(ll, dl, v, u, out, outBuf.Length);
      } else {
        TokenRead(zLength, zDistance, ll, dl, v, u, t, Stream(), used);
        st, next := Produce(cursor, item, ll, dl, v);
        if st != Ok {
          ExplainsStarved(st, ll, dl, v, out, StarvedIn(ll, dl, v, u), old(outBuf.Length), expandable);
        }
      }
    }

    /** At the end mark: the block must not have used bits that were not in the input. */
    method Finish(cursor: nat) returns (st: Status)
      requires Valid() && cursor <= outBuf.Length
      modifies `zout
      ensures Valid() && zout == cursor && (st == Ok || (st == UnexpectedEnd && PastEnd()))
    {
      zout := cursor;
      st := if hitZeofOnce && numBits < 16 then UnexpectedEnd else Ok;
    }

    /** The compressed data of one block. */
    method ParseHuffmanBlock(ghost ll: Lengths, ghost dl: Lengths) returns (st: Status, ghost toks: seq<Token>)
      requires Valid() && Separate() && zLength.Represents(ll) && zDistance.Represents(dl)
      modifies this, outBuf
      ensures Valid() && Separate() && (outBuf == old(outBuf) || fresh(outBuf))
      ensures (!expandable ==> outBuf == old(outBuf)) && GrownFrom(old(outBuf.Length), outBuf.Length)
      ensures zLength.Represents(ll) && zDistance.Represents(dl)
      ensures Parses(ll, dl, old(Stream()), toks) && Sound(old(Out()), toks)
      ensures st == Ok ==> Matches(ll, END_OF_BLOCK, Rest(ll, dl, old(Stream()), toks))
      ensures st == Ok ==> Out() == Expand(old(Out()), toks)
      ensures st == Ok ==> Stream() == AfterSymbol(ll, END_OF_BLOCK, Rest(ll, dl, old(Stream()), toks))
      ensures st == Ok ==> used == old(used) + BitLength(ll, dl, old(Stream()), toks) + ll[END_OF_BLOCK]
      ensures st != Ok ==>
        Explains(st, ll, dl, Rest(ll, dl, old(Stream()), toks), Expand(old(Out()), toks),
                 StarvedIn(ll, dl, Rest(ll, dl, old(Stream()), toks),
                           old(used) + BitLength(ll, dl, old(Stream()), toks)),
                 old(outBuf.Length), expandable)
    {
      hide Explains, NoRoom, Table.Represents, CanApply, Apply, TokenAt, Matches, Parses, Sound, Expand, Rest;
      hide BitLength;
      hide StarvedIn, Table.Shape, TokenStep;
      ghost var v0, out0, used0 := Stream(), Out(), used;
      var cursor := zout;
      toks := [];
      ProgressNone(ll, dl, v0, out0, used0);
      while true
        invariant Valid() && Separate() && (outBuf == old(outBuf) || fresh(outBuf))
        invariant zLength.Represents(ll) && zDistance.Represents(dl)
        invariant cursor <= outBuf.Length && (!expandable ==> outBuf == old(outBuf))
        invariant GrownFrom(old(outBuf.Length), outBuf.Length)
        invariant Progress(ll, dl, v0, out0, used0, toks, Stream(), outBuf[..cursor], used)
        decreases 0x1_0000_0000 - cursor
      {
        ghost var v, out, u, size := Stream(), outBuf[..cursor], used, outBuf.Length;
        var done;
        ghost var t;
        st, done, cursor, t := Step(cursor, ll, dl);
        if st != Ok {
          ExplainsSmaller(st, ll, dl, v, out, StarvedIn(ll, dl, v, u), old(outBuf.Length), size, expandable);
          return;
        }
        if done {
          return;
        }
        ProgressSnoc(ll, dl, v0, out0, used0, toks, v, out, u, t, Stream(), outBuf[..cursor], used);
        toks := toks + [t];
      }
    }
  }

  /** Sixteen more zero bits above those in the buffer. */
  lemma Padded(code: nat, n: nat)
    requires code < Pow2(n)
    ensures code < Pow2(n + 16) && Shl(Le([]), n) == 0 && Shl(Le([]), n + 16) == 0
  {
    Pow2Mono(n, n + 16);
    ShlZero(n);
    ShlZero(n + 16);
  }

  /** Reading and producing t leads from (v, out, used) to (v', out', used'). */
  ghost predicate TokenStep(ll: Lengths, dl: Lengths, v: nat, out: seq<byte>, used: nat, t: Token,
                            v': nat, out': seq<byte>, used': nat) {
    ReadStep(ll, dl, v, used, t, v', used') && CanApply(out, t) && out' == Apply(out, t)
  }

  ghost predicate ReadStep(ll: Lengths, dl: Lengths, v: nat, used: nat, t: Token, v': nat, used': nat) {
    TokenAt(ll, dl, v, t) && v' == Skip(ll, dl, v, t) && used' == used + TokenBits(ll, dl, v, t)
  }

  ghost predicate EndStep(ll: Lengths, v: nat, used: nat, v': nat, used': nat) {
    Matches(ll, END_OF_BLOCK, v) && v' == AfterSymbol(ll, END_OF_BLOCK, v) && used' == used + ll[END_OF_BLOCK]
  }

  /** From (v0, out0, used0), the tokens lead to (v, out, used). */
  ghost predicate Progress(ll: Lengths, dl: Lengths, v0: nat, out0: seq<byte>, used0: nat, toks: seq<Token>,
                           v: nat, out: seq<byte>, used: nat) {
    && Parses(ll, dl, v0, toks) && v == Rest(ll, dl, v0, toks)
    && Sound(out0, toks) && out == Expand(out0, toks)
    && used == used0 + BitLength(ll, dl, v0, toks)
  }

  lemma ProgressNone(ll: Lengths, dl: Lengths, v: nat, out: seq<byte>, used: nat)
    ensures Progress(ll, dl, v, out, used, [], v, out, used)
  {
  }

  lemma ProgressSnoc(ll: Lengths, dl: Lengths, v0: nat, out0: seq<byte>, used0: nat, toks: seq<Token>,
                     v: nat, out: seq<byte>, used: nat, t: Token, v': nat, out': seq<byte>, used': nat)
    requires Progress(ll, dl, v0, out0, used0, toks, v, out, used)
    requires TokenStep(ll, dl, v, out, used, t, v', out', used')
    ensures Progress(ll, dl, v0, out0, used0, toks + [t], v', out', used')
  {
    ParsesSnoc(ll, dl, v0, toks, t);
    ExpandSnoc(out0, toks, t);
  }

  lemma TokenSize(ll: Lengths, dl: Lengths, v: nat, t: Token)
    requires TokenAt(ll, dl, v, t)
    ensures t.WellFormed() && t.Len() <= 289
  {
    if t.Copy? {
      TakeBound(AfterSymbol(ll, t.lsym, v), LengthExtra(t.lsym));
      Pow2Mono(LengthExtra(t.lsym), 5);
      assert Pow2(5) == 32;
    }
  }

  /** No more bits were used than the next token or end mark takes. */
  ghost predicate Within(ll: Lengths, dl: Lengths, v: nat, used0: nat, used: nat) {
    && (forall t :: TokenAt(ll, dl, v, t) ==> used <= used0 + TokenBits(ll, dl, v, t))
    && (Matches(ll, END_OF_BLOCK, v) ==> used <= used0 + ll[END_OF_BLOCK])
  }

  lemma WithinSymbol(ll: Lengths, dl: Lengths, v: nat, z: nat, used0: nat, used: nat)
    requires Acceptable(ll) && 257 <= z < 286 && Matches(ll, z, v) && used <= used0 + ll[z] + LengthExtra(z)
    ensures Within(ll, dl, v, used0, used)
  {
    if Matches(ll, END_OF_BLOCK, v) {
      MatchUnique(ll, z, END_OF_BLOCK, v);
    }
    forall t | TokenAt(ll, dl, v, t)
      ensures used <= used0 + TokenBits(ll, dl, v, t)
    {
      MatchUnique(ll, z, if t.Literal? then t.b as int else t.lsym, v);
    }
  }

  lemma WithinEnd(ll: Lengths, dl: Lengths, v: nat, used0: nat, used: nat)
    requires Acceptable(ll) && Matches(ll, END_OF_BLOCK, v) && used == used0 + ll[END_OF_BLOCK]
    ensures Within(ll, dl, v, used0, used)
  {
    forall t | TokenAt(ll, dl, v, t)
      ensures false
    {
      TokenNotEnd(ll, dl, v, t);
    }
  }

  /** Why a block could not be read further at stream v, with `out` produced so far. */
  ghost predicate Explains(st: Status, ll: Lengths, dl: Lengths, v: nat, out: seq<byte>, starved: bool, bufLen: nat,
                           expandable: bool)
  {
    match st
    case BadCode => Unreadable(ll, dl, v) || starved
    case BadDist => Stuck(ll, dl, v, out)
    case UnexpectedEnd => starved
    case _ => exists t :: TokenAt(ll, dl, v, t) && CanApply(out, t) && NoRoom(st, |out| + t.Len(), bufLen, expandable)
  }

  lemma CodeExplained(ll: Lengths, dl: Lengths, v: nat, out: seq<byte>, starved: bool, bufLen: nat, expandable: bool)
    requires Unreadable(ll, dl, v) || starved
    ensures Explains(BadCode, ll, dl, v, out, starved, bufLen, expandable)
  {
  }

  lemma EndExplained(ll: Lengths, dl: Lengths, v: nat, out: seq<byte>, bufLen: nat, expandable: bool)
    ensures Explains(UnexpectedEnd, ll, dl, v, out, true, bufLen, expandable)
  {
  }

  lemma ExplainsStarved(st: Status, ll: Lengths, dl: Lengths, v: nat, out: seq<byte>, starved: bool, bufLen: nat,
                        expandable: bool)
    requires Explains(st, ll, dl, v, out, false, bufLen, expandable)
    ensures Explains(st, ll, dl, v, out, starved, bufLen, expandable)
  {
  }

  lemma WithinEndStep(z: Table, ll: Lengths, dl: Lengths, v: nat, used0: nat, v': nat, used: nat)
    requires z.Represents(ll) && EndStep(ll, v, used0, v', used)
    ensures Within(ll, dl, v, used0, used)
  {
    WithinEnd(ll, dl, v, used0, used);
  }

  lemma TokenRead(z: Table, zd: Table, ll: Lengths, dl: Lengths, v: nat, used0: nat, t: Token, v': nat, used: nat)
    requires z.Represents(ll) && zd.Represents(dl) && ReadStep(ll, dl, v, used0, t, v', used)
    ensures Acceptable(ll) && Acceptable(dl) && TokenAt(ll, dl, v, t)
  {
  }

  /** What a grown buffer cannot hold, the buffer could not hold before. */
  lemma ExplainsSmaller(st: Status, ll: Lengths, dl: Lengths, v: nat, out: seq<byte>, starved: bool,
                        m: nat, n: nat, expandable: bool)
    requires GrownFrom(m, n) && Explains(st, ll, dl, v, out, starved, n, expandable)
    ensures Explains(st, ll, dl, v, out, starved, m, expandable)
  {
    if st !in {BadCode, BadDist, UnexpectedEnd} {
      var t :| TokenAt(ll, dl, v, t) && CanApply(out, t) && NoRoom(st, |out| + t.Len(), n, expandable);
      assert NoRoom(st, |out| + t.Len(), m, expandable);
    }
  }

  /** Why there is no room for so many bytes, with a buffer that had bufLen of them. */
  predicate NoRoom(st: Status, need: nat, bufLen: nat, expandable: bool) {
    match st
    case BufferLimit => !expandable && bufLen < need
    case OutOfMemory => expandable && 0x8000_0000 < need
    case NoEnd => expandable && bufLen == 0 < need
    case _ => false
  }

  /** A buffer of m bytes has been replaced by one of n, if at all; one of none stays. */
  predicate GrownFrom(m: nat, n: nat) {
    m <= n && (m == 0 ==> n == 0)
  }

  /** A buffer that has been doubled so many times. */
  function Doubled(limit: nat, times: nat): nat {
    if times == 0 then limit else 2 * Doubled(limit, times - 1)
  }

  lemma {:induction false} ZeroStays(times: nat)
    ensures Doubled(0, times) == 0
  {
    if times == 0 {
    } else {
      ZeroStays(times - 1);
    }
  }

  lemma {:induction false} DoubledGrows(limit: nat, times: nat)
    requires limit > 0
    ensures Doubled(limit, times) > times
  {
    if times == 0 {
    } else {
      DoubledGrows(limit, times - 1);
    }
  }

  /** Doubling a buffer makes room in the end exactly if it has a byte, or none is needed. */
  lemma DoublingEnds(limit: nat, need: nat)
    ensures (exists times :: need <= Doubled(limit, times)) <==> limit > 0 || need == 0
  {
    if limit > 0 {
      DoubledGrows(limit, need);
    } else if need == 0 {
      assert need <= Doubled(limit, 0);
    } else {
      forall times
        ensures Doubled(limit, times) < need
      {
        ZeroStays(times);
      }
    }
  }

  /** Neither a token nor an end mark begins the stream. */
  ghost predicate Unreadable(ll: Lengths, dl: Lengths, v: nat) {
    !Matches(ll, END_OF_BLOCK, v) && forall t :: !TokenAt(ll, dl, v, t)
  }

  /** No copy with this length symbol begins the stream. */
  ghost predicate NoCopyAt(ll: Lengths, dl: Lengths, v: nat, lsym: nat) {
    forall t: Token :: t.Copy? && t.lsym == lsym ==> !TokenAt(ll, dl, v, t)
  }

  lemma BadDistSymbol(ll: Lengths, dl: Lengths, v: nat, lsym: nat, v2: nat, dsym: int)
    requires Acceptable(dl) && 257 <= lsym < 286 && Matches(ll, lsym, v)
    requires v2 == Drop(AfterSymbol(ll, lsym, v), LengthExtra(lsym))
    requires (dsym >= 30 && Matches(dl, dsym, v2)) || (dsym < 0 && forall i :: !Matches(dl, i, v2))
    ensures NoCopyAt(ll, dl, v, lsym)
  {
    forall t: Token | t.Copy? && t.lsym == lsym && TokenAt(ll, dl, v, t)
      ensures false
    {
      if dsym >= 0 {
        MatchUnique(dl, dsym, t.dsym, v2);
      }
    }
  }

  lemma BadLengthSymbol(ll: Lengths, dl: Lengths, v: nat, z: int)
    requires Acceptable(ll)
    requires (z >= 286 && Matches(ll, z, v)) || (z < 0 && forall i :: !Matches(ll, i, v))
    ensures Unreadable(ll, dl, v)
  {
    if z >= 286 {
      if Matches(ll, END_OF_BLOCK, v) {
        MatchUnique(ll, z, END_OF_BLOCK, v);
      }
      forall t | TokenAt(ll, dl, v, t)
        ensures false
      {
        MatchUnique(ll, z, if t.Literal? then t.b as int else t.lsym, v);
      }
    }
  }

  lemma NoCopyUnreadable(ll: Lengths, dl: Lengths, v: nat, lsym: nat)
    requires Acceptable(ll) && 257 <= lsym < 286 && Matches(ll, lsym, v) && NoCopyAt(ll, dl, v, lsym)
    ensures Unreadable(ll, dl, v)
  {
    if Matches(ll, END_OF_BLOCK, v) {
      MatchUnique(ll, lsym, END_OF_BLOCK, v);
    }
    forall t | TokenAt(ll, dl, v, t)
      ensures false
    {
      MatchUnique(ll, lsym, if t.Literal? then t.b as int else t.lsym, v);
    }
  }

  lemma FarCopyMeansStuck(ll: Lengths, dl: Lengths, v: nat, t: Token, out: seq<byte>)
    requires Acceptable(ll) && Acceptable(dl) && TokenAt(ll, dl, v, t) && t.Copy? && |out| < t.Dist()
    ensures Stuck(ll, dl, v, out)
  {
    TokenNotEnd(ll, dl, v, t);
    forall u | TokenAt(ll, dl, v, u)
      ensures !CanApply(out, u)
    {
      TokenUnique(ll, dl, v, t, u);
    }
  }

  lemma CopyNone(out: seq<byte>, dist: nat)
    requires 1 <= dist <= |out|
    ensures CopyBack(out, 0, dist) == out
  {
  }

  lemma CopyOne(out: seq<byte>, b: byte, n: nat, dist: nat)
    requires 1 <= dist <= |out| && b == out[|out| - dist] && n > 0
    ensures CopyBack(out, n, dist) == CopyBack(out + [b], n - 1, dist)
  {
  }

  /** The fast table's entry for the next nine bits: length and symbol, or zero. */
  method LookupFast(z: Table, j: nat, ghost lens: Lengths, ghost v: nat) returns (b: nat)
    requires z.Represents(lens) && j == Take(v, FAST_BITS)
    ensures b != 0 ==> Matches(lens, b % 512, v) && b / 512 == lens[b % 512] <= FAST_BITS
    ensures b == 0 ==> forall i :: Matches(lens, i, v) ==> lens[i] > FAST_BITS
  {
    NineBits(v);
    b := z.fast[j];
    assert FastEntry(lens, |lens|, z.fast[..], j);
    if b != 0 {
      MatchesLow(lens, b % 512, v, FAST_BITS);
    } else {
      forall i | Matches(lens, i, v)
        ensures lens[i] > FAST_BITS
      {
        if lens[i] <= FAST_BITS {
          MatchesLow(lens, i, v, FAST_BITS);
        }
      }
    }
  }

  /** The symbol whose code, longer than nine bits, leads the reversed window k, and its length. */
  method LookupLong(z: Table, k: nat, ghost lens: Lengths, ghost v: nat) returns (r: int, s: nat)
    requires z.Represents(lens) && k == Rev(v, 16) < 0x1_0000
    requires forall i :: Matches(lens, i, v) ==> lens[i] > FAST_BITS
    ensures r < 0 ==> forall i :: !Matches(lens, i, v)
    ensures r >= 0 ==> Matches(lens, r, v) && lens[r] == s
  {
    ShortCodesMissing(lens, v, k);
    s := FindLength(z, k, lens);
    if s >= 16 {
      NoCode(lens, v, k);
      return -1, s;
    }
    ghost var i := LongCode(lens, v, k, s);
    assert BoundEntry(Hist(lens), z.firstcode[..], z.firstsymbol[..], z.maxcode[..], s);
    var b := Drop(k, 16 - s) - z.firstcode[s] + z.firstsymbol[s];
    assert SymbolEntry(lens, z.size[..], z.value[..], i);
    if b >= NSYMS || z.size[b] != s {
      // the source reports a corrupt table; Represents rules it out
      assert false;
    }
    r := z.value[b];
  }

  /** The shortest length above nine whose codes, or those before them, reach the window. */
  method FindLength(z: Table, k: nat, ghost lens: Lengths) returns (s: nat)
    requires z.Represents(lens) && k < 0x1_0000 && k >= MaxCode(Hist(lens), FAST_BITS)
    ensures FAST_BITS < s <= 16 && k >= MaxCode(Hist(lens), s - 1)
    ensures s < 16 ==> k < MaxCode(Hist(lens), s)
  {
    ghost var c := Hist(lens);
    s := FAST_BITS + 1;
    while k >= z.maxcode[s]
      invariant FAST_BITS < s <= 16
      invariant k >= MaxCode(c, s - 1)
      decreases 16 - s
    {
      assert s < 16;
      assert BoundEntry(c, z.firstcode[..], z.firstsymbol[..], z.maxcode[..], s);
      s := s + 1;
    }
    if s < 16 {
      assert BoundEntry(c, z.firstcode[..], z.firstsymbol[..], z.maxcode[..], s);
    }
  }

  // ----- from table lookups to codes

  /** The reversed buffer is the reversed stream. */
  method ReverseLow16(code: nat, ghost v: nat) returns (k: nat)
    requires Take(code, 16) == Take(v, 16)
    ensures k == Rev(v, 16) < 0x1_0000
  {
    k := BitReverseShift(code, 16);
    BitReverseShiftIsRev(code, 16);
    RevLow(code, 16);
    RevLow(v, 16);
    WordSize();
  }

  lemma WordSize()
    ensures Pow2(16) == 0x1_0000
  {
    Pow2Add(8, 8);
    assert Pow2(8) == 256;
  }

  lemma NineBits(v: nat)
    ensures Take(v, FAST_BITS) < 512
  {
    TakeBound(v, FAST_BITS);
    assert Pow2(9) == 512;
  }

  /** A window between two bounds holds a code of that length, and the index the source computes
      from it is the symbol's place in the table. */
  lemma LongCode(lens: Lengths, v: nat, k: nat, s: nat) returns (i: nat)
    requires Acceptable(lens) && k == Rev(v, 16) && 1 <= s <= 15
    requires MaxCode(Hist(lens), s - 1) <= k < MaxCode(Hist(lens), s)
    ensures Matches(lens, i, v) && lens[i] == s
    ensures Slot(lens, i) == Drop(k, 16 - s) - FirstCode(Hist(lens), s) + FirstIndex(Hist(lens), s) < NSYMS
  {
    HasCodeInterval(Hist(lens), s, k);
    i := WindowSymbol(lens, s, v);
    TakeDropIsModDiv(k, 16 - s);
    SlotBound(lens, i);
  }

  lemma ShortCodesMissing(lens: Lengths, v: nat, k: nat)
    requires Acceptable(lens) && k == Rev(v, 16)
    requires forall i :: Matches(lens, i, v) ==> lens[i] > FAST_BITS
    ensures k >= MaxCode(Hist(lens), FAST_BITS)
  {
    Coverage(Hist(lens), FAST_BITS, k);
    if s :| 1 <= s <= FAST_BITS && HasCode(Hist(lens), s, k) {
      var i := WindowSymbol(lens, s, v);
    }
  }

  lemma NoCode(lens: Lengths, v: nat, k: nat)
    requires Acceptable(lens) && k == Rev(v, 16) && k >= MaxCode(Hist(lens), 15)
    ensures forall i :: !Matches(lens, i, v)
  {
    forall i
      ensures !Matches(lens, i, v)
    {
      if Matches(lens, i, v) {
        MatchesWindow(lens, i, v);
        Coverage(Hist(lens), 15, k);
      }
    }
  }
}
