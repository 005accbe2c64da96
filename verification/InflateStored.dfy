/** The inflater's stored blocks: back to a byte boundary, bytes drained from the bit buffer and then
    from the input, and a plain copy (section 3.2.4 of RFC 1951). */
module InflateStored {
  import opened Bits
  import opened ZHuffman
  import opened DeflateFormat
  import opened ZlibFormat
  import opened Inflate

  lemma PadIsBuffered(used: nat, numBits: nat)
    requires (used + numBits) % 8 == 0
    ensures Pad(used) == numBits % 8
  {
  }

  lemma Aligned(used: nat, n: nat, numBits: nat)
    requires n == Pad(used) && (used + n + numBits) % 8 == 0
    ensures numBits % 8 == 0
  {
  }

  /** Discards the bits before the next byte boundary. */
  method Align(a: Zbuf)
    requires a.Valid()
    modifies a`pos, a`numBits, a`codeBuffer, a`used
    ensures a.Valid() && a.numBits % 8 == 0
    ensures a.Stream() == Drop(old(a.Stream()), Pad(old(a.used))) && a.used == old(a.used) + Pad(old(a.used))
  {
    PadIsBuffered(a.used, a.numBits);
    ghost var u, n := a.used, Pad(a.used);
    if a.numBits % 8 != 0 {
      Discard(a, a.numBits % 8);
    }
    Aligned(u, n, a.numBits);
  }

  method Discard(a: Zbuf, n: nat)
    requires a.Valid() && n <= 16
    modifies a`pos, a`numBits, a`codeBuffer, a`used
    ensures a.Valid() && a.Stream() == Drop(old(a.Stream()), n) && a.used == old(a.used) + n
  {
    var _ := a.Receive(n);
  }

  /** Appending a byte to a prefix of the stream w. */
  lemma PrefixByte(w: nat, h: seq<byte>, b: byte, v: nat, v': nat)
    requires w == Le(h) + Shl(v, 8 * |h|) && v == b + 256 * v'
    ensures w == Le(h + [b]) + Shl(v', 8 * (|h| + 1))
  {
    LeAppend(h, [b]);
    assert Le([b]) == b;
    ShlAdd(b, 256 * v', 8 * |h|);
    ShlByte(v', 0);
    ShlShl(v', 8, 8 * |h|);
  }

  /** Moves the bytes left in the bit buffer to the header; k counts them. */
  method DrainBuffer(a: Zbuf, header: array<byte>) returns (k: nat)
    requires a.Valid() && a.numBits % 8 == 0 && header.Length == 4
    modifies a`numBits, a`codeBuffer, a`used, header
    ensures a.Valid() && a.numBits == 0 && k <= 4 && a.used == old(a.used) + 8 * k
    ensures old(a.Stream()) == Le(header[..k]) + Shl(a.Stream(), 8 * k)
  {
    ghost var w, left := a.Stream(), a.numBits / 8;
    k := 0;
    while a.numBits > 0
      invariant a.Valid() && k + left <= 4 && a.numBits == 8 * left
      invariant a.used == old(a.used) + 8 * k
      invariant w == Le(header[..k]) + Shl(a.Stream(), 8 * k)
      decreases a.numBits
    {
      ghost var h, v := header[..k], a.Stream();
      var b := a.Consume(8);
      ByteOf(v);
      header[k] := b;
      assert header[..k + 1] == h + [b];
      PrefixByte(w, h, b, v, a.Stream());
      k, left := k + 1, left - 1;
    }
  }

  /** Collects the four length bytes, first from the bit buffer and then from the input. */
  method ReadLengths(a: Zbuf, header: array<byte>)
    requires a.Valid() && a.used > 16 && a.numBits % 8 == 0 && header.Length == 4
    modifies a`pos, a`numBits, a`codeBuffer, a`used, header
    ensures a.Valid() && a.numBits == 0 && a.used == old(a.used) + 32
    ensures old(a.Stream()) == Le(header[..]) + Shl(a.Stream(), 32)
  {
    ghost var w := a.Stream();
    var k := DrainBuffer(a, header);
    while k < 4
      invariant a.Valid() && k <= 4 && a.numBits == 0
      invariant a.used == old(a.used) + 8 * k
      invariant w == Le(header[..k]) + Shl(a.Stream(), 8 * k)
    {
      ghost var h, v := header[..k], a.Stream();
      var b := GetByte(a);
      header[k] := b;
      assert header[..k + 1] == h + [b];
      PrefixByte(w, h, b, v, a.Stream());
      k := k + 1;
    }
    assert header[..4] == header[..];
  }

  /** A whole byte straight from the input, the bit buffer being empty. */
  method GetByte(a: Zbuf) returns (b: byte)
    requires a.Valid() && a.used > 16 && a.numBits == 0
    modifies a`pos, a`used
    ensures a.Valid() && a.used == old(a.used) + 8
    ensures old(a.Stream()) == b + 256 * a.Stream()
  {
    b := a.Get8();
    a.used := a.used + 8;
  }

  /** Why a stored block at v, after `used` bits, cannot be copied. */
  ghost predicate StoredFailure(st: Status, v: nat, used: nat, outLen: nat, inputBits: nat, bufLen: nat,
                                expandable: bool)
  {
    match st
    case BadStored => Take(Drop(Drop(v, Pad(used)), 16), 16) != 0xFFFF - Take(Drop(v, Pad(used)), 16)
    case ReadPast => inputBits < used + Pad(used) + 32 + 8 * Take(Drop(v, Pad(used)), 16)
    case _ => NoRoom(st, outLen + Take(Drop(v, Pad(used)), 16), bufLen, expandable)
  }

  lemma LeTwo(b: byte, c: byte)
    ensures Le([b, c]) == c as int * 256 + b as int < Pow2(16)
  {
    assert [b, c][1..] == [c];
    assert Le([c]) == c;
    LeBound([b, c]);
  }

  lemma LengthsOf(w: nat, h: seq<byte>, v: nat)
    requires |h| == 4 && w == Le(h) + Shl(v, 32)
    ensures Take(w, 16) == h[1] as int * 256 + h[0] as int
    ensures Take(Drop(w, 16), 16) == h[3] as int * 256 + h[2] as int
    ensures Drop(w, 32) == v
  {
    hide Le, Shl, Take, Drop, Pow2;
    LeTwo(h[0], h[1]);
    LeTwo(h[2], h[3]);
    var lo, hi := Le([h[0], h[1]]), Le([h[2], h[3]]);
    assert h == [h[0], h[1]] + [h[2], h[3]];
    LeAppend([h[0], h[1]], [h[2], h[3]]);
    TwoHalves(lo, hi, v);
    DropDrop(w, 16, 16);
  }

  lemma TwoHalves(lo: nat, hi: nat, v: nat)
    requires lo < Pow2(16) && hi < Pow2(16)
    ensures var w := lo + Shl(hi, 16) + Shl(v, 32);
            Take(w, 16) == lo && Take(Drop(w, 16), 16) == hi && Drop(Drop(w, 16), 16) == v
  {
    hide Shl, Take, Drop, Pow2;
    ShlShl(v, 16, 16);
    ShlAdd(hi, Shl(v, 16), 16);
    SplitLow(lo, hi + Shl(v, 16), 16);
    SplitLow(hi, v, 16);
  }

  /** The length of a stored block and its complement. */
  method ReadStoredHeader(a: Zbuf) returns (len: nat, nlen: nat)
    requires a.Valid() && a.used > 16
    modifies a`pos, a`numBits, a`codeBuffer, a`used
    ensures a.Valid() && a.numBits == 0 && len <= 0xFFFF
    ensures var w := Drop(old(a.Stream()), Pad(old(a.used)));
      Take(w, 16) == len && Take(Drop(w, 16), 16) == nlen && a.Stream() == Drop(w, 32)
    ensures a.used == old(a.used) + Pad(old(a.used)) + 32
  {
    hide Zbuf.Stream, Zbuf.PastEnd, Drop, Take, Le, Shl, Pad;
    Align(a);
    ghost var w := a.Stream();
    var header := new byte[4](_ => 0);
    ReadLengths(a, header);
    LengthsOf(w, header[..], a.Stream());
    len := header[1] as int * 256 + header[0] as int;
    nlen := header[3] as int * 256 + header[2] as int;
  }

  /** A stored block. */
  method ParseUncompressedBlock(a: Zbuf) returns (st: Status, ghost data: seq<byte>)
    requires a.Valid() && a.used > 16 && a.Separate()
    modifies a, a.outBuf
    ensures a.Valid() && a.Separate() && (a.outBuf == old(a.outBuf) || fresh(a.outBuf))
    ensures (!a.expandable ==> a.outBuf == old(a.outBuf)) && GrownFrom(old(a.outBuf.Length), a.outBuf.Length)
    ensures st == Ok ==> StoredAt(old(a.Stream()), old(a.used), data)
    ensures st == Ok ==> a.Out() == old(a.Out()) + data
    ensures st == Ok ==> a.Stream() == Drop(old(a.Stream()), StoredBits(old(a.used), data))
    ensures st == Ok ==> a.used == old(a.used) + StoredBits(old(a.used), data)
    ensures st != Ok ==>
      StoredFailure(st, old(a.Stream()), old(a.used), old(a.zout), 8 * |a.zbuffer|, old(a.outBuf.Length), a.expandable)
  {
    hide Zbuf.Stream, Zbuf.PastEnd, Drop, Take, Le, Shl, Table.Shape, StoredAt, StoredFailure, StoredBits, Pad, NoRoom;
    ghost var v0, used0, out0 := a.Stream(), a.used, a.Out();
    var len, nlen := ReadStoredHeader(a);
    assert a.Out() == out0;
    if nlen != 0xFFFF - len {
      BadStoredExplained(v0, used0, a.zout, 8 * |a.zbuffer|, a.outBuf.Length, a.expandable);
      return BadStored, [];
    }
    st, data := CopyStored(a, len);
    if st == Ok {
      StoredRead(v0, used0, data);
    } else {
      CopyExplained(st, v0, used0, |out0|, 8 * |a.zbuffer|, old(a.outBuf.Length), a.expandable, len);
    }
  }

  lemma StoredRead(v: nat, used: nat, data: seq<byte>)
    requires var w := Drop(v, Pad(used));
             && Take(w, 16) == |data| && Take(Drop(w, 16), 16) == 0xFFFF - |data|
             && Take(Drop(w, 32), 8 * |data|) == Le(data)
    ensures StoredAt(v, used, data) && StoredBits(used, data) == Pad(used) + 32 + 8 * |data|
    ensures Drop(v, StoredBits(used, data)) == Drop(Drop(Drop(v, Pad(used)), 32), 8 * |data|)
  {
    DropDrop(v, Pad(used), 32);
    DropDrop(v, Pad(used) + 32, 8 * |data|);
  }

  lemma BadStoredExplained(v: nat, used: nat, outLen: nat, inputBits: nat, bufLen: nat, expandable: bool)
    requires var w := Drop(v, Pad(used)); Take(Drop(w, 16), 16) != 0xFFFF - Take(w, 16)
    ensures StoredFailure(BadStored, v, used, outLen, inputBits, bufLen, expandable)
  {
  }

  lemma CopyExplained(st: Status, v: nat, used: nat, outLen: nat, inputBits: nat, bufLen: nat, expandable: bool,
                      len: nat)
    requires Take(Drop(v, Pad(used)), 16) == len
    requires st == ReadPast ==> inputBits < used + Pad(used) + 32 + 8 * len
    requires st == ReadPast || NoRoom(st, outLen + len, bufLen, expandable)
    ensures StoredFailure(st, v, used, outLen, inputBits, bufLen, expandable)
  {
  }

  /** Copies len bytes of input to the output. */
  method CopyStored(a: Zbuf, len: nat) returns (st: Status, ghost data: seq<byte>)
    requires a.Valid() && a.used > 16 && a.Separate() && a.numBits == 0 && len <= 0xFFFF
    modifies a, a.outBuf
    ensures a.Valid() && a.Separate() && (a.outBuf == old(a.outBuf) || fresh(a.outBuf))
    ensures (!a.expandable ==> a.outBuf == old(a.outBuf)) && GrownFrom(old(a.outBuf.Length), a.outBuf.Length)
    ensures st == Ok ==> |data| == len && a.Out() == old(a.Out()) + data
    ensures st == Ok ==> Take(old(a.Stream()), 8 * len) == Le(data) && a.Stream() == Drop(old(a.Stream()), 8 * len)
    ensures st == Ok ==> a.used == old(a.used) + 8 * len
    ensures st == ReadPast ==> 8 * |a.zbuffer| < old(a.used) + 8 * len
    ensures st in {Ok, ReadPast} || NoRoom(st, old(a.zout) + len, old(a.outBuf.Length), a.expandable)
  {
    data := [];
    if a.pos + len > |a.zbuffer| {
      return ReadPast, [];
    }
    st := Ok;
    if a.zout + len > a.outBuf.Length {
      st := a.Grow(a.zout, len);
    }
    if st == Ok {
      data := AppendInput(a, len);
    }
  }

  method AppendInput(a: Zbuf, len: nat) returns (ghost data: seq<byte>)
    requires a.Valid() && a.used > 16 && a.numBits == 0 && a.pos + len <= |a.zbuffer| && a.zout + len <= a.outBuf.Length
    modifies a`pos, a`zout, a`used, a.outBuf
    ensures a.Valid() && |data| == len && a.Out() == old(a.Out()) + data
    ensures Take(old(a.Stream()), 8 * len) == Le(data) && a.Stream() == Drop(old(a.Stream()), 8 * len)
    ensures a.used == old(a.used) + 8 * len
  {
    hide Le, Take, Drop;
    ghost var out := a.Out();
    data := a.zbuffer[a.pos..a.pos + len];
    TakeBytes(a.zbuffer, a.pos, len);
    forall i | 0 <= i < len {
      a.outBuf[a.zout + i] := a.zbuffer[a.pos + i];
    }
    assert a.outBuf[..a.zout + len] == out + data;
    a.pos := a.pos + len;
    a.zout := a.zout + len;
    a.used := a.used + 8 * len;
  }

  lemma TakeBytes(input: seq<byte>, pos: nat, len: nat)
    requires pos + len <= |input|
    ensures Take(Le(input[pos..]), 8 * len) == Le(input[pos..pos + len])
    ensures Drop(Le(input[pos..]), 8 * len) == Le(input[pos + len..])
  {
    var data := input[pos..pos + len];
    assert input[pos..] == data + input[pos + len..];
    LeAppend(data, input[pos + len..]);
    LeBound(data);
    SplitLow(Le(data), Le(input[pos + len..]), 8 * len);
  }
}
