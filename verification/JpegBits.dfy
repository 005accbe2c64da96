/** Bytes and words of JPEG data, most significant bit first. */
module JpegBits {
  import opened Bits
  import opened ByteSource

  // ----- bytes

  /** A byte, with a zero behind it if it is all ones. */
  function StuffedByte(b: byte): seq<byte> {
    if b == 255 then [255, 0] else [b]
  }

  /** Bytes as they appear in the file: a zero follows every byte of all ones. */
  function Stuffed(bytes: seq<byte>): seq<byte> {
    if bytes == [] then [] else Stuffed(bytes[..|bytes| - 1]) + StuffedByte(bytes[|bytes| - 1])
  }

  function Mirror(b: byte): byte {
    assert Pow2(8) == 256;
    Rev(b, 8)
  }

  function Mirrored(bytes: seq<byte>): (m: seq<byte>)
    ensures |m| == |bytes| && forall i :: 0 <= i < |m| ==> m[i] == Mirror(bytes[i])
  {
    seq<byte>(|bytes|, i requires 0 <= i < |bytes| => Mirror(bytes[i]))
  }

  /** The bits of the bytes, the top bit of each byte first. */
  function BitsOf(bytes: seq<byte>): nat {
    Le(Mirrored(bytes))
  }

  lemma BitsAppend(a: seq<byte>, b: seq<byte>)
    ensures BitsOf(a + b) == BitsOf(a) + Shl(BitsOf(b), 8 * |a|)
  {
    hide Mirrored, Le, Shl;
    MirroredAppend(a, b);
    LeAppend(Mirrored(a), Mirrored(b));
  }

  lemma MirroredAppend(a: seq<byte>, b: seq<byte>)
    ensures Mirrored(a + b) == Mirrored(a) + Mirrored(b)
  {
    hide Mirror;
    forall i | 0 <= i < |a + b|
      ensures Mirrored(a + b)[i] == (Mirrored(a) + Mirrored(b))[i]
    {
    }
  }

  // ----- bits at the top of a word

  lemma {:induction false} RevConcat(lo: nat, a: nat, hi: nat, b: nat)
    requires lo < Pow2(a)
    ensures Rev(lo + Shl(hi, a), a + b) == Rev(hi, b) + Shl(Rev(lo, a), b)
    decreases a
  {
    if a == 0 {
      ShlZero(b);
    } else {
      var h := Shl(hi, a - 1);
      assert (lo + 2 * h) / 2 == lo / 2 + h && (lo + 2 * h) % 2 == lo % 2;
      RevConcat(lo / 2, a - 1, hi, b);
      ShlAdd(if lo % 2 == 1 then Pow2(a - 1) else 0, Rev(lo / 2, a - 1), b);
      ShlZero(b);
      ShlIsMul(Pow2(a - 1), b);
      Pow2Add(b, a - 1);
    }
  }

  lemma {:induction false} RevZero(n: nat)
    ensures Rev(0, n) == 0
  {
    if n == 0 {
    } else {
      RevZero(n - 1);
    }
  }

  lemma RevShl(v: nat, a: nat, b: nat)
    ensures Rev(Shl(v, a), a + b) == Rev(v, b)
  {
    RevConcat(0, a, v, b);
    RevZero(a);
    ShlZero(b);
  }

  /** A reversal below 2^b has its other bits, the low ones of the number, all zero. */
  lemma LowZeros(x: nat, n: nat, b: nat)
    requires b <= n && Rev(x, n) < Pow2(b)
    ensures x == Shl(Drop(x, n - b), n - b)
  {
    hide Rev, Take, Drop, Shl, Pow2;
    var m := n - b;
    TakeBound(x, m);
    SplitTake(x, m);
    RevConcat(Take(x, m), m, Drop(x, m), b);
    if Rev(Take(x, m), m) > 0 {
      ShlIsMul(Rev(Take(x, m), m), b);
      MulLe(1, Rev(Take(x, m), m), Pow2(b));
    }
    RevRev(Take(x, m), m);
    RevZero(m);
  }

  lemma SplitTake(x: nat, m: nat)
    ensures x == Take(x, m) + Shl(Drop(x, m), m)
  {
    TakeDropIsModDiv(x, m);
    ShlIsMul(Drop(x, m), m);
  }

  lemma StuffMore(bytes: seq<byte>, c: byte)
    ensures Stuffed(bytes + [c]) == Stuffed(bytes) + if c == 255 then [255, 0] else [c]
  {
    assert (bytes + [c])[..|bytes|] == bytes;
  }

  lemma OneByte(c: byte)
    ensures BitsOf([c]) == Rev(c, 8)
  {
    var m: seq<byte> := Mirrored([c]);
    assert m[0] == Mirror([c][0]) == Mirror(c);
    assert m[1..] == [];
    assert BitsOf([c]) == Le(m) == m[0];
  }

  /** Placing a field below the waiting bits, which are the top cnt of the low `top` bits of the word,
      appends its bits. */
  lemma AddBits(x: nat, top: nat, cnt: nat, code: nat, n: nat)
    requires top <= 32 && x < 0x1_0000_0000 && Rev(x, top) < Pow2(cnt) && cnt + n <= top && code < Pow2(n)
    ensures var y := Or(x, Shl(code, top - cnt - n));
      && y < 0x1_0000_0000
      && Rev(y, top) == Rev(x, top) + Shl(Rev(code, n), cnt)
      && Rev(y, top) < Pow2(cnt + n)
  {
    hide Or, Shl, Rev, Pow2, Drop;
    var m := top - cnt - n;
    var low, hi := Shl(code, m), Drop(x, top - cnt);
    LowZeros(x, top, cnt);
    FieldFits(code, n, m);
    OrBelow(low, hi, top - cnt);
    RevConcat(low, top - cnt, hi, cnt);
    RevShl(code, m, n);
    RevShl(hi, top - cnt, cnt);
    WordFits(x, low, top - cnt);
    ConcatBound(Rev(hi, cnt), cnt, Rev(code, n), n);
  }

  lemma FieldFits(code: nat, n: nat, m: nat)
    requires code < Pow2(n)
    ensures Shl(code, m) < Pow2(m + n)
  {
    ShlBound(code, n, m);
  }

  lemma OrBelow(low: nat, hi: nat, n: nat)
    requires low < Pow2(n)
    ensures Or(Shl(hi, n), low) == low + Shl(hi, n)
  {
    OrDisjoint(low, hi, n);
    OrSwap(Shl(hi, n), low);
  }

  lemma {:induction false} OrSwap(a: nat, b: nat)
    ensures Or(a, b) == Or(b, a)
    decreases a + b
  {
    if a == 0 {
      OrNothing(b);
    } else if b == 0 {
      OrNothing(a);
    } else {
      OrSwap(a / 2, b / 2);
    }
  }

  lemma {:induction false} OrNothing(a: nat)
    ensures Or(a, 0) == a
  {
    if a == 0 {
    } else {
      OrNothing(a / 2);
    }
  }

  lemma ConcatBound(a: nat, cnt: nat, b: nat, n: nat)
    requires a < Pow2(cnt) && b < Pow2(n)
    ensures a + Shl(b, cnt) < Pow2(cnt + n)
  {
    ShlBound(b, n, cnt);
  }

  /** A multiple of 2^n below 2^32 stays there when a number below 2^n is added. */
  lemma WordFits(x: nat, low: nat, n: nat)
    requires x < 0x1_0000_0000 && low < Pow2(n) && n <= 32 && x == Shl(Drop(x, n), n)
    ensures x + low < 0x1_0000_0000
  {
    ThirtyTwo();
    DropBound(x, n, 32);
    ShlBound(Drop(x, n), 32 - n, n);
  }

  lemma ThirtyTwo()
    ensures Pow2(32) == 0x1_0000_0000
  {
    assert Pow2(8) == 256;
    Pow2Byte(8);
    Pow2Byte(16);
    Pow2Byte(24);
  }

  /** Moving the top byte of the waiting bits out. */
  lemma MoveByte(x: nat, cnt: nat, w: nat)
    requires 8 <= cnt <= 24 && x < 0x1_0000_0000 && Rev(x, 24) < Pow2(cnt)
    ensures var c, y := Take(Drop(x, 16), 8), Take(Shl(x, 8), 32);
      && c < 256 && y < 0x1_0000_0000
      && Shl(Rev(x, 24), w) == Shl(Rev(c, 8), w) + Shl(Rev(y, 24), w + 8)
      && Rev(y, 24) < Pow2(cnt - 8)
  {
    hide Take, Drop, Rev, Shl, Pow2;
    var c, y := Take(Drop(x, 16), 8), Take(Shl(x, 8), 32);
    EightBits(Drop(x, 16));
    ThirtyTwo();
    TakeBound(Shl(x, 8), 32);
    // the byte is the low eight bits of the reversal, the rest its other bits
    RevLow(Drop(x, 16), 8);
    TopByte(x);
    RestBits(x);
    var p := Rev(x, 24);
    SplitTake(p, 8);
    ShlAdd(Take(p, 8), Shl(Drop(p, 8), 8), w);
    ShlShl(Drop(p, 8), 8, w);
    DropBound(p, 8, cnt);
  }

  lemma EightBits(v: nat)
    ensures Take(v, 8) < 256
  {
    TakeBound(v, 8);
    assert Pow2(8) == 256;
  }

  lemma TopByte(x: nat)
    ensures Take(Rev(x, 24), 8) == Rev(Drop(x, 16), 8)
  {
    // reversing the low 24 bits of x: first its bits 16 to 23
    SplitTake(x, 16);
    TakeBound(x, 16);
    RevConcat(Take(x, 16), 16, Drop(x, 16), 8);
    SplitLow(Rev(Drop(x, 16), 8), Rev(Take(x, 16), 16), 8);
  }

  lemma RestBits(x: nat)
    ensures Rev(Take(Shl(x, 8), 32), 24) == Drop(Rev(x, 24), 8)
  {
    TakeTake(Shl(x, 8), 24, 32);
    RevLow(Take(Shl(x, 8), 32), 24);
    RevLow(Shl(x, 8), 24);
    RevShl(x, 8, 16);
    RevTop(x, 16, 24);
  }

  lemma {:induction false} DropBound(p: nat, n: nat, cnt: nat)
    requires n <= cnt && p < Pow2(cnt)
    ensures Drop(p, n) < Pow2(cnt - n)
  {
    if n == 0 {
    } else {
      DropBound(p / 2, n - 1, cnt - 1);
    }
  }

  lemma {:induction false} TakeShl(x: nat, n: nat, m: nat)
    ensures Take(Shl(x, n), n + m) == Shl(Take(x, m), n)
  {
    if n == 0 {
    } else {
      TakeShl(x, n - 1, m);
    }
  }

  lemma {:induction false} DropShl(y: nat, n: nat, m: nat)
    ensures Drop(Shl(y, n), n + m) == Drop(y, m)
  {
    if n == 0 {
    } else {
      DropShl(y, n - 1, m);
    }
  }

  /** The bits of a window of m bits after the first n, size of them. */
  lemma FieldInside(v: nat, m: nat, n: nat, size: nat)
    requires n + size <= m
    ensures Drop(Take(Shl(Rev(v, m), n), m), m - size) == Rev(Drop(v, n), size)
  {
    hide Rev, Take, Drop, Shl, Pow2;
    var w, u := Rev(v, m), Drop(v, n);
    TakeShl(w, n, m - n);
    DropShl(Take(w, m - n), n, m - n - size);
    SplitTake(v, n);
    TakeBound(v, n);
    RevConcat(Take(v, n), n, u, m - n);
    SplitLow(Rev(u, m - n), Rev(Take(v, n), n), m - n);
    RevTop(u, size, m - n);
  }

  lemma {:induction false} TakeConcat(x: nat, w: nat, f: nat, m: nat)
    requires x < Pow2(w)
    ensures Take(x + Shl(f, w), w + m) == x + Shl(Take(f, m), w)
    decreases w
  {
    if w == 0 {
    } else {
      var h := Shl(f, w - 1);
      assert (x + 2 * h) / 2 == x / 2 + h && (x + 2 * h) % 2 == x % 2;
      TakeConcat(x / 2, w - 1, f, m);
    }
  }

  lemma BitsBound(bytes: seq<byte>)
    ensures BitsOf(bytes) < Pow2(8 * |bytes|)
  {
    LeBound(Mirrored(bytes));
  }

  // ----- reading bytes

  /** Where the fill bytes of all ones before pos + n end. */
  function SkipFill(input: seq<byte>, pos: nat): (p: nat)
    ensures p >= pos && At(input, p) != 255
    decreases Remaining(input, pos)
  {
    if At(input, pos) == 255 then SkipFill(input, pos + 1) else pos
  }

  /** The data bytes up to the next marker or the end of the input. */
  function Destuffed(input: seq<byte>, pos: nat): seq<byte>
    decreases Remaining(input, pos)
  {
    if pos >= |input| then []
    else if input[pos] != 255 then [input[pos]] + Destuffed(input, pos + 1)
    else
      var p := SkipFill(input, pos + 1);
      if At(input, p) != 0 then [] else [255] + Destuffed(input, p + 1)
  }

  lemma AfterOnes(input: seq<byte>, pos: nat)
    requires pos < |input| && input[pos] == 255
    ensures var p := SkipFill(input, pos + 1);
      Destuffed(input, pos) == if At(input, p) != 0 then [] else [255] + Destuffed(input, Next(input, p))
  {
  }

  lemma StuffedSnoc(bytes: seq<byte>, b: byte)
    ensures Stuffed(bytes + [b]) == Stuffed(bytes) + StuffedByte(b)
  {
    assert (bytes + [b])[..|bytes|] == bytes;
  }

  lemma DestuffOne(input: seq<byte>, pos: nat, b: byte, rest: seq<byte>)
    requires pos <= |input| && input[pos..] == StuffedByte(b) + rest
    ensures Destuffed(input, pos) == [b] + Destuffed(input, pos + |StuffedByte(b)|)
  {
    hide Destuffed;
    assert input[pos] == input[pos..][0];
    if b == 255 {
      assert input[pos + 1] == input[pos..][1] == 0;
      assert SkipFill(input, pos + 1) == pos + 1;
      DestuffOnes(input, pos);
    } else {
      DestuffPlain(input, pos);
    }
  }

  lemma DestuffPlain(input: seq<byte>, pos: nat)
    requires pos < |input| && input[pos] != 255
    ensures Destuffed(input, pos) == [input[pos]] + Destuffed(input, pos + 1)
  {
  }

  lemma DestuffOnes(input: seq<byte>, pos: nat)
    requires pos + 1 < |input| && input[pos] == 255 && SkipFill(input, pos + 1) == pos + 1 && input[pos + 1] == 0
    ensures Destuffed(input, pos) == [255] + Destuffed(input, pos + 2)
  {
  }

  /** No byte of all ones in the stuffed data can be taken for the beginning of a marker. */
  lemma {:induction false} NoMarkers(bytes: seq<byte>, i: nat)
    requires i < |Stuffed(bytes)| && Stuffed(bytes)[i] == 255
    ensures i + 1 < |Stuffed(bytes)| && Stuffed(bytes)[i + 1] == 0
  {
    var n := |bytes| - 1;
    if i < |Stuffed(bytes[..n])| {
      NoMarkers(bytes[..n], i);
    }
  }

  /** Reading undoes stuffing. */
  lemma {:induction false} DestuffStuffed(input: seq<byte>, pos: nat, bytes: seq<byte>, rest: seq<byte>)
    requires pos <= |input| && input[pos..] == Stuffed(bytes) + rest
    ensures Destuffed(input, pos) == bytes + Destuffed(input, pos + |Stuffed(bytes)|)
    decreases |bytes|
  {
    hide Stuffed, Destuffed, StuffedByte;
    if bytes == [] {
      NothingStuffed();
    } else {
      var n := |bytes| - 1;
      var init, last := bytes[..n], bytes[n];
      assert bytes == init + [last];
      StuffedSnoc(init, last);
      Split(input, pos, Stuffed(init), StuffedByte(last), rest);
      DestuffStuffed(input, pos, init, StuffedByte(last) + rest);
      var at := pos + |Stuffed(init)|;
      DestuffOne(input, at, last, rest);
      var end := at + |StuffedByte(last)|;
      assert end == pos + |Stuffed(bytes)|;
      Joined(init, last, Destuffed(input, end));
    }
  }

  lemma NothingStuffed()
    ensures Stuffed([]) == []
  {
  }

  lemma Split<T>(s: seq<T>, pos: nat, a: seq<T>, b: seq<T>, c: seq<T>)
    requires pos <= |s| && s[pos..] == (a + b) + c
    ensures s[pos..] == a + (b + c) && pos + |a| <= |s| && s[pos + |a|..] == b + c
  {
    assert s[pos..][|a|..] == b + c;
  }

  lemma Joined<T>(a: seq<T>, x: T, b: seq<T>)
    ensures a + ([x] + b) == (a + [x]) + b
  {
  }
}
