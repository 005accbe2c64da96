/** The two bit reversals of the zlib code: the writer shifts one bit at a time, the reader swaps
    neighbouring groups of a 16-bit word.  Both are Bits.Rev. */
module BitReverse {
  import opened Bits

  /** The writer's loop. */
  method BitRev(code: nat, codebits: nat) returns (res: nat)
    ensures res == Rev(code, codebits)
  {
    res := 0;
    var rest, left := code, codebits;
    while left > 0
      invariant Rev(code, codebits) == res * Pow2(left) + Rev(rest, left)
    {
      ShiftIn(res, rest % 2, Pow2(left - 1));
      res := 2 * res + rest % 2;
      rest := rest / 2;
      left := left - 1;
    }
  }

  lemma ShiftIn(res: nat, b: nat, p: nat)
    requires b < 2
    ensures res * (2 * p) + (if b == 1 then p else 0) == (2 * res + b) * p
  {
  }

  /** One line of the reader's reversal: the groups under one mask move down, the others up. */
  function SwapGroups(n: nat, k: nat, hi: nat, lo: nat): nat {
    Or(Drop(And(n, hi), k), Shl(And(n, lo), k))
  }

  /** The reader's 16-bit word reversal. */
  function BitReverse16(n: nat): nat {
    var n1 := SwapGroups(n, 1, 0xAAAA, 0x5555);
    var n2 := SwapGroups(n1, 2, 0xCCCC, 0x3333);
    var n3 := SwapGroups(n2, 4, 0xF0F0, 0x0F0F);
    SwapGroups(n3, 8, 0xFF00, 0x00FF)
  }

  /** The reader's reversal of the low `bits` bits: reverse 16 and shift. */
  function BitReverseShift(v: nat, bits: nat): nat
    requires bits <= 16
  {
    Drop(BitReverse16(v), 16 - bits)
  }

  // ----- words as sequences of bits, least significant first

  function FromBits(s: seq<bool>): nat {
    if s == [] then 0 else (if s[0] then 1 else 0) + 2 * FromBits(s[1..])
  }

  /** The bits of v from the least significant up begin with s. */
  predicate LowBits(v: nat, s: seq<bool>) {
    s == [] || ((v % 2 == 1) == s[0] && LowBits(v / 2, s[1..]))
  }

  function ToBits(v: nat, n: nat): (s: seq<bool>)
    ensures |s| == n && LowBits(v, s)
  {
    if n == 0 then [] else [v % 2 == 1] + ToBits(v / 2, n - 1)
  }

  lemma {:induction false} LowBitsFromBits(s: seq<bool>)
    ensures LowBits(FromBits(s), s)
  {
    if s == [] {
    } else {
      LowBitsFromBits(s[1..]);
    }
  }

  function Reversed(s: seq<bool>): (r: seq<bool>)
    ensures |r| == |s|
  {
    if s == [] then [] else Reversed(s[1..]) + [s[0]]
  }

  lemma {:induction false} ReversedAt(s: seq<bool>, i: nat)
    requires i < |s|
    ensures Reversed(s)[i] == s[|s| - 1 - i]
  {
    if i >= |s| - 1 {
    } else {
      ReversedAt(s[1..], i);
    }
  }

  lemma {:induction false} FromBitsSnoc(s: seq<bool>, b: bool)
    ensures FromBits(s + [b]) == FromBits(s) + if b then Pow2(|s|) else 0
  {
    if s == [] {
      assert s + [b] == [b];
    } else {
      FromBitsSnoc(s[1..], b);
      assert (s + [b])[1..] == s[1..] + [b];
    }
  }

  lemma {:induction false} RevBits(v: nat, n: nat)
    ensures FromBits(Reversed(ToBits(v, n))) == Rev(v, n)
  {
    if n == 0 {
    } else {
      var t := ToBits(v / 2, n - 1);
      assert ToBits(v, n)[1..] == t;
      RevBits(v / 2, n - 1);
      FromBitsSnoc(Reversed(t), v % 2 == 1);
    }
  }

  function AndBits(a: seq<bool>, b: seq<bool>): (r: seq<bool>)
    requires |a| == |b|
    ensures |r| == |a|
  {
    seq(|a|, i requires 0 <= i < |a| => a[i] && b[i])
  }

  lemma {:induction false} AndIsAndBits(v: nat, a: seq<bool>, b: seq<bool>)
    requires |a| == |b| && LowBits(v, a)
    ensures And(v, FromBits(b)) == FromBits(AndBits(a, b))
    decreases |a|
  {
    if a == [] {
      AndZero(v);
    } else {
      AndIsAndBits(v / 2, a[1..], b[1..]);
      assert AndBits(a, b)[1..] == AndBits(a[1..], b[1..]);
      AndZero(0);
    }
  }

  lemma {:induction false} AndZero(v: nat)
    ensures And(v, 0) == 0
  {
    if v == 0 {
    } else {
      AndZero(v / 2);
    }
  }

  lemma {:induction false} OrIsOrBits(a: seq<bool>, b: seq<bool>, r: seq<bool>)
    requires |a| == |b| == |r| && forall i :: 0 <= i < |a| ==> r[i] == (a[i] || b[i])
    ensures Or(FromBits(a), FromBits(b)) == FromBits(r)
    decreases |a|
  {
    if a == [] {
    } else {
      OrIsOrBits(a[1..], b[1..], r[1..]);
      assert r[0] == (a[0] || b[0]);
    }
  }

  function Zeros(n: nat): (s: seq<bool>)
    ensures |s| == n && forall i :: 0 <= i < n ==> !s[i]
  {
    seq(n, i => false)
  }

  lemma {:induction false} ShiftLeft(s: seq<bool>, k: nat)
    ensures Shl(FromBits(s), k) == FromBits(Zeros(k) + s)
    decreases k
  {
    if k == 0 {
      assert Zeros(0) + s == s;
    } else {
      ShiftLeft(s, k - 1);
      assert (Zeros(k) + s)[1..] == Zeros(k - 1) + s;
    }
  }

  lemma {:induction false} ShiftRight(s: seq<bool>, k: nat)
    requires k <= |s|
    ensures Drop(FromBits(s), k) == FromBits(s[k..])
  {
    if k == 0 {
      assert s[0..] == s;
    } else {
      ShiftRight(s[1..], k - 1);
      assert s[1..][k - 1..] == s[k..];
    }
  }

  lemma {:induction false} PadTop(s: seq<bool>, k: nat)
    ensures FromBits(s + Zeros(k)) == FromBits(s)
    decreases |s|, k
  {
    if s == [] {
      assert s + Zeros(k) == Zeros(k);
      if k > 0 {
        PadTop([], k - 1);
        assert [] + Zeros(k - 1) == Zeros(k - 1) == Zeros(k)[1..];
      }
    } else {
      PadTop(s[1..], k);
      assert (s + Zeros(k))[1..] == s[1..] + Zeros(k);
    }
  }

  function MovedDown(h: seq<bool>, k: nat): (r: seq<bool>)
    ensures |r| == |h|
  {
    seq(|h|, i requires 0 <= i < |h| => i + k < |h| && h[i + k])
  }

  function MovedUp(l: seq<bool>, k: nat): (r: seq<bool>)
    ensures |r| == |l|
  {
    seq(|l|, i requires 0 <= i < |l| => i >= k && l[i - k])
  }

  lemma DropMovesDown(h: seq<bool>, k: nat)
    requires k <= |h|
    ensures Drop(FromBits(h), k) == FromBits(MovedDown(h, k))
  {
    ShiftRight(h, k);
    PadTop(h[k..], k);
    assert h[k..] + Zeros(k) == MovedDown(h, k);
  }

  lemma ShlMovesUp(l: seq<bool>, k: nat)
    requires k <= |l| && forall i :: |l| - k <= i < |l| ==> !l[i]
    ensures Shl(FromBits(l), k) == FromBits(MovedUp(l, k))
  {
    var n := |l| - k;
    assert l == l[..n] + Zeros(k);
    PadTop(l[..n], k);
    ShiftLeft(l[..n], k);
    assert Zeros(k) + l[..n] == MovedUp(l, k);
  }

  /** What one line of the reversal does to a word s, for masks hi and lo. */
  lemma Line(v: nat, s: seq<bool>, k: nat, hi: seq<bool>, lo: seq<bool>, r: seq<bool>)
    requires |s| == |hi| == |lo| == |r| && k <= |s| && LowBits(v, s)
    requires forall i :: 0 <= i < |s| ==>
      r[i] == (MovedDown(AndBits(s, hi), k)[i] || MovedUp(AndBits(s, lo), k)[i])
    requires forall i :: |s| - k <= i < |s| ==> !lo[i]
    ensures SwapGroups(v, k, FromBits(hi), FromBits(lo)) == FromBits(r)
  {
    AndIsAndBits(v, s, hi);
    AndIsAndBits(v, s, lo);
    DropMovesDown(AndBits(s, hi), k);
    ShlMovesUp(AndBits(s, lo), k);
    OrIsOrBits(MovedDown(AndBits(s, hi), k), MovedUp(AndBits(s, lo), k), r);
  }

  function BitValue(b: bool): nat {
    if b then 1 else 0
  }

  lemma Nibble(p: seq<bool>, rest: seq<bool>)
    requires |p| == 4
    ensures FromBits(p + rest)
         == BitValue(p[0]) + 2 * BitValue(p[1]) + 4 * BitValue(p[2]) + 8 * BitValue(p[3]) + 16 * FromBits(rest)
  {
    var s := p + rest;
    var s1, s2, s3 := s[1..], s[2..], s[3..];
    assert s1[1..] == s2 && s2[1..] == s3 && s3[1..] == rest;
    assert FromBits(s3) == BitValue(p[3]) + 2 * FromBits(rest);
    assert FromBits(s2) == BitValue(p[2]) + 2 * FromBits(s3);
    assert FromBits(s1) == BitValue(p[1]) + 2 * FromBits(s2);
  }

  /** A mask written as four hexadecimal digits, least significant first. */
  function Mask(a: seq<bool>, b: seq<bool>, c: seq<bool>, d: seq<bool>): (m: seq<bool>)
    requires |a| == |b| == |c| == |d| == 4
  {
    a + (b + (c + d))
  }

  function Digit(p: seq<bool>): nat
    requires |p| == 4
  {
    BitValue(p[0]) + 2 * BitValue(p[1]) + 4 * BitValue(p[2]) + 8 * BitValue(p[3])
  }

  lemma MaskValue(a: seq<bool>, b: seq<bool>, c: seq<bool>, d: seq<bool>)
    requires |a| == |b| == |c| == |d| == 4
    ensures FromBits(Mask(a, b, c, d)) == Digit(a) + 16 * Digit(b) + 256 * Digit(c) + 4096 * Digit(d)
  {
    Nibble(a, b + (c + d));
    Nibble(b, c + d);
    Nibble(c, d);
    assert d + [] == d;
    Nibble(d, []);
  }

  function Swap1<T>(s: seq<T>): (r: seq<T>)
    requires |s| == 16
  {
    [s[1], s[0], s[3], s[2], s[5], s[4], s[7], s[6], s[9], s[8], s[11], s[10], s[13], s[12], s[15], s[14]]
  }

  function Swap2<T>(s: seq<T>): (r: seq<T>)
    requires |s| == 16
  {
    [s[2], s[3], s[0], s[1], s[6], s[7], s[4], s[5], s[10], s[11], s[8], s[9], s[14], s[15], s[12], s[13]]
  }

  function Swap4<T>(s: seq<T>): (r: seq<T>)
    requires |s| == 16
  {
    [s[4], s[5], s[6], s[7], s[0], s[1], s[2], s[3], s[12], s[13], s[14], s[15], s[8], s[9], s[10], s[11]]
  }

  function Swap8<T>(s: seq<T>): (r: seq<T>)
    requires |s| == 16
  {
    [s[8], s[9], s[10], s[11], s[12], s[13], s[14], s[15], s[0], s[1], s[2], s[3], s[4], s[5], s[6], s[7]]
  }

  lemma Line1(v: nat, s: seq<bool>)
    requires |s| == 16 && LowBits(v, s)
    ensures SwapGroups(v, 1, 0xAAAA, 0x5555) == FromBits(Swap1(s))
  {
    var a, b := [false, true, false, true], [true, false, true, false];
    MaskValue(a, a, a, a);
    MaskValue(b, b, b, b);
    Line(v, s, 1, Mask(a, a, a, a), Mask(b, b, b, b), Swap1(s));
  }

  lemma Line2(v: nat, s: seq<bool>)
    requires |s| == 16 && LowBits(v, s)
    ensures SwapGroups(v, 2, 0xCCCC, 0x3333) == FromBits(Swap2(s))
  {
    var a, b := [false, false, true, true], [true, true, false, false];
    MaskValue(a, a, a, a);
    MaskValue(b, b, b, b);
    Line(v, s, 2, Mask(a, a, a, a), Mask(b, b, b, b), Swap2(s));
  }

  lemma Line4(v: nat, s: seq<bool>)
    requires |s| == 16 && LowBits(v, s)
    ensures SwapGroups(v, 4, 0xF0F0, 0x0F0F) == FromBits(Swap4(s))
  {
    var a, b := [false, false, false, false], [true, true, true, true];
    MaskValue(a, b, a, b);
    MaskValue(b, a, b, a);
    Line(v, s, 4, Mask(a, b, a, b), Mask(b, a, b, a), Swap4(s));
  }

  lemma Line8(v: nat, s: seq<bool>)
    requires |s| == 16 && LowBits(v, s)
    ensures SwapGroups(v, 8, 0xFF00, 0x00FF) == FromBits(Swap8(s))
  {
    var a, b := [false, false, false, false], [true, true, true, true];
    MaskValue(a, a, b, b);
    MaskValue(b, b, a, a);
    Line(v, s, 8, Mask(a, a, b, b), Mask(b, b, a, a), Swap8(s));
  }

  /** The reader's word reversal is the reversal of the 16 low bits. */
  lemma BitReverse16IsRev(v: nat)
    ensures BitReverse16(v) == Rev(v, 16)
  {
    var s := ToBits(v, 16);
    Line1(v, s);
    var s1 := Swap1(s);
    LowBitsFromBits(s1);
    Line2(FromBits(s1), s1);
    var s2 := Swap2(s1);
    LowBitsFromBits(s2);
    Line4(FromBits(s2), s2);
    var s4 := Swap4(s2);
    LowBitsFromBits(s4);
    Line8(FromBits(s4), s4);
    SwapsReverse(s);
    Reversed16(s, Swap8(s4));
    RevBits(v, 16);
  }

  /** The four swaps together reverse any sixteen elements. */
  lemma SwapsReverse<T>(s: seq<T>)
    requires |s| == 16
    ensures var r := Swap8(Swap4(Swap2(Swap1(s)))); |r| == 16 && forall i :: 0 <= i < 16 ==> r[i] == s[15 - i]
  {
  }

  lemma Reversed16(s: seq<bool>, r: seq<bool>)
    requires |s| == |r| == 16
    requires forall i :: 0 <= i < 16 ==> r[i] == s[15 - i]
    ensures r == Reversed(s)
  {
    forall i | 0 <= i < 16
      ensures r[i] == Reversed(s)[i]
    {
      ReversedAt(s, i);
    }
  }

  /** The reader's reversal of n bits is the reversal the writer applied. */
  lemma BitReverseShiftIsRev(v: nat, bits: nat)
    requires bits <= 16
    ensures BitReverseShift(v, bits) == Rev(v, bits)
  {
    BitReverse16IsRev(v);
    RevTop(v, bits, 16);
  }
}
