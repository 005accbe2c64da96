/** Unsigned machine words as natural numbers.

    A bit stream packed from the least significant end, as in section 3.1.1 of RFC 1951, is modelled
    as one natural number: reading n bits takes the number modulo 2^n and divides it by 2^n.  The
    zero bits above the top of the number stand for the implicit zeros a reader sees past the end
    of its input. */
module Bits {

  type byte = x: int | 0 <= x < 256
  type uint32 = x: int | 0 <= x < 0x1_0000_0000

  const INT_MAX := 0x7FFF_FFFF

  function Max(a: nat, b: nat): nat {
    if a < b then b else a
  }

  function Pow2(n: nat): (p: nat)
    ensures p >= 1
  {
    if n == 0 then 1 else 2 * Pow2(n - 1)
  }

  lemma {:induction false} Pow2Add(a: nat, b: nat)
    ensures Pow2(a + b) == Pow2(a) * Pow2(b)
  {
    if a == 0 {
    } else {
      Pow2Add(a - 1, b);
      assert Pow2(a + b) == 2 * Pow2(a - 1 + b);
      assert 2 * (Pow2(a - 1) * Pow2(b)) == (2 * Pow2(a - 1)) * Pow2(b);
    }
  }

  lemma {:induction false} Pow2Mono(a: nat, b: nat)
    requires a <= b
    ensures Pow2(a) <= Pow2(b)
  {
    if a >= b {
    } else {
      Pow2Mono(a, b - 1);
    }
  }

  /** The quotient and remainder of a number are determined by any way of writing it as q*d + r. */
  lemma DivModUnique(x: int, d: int, q: int, r: int)
    requires d > 0 && 0 <= r < d && x == q * d + r
    ensures x / d == q && x % d == r
  {
    var q', r' := x / d, x % d;
    assert x == q' * d + r';
    assert (q - q') * d == r' - r;
    if q > q' {
      MulGe(q - q', d);
      assert false;
    } else if q < q' {
      MulGe(q' - q, d);
      assert false;
    }
  }

  lemma MulGe(a: int, d: int)
    requires a >= 1 && d > 0
    ensures a * d >= d
  {
    assert a * d == (a - 1) * d + d;
    assert (a - 1) * d >= 0;
  }

  lemma Regroup(q: int, b: int, r: int, a: int)
    ensures (q * b + r) * a == q * (a * b) + a * r
  {
  }

  lemma MulLe(a: int, b: int, d: int)
    requires a <= b && d >= 0
    ensures a * d <= b * d
  {
    assert (b - a) * d >= 0;
  }

  /** The n low bits of v: v & ((1 << n) - 1). */
  function Take(v: nat, n: nat): nat {
    if n == 0 then 0 else v % 2 + 2 * Take(v / 2, n - 1)
  }

  /** What remains above them: v >> n. */
  function Drop(v: nat, n: nat): nat
    decreases v, n
  {
    if n == 0 then v else Drop(v / 2, n - 1)
  }

  lemma {:induction false} TakeDropIsModDiv(v: nat, n: nat)
    ensures Take(v, n) == v % Pow2(n)
    ensures Drop(v, n) == v / Pow2(n)
  {
    if n == 0 {
    } else {
      TakeDropIsModDiv(v / 2, n - 1);
      DivDiv(v, 2, Pow2(n - 1));
    }
  }

  lemma {:induction false} TakeBound(v: nat, n: nat)
    ensures Take(v, n) < Pow2(n)
  {
    if n == 0 {
    } else {
      TakeBound(v / 2, n - 1);
    }
  }

  lemma DropNothing(v: nat)
    ensures Drop(v, 0) == v
  {
  }

  lemma {:induction false} DropDrop(v: nat, a: nat, b: nat)
    ensures Drop(Drop(v, a), b) == Drop(v, a + b)
    decreases a
  {
    if a == 0 {
    } else {
      DropDrop(v / 2, a - 1, b);
    }
  }

  lemma {:induction false} TakeTake(v: nat, a: nat, b: nat)
    requires a <= b
    ensures Take(Take(v, b), a) == Take(v, a)
  {
    if a == 0 {
    } else {
      var x := Take(v / 2, b - 1);
      assert Take(v, b) == v % 2 + 2 * x && (v % 2 + 2 * x) / 2 == x && (v % 2 + 2 * x) % 2 == v % 2;
      TakeTake(v / 2, a - 1, b - 1);
    }
  }

  lemma {:induction false} DropMono(v: nat, n: nat)
    ensures Drop(v, n) <= v
  {
    if n == 0 {
    } else {
      DropMono(v / 2, n - 1);
    }
  }

  /** v << n */
  function Shl(v: nat, n: nat): nat {
    if n == 0 then v else 2 * Shl(v, n - 1)
  }

  lemma {:induction false} ShlIsMul(v: nat, n: nat)
    ensures Shl(v, n) == Pow2(n) * v
  {
    if n == 0 {
    } else {
      ShlIsMul(v, n - 1);
      DoubleTimes(Pow2(n - 1), v);
    }
  }

  lemma {:induction false} ShlAdd(a: nat, b: nat, n: nat)
    ensures Shl(a + b, n) == Shl(a, n) + Shl(b, n)
  {
    if n == 0 {
    } else {
      ShlAdd(a, b, n - 1);
    }
  }

  lemma {:induction false} ShlShl(v: nat, a: nat, b: nat)
    ensures Shl(Shl(v, a), b) == Shl(v, a + b)
    decreases b
  {
    if b == 0 {
    } else {
      ShlShl(v, a, b - 1);
    }
  }

  lemma {:induction false} ShlZero(n: nat)
    ensures Shl(0, n) == 0
  {
    if n == 0 {
    } else {
      ShlZero(n - 1);
    }
  }

  /** A value of b bits moved up n places stays below bit n + b. */
  lemma {:induction false} ShlBound(v: nat, b: nat, n: nat)
    requires v < Pow2(b)
    ensures Shl(v, n) + Pow2(n) <= Pow2(n + b)
    decreases n
  {
    if n == 0 {
    } else {
      ShlBound(v, b, n - 1);
    }
  }

  /** Reading n bits undoes placing a value below them. */
  lemma {:induction false} SplitLow(c: nat, rest: nat, n: nat)
    requires c < Pow2(n)
    ensures Take(c + Shl(rest, n), n) == c
    ensures Drop(c + Shl(rest, n), n) == rest
  {
    if n == 0 {
    } else {
      var h := Shl(rest, n - 1);
      assert (c + 2 * h) / 2 == c / 2 + h && (c + 2 * h) % 2 == c % 2;
      SplitLow(c / 2, rest, n - 1);
    }
  }

  lemma {:induction false} TakeSmall(c: nat, n: nat)
    requires c < Pow2(n)
    ensures Take(c, n) == c && Drop(c, n) == 0
  {
    if n == 0 {
    } else {
      TakeSmall(c / 2, n - 1);
    }
  }

  lemma DoubleTimes(p: nat, r: nat)
    ensures (2 * p) * r == 2 * (p * r)
  {
  }

  lemma DivDiv(v: nat, pa: nat, pb: nat)
    requires pa > 0 && pb > 0
    ensures pa * pb > 0
    ensures v / pa / pb == v / (pa * pb)
    ensures v % (pa * pb) == v % pa + pa * (v / pa % pb)
  {
    var q, r := v / pa, v % pa;
    var q2, r2 := q / pb, q % pb;
    MulGe(pa, pb);
    Regroup(q2, pb, r2, pa);
    MulLe(r2, pb - 1, pa);
    assert (pb - 1) * pa == pa * pb - pa;
    var rest := r + pa * r2;
    assert v == q2 * (pa * pb) + rest;
    DivModUnique(v, pa * pb, q2, rest);
  }

  /** Bitwise or and bitwise and of non-negative numbers. */
  function Or(a: nat, b: nat): nat
    decreases a
  {
    if a == 0 then b else (if a % 2 == 1 || b % 2 == 1 then 1 else 0) + 2 * Or(a / 2, b / 2)
  }

  function And(a: nat, b: nat): nat
    decreases a
  {
    if a == 0 then 0 else (if a % 2 == 1 && b % 2 == 1 then 1 else 0) + 2 * And(a / 2, b / 2)
  }

  lemma OrStep(a: nat, b: nat)
    ensures Or(a, 2 * b) == a % 2 + 2 * Or(a / 2, b)
  {
    if a > 0 {
      assert (2 * b) % 2 == 0 && (2 * b) / 2 == b;
    }
  }

  /** Or-ing a value into bits that are still zero adds it. */
  lemma {:induction false} OrDisjoint(a: nat, c: nat, n: nat)
    requires a < Pow2(n)
    ensures Or(a, Shl(c, n)) == a + Shl(c, n)
  {
    if n == 0 {
    } else {
      OrDisjoint(a / 2, c, n - 1);
      OrStep(a, Shl(c, n - 1));
    }
  }

  /** The n low bits of v in opposite order. */
  function Rev(v: nat, n: nat): (r: nat)
    ensures r < Pow2(n)
  {
    if n == 0 then 0 else (if v % 2 == 1 then Pow2(n - 1) else 0) + Rev(v / 2, n - 1)
  }

  /** Reversal seen from the other end: the top bit of v becomes the bottom bit. */
  lemma {:induction false} RevSnoc(v: nat, n: nat)
    ensures Rev(v, n + 1) == 2 * Rev(v, n) + Drop(v, n) % 2
  {
    if n > 0 {
      RevSnoc(v / 2, n - 1);
    } else {
      assert Rev(v, 1) == v % 2;
    }
  }

  lemma {:induction false} RevLow(v: nat, n: nat)
    ensures Rev(Take(v, n), n) == Rev(v, n)
  {
    if n == 0 {
    } else {
      RevLow(v / 2, n - 1);
    }
  }

  lemma RevNone(v: nat)
    requires v < Pow2(0)
    ensures Rev(Rev(v, 0), 0) == v
  {
  }

  lemma {:induction false} RevRev(v: nat, n: nat)
    requires v < Pow2(n)
    ensures Rev(Rev(v, n), n) == v
  {
    hide Rev, Shl, Take, Drop, Pow2;
    if n == 0 {
      RevNone(v);
    } else {
      var m := n - 1;
      var r := Rev(v / 2, m);
      RevLast(v, m);
      RevRev(v / 2, m);
      var w := r + Shl(v % 2, m);
      RevSnoc(w, m);
      SplitLow(r, v % 2, m);
      RevLow(w, m);
    }
  }

  /** The lowest bit becomes the highest. */
  lemma RevLast(v: nat, m: nat)
    requires v < Pow2(m + 1)
    ensures Rev(v, m + 1) == Rev(v / 2, m) + Shl(v % 2, m) && v / 2 < Pow2(m)
  {
    ShlZero(m);
    ShlIsMul(1, m);
  }

  /** The leading s bits of an n-bit reversal are the reversal of the s low bits. */
  lemma {:induction false} RevTop(v: nat, s: nat, n: nat)
    requires s <= n
    ensures Drop(Rev(v, n), n - s) == Rev(v, s)
  {
    if s >= n {
    } else {
      RevTop(v, s, n - 1);
      RevSnoc(v, n - 1);
    }
  }

  /** Little-endian value of a byte string. */
  function Le(bytes: seq<byte>): nat {
    if bytes == [] then 0 else bytes[0] + 256 * Le(bytes[1..])
  }

  lemma {:induction false} LeAppend(a: seq<byte>, b: seq<byte>)
    ensures Le(a + b) == Le(a) + Shl(Le(b), 8 * |a|)
  {
    if a == [] {
      assert a + b == b;
    } else {
      LeAppend(a[1..], b);
      assert (a + b)[1..] == a[1..] + b;
      ShlByte(Le(b), 8 * |a[1..]|);
    }
  }

  lemma ShlByte(v: nat, n: nat)
    ensures Shl(v, n + 8) == 256 * Shl(v, n)
  {
    assert Shl(v, n + 2) == 4 * Shl(v, n);
    assert Shl(v, n + 4) == 4 * Shl(v, n + 2);
    assert Shl(v, n + 6) == 4 * Shl(v, n + 4);
  }

  lemma ByteOf(v: nat)
    ensures Take(v, 8) < 256 && v == Take(v, 8) + 256 * Drop(v, 8)
  {
    TakeDropIsModDiv(v, 8);
    assert Pow2(8) == 256;
  }

  lemma LeOne(b: byte)
    ensures Le([b]) == b
  {
    assert [b][1..] == [];
  }

  lemma ShlEight(v: nat)
    ensures Shl(v, 8) == 256 * v
  {
    ShlByte(v, 0);
  }

  lemma Pow2Byte(n: nat)
    ensures Pow2(n + 8) == 256 * Pow2(n)
  {
    assert Pow2(n + 2) == 4 * Pow2(n);
    assert Pow2(n + 4) == 4 * Pow2(n + 2);
    assert Pow2(n + 6) == 4 * Pow2(n + 4);
  }

  lemma {:induction false} LeBound(a: seq<byte>)
    ensures Le(a) < Pow2(8 * |a|)
  {
    if a == [] {
    } else {
      LeBound(a[1..]);
      Pow2Byte(8 * |a[1..]|);
    }
  }

  // ----- bit buffer arithmetic

  lemma FillStep(code: nat, n: nat, b: nat, rest: nat)
    requires code < Pow2(n) && b < 256
    ensures Or(code, Shl(b, n)) < Pow2(n + 8)
    ensures Or(code, Shl(b, n)) + Shl(rest, n + 8) == code + Shl(b + 256 * rest, n)
  {
    OrDisjoint(code, b, n);
    assert Pow2(8) == 256;
    ShlBound(b, 8, n);
    ShlAdd(b, 256 * rest, n);
    assert Shl(rest, 8) == 256 * rest by { ShlByte(rest, 0); }
    ShlShl(rest, 8, n);
  }

  lemma {:induction false} ConsumeStep(code: nat, n: nat, bits: nat, rest: nat)
    requires n <= bits && code < Pow2(bits)
    ensures Take(code + Shl(rest, bits), n) == Take(code, n)
    ensures Drop(code + Shl(rest, bits), n) == Drop(code, n) + Shl(rest, bits - n)
    ensures Drop(code, n) < Pow2(bits - n)
    decreases n
  {
    if n == 0 {
    } else {
      var h := Shl(rest, bits - 1);
      assert (code + 2 * h) / 2 == code / 2 + h && (code + 2 * h) % 2 == code % 2;
      ConsumeStep(code / 2, n - 1, bits - 1, rest);
    }
  }
}
