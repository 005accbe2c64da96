/** Baseline JPEG entropy coding of blocks: Huffman codes from counts and values (Annex C of ITU-T
    T.81), magnitude categories (section F.1.2) and the decoding procedures (section F.2.2).

    A stream is a natural number whose lowest bit comes first; since fields come most significant bit
    first, the next n bits of v have the value Rev(v, n). */
module JpegFormat {
  import opened Bits
  import opened Canonical
  import opened BitPieces

  // ----- Huffman codes

  /** How many codes there are of each length, and the symbols in the order of their codes. */
  datatype HuffTable = HuffTable(counts: Counts, values: seq<byte>) {
    function Total(): nat {
      FirstIndex(counts, 17)
    }

    /** The codes fit, there are at most 256, and at most 255 of them have nine bits or less: the
        reader's fast table cannot name another. */
    ghost predicate Usable() {
      Fits(counts, 16) && Total() <= 256 && FirstIndex(counts, 10) <= 255 && |values| == 256
    }
  }

  /** The least code length, from s on, whose last code is not below the window; 17 if there is none. */
  function LengthFrom(c: Counts, window: nat, s: nat): (r: nat)
    requires 1 <= s <= 17
    ensures s <= r <= 17
    decreases 17 - s
  {
    if s == 17 || window < MaxCode(c, s) then s else LengthFrom(c, window, s + 1)
  }

  function CodeLength(c: Counts, v: nat): (r: nat)
    ensures 1 <= r <= 17
  {
    LengthFrom(c, Rev(v, 16), 1)
  }

  lemma {:induction false} LengthLeast(c: Counts, window: nat, s: nat, t: nat)
    requires 1 <= s <= t <= 16
    ensures t < LengthFrom(c, window, s) ==> window >= MaxCode(c, t)
    ensures LengthFrom(c, window, s) == t ==> window < MaxCode(c, t)
    ensures t >= s && window < MaxCode(c, t) ==> LengthFrom(c, window, s) <= t
    decreases t - s
  {
    if s >= t {
    } else {
      if window < MaxCode(c, s) {
        MaxCodeMono(c, s, t);
      } else {
        LengthLeast(c, window, s + 1, t);
      }
    }
  }

  /** A code of length s leads the stream exactly if the window lies between two bounds. */
  lemma CodeOfLength(c: Counts, v: nat, s: nat)
    requires 1 <= s <= 16
    ensures FirstCode(c, s) <= Rev(v, s) < EndCode(c, s) <==> MaxCode(c, s - 1) <= Rev(v, 16) < MaxCode(c, s)
    ensures MaxCode(c, 0) == 0
  {
    hide FirstCode, EndCode, Rev, Take, Drop, Pow2;
    RevTop(v, s, 16);
    TakeDropIsModDiv(Rev(v, 16), 16 - s);
    HasCodeInterval(c, s, Rev(v, 16));
  }

  /** The length found is that of the one code that leads the stream. */
  lemma LengthIsCode(c: Counts, v: nat, s: nat)
    requires 1 <= s <= 16
    ensures CodeLength(c, v) == s <==> FirstCode(c, s) <= Rev(v, s) < EndCode(c, s)
  {
    hide FirstCode, EndCode, MaxCode, LengthFrom, Rev, Take, Drop, Pow2;
    var w := Rev(v, 16);
    CodeOfLength(c, v, s);
    LengthLeast(c, w, 1, s);
    if s > 1 {
      LengthLeast(c, w, 1, s - 1);
    }
    if CodeLength(c, v) < s {
      LengthLeast(c, w, 1, CodeLength(c, v));
      MaxCodeMono(c, CodeLength(c, v), s - 1);
    }
  }

  /** Position in the order of codes of the code that leads the stream. */
  function CodeIndex(c: Counts, v: nat): (k: nat)
    requires CodeLength(c, v) <= 16
    ensures k < FirstIndex(c, 17)
  {
    var s := CodeLength(c, v);
    LengthIsCode(c, v, s);
    FirstIndexMono(c, s, 17);
    FirstIndex(c, s) + (Rev(v, s) - FirstCode(c, s))
  }

  /** The code word of index k, of length s. */
  ghost predicate IsCode(c: Counts, k: nat, code: nat, s: nat) {
    1 <= s <= 16 && FirstCode(c, s) <= code < EndCode(c, s) && k == FirstIndex(c, s) + (code - FirstCode(c, s))
  }

  /** A stream that begins with a code word is read as that code. */
  lemma CodeReads(c: Counts, k: nat, code: nat, s: nat, tail: nat)
    requires IsCode(c, k, code, s) && Fits(c, 16)
    ensures var v := Rev(code, s) + Shl(tail, s);
      CodeLength(c, v) == s && CodeIndex(c, v) == k && Drop(v, s) == tail
  {
    hide CodeLength, Drop, Take, Shl, FirstIndex, Rev, Pow2;
    var v := Rev(code, s) + Shl(tail, s);
    SplitLow(Rev(code, s), tail, s);
    RevLow(v, s);
    RevRev(code, s);
    LengthIsCode(c, v, s);
  }

  // ----- magnitudes

  function Abs(x: int): nat {
    if x < 0 then -x else x
  }

  /** Number of bits of the magnitude of x. */
  function Category(x: nat): nat {
    if x == 0 then 0 else 1 + Category(x / 2)
  }

  /** The bits that tell x among the numbers of its category. */
  function Magnitude(x: int, n: nat): int {
    if x < 0 then x + Pow2(n) - 1 else x
  }

  function Extend(m: nat, n: nat): int {
    if n > 0 && m < Pow2(n - 1) then m - Pow2(n) + 1 else m
  }

  lemma {:induction false} CategoryBounds(x: nat)
    requires x > 0
    ensures Category(x) > 0 && Pow2(Category(x) - 1) <= x < Pow2(Category(x))
  {
    if x / 2 == 0 {
    } else {
      CategoryBounds(x / 2);
    }
  }

  lemma {:induction false} CategoryAtMost(x: nat, n: nat)
    requires x < Pow2(n)
    ensures Category(x) <= n
  {
    if x == 0 {
    } else {
      CategoryAtMost(x / 2, n - 1);
    }
  }

  lemma ExtendMagnitude(x: int)
    requires x != 0
    ensures var n := Category(Abs(x)); 0 <= Magnitude(x, n) < Pow2(n) && Extend(Magnitude(x, n), n) == x
  {
    CategoryBounds(Abs(x));
  }

  /** The n bits stand, in increasing order, for all numbers of category n, those with the top bit clear for
      the negative ones (tables F.1 and F.2). */
  lemma ExtendInOrder(m: nat, n: nat)
    requires n > 0 && m < Pow2(n)
    ensures Category(Abs(Extend(m, n))) == n && (Extend(m, n) > 0 <==> m >= Pow2(n - 1))
    ensures m > 0 ==> Extend(m - 1, n) < Extend(m, n)
  {
    var x := Abs(Extend(m, n));
    CategoryBounds(x);
    if Category(x) < n {
      Pow2Mono(Category(x), n - 1);
    } else if Category(x) > n {
      Pow2Mono(n, Category(x) - 1);
    }
  }
}
