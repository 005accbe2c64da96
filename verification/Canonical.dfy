/** Canonical prefix codes described by the number of codes of each length, as in section 3.2.2 of
    RFC 1951 and Annex C of ITU-T T.81.  Both decoders search a 16-bit window, most significant bit
    first, with the codes of each length in one interval. */
module Canonical {
  import opened Bits

  /** Number of codes for each length 0..16; entry 0 is unused. */
  type Counts = c: seq<nat> | |c| == 17 witness seq(17, i => 0)

  /** The first code of length s, as an s-bit number. */
  function FirstCode(c: Counts, s: nat): nat
    requires 1 <= s <= 16
  {
    if s == 1 then 0 else 2 * (FirstCode(c, s - 1) + c[s - 1])
  }

  /** One more than the last code of length s. */
  function EndCode(c: Counts, s: nat): nat
    requires 1 <= s <= 16
  {
    FirstCode(c, s) + c[s]
  }

  /** An s-bit number moved to the top of a 16-bit window. */
  function AlignTop(code: nat, s: nat): nat
    requires s <= 16
  {
    code * Pow2(16 - s)
  }

  /** EndCode moved to the top of a 16-bit window. */
  function MaxCode(c: Counts, s: nat): nat
    requires s <= 16
  {
    if s == 0 then 0 else AlignTop(EndCode(c, s), s)
  }

  /** Number of codes shorter than s. */
  function FirstIndex(c: Counts, s: nat): nat
    requires 1 <= s <= 17
  {
    if s == 1 then 0 else FirstIndex(c, s - 1) + c[s - 1]
  }

  /** No length has more codes than fit below the shorter ones. */
  ghost predicate Fits(c: Counts, maxLen: nat)
    requires maxLen <= 16
  {
    forall s :: 1 <= s <= maxLen ==> EndCode(c, s) <= Pow2(s)
  }

  /** The leading s bits of the window are one of the codes of length s. */
  ghost predicate HasCode(c: Counts, s: nat, window: nat)
    requires 1 <= s <= 16
  {
    FirstCode(c, s) <= window / Pow2(16 - s) < EndCode(c, s)
  }

  lemma DivBetween(k: nat, d: nat, lo: nat, hi: nat)
    requires d > 0
    ensures lo <= k / d < hi <==> lo * d <= k < hi * d
  {
    var q, r := k / d, k % d;
    assert k == q * d + r;
    if lo <= q { MulLe(lo, q, d); } else { MulLe(q + 1, lo, d); assert (q + 1) * d == q * d + d; }
    if q < hi { MulLe(q + 1, hi, d); assert (q + 1) * d == q * d + d; } else { MulLe(hi, q, d); }
  }

  lemma Double(e: nat, p: nat)
    ensures (2 * e) * p == e * (2 * p)
  {
  }

  lemma MaxCodeStep(c: Counts, s: nat)
    requires 1 <= s <= 16
    ensures FirstCode(c, s) * Pow2(16 - s) == MaxCode(c, s - 1)
  {
    if s > 1 {
      Double(EndCode(c, s - 1), Pow2(16 - s));
    }
  }

  /** Codes of length s occupy exactly the windows between consecutive bounds. */
  lemma HasCodeInterval(c: Counts, s: nat, window: nat)
    requires 1 <= s <= 16
    ensures HasCode(c, s, window) <==> MaxCode(c, s - 1) <= window < MaxCode(c, s)
  {
    MaxCodeStep(c, s);
    DivBetween(window, Pow2(16 - s), FirstCode(c, s), EndCode(c, s));
  }

  lemma {:induction false} MaxCodeMono(c: Counts, s: nat, t: nat)
    requires s <= t <= 16
    ensures MaxCode(c, s) <= MaxCode(c, t)
  {
    if s >= t {
    } else {
      MaxCodeMono(c, s, t - 1);
      MaxCodeStep(c, t);
      MulLe(FirstCode(c, t), EndCode(c, t), Pow2(16 - t));
    }
  }

  /** A window lies below the bound of length t exactly when a code of length at most t leads it. */
  lemma {:induction false} Coverage(c: Counts, t: nat, window: nat)
    requires t <= 16
    ensures window < MaxCode(c, t) <==> exists s :: 1 <= s <= t && HasCode(c, s, window)
  {
    if t == 0 {
    } else {
      Coverage(c, t - 1, window);
      HasCodeInterval(c, t, window);
      MaxCodeMono(c, t - 1, t);
    }
  }

  /** Prefix-freeness: at most one code length leads a window. */
  lemma PrefixFree(c: Counts, s: nat, t: nat, window: nat)
    requires 1 <= s <= 16 && 1 <= t <= 16
    requires HasCode(c, s, window) && HasCode(c, t, window)
    ensures s == t
  {
    HasCodeInterval(c, s, window);
    HasCodeInterval(c, t, window);
    if s < t {
      MaxCodeMono(c, s, t - 1);
    } else if t < s {
      MaxCodeMono(c, t, s - 1);
    }
  }

  lemma {:induction false} FirstIndexMono(c: Counts, s: nat, t: nat)
    requires 1 <= s < t <= 17
    ensures FirstIndex(c, s) + c[s] <= FirstIndex(c, t)
  {
    if s + 1 >= t {
    } else {
      FirstIndexMono(c, s, t - 1);
    }
  }
}
