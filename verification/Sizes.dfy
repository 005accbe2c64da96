/** The checks on products of image sizes, before memory is asked for. */
module Sizes {
  import opened Bits
  import opened ImageRows

  const MAX_DIMENSIONS := 0x100_0000

  predicate Mul2Valid(a: int, b: int) {
    a >= 0 && b >= 0 && (b == 0 || a <= INT_MAX / b)
  }

  predicate Mad3Valid(a: int, b: int, c: int) {
    Mul2Valid(a, b) && Mul2Valid(a * b, c)
  }

  predicate Mad4Valid(a: int, b: int, c: int, d: int) {
    Mul2Valid(a, b) && Mul2Valid(a * b, c) && Mul2Valid(a * b * c, d)
  }

  lemma ProductValid(a: nat, b: nat)
    ensures Mul2Valid(a, b) <==> a * b <= INT_MAX
  {
    if b > 0 {
      var q := INT_MAX / b;
      assert q * b <= INT_MAX < (q + 1) * b;
      if a <= q {
        MulNotLess(a, q, b);
      } else {
        MulNotLess(q + 1, a, b);
      }
    }
  }

  /** The checks hold exactly when no size is negative and the product is an int. */
  lemma Mad3Exact(a: int, b: int, c: nat)
    requires c > 0
    ensures Mad3Valid(a, b, c) <==> a >= 0 && b >= 0 && a * b * c <= 0x7FFF_FFFF
  {
    hide Mul2Valid;
    SignsValid(a, b);
    if a >= 0 && b >= 0 {
      ProductValid(a, b);
      ProductValid(a * b, c);
      MulNotLess(1, c, a * b);
    }
  }

  lemma SignsValid(a: int, b: int)
    ensures Mul2Valid(a, b) ==> a >= 0 && b >= 0
  {
  }

  lemma Mad4Exact(a: int, b: int, c: nat, d: nat)
    requires c > 0 && d > 0
    ensures Mad4Valid(a, b, c, d) <==> a >= 0 && b >= 0 && a * b * c * d <= 0x7FFF_FFFF
  {
    hide Mul2Valid;
    Mad3Exact(a, b, c);
    if a >= 0 && b >= 0 {
      ProductValid(a * b * c, d);
      MulNotLess(1, d, a * b * c);
    }
  }
}
