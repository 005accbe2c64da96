/** The Adler-32 checksum of section 8.2 of RFC 1950, and the writer's loop that reduces only once per
    block of 5552 bytes. */
module Adler {
  import opened Bits

  const BASE := 65521
  const NMAX := 5552

  /** The two sums over the first n bytes, reduced after every byte. */
  function S1(data: seq<byte>, n: nat): (s: nat)
    requires n <= |data|
    ensures s < BASE
  {
    if n == 0 then 1 else (S1(data, n - 1) + data[n - 1]) % BASE
  }

  function S2(data: seq<byte>, n: nat): (s: nat)
    requires n <= |data|
    ensures s < BASE
  {
    if n == 0 then 0 else (S2(data, n - 1) + S1(data, n)) % BASE
  }

  /** The checksum bytes, most significant first. */
  function Trailer(data: seq<byte>): seq<byte> {
    var a, b := S1(data, |data|), S2(data, |data|);
    [b / 256, b % 256, a / 256, a % 256]
  }

  lemma S1Step(data: seq<byte>, k: nat, x: nat)
    requires k < |data| && x % BASE == S1(data, k)
    ensures (x + data[k]) % BASE == S1(data, k + 1)
  {
  }

  lemma S2Step(data: seq<byte>, k: nat, x: nat, t: nat)
    requires k < |data| && x % BASE == S2(data, k) && t % BASE == S1(data, k + 1)
    ensures (x + t) % BASE == S2(data, k + 1)
  {
    var y, z := x % BASE, t % BASE;
    DropMultiple(x / BASE + t / BASE, y + z);
    assert x + t == BASE * (x / BASE + t / BASE) + (y + z);
  }

  lemma DropMultiple(q: nat, m: nat)
    ensures (BASE * q + m) % BASE == m % BASE
  {
  }

  // ----- what the sums are

  /** The first n bytes added up. */
  function Total(data: seq<byte>, n: nat): nat
    requires n <= |data|
  {
    if n == 0 then 0 else Total(data, n - 1) + data[n - 1]
  }

  /** The first n bytes added up, each as often as there are bytes from it to the m-th. */
  function Weighted(data: seq<byte>, m: nat, n: nat): nat
    requires n <= |data| && n <= m
  {
    if n == 0 then 0 else Weighted(data, m, n - 1) + (m - (n - 1)) * data[n - 1]
  }

  /** With one byte more, every byte before it counts once more. */
  lemma {:induction false} OneMore(data: seq<byte>, m: nat, n: nat)
    requires n <= |data| && n <= m
    ensures Weighted(data, m + 1, n) == Weighted(data, m, n) + Total(data, n)
  {
    if n == 0 {
    } else {
      OneMore(data, m, n - 1);
      var b := data[n - 1] as nat;
      assert (m + 1 - (n - 1)) * b == (m - (n - 1)) * b + b;
    }
  }

  /** The sums without any reduction on the way. */
  lemma {:induction false} Sums(data: seq<byte>, n: nat)
    requires n <= |data|
    ensures S1(data, n) == (1 + Total(data, n)) % 65521
    ensures S2(data, n) == (n + Weighted(data, n, n)) % 65521
  {
    if n == 0 {
    } else {
      var m := n - 1;
      Sums(data, m);
      S1Step(data, m, 1 + Total(data, m));
      S2Step(data, m, m + Weighted(data, m, m), 1 + Total(data, n));
      OneMore(data, m, m);
    }
  }

  /** The checksum as a number. */
  function Checksum(data: seq<byte>): nat {
    65536 * ((|data| + Weighted(data, |data|, |data|)) % 65521) + (1 + Total(data, |data|)) % 65521
  }

  /** Its four bytes, most significant first. */
  lemma TrailerIsChecksum(data: seq<byte>)
    ensures var t := Trailer(data);
      |t| == 4 && 0x100_0000 * (t[0] as int) + 0x1_0000 * (t[1] as int) + 0x100 * (t[2] as int) + t[3] == Checksum(data)
  {
    Sums(data, |data|);
  }

  // ----- the loop

  function Triangle(n: nat): nat {
    if n == 0 then 0 else n + Triangle(n - 1)
  }

  lemma {:induction false} TriangleValue(n: nat)
    ensures 2 * Triangle(n) == n * (n + 1)
  {
    if n == 0 {
    } else {
      TriangleValue(n - 1);
      assert n * (n + 1) == (n - 1) * n + 2 * n;
    }
  }

  lemma {:induction false} TriangleMono(m: nat, n: nat)
    requires m <= n
    ensures Triangle(m) <= Triangle(n)
  {
    if m >= n {
    } else {
      TriangleMono(m, n - 1);
    }
  }

  /** The sums of a block stay below 2^32: this is what fixes the block length. */
  lemma SumsFit(i: nat)
    requires i <= NMAX
    ensures 65520 + 255 * i < 0x1_0000_0000
    ensures 65520 + 65520 * i + 255 * Triangle(i) < 0x1_0000_0000
  {
    TriangleMono(i, NMAX);
    TriangleValue(NMAX);
  }

  /** One block of at most 5552 bytes, starting from reduced sums. */
  method SumBlock(data: seq<byte>, j: nat, blocklen: nat, a: uint32, b: uint32) returns (s1: uint32, s2: uint32)
    requires blocklen <= NMAX && j + blocklen <= |data|
    requires a == S1(data, j) && b == S2(data, j)
    ensures s1 % BASE == S1(data, j + blocklen) && s2 % BASE == S2(data, j + blocklen)
  {
    hide S1, S2;
    s1, s2 := a, b;
    for i := 0 to blocklen
      invariant s1 <= 65520 + 255 * i
      invariant s2 <= 65520 + 65520 * i + 255 * Triangle(i)
      invariant s1 % BASE == S1(data, j + i) && s2 % BASE == S2(data, j + i)
    {
      SumsFit(i + 1);
      S1Step(data, j + i, s1);
      S2Step(data, j + i, s2, s1 + data[j + i]);
      s1 := s1 + data[j + i];
      s2 := s2 + s1;
    }
  }

  /** The writer's checksum loop: the first block takes the remainder, and may be empty. */
  method Adler32(data: seq<byte>) returns (s1: uint32, s2: uint32)
    ensures s1 == S1(data, |data|) == (1 + Total(data, |data|)) % 65521
    ensures s2 == S2(data, |data|) == (|data| + Weighted(data, |data|, |data|)) % 65521
  {
    Sums(data, |data|);
    s1, s2 := 1, 0;
    var blocklen: nat := |data| % NMAX;
    var j := 0;
    ghost var blocks := |data| / NMAX;
    while j < |data|
      invariant |data| - j == blocklen + NMAX * blocks || (j == |data| && blocklen == NMAX)
      invariant blocklen <= NMAX && j <= |data|
      invariant s1 == S1(data, j) && s2 == S2(data, j)
      decreases |data| - j, NMAX - blocklen
    {
      s1, s2 := SumBlock(data, j, blocklen, s1, s2);
      s1, s2 := s1 % BASE, s2 % BASE;
      j := j + blocklen;
      blocklen := NMAX;
      blocks := if blocks > 0 then blocks - 1 else 0;
    }
  }
}
