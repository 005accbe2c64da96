/** The JPEG reader's Huffman tables: code sizes and words in order, bounds for each length, and a table
    of symbols for the codes of up to nine bits. */
module JpegHuffman {
  import opened Bits
  import opened Canonical
  import opened JpegFormat

  const FAST_BITS: nat := 9

  // ----- codes in order

  function SizeFrom(c: Counts, k: nat, s: nat): (r: nat)
    requires 1 <= s <= 17
    ensures s <= r <= 17
    decreases 17 - s
  {
    if s == 17 || k < FirstIndex(c, s + 1) then s else SizeFrom(c, k, s + 1)
  }

  /** The length of the code with index k. */
  function SizeAt(c: Counts, k: nat): (s: nat)
    ensures 1 <= s <= 17
  {
    SizeFrom(c, k, 1)
  }

  lemma {:induction false} IndexMono(c: Counts, s: nat, t: nat)
    requires 1 <= s <= t <= 17
    ensures FirstIndex(c, s) <= FirstIndex(c, t)
  {
    if s < t {
      FirstIndexMono(c, s, t);
    }
  }

  lemma {:induction false} SizeLeast(c: Counts, k: nat, s: nat, t: nat)
    requires 1 <= s <= t <= 16
    ensures SizeFrom(c, k, s) <= t <==> k < FirstIndex(c, t + 1)
    decreases t - s
  {
    if s >= t {
    } else {
      if k < FirstIndex(c, s + 1) {
        IndexMono(c, s + 1, t + 1);
      } else {
        SizeLeast(c, k, s + 1, t);
      }
    }
  }

  lemma SizeIs(c: Counts, k: nat, s: nat)
    requires 1 <= s <= 16
    ensures SizeAt(c, k) == s <==> FirstIndex(c, s) <= k < FirstIndex(c, s) + c[s]
  {
    SizeLeast(c, k, 1, s);
    if s > 1 {
      SizeLeast(c, k, 1, s - 1);
    }
  }

  lemma SizeInRange(c: Counts, k: nat)
    requires k < FirstIndex(c, 17)
    ensures SizeAt(c, k) <= 16
  {
    SizeLeast(c, k, 1, 16);
  }

  function CodeAt(c: Counts, k: nat): int
    requires k < FirstIndex(c, 17)
  {
    SizeInRange(c, k);
    FirstCode(c, SizeAt(c, k)) + k - FirstIndex(c, SizeAt(c, k))
  }

  /** Sizes and code words agree with the code. */
  lemma CodeAtIsCode(c: Counts, k: nat)
    requires k < FirstIndex(c, 17)
    ensures 1 <= SizeAt(c, k) <= 16 && CodeAt(c, k) >= 0 && IsCode(c, k, CodeAt(c, k), SizeAt(c, k))
  {
    SizeInRange(c, k);
    SizeIs(c, k, SizeAt(c, k));
  }

  lemma CodeAtFits(c: Counts, k: nat)
    requires k < FirstIndex(c, 17) && Fits(c, 16)
    ensures SizeAt(c, k) <= 16 && 0 <= CodeAt(c, k) < Pow2(SizeAt(c, k))
  {
    CodeAtIsCode(c, k);
  }

  /** Code k, of at most nine bits, leads the nine-bit window w. */
  ghost predicate LeadsFast(c: Counts, w: nat, k: nat) {
    k < FirstIndex(c, 17) && SizeAt(c, k) <= FAST_BITS && Drop(w, FAST_BITS - SizeAt(c, k)) == CodeAt(c, k)
  }

  /** A code that leads the window of a stream is the code that is read. */
  lemma LeadsIsRead(c: Counts, v: nat, k: nat)
    requires k < FirstIndex(c, 17)
    ensures LeadsFast(c, Rev(v, FAST_BITS), k) <==>
      SizeAt(c, k) <= FAST_BITS && CodeLength(c, v) == SizeAt(c, k) && CodeIndex(c, v) == k
  {
    CodeAtIsCode(c, k);
    if SizeAt(c, k) <= FAST_BITS {
      RevTop(v, SizeAt(c, k), FAST_BITS);
      LengthIsCode(c, v, SizeAt(c, k));
    }
  }

  /** The code that is read leads the window, if it is short enough. */
  lemma ReadLeads(c: Counts, v: nat)
    requires CodeLength(c, v) <= FAST_BITS
    ensures LeadsFast(c, Rev(v, FAST_BITS), CodeIndex(c, v)) && SizeAt(c, CodeIndex(c, v)) == CodeLength(c, v)
  {
    var k, s := CodeIndex(c, v), CodeLength(c, v);
    LengthIsCode(c, v, s);
    SizeIs(c, k, s);
    LeadsIsRead(c, v, k);
  }

  // ----- the tables

  ghost predicate SizeEntry(c: Counts, size: seq<byte>, k: nat) {
    k < |size| && size[k] == SizeAt(c, k)
  }

  ghost predicate CodeEntry(c: Counts, code: seq<nat>, k: nat) {
    k < |code| && k < FirstIndex(c, 17) && code[k] == CodeAt(c, k)
  }

  ghost predicate BoundEntry(c: Counts, maxcode: seq<nat>, delta: seq<int>, s: nat)
    requires 1 <= s <= 16
  {
    s < |maxcode| && s < |delta| && maxcode[s] == MaxCode(c, s) && delta[s] == FirstIndex(c, s) - FirstCode(c, s)
  }

  /** The fast table names a code that leads the window, unless there is none among the first n. */
  ghost predicate FastEntry(c: Counts, fast: seq<byte>, n: nat, w: nat) {
    && w < |fast|
    && (fast[w] < 255 ==> LeadsFast(c, w, fast[w]))
    && (fast[w] == 255 ==> forall k :: 0 <= k < n && k != 255 ==> !LeadsFast(c, w, k))
  }

  ghost predicate FastTable(c: Counts, fast: seq<byte>, n: nat) {
    |fast| == 512 && forall w :: 0 <= w < 512 ==> FastEntry(c, fast, n, w)
  }

  ghost predicate SizeTable(c: Counts, size: seq<byte>, n: nat) {
    forall k :: 0 <= k < n ==> SizeEntry(c, size, k)
  }

  ghost predicate CodeTable(c: Counts, code: seq<nat>, n: nat) {
    forall k :: 0 <= k < n ==> CodeEntry(c, code, k)
  }

  ghost predicate BoundTable(c: Counts, maxcode: seq<nat>, delta: seq<int>, n: nat)
    requires n <= 17
  {
    forall s :: 1 <= s < n ==> BoundEntry(c, maxcode, delta, s)
  }

  class Huffman {
    const fast: array<byte>
    const code: array<nat>
    const values: array<byte>
    const size: array<byte>
    const maxcode: array<nat>
    const delta: array<int>

    constructor ()
      ensures Shape() && fresh(Arrays())
    {
      fast := new byte[512](_ => 0);
      code := new nat[256](_ => 0);
      values := new byte[256](_ => 0);
      size := new byte[257](_ => 0);
      maxcode := new nat[18](_ => 0);
      delta := new int[17](_ => 0);
    }

    ghost function Arrays(): set<object> {
      {fast as object, code as object, values as object, size as object, maxcode as object, delta as object}
    }

    ghost predicate Shape() {
      && fast.Length == 512 && code.Length == 256 && values.Length == 256 && size.Length == 257
      && maxcode.Length == 18 && delta.Length == 17
      && fast != values && fast != size && values != size && code != maxcode
    }

    /** The tables, without the values, are those of the counts. */
    ghost predicate Built(c: Counts)
      reads Arrays()
    {
      && Shape() && Fits(c, 16) && FirstIndex(c, 17) <= 256
      && SizeTable(c, size[..], FirstIndex(c, 17)) && CodeTable(c, code[..], FirstIndex(c, 17))
      && BoundTable(c, maxcode[..], delta[..], 17) && maxcode[17] == 0xFFFF_FFFF
      && FastTable(c, fast[..], FirstIndex(c, 17))
    }

    /** The tables are those of the code. */
    ghost predicate Holds(t: HuffTable)
      reads Arrays()
    {
      Built(t.counts) && |t.values| == 256 && values[..] == t.values
    }

    /** They are, and every code can be read. */
    ghost predicate Represents(t: HuffTable)
      reads Arrays()
    {
      Holds(t) && t.Usable()
    }

    /** Builds the tables from the number of codes of each length, or reports that there are more than
        256 or that they do not fit. */
    method BuildHuffman(count: seq<nat>) returns (ok: bool)
      requires Shape() && |count| == 16
      modifies fast, code, size, maxcode, delta
      ensures ok <==> FirstIndex([0] + count, 17) <= 256 && Fits([0] + count, 16)
      ensures ok ==> Built([0] + count)
    {
      ghost var c: Counts := [0] + count;
      var k;
      ok, k := ListSizes(count);
      if !ok {
        return;
      }
      ok := ListCodes(c, k);
      if !ok {
        return;
      }
      FillFast(c, k);
    }

    method ListSizes(count: seq<nat>) returns (ok: bool, n: nat)
      requires Shape() && |count| == 16
      modifies size
      ensures ok <==> FirstIndex([0] + count, 17) <= 256
      ensures ok ==> n == FirstIndex([0] + count, 17) && size[n] == 0 && SizeTable([0] + count, size[..], n)
    {
      ghost var c: Counts := [0] + count;
      n := 0;
      for i := 0 to 16
        invariant n == FirstIndex(c, i + 1) <= 256 && SizeTable(c, size[..], n)
      {
        IndexMono(c, i + 2, 17);
        var j := 0;
        while j < count[i]
          invariant j <= count[i] && n == FirstIndex(c, i + 1) + j <= 256 && SizeTable(c, size[..], n)
        {
          SizeIs(c, n, i + 1);
          SizeMore(c, size[..], n, i + 1);
          size[n] := i + 1;
          n := n + 1;
          j := j + 1;
          if n >= 257 {
            return false, n;
          }
        }
      }
      SizeMore(c, size[..], n, 0);
      size[n] := 0;
      ok := true;
    }

    /** Code words in order, and for each length the end of its codes and the way to the index. */
    method ListCodes(ghost c: Counts, n: nat) returns (ok: bool)
      requires Shape() && n == FirstIndex(c, 17) <= 256 && size[n] == 0 && SizeTable(c, size[..], n)
      modifies code, maxcode, delta
      ensures ok <==> Fits(c, 16)
      ensures ok ==>
        CodeTable(c, code[..], n) && BoundTable(c, maxcode[..], delta[..], 17) && maxcode[17] == 0xFFFF_FFFF
    {
      hide FirstIndex, CodeTable, SizeTable, BoundTable, Fits, Pow2;
      var word, k := 0, 0;
      NothingListed(c, code[..], maxcode[..], delta[..]);
      for j := 1 to 17
        invariant k == FirstIndex(c, j) && word == (if j == 1 then 0 else 2 * EndCode(c, j - 1))
        invariant Fits(c, j - 1) && CodeTable(c, code[..], k) && BoundTable(c, maxcode[..], delta[..], j)
      {
        ghost var d := delta[..];
        delta[j] := k - word;
        IndexMono(c, j + 1, 17);
        ok, word, k := ListLength(c, n, j, word, k);
        if !ok {
          return;
        }
        DelayedBounds(c, maxcode[..], d, delta[..], j);
        ghost var m := maxcode[..];
        maxcode[j] := word * Pow2(16 - j);
        BoundMore(c, m, maxcode[..], delta[..], j);
        word := 2 * word;
      }
      ghost var m := maxcode[..];
      maxcode[17] := 0xFFFF_FFFF;
      BoundMore(c, m, maxcode[..], delta[..], 17);
      ok := true;
    }

    /** The code words of length j. */
    method ListLength(ghost c: Counts, n: nat, j: nat, word0: nat, k0: nat) returns (ok: bool, word: nat, k: nat)
      requires Shape() && 1 <= j <= 16 && n == FirstIndex(c, 17) <= 256 && size[n] == 0 && SizeTable(c, size[..], n)
      requires k0 == FirstIndex(c, j) && FirstIndex(c, j + 1) <= n && word0 == FirstCode(c, j)
      requires Fits(c, j - 1) && CodeTable(c, code[..], k0)
      modifies code
      ensures ok <==> Fits(c, j)
      ensures !ok ==> !Fits(c, 16)
      ensures ok ==> word == EndCode(c, j) && k == FirstIndex(c, j + 1) && CodeTable(c, code[..], k)
    {
      hide FirstIndex, FirstCode, CodeTable, SizeTable, Fits, Pow2;
      word, k := word0, k0;
      NextIndex(c, j);
      SizeNext(c, size[..], n, k, j);
      if size[k] == j {
        while size[k] == j
          invariant FirstIndex(c, j) <= k <= FirstIndex(c, j + 1) && word == FirstCode(c, j) + (k - FirstIndex(c, j))
          invariant size[k] == j <==> k < FirstIndex(c, j + 1)
          invariant CodeTable(c, code[..], k) || Pow2(16) < word
          decreases FirstIndex(c, j + 1) - k
        {
          CodeMore(c, code[..], k, j, word);
          code[k] := word % 0x1_0000;
          k, word := k + 1, word + 1;
          SizeNext(c, size[..], n, k, j);
        }
        FitsMore(c, j);
        if word - 1 >= Shl(1, j) {
          return false, word, k;
        }
      } else {
        FitsMore(c, j);
      }
      ok := true;
    }

    method FillFast(ghost c: Counts, n: nat)
      requires Shape() && n == FirstIndex(c, 17) <= 256 && Fits(c, 16)
      requires SizeTable(c, size[..], n) && CodeTable(c, code[..], n)
      modifies fast
      ensures FastTable(c, fast[..], n)
    {
      for w := 0 to 512
        invariant forall i :: 0 <= i < w ==> fast[i] == 255
      {
        fast[w] := 255;
      }
      for i := 0 to n
        invariant FastTable(c, fast[..], i)
      {
        assert SizeEntry(c, size[..], i) && CodeEntry(c, code[..], i);
        CodeAtFits(c, i);
        var s := size[i] as nat;
        if s <= FAST_BITS {
          FillEntries(c, i, code[i], s);
        } else {
          NotFast(c, fast[..], i);
        }
      }
    }

    /** Names code i in the entries it leads. */
    method FillEntries(ghost c: Counts, i: nat, word: nat, s: nat)
      requires Shape() && i < FirstIndex(c, 17) && i < 256 && 1 <= s == SizeAt(c, i) <= FAST_BITS
      requires word == CodeAt(c, i) < Pow2(s)
      requires FastTable(c, fast[..], i)
      modifies fast
      ensures FastTable(c, fast[..], i + 1)
    {
      var e := FAST_BITS - s;
      var first, m := Shl(word, e), Shl(1, e);
      ghost var before := fast[..];
      EntriesOf(word, s);
      for j := 0 to m
        invariant forall w :: 0 <= w < 512 ==> fast[w] == if first <= w < first + j then i else before[w]
      {
        fast[first + j] := i;
      }
      FastMore(c, before, fast[..], i, first, m);
    }
  }

  lemma NothingListed(c: Counts, code: seq<nat>, maxcode: seq<nat>, delta: seq<int>)
    ensures FirstIndex(c, 1) == 0 && Fits(c, 0) && CodeTable(c, code, 0) && BoundTable(c, maxcode, delta, 1)
  {
  }

  lemma NextIndex(c: Counts, j: nat)
    requires 1 <= j <= 16
    ensures FirstIndex(c, j + 1) == FirstIndex(c, j) + c[j]
  {
  }

  lemma FitsMore(c: Counts, j: nat)
    requires 1 <= j <= 16 && Fits(c, j - 1)
    ensures Fits(c, j) <==> EndCode(c, j) <= Shl(1, j)
    ensures c[j] == 0 ==> Fits(c, j)
    ensures !Fits(c, j) ==> !Fits(c, 16)
    ensures Shl(1, j) <= Pow2(16)
  {
    hide Shl, Pow2, Fits, FirstCode, EndCode;
    ShlIsMul(1, j);
    Pow2Mono(j, 16);
    FitsLast(c, j);
    NoneFit(c, j);
    if Fits(c, 16) {
      FitsFewer(c, j, 16);
    }
  }

  lemma FitsLast(c: Counts, j: nat)
    requires 1 <= j <= 16 && Fits(c, j - 1)
    ensures Fits(c, j) <==> EndCode(c, j) <= Pow2(j)
  {
    hide Pow2, EndCode;
  }

  /** A length without codes always fits. */
  lemma NoneFit(c: Counts, j: nat)
    requires 1 <= j <= 16 && Fits(c, j - 1)
    ensures c[j] == 0 ==> EndCode(c, j) <= Pow2(j)
  {
    if j > 1 {
      assert EndCode(c, j - 1) <= Pow2(j - 1);
    }
  }

  lemma FitsFewer(c: Counts, j: nat, k: nat)
    requires j <= k <= 16 && Fits(c, k)
    ensures Fits(c, j)
  {
  }

  lemma SizeMore(c: Counts, size: seq<byte>, n: nat, b: byte)
    requires SizeTable(c, size, n) && n < |size|
    ensures SizeTable(c, size[n := b], n)
    ensures SizeAt(c, n) == b ==> SizeTable(c, size[n := b], n + 1)
  {
    var next := size[n := b];
    forall k: nat | k < n
      ensures SizeEntry(c, next, k)
    {
      assert SizeEntry(c, size, k);
    }
  }

  /** A code longer than nine bits leads no nine-bit window. */
  lemma NotFast(c: Counts, fast: seq<byte>, n: nat)
    requires FastTable(c, fast, n) && SizeAt(c, n) > FAST_BITS
    ensures FastTable(c, fast, n + 1)
  {
    var m := n + 1;
    forall w: nat | w < 512
      ensures FastEntry(c, fast, m, w)
    {
      assert FastEntry(c, fast, n, w);
    }
  }

  /** The windows that begin with a code word are consecutive. */
  lemma EntriesOf(word: nat, s: nat)
    requires 1 <= s <= FAST_BITS && word < Pow2(s)
    ensures var e := FAST_BITS - s;
      && Shl(word, e) + Shl(1, e) <= 512
      && forall w: nat :: Drop(w, e) == word <==> Shl(word, e) <= w < Shl(word, e) + Shl(1, e)
  {
    hide Drop, Shl, Pow2;
    var e := FAST_BITS - s;
    ShlBound(word, s, e);
    ShlIsMul(1, e);
    NineBits();
    forall w: nat
      ensures Drop(w, e) == word <==> Shl(word, e) <= w < Shl(word, e) + Shl(1, e)
    {
      TakeBound(w, e);
      Parts(w, e);
      if Drop(w, e) < word {
        ShlStrict(Drop(w, e), word, e);
      } else if word < Drop(w, e) {
        ShlStrict(word, Drop(w, e), e);
      }
    }
  }

  lemma NineBits()
    ensures Pow2(9) == 512
  {
  }

  lemma Parts(w: nat, e: nat)
    ensures w == Take(w, e) + Shl(Drop(w, e), e)
  {
    TakeDropIsModDiv(w, e);
    ShlIsMul(Drop(w, e), e);
  }

  lemma {:induction false} ShlStrict(a: nat, b: nat, e: nat)
    requires a < b
    ensures Shl(a, e) + Shl(1, e) <= Shl(b, e)
  {
    if e == 0 {
    } else {
      ShlStrict(a, b, e - 1);
    }
  }

  /** At most one code leads a window. */
  lemma LeadsOnce(c: Counts, w: nat, i: nat, k: nat)
    requires w < 512 && LeadsFast(c, w, i) && LeadsFast(c, w, k)
    ensures i == k
  {
    NineBits();
    RevRev(w, 9);
    LeadsIsRead(c, Rev(w, 9), i);
    LeadsIsRead(c, Rev(w, 9), k);
  }

  lemma FastMore(c: Counts, before: seq<byte>, fast: seq<byte>, i: nat, first: nat, m: nat)
    requires FastTable(c, before, i) && |fast| == 512 && i < 256 && i < FirstIndex(c, 17) && SizeAt(c, i) <= FAST_BITS
    requires var e := FAST_BITS - SizeAt(c, i); forall w: nat :: Drop(w, e) == CodeAt(c, i) <==> first <= w < first + m
    requires forall w :: 0 <= w < 512 ==> fast[w] == if first <= w < first + m then i else before[w]
    ensures FastTable(c, fast, i + 1)
  {
    var n, e := i + 1, FAST_BITS - SizeAt(c, i);
    forall w: nat | w < 512
      ensures FastEntry(c, fast, n, w)
    {
      assert FastEntry(c, before, i, w);
      assert LeadsFast(c, w, i) <==> Drop(w, e) == CodeAt(c, i);
      if fast[w] == 255 {
        forall k: nat | k < n && k != 255
          ensures !LeadsFast(c, w, k)
        {
          if LeadsFast(c, w, i) && LeadsFast(c, w, k) {
            LeadsOnce(c, w, i, k);
          }
        }
      }
    }
  }

  /** The index 255 is the mark for "not in the fast table": a short code with that index is lost. */
  lemma LastCodeLost(c: Counts, fast: seq<byte>, w: nat)
    requires FastTable(c, fast, FirstIndex(c, 17)) && w < 512 && LeadsFast(c, w, 255)
    ensures fast[w] == 255
  {
    assert FastEntry(c, fast, FirstIndex(c, 17), w);
    if fast[w] < 255 {
      LeadsOnce(c, w, fast[w], 255);
    }
  }

  /** After the codes of length j comes a longer one or the end. */
  lemma SizeNext(c: Counts, size: seq<byte>, n: nat, k: nat, j: nat)
    requires 1 <= j <= 16 && n == FirstIndex(c, 17) < |size| && size[n] == 0 && SizeTable(c, size, n)
    requires FirstIndex(c, j) <= k <= FirstIndex(c, j + 1) <= n
    ensures size[k] == j <==> k < FirstIndex(c, j + 1)
  {
    SizeIs(c, k, j);
    if k < n {
      assert SizeEntry(c, size, k);
    }
  }

  lemma CodeMore(c: Counts, code: seq<nat>, k: nat, j: nat, word: nat)
    requires 1 <= j <= 16 && FirstIndex(c, j) <= k < FirstIndex(c, j + 1) <= FirstIndex(c, 17) && k < |code|
    requires word == FirstCode(c, j) + (k - FirstIndex(c, j)) && (CodeTable(c, code, k) || Pow2(16) < word)
    ensures word < 0x1_0000 ==> CodeTable(c, code[k := word], k + 1)
    ensures word >= 0x1_0000 ==> Pow2(16) < word + 1
  {
    assert Pow2(16) == 0x1_0000 by { Pow2Byte(8); assert Pow2(8) == 256; }
    if word < 0x1_0000 {
      SizeIs(c, k, j);
      var next := code[k := word];
      forall i: nat | i < k + 1
        ensures CodeEntry(c, next, i)
      {
        if i < k {
          assert CodeEntry(c, code, i);
        }
      }
    }
  }

  lemma DelayedBounds(c: Counts, maxcode: seq<nat>, d: seq<int>, delta: seq<int>, j: nat)
    requires 1 <= j <= 16 && BoundTable(c, maxcode, d, j) && |delta| == |d| == 17
    requires forall i :: 0 <= i < 17 && i != j ==> delta[i] == d[i]
    ensures BoundTable(c, maxcode, delta, j)
  {
    forall s | 1 <= s < j
      ensures BoundEntry(c, maxcode, delta, s)
    {
      assert BoundEntry(c, maxcode, d, s);
    }
  }

  lemma BoundMore(c: Counts, m: seq<nat>, maxcode: seq<nat>, delta: seq<int>, j: nat)
    requires 1 <= j <= 17 && BoundTable(c, m, delta, j) && |m| == |maxcode| == 18 && |delta| == 17
    requires forall i :: 0 <= i < 18 && i != j ==> maxcode[i] == m[i]
    ensures BoundTable(c, maxcode, delta, j)
    ensures j <= 16 && maxcode[j] == MaxCode(c, j) && delta[j] == FirstIndex(c, j) - FirstCode(c, j)
      ==> BoundTable(c, maxcode, delta, j + 1)
  {
    forall s | 1 <= s < j
      ensures BoundEntry(c, maxcode, delta, s)
    {
      assert BoundEntry(c, m, delta, s);
    }
  }
}
