/** The inflater's Huffman tables: canonical codes assigned from a list of code lengths, a table for
    codes of up to nine bits, and per-length bounds for the longer ones (section 3.2.2 of RFC 1951). */
module ZHuffman {
  import opened Bits
  import opened Canonical
  import opened BitReverse

  const FAST_BITS := 9
  const NSYMS := 288

  /** Code lengths of an alphabet; length 0 means the symbol has no code. */
  type Lengths = s: seq<nat> | |s| <= NSYMS && forall i :: 0 <= i < |s| ==> s[i] <= 15

  /** How many of the first n symbols have code length s. */
  function Count(lens: Lengths, s: nat, n: nat): nat
    requires n <= |lens|
  {
    if n == 0 then 0 else Count(lens, s, n - 1) + if lens[n - 1] == s then 1 else 0
  }

  function HistUpTo(lens: Lengths, n: nat): Counts
    requires n <= |lens|
  {
    seq(17, s requires 0 <= s < 17 => if s == 0 then 0 else Count(lens, s, n))
  }

  function Hist(lens: Lengths): Counts {
    HistUpTo(lens, |lens|)
  }

  /** The canonical code of symbol i. */
  function Code(lens: Lengths, i: nat): nat
    requires i < |lens| && lens[i] > 0
  {
    FirstCode(Hist(lens), lens[i]) + Count(lens, lens[i], i)
  }

  /** Rank of symbol i in the order of increasing code. */
  function Slot(lens: Lengths, i: nat): nat
    requires i < |lens| && lens[i] > 0
  {
    FirstIndex(Hist(lens), lens[i]) + Count(lens, lens[i], i)
  }

  /** The next bits of the stream v are the code of symbol i, most significant code bit first. */
  ghost predicate Matches(lens: Lengths, i: int, v: nat) {
    0 <= i < |lens| && lens[i] > 0 && Take(v, lens[i]) == Rev(Code(lens, i), lens[i])
  }

  /** The lengths do not ask for more codes than exist. */
  ghost predicate Acceptable(lens: Lengths) {
    Fits(Hist(lens), 15)
  }

  // ----- counting

  lemma {:induction false} CountMono(lens: Lengths, s: nat, i: nat, j: nat)
    requires i <= j <= |lens|
    ensures Count(lens, s, i) <= Count(lens, s, j)
    ensures i < j && lens[i] == s ==> Count(lens, s, i) < Count(lens, s, j)
    decreases j
  {
    if i >= j {
    } else {
      CountMono(lens, s, i, j - 1);
    }
  }

  lemma {:induction false} SymbolOfRank(lens: Lengths, s: nat, r: nat, n: nat) returns (i: nat)
    requires n <= |lens| && r < Count(lens, s, n)
    ensures i < n && lens[i] == s && Count(lens, s, i) == r
    decreases n
  {
    if lens[n - 1] == s && Count(lens, s, n - 1) == r {
      i := n - 1;
    } else {
      i := SymbolOfRank(lens, s, r, n - 1);
    }
  }

  lemma {:induction false} FirstIndexBump(c: Counts, d: Counts, s: nat, t: nat)
    requires 1 <= s <= 16 && 1 <= t <= 17 && d == c[s := c[s] + 1]
    ensures FirstIndex(d, t) == FirstIndex(c, t) + if s < t then 1 else 0
  {
    if t <= 1 {
    } else {
      FirstIndexBump(c, d, s, t - 1);
    }
  }

  lemma {:induction false} FirstIndexEmpty(lens: Lengths, t: nat)
    requires 1 <= t <= 17
    ensures FirstIndex(HistUpTo(lens, 0), t) == 0
  {
    if t <= 1 {
    } else {
      FirstIndexEmpty(lens, t - 1);
    }
  }

  lemma {:induction false} CodesAtMostSymbols(lens: Lengths, n: nat)
    requires n <= |lens|
    ensures FirstIndex(HistUpTo(lens, n), 17) <= n
  {
    if n == 0 {
      FirstIndexEmpty(lens, 17);
    } else {
      CodesAtMostSymbols(lens, n - 1);
      var s, c, d := lens[n - 1], HistUpTo(lens, n - 1), HistUpTo(lens, n);
      if s == 0 {
        assert c == d;
      } else {
        assert d == c[s := c[s] + 1];
        FirstIndexBump(c, d, s, 17);
      }
    }
  }

  lemma SlotBound(lens: Lengths, i: nat)
    requires i < |lens| && lens[i] > 0
    ensures Slot(lens, i) < |lens|
    ensures Count(lens, lens[i], i) < Hist(lens)[lens[i]]
  {
    var s := lens[i];
    CountMono(lens, s, i, |lens|);
    FirstIndexMono(Hist(lens), s, 17);
    CodesAtMostSymbols(lens, |lens|);
  }

  lemma SlotInjective(lens: Lengths, i: nat, j: nat)
    requires i < |lens| && j < |lens| && lens[i] > 0 && lens[j] > 0
    requires Slot(lens, i) == Slot(lens, j)
    ensures i == j
  {
    SlotBound(lens, i);
    SlotBound(lens, j);
    if lens[i] < lens[j] {
      FirstIndexMono(Hist(lens), lens[i], lens[j]);
    } else if lens[j] < lens[i] {
      FirstIndexMono(Hist(lens), lens[j], lens[i]);
    } else if i < j {
      CountMono(lens, lens[i], i, j);
    } else if j < i {
      CountMono(lens, lens[i], j, i);
    }
  }

  // ----- codes and windows

  lemma CodeBound(lens: Lengths, i: nat)
    requires Acceptable(lens) && i < |lens| && lens[i] > 0
    ensures Code(lens, i) < EndCode(Hist(lens), lens[i]) <= Pow2(lens[i])
  {
    SlotBound(lens, i);
  }

  /** Matching is equality of the code with the leading bits of the reversed window. */
  lemma MatchesWindow(lens: Lengths, i: nat, v: nat)
    requires Acceptable(lens) && i < |lens| && lens[i] > 0
    ensures Matches(lens, i, v) <==> Rev(v, 16) / Pow2(16 - lens[i]) == Code(lens, i)
    ensures Matches(lens, i, v) ==> HasCode(Hist(lens), lens[i], Rev(v, 16))
  {
    var s := lens[i];
    CodeBound(lens, i);
    RevTop(v, s, 16);
    TakeDropIsModDiv(Rev(v, 16), 16 - s);
    RevLow(v, s);
    TakeBound(v, s);
    RevRev(Take(v, s), s);
    RevRev(Code(lens, i), s);
  }

  /** A code word that leads the window belongs to a symbol. */
  lemma WindowSymbol(lens: Lengths, s: nat, v: nat) returns (i: nat)
    requires Acceptable(lens) && 1 <= s <= 15 && HasCode(Hist(lens), s, Rev(v, 16))
    ensures Matches(lens, i, v) && lens[i] == s
    ensures Slot(lens, i) == Rev(v, 16) / Pow2(16 - s) - FirstCode(Hist(lens), s) + FirstIndex(Hist(lens), s)
  {
    i := SymbolOfRank(lens, s, Rev(v, 16) / Pow2(16 - s) - FirstCode(Hist(lens), s), |lens|);
    MatchesWindow(lens, i, v);
  }

  /** At most one symbol's code leads any stream. */
  lemma MatchUnique(lens: Lengths, i: nat, j: nat, v: nat)
    requires Acceptable(lens) && Matches(lens, i, v) && Matches(lens, j, v)
    ensures i == j
  {
    MatchesWindow(lens, i, v);
    MatchesWindow(lens, j, v);
    PrefixFree(Hist(lens), lens[i], lens[j], Rev(v, 16));
    if i < j {
      CountMono(lens, lens[i], i, j);
    } else if j < i {
      CountMono(lens, lens[i], j, i);
    }
  }

  /** Matching a code of at most n bits depends on the low n bits only. */
  lemma MatchesLow(lens: Lengths, i: nat, v: nat, n: nat)
    requires i < |lens| && 0 < lens[i] <= n
    ensures Matches(lens, i, Take(v, n)) <==> Matches(lens, i, v)
  {
    TakeTake(v, lens[i], n);
  }

  // ----- the tables

  /** Entry j of the fast table is right for the first n symbols: the length and number of the one
      whose short code leads j, or zero if there is none. */
  ghost predicate FastEntry(lens: Lengths, n: nat, fast: seq<nat>, j: nat)
    requires n <= |lens| && j < |fast|
  {
    if fast[j] == 0 then
      forall i :: 0 <= i < n && Matches(lens, i, j) ==> lens[i] > FAST_BITS
    else
      var i := fast[j] % 512;
      i < n && Matches(lens, i, j) && fast[j] / 512 == lens[i] <= FAST_BITS
  }

  ghost predicate FastTable(lens: Lengths, n: nat, fast: seq<nat>)
    requires n <= |lens|
  {
    |fast| == 512 && forall j :: 0 <= j < 512 ==> FastEntry(lens, n, fast, j)
  }

  /** Symbol i, if it has a code, is recorded in its slot. */
  ghost predicate SymbolEntry(lens: Lengths, size: seq<nat>, value: seq<nat>, i: nat)
    requires |size| == |value| == NSYMS && i < |lens|
  {
    lens[i] > 0 ==> Slot(lens, i) < NSYMS && size[Slot(lens, i)] == lens[i] && value[Slot(lens, i)] == i
  }

  ghost predicate SymbolTable(lens: Lengths, n: nat, size: seq<nat>, value: seq<nat>)
    requires n <= |lens|
  {
    |size| == |value| == NSYMS && forall i :: 0 <= i < n ==> SymbolEntry(lens, size, value, i)
  }

  ghost predicate BoundEntry(c: Counts, firstcode: seq<nat>, firstsymbol: seq<nat>, maxcode: seq<nat>, s: nat)
    requires 1 <= s <= 16 && s < |firstcode| && s < |firstsymbol| && s < |maxcode|
  {
    firstcode[s] == FirstCode(c, s) && firstsymbol[s] == FirstIndex(c, s) && maxcode[s] == MaxCode(c, s)
  }

  ghost predicate BoundTable(c: Counts, n: nat, firstcode: seq<nat>, firstsymbol: seq<nat>, maxcode: seq<nat>)
    requires n <= 16
  {
    && |firstcode| == 16 && |firstsymbol| == 16 && |maxcode| == 17
    && forall s :: 1 <= s < n ==> BoundEntry(c, firstcode, firstsymbol, maxcode, s)
  }

  /** The first code of each length below n. */
  ghost predicate StartCodes(c: Counts, n: nat, next: seq<nat>)
    requires n <= 16
  {
    |next| == 16 && forall s :: 1 <= s < n ==> next[s] == FirstCode(c, s)
  }

  /** The next unassigned code of each length once n symbols have their codes. */
  ghost predicate NextCodes(lens: Lengths, n: nat, next: seq<nat>)
    requires n <= |lens|
  {
    |next| == 16 && forall s :: 1 <= s < 16 ==> next[s] == FirstCode(Hist(lens), s) + Count(lens, s, n)
  }

  class Table {
    const fast: array<nat>
    const firstcode: array<nat>
    const maxcode: array<nat>
    const firstsymbol: array<nat>
    const size: array<nat>
    const value: array<nat>

    constructor ()
      ensures Shape()
      ensures fresh(fast) && fresh(firstcode) && fresh(maxcode) && fresh(firstsymbol) && fresh(size) && fresh(value)
    {
      fast := new nat[512](_ => 0);
      firstcode := new nat[16](_ => 0);
      maxcode := new nat[17](_ => 0);
      firstsymbol := new nat[16](_ => 0);
      size := new nat[NSYMS](_ => 0);
      value := new nat[NSYMS](_ => 0);
    }

    ghost function Arrays(): set<object> {
      {fast, firstcode, maxcode, firstsymbol, size, value}
    }

    ghost predicate Shape() {
      && fast.Length == 512 && firstcode.Length == 16 && maxcode.Length == 17
      && firstsymbol.Length == 16 && size.Length == NSYMS && value.Length == NSYMS
      && fast != firstcode && fast != maxcode && fast != firstsymbol && fast != size && fast != value
      && firstcode != maxcode && firstcode != firstsymbol && firstcode != size && firstcode != value
      && maxcode != firstsymbol && maxcode != size && maxcode != value
      && firstsymbol != size && firstsymbol != value && size != value
    }

    /** The arrays hold the canonical code of lens. */
    ghost predicate Represents(lens: Lengths)
      reads Arrays()
    {
      && Shape()
      && Acceptable(lens)
      && FastTable(lens, |lens|, fast[..])
      && SymbolTable(lens, |lens|, size[..], value[..])
      && BoundTable(Hist(lens), 16, firstcode[..], firstsymbol[..], maxcode[..])
      && maxcode[16] == 0x1_0000
    }

    /** Builds the tables, or reports lengths that ask for too many codes. */
    method Build(lens: Lengths) returns (ok: bool)
      requires Shape()
      modifies Arrays()
      ensures ok <==> Acceptable(lens)
      ensures ok ==> Represents(lens)
    {
      ghost var c := Hist(lens);
      for j := 0 to 512
        invariant forall k :: 0 <= k < j ==> fast[k] == 0
      {
        fast[j] := 0;
      }
      var sizes := CountSizes(lens);
      for i := 1 to 16
        invariant sizes[..] == c
      {
        if sizes[i] > Pow2(i) {
          assert sizes[..][i] == c[i];
          assert EndCode(c, i) > Pow2(i);
          return false;
        }
      }
      var nextCode := new nat[16](_ => 0);
      ok := AssignFirstCodes(lens, sizes[..], nextCode);
      if !ok {
        return;
      }
      ghost var max := maxcode[..];
      maxcode[16] := 0x1_0000;
      SentinelKeepsBounds(c, firstcode[..], firstsymbol[..], max, maxcode[..]);
      AssignSymbols(lens, nextCode);
    }

    static method CountSizes(lens: Lengths) returns (sizes: array<nat>)
      ensures fresh(sizes) && sizes.Length == 17 && sizes[..] == Hist(lens)
    {
      sizes := new nat[17](_ => 0);
      for i := 0 to |lens|
        invariant forall s :: 0 <= s < 17 ==> sizes[s] == Count(lens, s, i)
      {
        sizes[lens[i]] := sizes[lens[i]] + 1;
      }
      sizes[0] := 0;
    }

    method AssignFirstCodes(lens: Lengths, sizes: seq<nat>, nextCode: array<nat>) returns (ok: bool)
      requires Shape() && nextCode.Length == 16 && nextCode !in Arrays() && sizes == Hist(lens)
      modifies nextCode, firstcode, firstsymbol, maxcode
      ensures ok <==> Acceptable(lens)
      ensures ok ==> BoundTable(Hist(lens), 16, firstcode[..], firstsymbol[..], maxcode[..])
      ensures ok ==> NextCodes(lens, 0, nextCode[..])
    {
      ghost var c := Hist(lens);
      var code: nat, k: nat := 0, 0;
      for i := 1 to 16
        invariant code == FirstCode(c, i) && k == FirstIndex(c, i)
        invariant Fits(c, i - 1)
        invariant StartCodes(c, i, nextCode[..])
        invariant BoundTable(c, i, firstcode[..], firstsymbol[..], maxcode[..])
      {
        FitsStep(c, i);
        var end := code + sizes[i];
        if Overflows(sizes[i], end, i) {
          return false;
        }
        SetBounds(c, i, code, k, end, nextCode);
        code := 2 * end;
        k := k + sizes[i];
      }
      return true;
    }

    method SetBounds(ghost c: Counts, i: nat, first: nat, index: nat, end: nat, nextCode: array<nat>)
      requires Shape() && nextCode.Length == 16 && nextCode !in Arrays() && 1 <= i < 16
      requires StartCodes(c, i, nextCode[..]) && BoundTable(c, i, firstcode[..], firstsymbol[..], maxcode[..])
      requires first == FirstCode(c, i) && index == FirstIndex(c, i) && end == EndCode(c, i)
      modifies nextCode, firstcode, firstsymbol, maxcode
      ensures StartCodes(c, i + 1, nextCode[..])
      ensures BoundTable(c, i + 1, firstcode[..], firstsymbol[..], maxcode[..])
    {
      ghost var b0, b1, b2, b3 := nextCode[..], firstcode[..], firstsymbol[..], maxcode[..];
      nextCode[i] := first;
      firstcode[i] := first;
      firstsymbol[i] := index;
      maxcode[i] := AlignTop(end, i);
      assert nextCode[..] == b0[i := first];
      assert firstcode[..] == b1[i := first];
      assert firstsymbol[..] == b2[i := index];
      assert maxcode[..] == b3[i := AlignTop(end, i)];
      BoundsExtended(c, i, b1, b2, b3, first, index, AlignTop(end, i));
    }

    method AssignSymbols(lens: Lengths, nextCode: array<nat>)
      requires Shape() && nextCode.Length == 16 && nextCode !in Arrays() && Acceptable(lens)
      requires forall j :: 0 <= j < 512 ==> fast[j] == 0
      requires NextCodes(lens, 0, nextCode[..])
      requires BoundTable(Hist(lens), 16, firstcode[..], firstsymbol[..], maxcode[..])
      modifies nextCode, fast, size, value
      ensures FastTable(lens, |lens|, fast[..])
      ensures SymbolTable(lens, |lens|, size[..], value[..])
    {
      for i := 0 to |lens|
        invariant BoundTable(Hist(lens), 16, firstcode[..], firstsymbol[..], maxcode[..])
        invariant NextCodes(lens, i, nextCode[..])
        invariant FastTable(lens, i, fast[..])
        invariant SymbolTable(lens, i, size[..], value[..])
      {
        if lens[i] != 0 {
          AssignSymbol(lens, i, nextCode);
        } else {
          SkipSymbol(lens, i, fast[..], size[..], value[..], nextCode[..]);
        }
      }
    }

    method AssignSymbol(lens: Lengths, i: nat, nextCode: array<nat>)
      requires Shape() && nextCode.Length == 16 && nextCode !in Arrays() && Acceptable(lens)
      requires i < |lens| && lens[i] > 0
      requires NextCodes(lens, i, nextCode[..])
      requires FastTable(lens, i, fast[..])
      requires SymbolTable(lens, i, size[..], value[..])
      requires BoundTable(Hist(lens), 16, firstcode[..], firstsymbol[..], maxcode[..])
      modifies nextCode, fast, size, value
      ensures NextCodes(lens, i + 1, nextCode[..])
      ensures FastTable(lens, i + 1, fast[..])
      ensures SymbolTable(lens, i + 1, size[..], value[..])
    {
      var s := lens[i];
      ghost var next := nextCode[..];
      assert nextCode[s] == next[s] == Code(lens, i);
      assert BoundEntry(Hist(lens), firstcode[..], firstsymbol[..], maxcode[..], s);
      assert firstcode[s] == firstcode[..][s] == FirstCode(Hist(lens), s);
      assert firstsymbol[s] == firstsymbol[..][s] == FirstIndex(Hist(lens), s);
      EnterSymbol(lens, i, nextCode[s] - firstcode[s] + firstsymbol[s]);
      if s <= FAST_BITS {
        FillFast(lens, i, nextCode[s]);
      } else {
        FastUnchanged(lens, i, fast[..]);
      }
      nextCode[s] := nextCode[s] + 1;
      assert nextCode[..] == next[s := next[s] + 1];
    }

    method EnterSymbol(lens: Lengths, i: nat, slot: nat)
      requires Shape() && i < |lens| && lens[i] > 0 && slot == Slot(lens, i)
      requires SymbolTable(lens, i, size[..], value[..])
      modifies size, value
      ensures SymbolTable(lens, i + 1, size[..], value[..])
    {
      SymbolExtended(lens, i, size[..], value[..]);
      ghost var size1, value1 := size[..][slot := lens[i]], value[..][slot := i];
      size[slot] := lens[i];
      value[slot] := i;
      assert size[..] == size1 && value[..] == value1;
    }

    /** Enters symbol i at every nine-bit window its code leads. */
    method FillFast(lens: Lengths, i: nat, code: nat)
      requires Shape() && Acceptable(lens) && i < |lens| && 0 < lens[i] <= FAST_BITS && code == Code(lens, i)
      requires FastTable(lens, i, fast[..])
      modifies fast
      ensures FastTable(lens, i + 1, fast[..])
    {
      BitReverseShiftIsRev(code, lens[i]);
      var start := BitReverseShift(code, lens[i]);
      HitsStart(lens, i, start);
      ghost var hits := MatchingWindows(lens, i);
      ghost var before := fast[..];
      FillHits(start, Pow2(lens[i]), lens[i] * 512 + i, hits) by {
        forall k | 0 <= k < 512 && hits[k]
          ensures NextHit(hits, k, Pow2(lens[i]))
        {
          HitsStep(lens, i, k);
        }
      }
      FastExtended(lens, i, before, fast[..]);
    }

    method FillHits(start: nat, step: nat, fastv: nat, ghost hits: seq<bool>)
      requires Shape() && step > 0 && |hits| == 512
      requires start < 512 && hits[start] && forall k :: 0 <= k < start ==> !hits[k]
      requires forall k :: 0 <= k < 512 && hits[k] ==> NextHit(hits, k, step)
      modifies fast
      ensures forall k :: 0 <= k < 512 ==> fast[k] == if hits[k] then fastv else old(fast[k])
    {
      var j := start;
      while j < 512
        invariant j < 512 ==> hits[j]
        invariant forall k :: 0 <= k < 512 ==> fast[k] == if hits[k] && k < j then fastv else old(fast[k])
      {
        fast[j] := fastv;
        assert NextHit(hits, j, step);
        j := j + step;
      }
    }
  }

  /** The hit after k is step places on. */
  ghost predicate NextHit(hits: seq<bool>, k: nat, step: nat) {
    && (k + step < |hits| ==> hits[k + step])
    && forall j :: k < j < k + step && j < |hits| ==> !hits[j]
  }

  /** The nine-bit windows that begin with the code of symbol i. */
  ghost function MatchingWindows(lens: Lengths, i: nat): (hits: seq<bool>)
    ensures |hits| == 512 && forall j :: 0 <= j < 512 ==> (hits[j] <==> Matches(lens, i, j))
  {
    seq(512, j requires 0 <= j < 512 => Matches(lens, i, j))
  }

  lemma HitsStart(lens: Lengths, i: nat, start: nat)
    requires i < |lens| && 0 < lens[i] <= FAST_BITS && start == Rev(Code(lens, i), lens[i])
    ensures start < 512 && Matches(lens, i, start)
    ensures forall k :: 0 <= k < start ==> !Matches(lens, i, k)
  {
    var s := lens[i];
    Pow2Mono(s, 9);
    assert Pow2(9) == 512;
    TakeSmall(start, s);
    forall k | 0 <= k < start
      ensures !Matches(lens, i, k)
    {
      TakeSmall(k, s);
    }
  }

  lemma HitsStep(lens: Lengths, i: nat, j: nat)
    requires i < |lens| && lens[i] > 0 && Matches(lens, i, j)
    ensures Matches(lens, i, j + Pow2(lens[i]))
    ensures forall k :: j < k < j + Pow2(lens[i]) ==> !Matches(lens, i, k)
  {
    SameResidue(j, Pow2(lens[i]));
    TakeDropIsModDiv(j, lens[i]);
    TakeDropIsModDiv(j + Pow2(lens[i]), lens[i]);
    forall k | j < k < j + Pow2(lens[i])
      ensures !Matches(lens, i, k)
    {
      TakeDropIsModDiv(k, lens[i]);
    }
  }

  /** The check made when the codes of length i, if any, end at `end`. */
  predicate Overflows(count: nat, end: nat, i: nat) {
    count != 0 && end - 1 >= Pow2(i)
  }

  /** A length without codes cannot overflow when the shorter ones fit. */
  lemma FitsStep(c: Counts, i: nat)
    requires 1 <= i <= 15 && Fits(c, i - 1)
    ensures Overflows(c[i], EndCode(c, i), i) <==> !Fits(c, i)
    ensures Overflows(c[i], EndCode(c, i), i) ==> !Fits(c, 15)
  {
    if i > 1 {
      assert EndCode(c, i - 1) <= Pow2(i - 1);
    }
  }

  lemma SameResidue(j: nat, step: nat)
    requires step > 0
    ensures (j + step) % step == j % step
    ensures forall k :: j < k < j + step ==> k % step != j % step
  {
    var q, r := j / step, j % step;
    assert j + step == (q + 1) * step + r;
    DivModUnique(j + step, step, q + 1, r);
    forall k | j < k < j + step
      ensures k % step != j % step
    {
      if r + (k - j) < step {
        DivModUnique(k, step, q, r + (k - j));
      } else {
        assert k == (q + 1) * step + (r + (k - j) - step);
        DivModUnique(k, step, q + 1, r + (k - j) - step);
      }
    }
  }

  lemma BoundsExtended(c: Counts, i: nat, firstcode: seq<nat>, firstsymbol: seq<nat>, maxcode: seq<nat>,
                       first: nat, index: nat, max: nat)
    requires 1 <= i < 16 && BoundTable(c, i, firstcode, firstsymbol, maxcode)
    requires first == FirstCode(c, i) && index == FirstIndex(c, i) && max == MaxCode(c, i)
    ensures BoundTable(c, i + 1, firstcode[i := first], firstsymbol[i := index], maxcode[i := max])
  {
    var firstcode', firstsymbol', maxcode' := firstcode[i := first], firstsymbol[i := index], maxcode[i := max];
    forall s | 1 <= s < i + 1
      ensures BoundEntry(c, firstcode', firstsymbol', maxcode', s)
    {
      if s < i {
        assert BoundEntry(c, firstcode, firstsymbol, maxcode, s);
      }
    }
  }

  lemma SentinelKeepsBounds(c: Counts, firstcode: seq<nat>, firstsymbol: seq<nat>, max: seq<nat>, max': seq<nat>)
    requires BoundTable(c, 16, firstcode, firstsymbol, max) && |max'| == 17 && max'[..16] == max[..16]
    ensures BoundTable(c, 16, firstcode, firstsymbol, max')
  {
    forall s | 1 <= s < 16
      ensures BoundEntry(c, firstcode, firstsymbol, max', s)
    {
      assert BoundEntry(c, firstcode, firstsymbol, max, s);
      assert max'[s] == max'[..16][s] == max[s];
    }
  }

  lemma SymbolExtended(lens: Lengths, i: nat, size: seq<nat>, value: seq<nat>)
    requires i < |lens| && lens[i] > 0 && SymbolTable(lens, i, size, value)
    ensures Slot(lens, i) < NSYMS
    ensures SymbolTable(lens, i + 1, size[Slot(lens, i) := lens[i]], value[Slot(lens, i) := i])
  {
    SlotBound(lens, i);
    var slot := Slot(lens, i);
    var size', value' := size[slot := lens[i]], value[slot := i];
    forall k | 0 <= k < i + 1
      ensures SymbolEntry(lens, size', value', k)
    {
      if k < i && lens[k] > 0 {
        assert SymbolEntry(lens, size, value, k);
        if Slot(lens, k) == slot {
          SlotInjective(lens, k, i);
        }
      }
    }
  }

  lemma SkipSymbol(lens: Lengths, i: nat, fast: seq<nat>, size: seq<nat>, value: seq<nat>, next: seq<nat>)
    requires i < |lens| && lens[i] == 0
    requires FastTable(lens, i, fast) && SymbolTable(lens, i, size, value) && NextCodes(lens, i, next)
    ensures FastTable(lens, i + 1, fast) && SymbolTable(lens, i + 1, size, value) && NextCodes(lens, i + 1, next)
  {
    FastUnchanged(lens, i, fast);
  }

  lemma FastUnchanged(lens: Lengths, i: nat, fast: seq<nat>)
    requires i < |lens| && (lens[i] == 0 || lens[i] > FAST_BITS) && FastTable(lens, i, fast)
    ensures FastTable(lens, i + 1, fast)
  {
    var n := i + 1;
    forall j | 0 <= j < 512
      ensures FastEntry(lens, n, fast, j)
    {
      assert FastEntry(lens, i, fast, j);
    }
  }

  lemma FastExtended(lens: Lengths, i: nat, before: seq<nat>, after: seq<nat>)
    requires i < |lens| && 0 < lens[i] <= FAST_BITS && Acceptable(lens) && FastTable(lens, i, before) && |after| == 512
    requires forall j :: 0 <= j < 512 && Matches(lens, i, j) ==> after[j] == lens[i] * 512 + i
    requires forall j :: 0 <= j < 512 && !Matches(lens, i, j) ==> after[j] == before[j]
    ensures FastTable(lens, i + 1, after)
  {
    hide Acceptable, Matches;
    var n := i + 1;
    forall j | 0 <= j < 512
      ensures FastEntry(lens, n, after, j)
    {
      assert FastEntry(lens, i, before, j);
      if Matches(lens, i, j) {
        assert after[j] % 512 == i && after[j] / 512 == lens[i];
      }
    }
  }
}
