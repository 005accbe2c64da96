/** A writer of dynamic blocks after section 3.2.7 of RFC 1951: the sizes of the codes for code lengths in
    their peculiar order, then the two lists of code lengths as runs, told by what each run covers. */
module DynamicWriter {
  import opened Bits
  import opened BitPieces
  import Canonical
  import opened ZHuffman
  import opened DeflateFormat
  import opened ZlibFormat
  import opened TokenWriter

  // ----- the runs of a list of code lengths

  /** One length, three to six more of the last one, or three to 138 zeros. */
  datatype Item = Single(n: nat) | Again(count: nat) | Zeros(count: nat) {
    function Symbol(): nat {
      match this
      case Single(n) => n
      case Again(_) => 16
      case Zeros(count) => if count <= 10 then 17 else 18
    }

    function Count(): nat {
      match this
      case Single(_) => 1
      case Again(count) => count
      case Zeros(count) => count
    }

    /** The item says what stands in the list from place i on. */
    predicate Says(list: seq<nat>, i: nat) {
      && i + Count() <= |list|
      && match this
         case Single(n) => list[i] == n
         case Again(count) => 3 <= count <= 6 && i > 0 && forall j :: i <= j < i + count ==> list[j] == list[i - 1]
         case Zeros(count) => 3 <= count <= 138 && forall j :: i <= j < i + count ==> list[j] == 0
    }
  }

  /** The items say the list from place i to its end. */
  predicate Says(items: seq<Item>, list: seq<nat>, i: nat)
    decreases |items|
  {
    if items == [] then i == |list| else items[0].Says(list, i) && Says(items[1..], list, i + items[0].Count())
  }

  /** How far a count exceeds the least one, in as many bits as that takes. */
  function CountPieces(item: Item): seq<Piece>
    requires !item.Single? ==> item.count >= 3
  {
    match item
    case Single(_) => []
    case Again(count) => [Piece(count - 3, 2)]
    case Zeros(count) => if count <= 10 then [Piece(count - 3, 3)] else [Piece(count - 11, 7)]
  }

  predicate Sayable(cl: Lengths, items: seq<Item>) {
    forall i :: 0 <= i < |items| ==> HasWord(cl, items[i].Symbol()) && (!items[i].Single? ==> items[i].count >= 3)
  }

  function ItemPieces(cl: Lengths, items: seq<Item>): seq<Piece>
    requires Sayable(cl, items)
  {
    if items == [] then []
    else [Word(cl, items[0].Symbol())] + (CountPieces(items[0]) + ItemPieces(cl, items[1..]))
  }

  // ----- the order of the code length alphabet

  /** The symbol whose size is written at place i: 16, 17, 18, 0, and then 8, 7, 9, 6 and so on, away from
      the middle. */
  function SymbolAt(i: nat): (s: nat)
    requires i < 19
    ensures s < 19
  {
    if i < 3 then 16 + i else if i == 3 then 0 else if i % 2 == 0 then 8 + (i - 4) / 2 else 7 - (i - 5) / 2
  }

  function PlaceOf(s: nat): (i: nat)
    requires s < 19
    ensures i < 19 && SymbolAt(i) == s
  {
    if s >= 16 then s - 16 else if s == 0 then 3 else if s >= 8 then 4 + 2 * (s - 8) else 5 + 2 * (7 - s)
  }

  /** No symbol has two places. */
  lemma OnePlace(i: nat)
    requires i < 19
    ensures PlaceOf(SymbolAt(i)) == i
  {
  }

  function SizePieces(cl: Lengths, i: nat, n: nat): seq<Piece>
    requires i <= n <= 19 == |cl|
    decreases n - i
  {
    if i == n then [] else [Piece(cl[SymbolAt(i)], 3)] + SizePieces(cl, i + 1, n)
  }

  // ----- the header

  /** The code lengths of the two codes of the block and of the code for code lengths, how many of the
      latter are written, and the runs. */
  datatype Plan = Plan(ll: Lengths, dl: Lengths, cl: Lengths, sent: nat, items: seq<Item>) {
    ghost predicate Valid() {
      && 257 <= |ll| && 1 <= |dl| <= 32 && |cl| == 19 && 4 <= sent <= 19
      && Acceptable(ll) && Acceptable(dl) && Acceptable(cl)
      && (forall s :: 0 <= s < 19 ==> cl[s] < 8 && (PlaceOf(s) >= sent ==> cl[s] == 0))
      && Says(items, ll + dl, 0) && Sayable(cl, items)
    }

    ghost function Pieces(): seq<Piece>
      requires Valid()
    {
      [Piece(|ll| - 257, 5), Piece(|dl| - 1, 5), Piece(sent - 4, 4)] + (SizePieces(cl, 0, sent) + ItemPieces(cl, items))
    }
  }

  // ----- the header is read back

  lemma SameOrder(i: nat)
    requires i < 19
    ensures OrderAt(i) == SymbolAt(i)
  {
  }

  function Sent(cl: Lengths, n: nat): (sizes: seq<nat>)
    requires n <= 19 == |cl|
    ensures |sizes| == n
  {
    seq(n, i requires 0 <= i < n => cl[SymbolAt(i)])
  }

  /** The table of sizes gets every size into its place. */
  lemma {:induction false} SentRead(cl: Lengths, n: nat, s: nat)
    requires n <= 19 == |cl| && s < 19
    ensures CodeLengthLengths(Sent(cl, n))[s] == if PlaceOf(s) < n then cl[s] else 0
  {
    hide PlaceOf, SymbolAt, OrderAt;
    if n == 0 {
    } else {
      SentRead(cl, n - 1, s);
      assert Sent(cl, n)[..n - 1] == Sent(cl, n - 1);
      SameOrder(n - 1);
      OnePlace(n - 1);
    }
  }

  lemma OnePiece(p: Piece, ps: seq<Piece>, tail: nat)
    requires p.Fits()
    ensures var v := StreamOf([p] + ps, tail); Take(v, p.n) == p.code && Drop(v, p.n) == StreamOf(ps, tail)
    ensures Width([p] + ps) == p.n + Width(ps)
  {
    assert ([p] + ps)[1..] == ps;
    SplitLow(p.code, StreamOf(ps, tail), p.n);
  }

  /** Size k of those written is read back. */
  lemma {:induction false} SizeRead(cl: Lengths, i: nat, n: nat, k: nat, tail: nat)
    requires i + k < n <= 19 == |cl| && forall s :: 0 <= s < 19 ==> cl[s] < 8
    ensures Take(Drop(StreamOf(SizePieces(cl, i, n), tail), 3 * k), 3) == cl[SymbolAt(i + k)]
    decreases k
  {
    hide Take, Drop, SymbolAt, StreamOf, Pow2;
    ThreeBits();
    var v, more := StreamOf(SizePieces(cl, i, n), tail), SizePieces(cl, i + 1, n);
    OnePiece(Piece(cl[SymbolAt(i)], 3), more, tail);
    if k == 0 {
      DropNothing(v);
    } else {
      DropDrop(v, 3, 3 * (k - 1));
      SizeRead(cl, i + 1, n, k - 1, tail);
    }
  }

  lemma {:induction false} SizesEnd(cl: Lengths, i: nat, n: nat, tail: nat)
    requires i <= n <= 19 == |cl| && forall s :: 0 <= s < 19 ==> cl[s] < 8
    ensures Drop(StreamOf(SizePieces(cl, i, n), tail), 3 * (n - i)) == tail
    ensures Width(SizePieces(cl, i, n)) == 3 * (n - i)
    decreases n - i
  {
    hide Take, Drop, SymbolAt, StreamOf, Width, Pow2;
    ThreeBits();
    if i == n {
      NoPieces(tail);
      DropNothing(tail);
    } else {
      OnePiece(Piece(cl[SymbolAt(i)], 3), SizePieces(cl, i + 1, n), tail);
      SizesEnd(cl, i + 1, n, tail);
      DropDrop(StreamOf(SizePieces(cl, i, n), tail), 3, 3 * (n - i - 1));
    }
  }

  lemma ThreeBits()
    ensures Pow2(3) == 8
  {
  }

  lemma NoPieces(tail: nat)
    ensures StreamOf([], tail) == tail && Width([]) == 0
  {
  }

  function Op(item: Item): (op: LenOp)
    requires !item.Single? ==> item.count >= 3
    ensures op.Symbol() == item.Symbol()
  {
    match item
    case Single(n) => One(n)
    case Again(count) => Last(count - 3)
    case Zeros(count) => if count <= 10 then Short(count - 3) else Long(count - 11)
  }

  function Ops(items: seq<Item>): seq<LenOp>
    requires forall i :: 0 <= i < |items| ==> !items[i].Single? ==> items[i].count >= 3
  {
    if items == [] then [] else [Op(items[0])] + Ops(items[1..])
  }

  /** An instruction adds to the list what the item says. */
  lemma ItemAdds(list: seq<nat>, i: nat, item: Item)
    requires i < |list| && item.Says(list, i)
    ensures var sofar := list[..i];
      && CanExtend(sofar, Op(item), |list|)
      && sofar + Added(sofar, Op(item)) == list[..i + item.Count()]
  {
    var sofar := list[..i];
    assert Added(sofar, Op(item)) == list[i..i + item.Count()];
    assert sofar + list[i..i + item.Count()] == list[..i + item.Count()];
  }

  lemma NoBits(v: nat)
    ensures Take(v, 0) == 0 && Drop(v, 0) == v
  {
  }

  lemma ItemRead(cl: Lengths, item: Item, ps: seq<Piece>, tail: nat, list: seq<nat>, i: nat)
    requires |cl| == 19 && item.Says(list, i) && AllLengths(list) && HasWord(cl, item.Symbol())
    ensures var all := [Word(cl, item.Symbol())] + (CountPieces(item) + ps);
      var v := StreamOf(all, tail);
      && OpAt(cl, v, Op(item)) && Drop(v, OpBits(cl, Op(item))) == StreamOf(ps, tail)
      && Width(all) == OpBits(cl, Op(item)) + Width(ps)
  {
    hide Take, Drop, StreamOf, Width, Rev, Code;
    var w, more := Word(cl, item.Symbol()), CountPieces(item) + ps;
    var v := StreamOf([w] + more, tail);
    OnePiece(w, more, tail);
    DropDrop(v, w.n, Op(item).Extra());
    assert Pow2(2) == 4 && Pow2(3) == 8 && Pow2(7) == 128;
    if item.Single? {
      assert more == ps && list[i] <= 15;
      NoBits(StreamOf(ps, tail));
    } else {
      OnePiece(CountPieces(item)[0], ps, tail);
    }
  }

  /** The instructions read build the list. */
  lemma {:induction false} ItemsRead(cl: Lengths, list: seq<nat>, i: nat, items: seq<Item>, tail: nat)
    requires |cl| == 19 && Says(items, list, i) && i <= |list| && Sayable(cl, items) && AllLengths(list)
    ensures var v, ops := StreamOf(ItemPieces(cl, items), tail), Ops(items);
      && OpsRun(cl, v, list[..i], ops, |list|) && OpsList(list[..i], ops) == list
      && OpsBits(cl, ops) == Width(ItemPieces(cl, items)) && Drop(v, OpsBits(cl, ops)) == tail
    decreases |items|
  {
    hide Take, Drop, StreamOf, Width, Word, OpAt, OpBits, CanExtend, Added, AllLengths, CountPieces, Op, Item.Says;
    hide Item.Symbol, Item.Count;
    if items == [] {
      NoPieces(tail);
      DropNothing(tail);
      assert list[..i] == list;
    } else {
      var item, more := items[0], items[1..];
      var next := i + item.Count();
      SaysSomething(list, i, item);
      ItemAdds(list, i, item);
      ItemRead(cl, item, ItemPieces(cl, more), tail, list, i);
      ItemsRead(cl, list, next, more, tail);
      var v := StreamOf(ItemPieces(cl, items), tail);
      assert Ops(items)[1..] == Ops(more);
      DropDrop(v, OpBits(cl, Op(item)), OpsBits(cl, Ops(more)));
    }
  }

  lemma SaysSomething(list: seq<nat>, i: nat, item: Item)
    requires item.Says(list, i)
    ensures i < i + item.Count() <= |list|
  {
  }

  /** The header that the reader is to find. */
  ghost function Meant(p: Plan): DynHeader
    requires p.Valid()
  {
    DynHeader(|p.ll|, |p.dl|, Sent(p.cl, p.sent), Ops(p.items))
  }

  lemma ThreePieces(a: Piece, b: Piece, c: Piece, ps: seq<Piece>, tail: nat)
    requires a.Fits() && b.Fits() && c.Fits() && a.n == 5 && b.n == 5 && c.n == 4
    ensures var v := StreamOf([a, b, c] + ps, tail);
      && Take(v, 5) == a.code && Take(Drop(v, 5), 5) == b.code && Take(Drop(v, 10), 4) == c.code
      && Drop(v, 14) == StreamOf(ps, tail) && Width([a, b, c] + ps) == 14 + Width(ps)
  {
    hide Take, Drop, StreamOf, Width, Pow2;
    var v := StreamOf([a, b, c] + ps, tail);
    assert [a, b, c] + ps == [a] + ([b] + ([c] + ps));
    OnePiece(a, [b] + ([c] + ps), tail);
    OnePiece(b, [c] + ps, tail);
    OnePiece(c, ps, tail);
    DropDrop(v, 5, 5);
    DropDrop(v, 10, 4);
  }

  lemma CountsFit(p: Plan)
    requires p.Valid()
    ensures Piece(|p.ll| - 257, 5).Fits() && Piece(|p.dl| - 1, 5).Fits() && Piece(p.sent - 4, 4).Fits()
  {
    assert Pow2(5) == 32 && Pow2(4) == 16;
  }

  /** The table of sizes that the reader makes is the one of the plan. */
  lemma SizesMeant(p: Plan)
    requires p.Valid()
    ensures CodeLengthLengths(Sent(p.cl, p.sent)) == p.cl
  {
    forall s | 0 <= s < 19
      ensures CodeLengthLengths(Sent(p.cl, p.sent))[s] == p.cl[s]
    {
      SentRead(p.cl, p.sent, s);
    }
  }

  lemma ListsMeant(p: Plan)
    requires p.Valid() && OpsList([], Ops(p.items)) == p.ll + p.dl
    ensures DynLengthsOk(Meant(p)) && LiteralLengths(Meant(p)) == p.ll && DistLengths(Meant(p)) == p.dl
  {
    hide OpsList, Ops, Sent, Acceptable;
    assert (p.ll + p.dl)[..|p.ll|] == p.ll && (p.ll + p.dl)[|p.ll|..] == p.dl;
  }

  /** Whatever follows, the header of a plan is read as the plan says. */
  lemma HeaderWritten(p: Plan, tail: nat)
    requires p.Valid()
    ensures var v, h := StreamOf(p.Pieces(), tail), Meant(p);
      && DynHeaderAt(v, h) && LiteralLengths(h) == p.ll && DistLengths(h) == p.dl
      && HeaderBits(h) == Width(p.Pieces()) && Drop(v, HeaderBits(h)) == tail
  {
    hide Take, Drop, StreamOf, Width, OpsRun, OpsList, OpsBits, Acceptable, Pow2, Says, Sayable, Sent, Ops;
    hide CodeLengthLengths, SymbolAt, PlaceOf, DynLengthsOk, LiteralLengths, DistLengths;
    var h, sizes, runs := Meant(p), SizePieces(p.cl, 0, p.sent), ItemPieces(p.cl, p.items);
    var v := StreamOf(p.Pieces(), tail);
    CountsFit(p);
    ThreePieces(Piece(|p.ll| - 257, 5), Piece(|p.dl| - 1, 5), Piece(p.sent - 4, 4), sizes + runs, tail);
    StreamAppend(sizes, runs, tail);
    SizesWritten(p, StreamOf(runs, tail));
    DropDrop(v, 14, 3 * p.sent);
    SizesMeant(p);
    assert (p.ll + p.dl)[..0] == [];
    ItemsRead(p.cl, p.ll + p.dl, 0, p.items, tail);
    DropDrop(v, 14 + 3 * p.sent, OpsBits(p.cl, h.ops));
    ListsMeant(p);
  }

  lemma SizesWritten(p: Plan, tail: nat)
    requires p.Valid()
    ensures var sizes := SizePieces(p.cl, 0, p.sent);
      && SizesAt(StreamOf(sizes, tail), Sent(p.cl, p.sent)) && Drop(StreamOf(sizes, tail), 3 * p.sent) == tail
      && Width(sizes) == 3 * p.sent
  {
    hide Take, Drop, StreamOf, Width, Acceptable, SymbolAt, PlaceOf, Says, Sayable;
    SizesEnd(p.cl, 0, p.sent, tail);
    var v := StreamOf(SizePieces(p.cl, 0, p.sent), tail);
    forall k | 0 <= k < p.sent
      ensures Sent(p.cl, p.sent)[k] == Take(Drop(v, 3 * k), 3)
    {
      SizeRead(p.cl, 0, p.sent, k, tail);
    }
  }

  /** Any two lists of code lengths that can be written at all are read back exactly, and so is nothing else. */
  lemma HeaderRead(p: Plan, tail: nat, h: DynHeader)
    requires p.Valid() && DynHeaderAt(StreamOf(p.Pieces(), tail), h)
    ensures LiteralLengths(h) == p.ll && DistLengths(h) == p.dl
    ensures HeaderBits(h) == Width(p.Pieces()) && Drop(StreamOf(p.Pieces(), tail), HeaderBits(h)) == tail
  {
    hide DynHeaderAt, LiteralLengths, DistLengths, HeaderBits, StreamOf, Width, Drop;
    HeaderWritten(p, tail);
    DynHeaderUnique(StreamOf(p.Pieces(), tail), Meant(p), h);
  }

  // ----- every two lists can be written

  function Singles(list: seq<nat>): seq<Item> {
    if list == [] then [] else [Single(list[0])] + Singles(list[1..])
  }

  lemma {:induction false} SinglesSay(cl: Lengths, list: seq<nat>, i: nat)
    requires i <= |list| && AllLengths(list) && |cl| == 19 && forall s :: 0 <= s < 19 ==> cl[s] > 0
    ensures Says(Singles(list[i..]), list, i) && Sayable(cl, Singles(list[i..]))
    decreases |list| - i
  {
    if i == |list| {
    } else {
      var items := Singles(list[i..]);
      assert list[i..][1..] == list[i + 1..];
      SinglesSay(cl, list, i + 1);
      assert items == [Single(list[i])] + Singles(list[i + 1..]) && items[1..] == Singles(list[i + 1..]);
      assert list[i] <= 15;
    }
  }

  function FiveEach(): (cl: Lengths)
    ensures |cl| == 19 && forall s :: 0 <= s < 19 ==> cl[s] == 5
  {
    seq(19, _ => 5)
  }

  lemma NineteenFit(c: seq<nat>)
    requires |c| == 17 && forall s :: 1 <= s <= 16 ==> c[s] == if s == 5 then 19 else 0
    ensures Canonical.Fits(c, 15)
  {
    hide Pow2;
    var first := n requires 1 <= n <= 16 => Canonical.FirstCode(c, n);
    assert first(1) == 0 && first(2) == 0 && first(3) == 0 && first(4) == 0 && first(5) == 0 && first(6) == 38;
    assert first(7) == 76 && first(8) == 152 && first(9) == 304 && first(10) == 608 && first(11) == 1216;
    assert first(12) == 2432 && first(13) == 4864 && first(14) == 9728 && first(15) == 19456;
    Powers();
  }

  lemma FiveEachAcceptable()
    ensures Acceptable(FiveEach())
  {
    var cl := FiveEach();
    CountRun(cl, 5, 0, 19);
    forall s | 1 <= s <= 16 && s != 5
      ensures Count(cl, s, 19) == 0
    {
      CountGap(cl, s, 0, 19);
    }
    NineteenFit(Hist(cl));
  }

  /** There is a plan for any two lists of code lengths that stand for codes. */
  lemma AnyLists(ll: Lengths, dl: Lengths) returns (p: Plan)
    requires 257 <= |ll| && 1 <= |dl| <= 32 && Acceptable(ll) && Acceptable(dl)
    ensures p.Valid() && p.ll == ll && p.dl == dl
  {
    hide Acceptable, PlaceOf;
    var list := ll + dl;
    FiveEachAcceptable();
    SinglesSay(FiveEach(), list, 0);
    assert list[0..] == list;
    p := Plan(ll, dl, FiveEach(), 19, Singles(list));
  }

  // ----- the pieces fit their widths

  lemma {:induction false} SizesFit(cl: Lengths, i: nat, n: nat)
    requires i <= n <= 19 == |cl| && forall s :: 0 <= s < 19 ==> cl[s] < 8
    ensures AllFit(SizePieces(cl, i, n))
    decreases n - i
  {
    ThreeBits();
    if i == n {
    } else {
      SizesFit(cl, i + 1, n);
    }
  }

  lemma ItemFits(cl: Lengths, item: Item, list: seq<nat>, i: nat)
    requires HasWord(cl, item.Symbol()) && item.Says(list, i)
    ensures AllFit([Word(cl, item.Symbol())] + CountPieces(item))
  {
    assert Pow2(2) == 4 && Pow2(3) == 8 && Pow2(7) == 128;
  }

  lemma {:induction false} ItemsFit(cl: Lengths, items: seq<Item>, list: seq<nat>, i: nat)
    requires Sayable(cl, items) && Says(items, list, i)
    ensures AllFit(ItemPieces(cl, items))
    decreases |items|
  {
    hide AllFit, Word, CountPieces, Item.Says, Item.Symbol, Item.Count;
    if items == [] {
      NoneFits();
    } else {
      var first := [Word(cl, items[0].Symbol())] + CountPieces(items[0]);
      ItemFits(cl, items[0], list, i);
      ItemsFit(cl, items[1..], list, i + items[0].Count());
      FitBoth(first, ItemPieces(cl, items[1..]));
      assert ItemPieces(cl, items) == first + ItemPieces(cl, items[1..]);
    }
  }

  lemma NoneFits()
    ensures AllFit([])
  {
  }

  lemma PlanFits(p: Plan)
    requires p.Valid()
    ensures AllFit(p.Pieces())
  {
    hide Acceptable, Says, Sayable;
    SizesFit(p.cl, 0, p.sent);
    ItemsFit(p.cl, p.items, p.ll + p.dl, 0);
    CountsFit(p);
    FitBoth(SizePieces(p.cl, 0, p.sent), ItemPieces(p.cl, p.items));
  }
}
