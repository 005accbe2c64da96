/** The inflater's dynamic block headers: a code for code lengths, then the lengths of the two codes
    of the block with their run-length instructions (section 3.2.7 of RFC 1951). */
module InflateDynamic {
  import opened Bits
  import opened ZHuffman
  import opened DeflateFormat
  import opened ZlibFormat
  import opened Inflate
  import opened BitPieces
  import DynamicWriter

  /** Reads the lengths of the code length alphabet. */
  method ReadSizes(a: Zbuf, n: nat) returns (cl: seq<nat>, ghost sizes: seq<nat>)
    requires a.Valid() && n <= 19
    modifies a`pos, a`numBits, a`codeBuffer, a`used
    ensures a.Valid() && |sizes| == n && SizesAt(old(a.Stream()), sizes) && cl == CodeLengthLengths(sizes)
    ensures a.Stream() == Drop(old(a.Stream()), 3 * n) && a.used == old(a.used) + 3 * n
  {
    hide Zbuf.Stream, Zbuf.PastEnd, Zbuf.Begun, Drop, Take;
    ghost var v := a.Stream();
    DropNothing(v);
    var table := new nat[19](_ => 0);
    sizes := [];
    assert table[..] == CodeLengthLengths([]);
    for i := 0 to n
      invariant a.Valid() && a.Stream() == Drop(v, 3 * i) && a.used == old(a.used) + 3 * i
      invariant |sizes| == i && SizesAt(v, sizes) && table[..] == CodeLengthLengths(sizes)
    {
      ghost var before := table[..];
      var s := a.Receive(3);
      DropDrop(v, 3 * i, 3);
      table[OrderAt(i)] := s;
      assert table[..] == before[OrderAt(i) := s];
      assert (sizes + [s])[..i] == sizes;
      sizes := sizes + [s];
    }
    cl := table[..];
  }

  /** Reads one instruction. */
  method ReadOp(a: Zbuf, z: Table, ghost cl: Lengths) returns (st: Status, op: LenOp)
    requires a.Valid() && z.Represents(cl) && |cl| == 19
    modifies a`pos, a`numBits, a`codeBuffer, a`hitZeofOnce, a`used
    ensures a.Valid() && st in {Ok, BadLengths}
    ensures st == Ok ==> OpAt(cl, old(a.Stream()), op) && a.Stream() == Drop(old(a.Stream()), OpBits(cl, op))
    ensures st == Ok ==> a.used == old(a.used) + OpBits(cl, op)
    ensures st != Ok ==> a.used == old(a.used) && ((forall o :: !OpAt(cl, old(a.Stream()), o)) || a.PastEnd())
  {
    hide Zbuf.Stream, Drop, Take, Acceptable, FastTable, SymbolTable, BoundTable, Table.Shape;
    var c := a.Decode(z, cl);
    if c < 0 {
      return BadLengths, One(0);
    }
    op := ReadArgument(a, c);
    st := Ok;
    DropDrop(old(a.Stream()), cl[c], op.Extra());
  }

  /** Reads the repeat count of instruction c, if it has one. */
  method ReadArgument(a: Zbuf, c: nat) returns (op: LenOp)
    requires a.Valid() && c < 19
    modifies a`pos, a`numBits, a`codeBuffer, a`used
    ensures a.Valid() && op.Symbol() == c && (op.One? ==> op.n < 16)
    ensures op.Argument() == Take(old(a.Stream()), op.Extra()) && a.Stream() == Drop(old(a.Stream()), op.Extra())
    ensures a.used == old(a.used) + op.Extra()
  {
    if c < 16 {
      op := One(c);
    } else if c == 16 {
      var k := a.Receive(2);
      op := Last(k);
    } else if c == 17 {
      var k := a.Receive(3);
      op := Short(k);
    } else {
      var k := a.Receive(7);
      op := Long(k);
    }
  }

  /** Carries out an instruction on the list of lengths so far. */
  method ApplyOp(lencodes: array<nat>, n: nat, op: LenOp, total: nat) returns (ok: bool, m: nat)
    requires n < total <= lencodes.Length
    modifies lencodes
    ensures ok <==> CanExtend(old(lencodes[..n]), op, total)
    ensures ok ==> m <= total && lencodes[..m] == old(lencodes[..n]) + Added(old(lencodes[..n]), op)
    ensures ok ==> n < m
  {
    ghost var list := lencodes[..n];
    match op
    case One(c) =>
      lencodes[n] := c;
      m := n + 1;
      assert lencodes[..m] == list + [c];
      return true, m;
    case Last(k) =>
      if n == 0 {
        return false, n;
      }
      ok, m := FillRun(lencodes, n, lencodes[n - 1], 3 + k, total);
    case Short(k) =>
      ok, m := FillRun(lencodes, n, 0, 3 + k, total);
    case Long(k) =>
      ok, m := FillRun(lencodes, n, 0, 11 + k, total);
  }

  method FillRun(lencodes: array<nat>, n: nat, fill: nat, c: nat, total: nat) returns (ok: bool, m: nat)
    requires n <= total <= lencodes.Length
    modifies lencodes
    ensures ok <==> n + c <= total
    ensures ok ==> m == n + c && lencodes[..m] == old(lencodes[..n]) + Repeat(fill, c)
  {
    if total - n < c {
      return false, n;
    }
    ghost var list := lencodes[..n];
    forall i | n <= i < n + c {
      lencodes[i] := fill;
    }
    m := n + c;
    assert lencodes[..m] == list + Repeat(fill, c);
    ok := true;
  }

  /** Why the list of instructions at v breaks off after `ops`. */
  ghost predicate OpsFailure(cl: Lengths, v: nat, ops: seq<LenOp>, total: nat, starved: bool) {
    && |OpsList([], ops)| < total
    && (starved || !GoesOn(cl, Drop(v, OpsBits(cl, ops)), OpsList([], ops), total))
  }

  /** A usable instruction comes next. */
  ghost predicate GoesOn(cl: Lengths, v: nat, list: seq<nat>, total: nat) {
    exists o :: OpAt(cl, v, o) && CanExtend(list, o, total)
  }

  /** Reads instructions until the list is complete. */
  method ReadOps(a: Zbuf, z: Table, ghost cl: Lengths, lencodes: array<nat>, total: nat)
    returns (st: Status, ghost ops: seq<LenOp>)
    requires a.Valid() && z.Represents(cl) && |cl| == 19 && total <= lencodes.Length && lencodes !in z.Arrays()
    modifies a`pos, a`numBits, a`codeBuffer, a`hitZeofOnce, a`used, lencodes
    ensures a.Valid() && st in {Ok, BadLengths} && OpsRun(cl, old(a.Stream()), [], ops, total)
    ensures st == Ok ==> OpsAt(cl, old(a.Stream()), ops, total) && lencodes[..total] == OpsList([], ops)
    ensures st == Ok ==>
      a.Stream() == Drop(old(a.Stream()), OpsBits(cl, ops)) && a.used == old(a.used) + OpsBits(cl, ops)
    ensures st != Ok ==>
      OpsFailure(cl, old(a.Stream()), ops, total, a.PastEnd() && a.used == old(a.used) + OpsBits(cl, ops))
  {
    hide Zbuf.Stream, Zbuf.PastEnd, Drop, CanExtend, Table.Represents, Table.Shape;
    hide OpsRun, OpsList, OpsBits, Added;
    ghost var v := a.Stream();
    var n := 0;
    ops := [];
    st := Ok;
    OpsNone(cl, v, [], total);
    while n < total
      invariant a.Valid() && n <= total && z.Represents(cl) && st == Ok
      invariant OpsRun(cl, v, [], ops, total) && lencodes[..n] == OpsList([], ops)
      invariant a.Stream() == Drop(v, OpsBits(cl, ops)) && a.used == old(a.used) + OpsBits(cl, ops)
      decreases total - n
    {
      ghost var v', list := a.Stream(), lencodes[..n];
      var op;
      st, op := ReadOp(a, z, cl);
      if st != Ok {
        return;
      }
      var ok;
      ok, n := ApplyOp(lencodes, n, op, total);
      if !ok {
        NoOtherOp(z, cl, v', list, op, total);
        st := BadLengths;
        return;
      }
      OpsSnoc(cl, v, [], ops, op, total);
      DropDrop(v, OpsBits(cl, ops), OpBits(cl, op));
      ops := ops + [op];
    }
  }

  lemma OpsNone(cl: Lengths, v: nat, list: seq<nat>, total: nat)
    ensures OpsRun(cl, v, list, [], total) && OpsList(list, []) == list
    ensures OpsBits(cl, []) == 0 && Drop(v, 0) == v
  {
  }

  lemma NoOtherOp(z: Table, cl: Lengths, v: nat, list: seq<nat>, op: LenOp, total: nat)
    requires z.Represents(cl) && OpAt(cl, v, op) && !CanExtend(list, op, total)
    ensures !GoesOn(cl, v, list, total)
  {
    forall o | OpAt(cl, v, o)
      ensures !CanExtend(list, o, total)
    {
      OpUnique(cl, v, o, op);
    }
  }

  /** The input ended within the header h that begins at stream v. */
  ghost predicate HeaderStarved(a: Zbuf, v: nat, used0: nat)
    reads a
  {
    a.PastEnd() && forall h :: DynHeaderAt(v, h) ==> a.used <= used0 + HeaderBits(h)
  }

  ghost predicate NoHeader(v: nat) {
    forall g :: !DynHeaderAt(v, g)
  }

  /** Reads the header and builds both tables. */
  method ComputeHuffmanCodes(a: Zbuf) returns (st: Status, ghost h: DynHeader)
    requires a.Valid() && a.Separate()
    modifies a`pos, a`numBits, a`codeBuffer, a`hitZeofOnce, a`used, a.zLength.Arrays(), a.zDistance.Arrays()
    ensures a.Valid() && a.Separate() && st in {Ok, BadLengths}
    ensures st == Ok ==> DynHeaderAt(old(a.Stream()), h)
    ensures st == Ok ==> a.zLength.Represents(LiteralLengths(h)) && a.zDistance.Represents(DistLengths(h))
    ensures st == Ok ==> a.Stream() == Drop(old(a.Stream()), HeaderBits(h))
    ensures st == Ok ==> a.used == old(a.used) + HeaderBits(h)
    ensures st != Ok ==> NoHeader(old(a.Stream())) || HeaderStarved(a, old(a.Stream()), old(a.used))
    ensures forall p: DynamicWriter.Plan, tail: nat ::
      p.Valid() && old(a.Stream()) == StreamOf(p.Pieces(), tail) ==> PlanRead(a, old(a.used), st, p, tail)
  {
    hide Zbuf.Stream, Zbuf.PastEnd, Drop, NoHeader, HeaderStarved, DynSizesAt, DynOpsAt, AfterSizes, PlanRead;
    hide HeaderBits, OpsList, Acceptable, FastTable, SymbolTable, BoundTable, Table.Shape, StreamOf;
    ghost var v, used0 := a.Stream(), a.used;
    var lencodes := new nat[286 + 32 + 137](_ => 0);
    var hlit, hdist;
    st, hlit, hdist, h := ReadHeader(a, lencodes);
    if st != Ok {
      PlansRead(a, v, used0, st, h);
      return;
    }
    SplitList(lencodes[..], h);
    var ok := BuildBoth(a, lencodes[..hlit], lencodes[hlit..hlit + hdist]);
    if !ok {
      BuildFailure(v, h);
      st := BadLengths;
    }
    PlansRead(a, v, used0, st, h);
  }

  /** The tables hold the codes of the plan and its tail comes next; or the input ended within the plan. */
  ghost predicate PlanRead(a: Zbuf, used0: nat, st: Status, p: DynamicWriter.Plan, tail: nat)
    requires p.Valid() && a.Valid() && a.Separate()
    reads a, a.zLength, a.zDistance, a.zLength.Arrays(), a.zDistance.Arrays()
  {
    if st == Ok then
      && a.zLength.Represents(p.ll) && a.zDistance.Represents(p.dl)
      && a.Stream() == tail && a.used == used0 + Width(p.Pieces())
    else a.PastEnd() && a.used <= used0 + Width(p.Pieces())
  }

  /** What reading a header has led to. */
  ghost predicate Outcome(a: Zbuf, v: nat, used0: nat, st: Status, h: DynHeader)
    requires a.Valid() && a.Separate()
    reads a, a.zLength, a.zDistance, a.zLength.Arrays(), a.zDistance.Arrays()
  {
    if st == Ok then
      && DynHeaderAt(v, h)
      && a.zLength.Represents(LiteralLengths(h)) && a.zDistance.Represents(DistLengths(h))
      && a.Stream() == Drop(v, HeaderBits(h)) && a.used == used0 + HeaderBits(h)
    else NoHeader(v) || HeaderStarved(a, v, used0)
  }

  lemma PlanIsRead(a: Zbuf, v: nat, used0: nat, st: Status, h: DynHeader, p: DynamicWriter.Plan, tail: nat)
    requires a.Valid() && a.Separate() && Outcome(a, v, used0, st, h) && p.Valid() && v == StreamOf(p.Pieces(), tail)
    ensures PlanRead(a, used0, st, p, tail)
  {
    hide Zbuf.Stream, Zbuf.PastEnd, Drop, DynHeaderAt, HeaderBits, Acceptable, StreamOf, Width, Table.Represents;
    hide LiteralLengths, DistLengths, Zbuf.Valid, Zbuf.Separate;
    DynamicWriter.HeaderWritten(p, tail);
    if st == Ok {
      DynamicWriter.HeaderRead(p, tail, h);
    }
  }

  lemma PlansRead(a: Zbuf, v: nat, used0: nat, st: Status, h: DynHeader)
    requires a.Valid() && a.Separate() && Outcome(a, v, used0, st, h)
    ensures forall p: DynamicWriter.Plan, tail: nat ::
      p.Valid() && v == StreamOf(p.Pieces(), tail) ==> PlanRead(a, used0, st, p, tail)
  {
    hide Outcome, PlanRead, StreamOf, Zbuf.Valid, Zbuf.Separate;
    forall p: DynamicWriter.Plan, tail: nat | p.Valid() && v == StreamOf(p.Pieces(), tail)
      ensures PlanRead(a, used0, st, p, tail)
    {
      PlanIsRead(a, v, used0, st, h, p, tail);
    }
  }

  lemma SplitList(codes: seq<nat>, h: DynHeader)
    requires h.hlit <= NSYMS && h.hdist <= 32 && h.hlit + h.hdist <= |codes|
    requires codes[..h.hlit + h.hdist] == OpsList([], h.ops) && AllLengths(OpsList([], h.ops))
    ensures IsLengths(codes[..h.hlit]) && IsLengths(codes[h.hlit..h.hlit + h.hdist])
    ensures codes[..h.hlit] == LiteralLengths(h) && codes[h.hlit..h.hlit + h.hdist] == DistLengths(h)
  {
    var list := OpsList([], h.ops);
    assert codes[..h.hlit] == list[..h.hlit];
    assert codes[h.hlit..h.hlit + h.hdist] == list[h.hlit..];
    forall i | 0 <= i < h.hlit
      ensures codes[i] <= 15
    {
      assert codes[i] == list[i];
    }
    forall i | h.hlit <= i < h.hlit + h.hdist
      ensures codes[i] <= 15
    {
      assert codes[i] == list[i];
    }
  }

  /** Everything in the header up to the two lists of lengths. */
  method ReadHeader(a: Zbuf, lencodes: array<nat>) returns (st: Status, hlit: nat, hdist: nat, ghost h: DynHeader)
    requires a.Valid() && lencodes.Length >= 320
    modifies a`pos, a`numBits, a`codeBuffer, a`hitZeofOnce, a`used, lencodes
    ensures a.Valid() && st in {Ok, BadLengths} && DynSizesAt(old(a.Stream()), h)
    ensures IsLengths(CodeLengthLengths(h.sizes)) && h.hlit == hlit <= 288 && h.hdist == hdist <= 32
    ensures st == Ok ==> DynOpsAt(AfterSizes(old(a.Stream()), h), h)
    ensures st == Ok ==> lencodes[..hlit + hdist] == OpsList([], h.ops) && AllLengths(OpsList([], h.ops))
    ensures st == Ok ==> a.Stream() == Drop(old(a.Stream()), HeaderBits(h)) && a.used == old(a.used) + HeaderBits(h)
    ensures st != Ok ==> NoHeader(old(a.Stream())) || HeaderStarved(a, old(a.Stream()), old(a.used))
  {
    hide NoHeader, HeaderStarved, ListBroken, OpsAt, DynHeaderAt, DynSizesAt, DynOpsAt, AfterSizes;
    hide HeaderBits, OpsBits, OpsList, Zbuf.Stream, Zbuf.PastEnd, Drop, AllLengths, CodeLengthLengths, IsLengths;
    hide Acceptable, OpsRun, Zbuf.Begun;
    ghost var v, used0 := a.Stream(), a.used;
    var cl;
    ghost var ops;
    hlit, hdist, cl, h := ReadFixedFields(a);
    ghost var v' := a.Stream();
    st, ops := ReadLengthList(a, cl, lencodes, hlit + hdist);
    SameBeginning(v, h, ops);
    h := h.(ops := ops);
    if st == Ok {
      HeaderRead(v, h);
    } else {
      ListFailure(v, h, used0, a);
    }
  }

  lemma SameBeginning(v: nat, h: DynHeader, ops: seq<LenOp>)
    requires DynSizesAt(v, h)
    ensures DynSizesAt(v, h.(ops := ops)) && AfterSizes(v, h.(ops := ops)) == AfterSizes(v, h)
    ensures IsLengths(CodeLengthLengths(h.sizes)) ==>
      HeaderBits(h.(ops := ops)) == 14 + 3 * |h.sizes| + OpsBits(CodeLengthLengths(h.sizes), ops)
  {
  }

  lemma HeaderRead(v: nat, h: DynHeader)
    requires DynSizesAt(v, h) && IsLengths(CodeLengthLengths(h.sizes)) && Acceptable(CodeLengthLengths(h.sizes))
    requires OpsAt(CodeLengthLengths(h.sizes), AfterSizes(v, h), h.ops, h.hlit + h.hdist)
    ensures DynOpsAt(AfterSizes(v, h), h) && AllLengths(OpsList([], h.ops))
    ensures Drop(AfterSizes(v, h), OpsBits(CodeLengthLengths(h.sizes), h.ops)) == Drop(v, HeaderBits(h))
  {
    hide Drop, Take, OpsBits, OpsList, Acceptable, Count, OpsRun;
    DropDrop(v, 14 + 3 * |h.sizes|, OpsBits(CodeLengthLengths(h.sizes), h.ops));
    OpsListValid(CodeLengthLengths(h.sizes), AfterSizes(v, h), [], h.ops, h.hlit + h.hdist);
  }

  method ReadFixedFields(a: Zbuf) returns (hlit: nat, hdist: nat, cl: seq<nat>, ghost h: DynHeader)
    requires a.Valid()
    modifies a`pos, a`numBits, a`codeBuffer, a`used
    ensures a.Valid() && DynSizesAt(old(a.Stream()), h) && h.ops == []
    ensures h.hlit == hlit <= 288 && h.hdist == hdist <= 32
    ensures |cl| == 19 && IsLengths(cl) && cl == CodeLengthLengths(h.sizes)
    ensures a.Stream() == AfterSizes(old(a.Stream()), h) && a.used == old(a.used) + 14 + 3 * |h.sizes|
  {
    ghost var v := a.Stream();
    var hclen;
    hlit, hdist, hclen := ReadCounts(a);
    ghost var sizes;
    cl, sizes := ReadSizes(a, hclen);
    h := DynHeader(hlit, hdist, sizes, []);
    DropDrop(v, 14, 3 * hclen);
    SizesValid(Drop(v, 14), sizes);
  }

  lemma ListFailure(v: nat, h: DynHeader, used0: nat, a: Zbuf)
    requires DynSizesAt(v, h) && IsLengths(CodeLengthLengths(h.sizes))
    requires ListBroken(CodeLengthLengths(h.sizes), AfterSizes(v, h), h.ops, h.hlit + h.hdist,
                        a.PastEnd() && a.used == used0 + HeaderBits(h))
    ensures NoHeader(v) || HeaderStarved(a, v, used0)
  {
    forall g | DynHeaderAt(v, g)
      ensures a.PastEnd() && a.used <= used0 + HeaderBits(g)
    {
      HeaderGoesOn(v, h, g);
    }
  }

  /** No code can be built for the lengths, or their instructions break off. */
  ghost predicate ListBroken(cl: Lengths, v: nat, ops: seq<LenOp>, total: nat, starved: bool) {
    !Acceptable(cl) || (OpsRun(cl, v, [], ops, total) && OpsFailure(cl, v, ops, total, starved))
  }

  lemma HeaderGoesOn(v: nat, h: DynHeader, g: DynHeader)
    requires DynSizesAt(v, h) && DynHeaderAt(v, g)
    ensures IsLengths(CodeLengthLengths(h.sizes)) && Acceptable(CodeLengthLengths(h.sizes))
    ensures var cl, v', total := CodeLengthLengths(h.sizes), AfterSizes(v, h), h.hlit + h.hdist;
      OpsRun(cl, v', [], h.ops, total) && |OpsList([], h.ops)| < total ==>
        HeaderBits(h) <= HeaderBits(g) && GoesOn(cl, Drop(v', OpsBits(cl, h.ops)), OpsList([], h.ops), total)
  {
    SameSizes(v, h, g);
    OpsGoOn(CodeLengthLengths(h.sizes), AfterSizes(v, h), g.ops, h.ops, h.hlit + h.hdist);
  }

  lemma OpsGoOn(cl: Lengths, v: nat, whole: seq<LenOp>, part: seq<LenOp>, total: nat)
    requires Acceptable(cl) && OpsAt(cl, v, whole, total)
    ensures OpsRun(cl, v, [], part, total) && |OpsList([], part)| < total ==>
      OpsBits(cl, part) <= OpsBits(cl, whole) && GoesOn(cl, Drop(v, OpsBits(cl, part)), OpsList([], part), total)
  {
    if OpsRun(cl, v, [], part, total) && |OpsList([], part)| < total {
      OpsPrefix(cl, v, [], whole, part, total);
    }
  }

  lemma BuildFailure(v: nat, h: DynHeader)
    requires DynSizesAt(v, h) && DynOpsAt(AfterSizes(v, h), h) && !DynLengthsOk(h)
    ensures NoHeader(v)
  {
    forall g | DynHeaderAt(v, g)
      ensures false
    {
      SameHeader(v, h, g);
    }
  }

  lemma ReadsSizes(v: nat, h: DynHeader, g: DynHeader)
    requires DynSizesAt(v, h) && DynSizesAt(v, g)
    ensures h.hlit == g.hlit && h.hdist == g.hdist && h.sizes == g.sizes && AfterSizes(v, h) == AfterSizes(v, g)
  {
    hide DynSizesAt, Drop;
    SameSizes(v, h, g);
  }

  lemma SameHeader(v: nat, h: DynHeader, g: DynHeader)
    requires DynSizesAt(v, h) && DynOpsAt(AfterSizes(v, h), h) && DynHeaderAt(v, g)
    ensures g == h
  {
    hide DynSizesAt, DynOpsAt, AfterSizes, DynLengthsOk;
    ReadsSizes(v, h, g);
    SameOps(AfterSizes(v, h), h, g);
  }

  method ReadCounts(a: Zbuf) returns (hlit: nat, hdist: nat, hclen: nat)
    requires a.Valid()
    modifies a`pos, a`numBits, a`codeBuffer, a`used
    ensures a.Valid() && a.Stream() == Drop(old(a.Stream()), 14) && a.used == old(a.used) + 14
    ensures hlit == 257 + Take(old(a.Stream()), 5) <= 288
    ensures hdist == 1 + Take(Drop(old(a.Stream()), 5), 5) <= 32
    ensures hclen == 4 + Take(Drop(old(a.Stream()), 10), 4) <= 19
  {
    ghost var v := a.Stream();
    hlit := a.Receive(5);
    hdist := a.Receive(5);
    hclen := a.Receive(4);
    DropDrop(v, 5, 5);
    DropDrop(v, 10, 4);
    TakeBound(v, 5);
    TakeBound(Drop(v, 5), 5);
    TakeBound(Drop(v, 10), 4);
    assert Pow2(5) == 32 && Pow2(4) == 16;
    hlit, hdist, hclen := hlit + 257, hdist + 1, hclen + 4;
  }

  /** Builds the code length table and reads the list with it. */
  method ReadLengthList(a: Zbuf, cl: seq<nat>, lencodes: array<nat>, total: nat)
    returns (st: Status, ghost ops: seq<LenOp>)
    requires a.Valid() && IsLengths(cl) && |cl| == 19 && total <= lencodes.Length
    modifies a`pos, a`numBits, a`codeBuffer, a`hitZeofOnce, a`used, lencodes
    ensures a.Valid() && st in {Ok, BadLengths}
    ensures st == Ok ==>
      Acceptable(cl) && OpsAt(cl, old(a.Stream()), ops, total) && lencodes[..total] == OpsList([], ops)
    ensures st == Ok ==>
      a.Stream() == Drop(old(a.Stream()), OpsBits(cl, ops)) && a.used == old(a.used) + OpsBits(cl, ops)
    ensures st != Ok ==>
      ListBroken(cl, old(a.Stream()), ops, total, a.PastEnd() && a.used == old(a.used) + OpsBits(cl, ops))
  {
    var z := new Table();
    var ok := z.Build(cl);
    if !ok {
      return BadLengths, [];
    }
    st, ops := ReadOps(a, z, cl, lencodes, total);
  }

  method BuildBoth(a: Zbuf, ll: Lengths, dl: Lengths) returns (ok: bool)
    requires a.Separate()
    modifies a.zLength.Arrays(), a.zDistance.Arrays()
    ensures ok <==> Acceptable(ll) && Acceptable(dl)
    ensures ok ==> a.zLength.Represents(ll) && a.zDistance.Represents(dl)
  {
    ok := a.zLength.Build(ll);
    if ok {
      ok := a.zDistance.Build(dl);
    }
  }
}
