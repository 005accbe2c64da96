/** Blocks and whole zlib streams (sections 2.2 of RFC 1950 and 3.2.3 to 3.2.7 of RFC 1951), again as
    facts about the stream number.  `used` counts the bits before the stream, which fixes where the
    next byte boundary lies. */
module ZlibFormat {
  import opened Bits
  import opened Canonical
  import opened ZHuffman
  import opened DeflateFormat
  import opened Runs

  // ----- stored blocks

  /** Bits to skip to reach a byte boundary. */
  function Pad(used: nat): (n: nat)
    ensures n < 8 && (used + n) % 8 == 0
  {
    (8 - used % 8) % 8
  }

  ghost predicate StoredAt(v: nat, used: nat, data: seq<byte>) {
    var w := Drop(v, Pad(used));
    && Take(w, 16) == |data|
    && Take(Drop(w, 16), 16) == 0xFFFF - |data|
    && Take(Drop(w, 32), 8 * |data|) == Le(data)
  }

  function StoredBits(used: nat, data: seq<byte>): nat {
    Pad(used) + 32 + 8 * |data|
  }

  lemma {:induction false} LeInjective(a: seq<byte>, b: seq<byte>)
    requires |a| == |b| && Le(a) == Le(b)
    ensures a == b
  {
    if a == [] {
    } else {
      LeInjective(a[1..], b[1..]);
      assert a == [a[0]] + a[1..];
      assert b == [b[0]] + b[1..];
    }
  }

  // ----- code length lists of dynamic blocks

  /** One instruction for building a list of code lengths. */
  datatype LenOp = One(n: nat) | Last(k: nat) | Short(k: nat) | Long(k: nat) {
    function Symbol(): nat {
      match this
      case One(n) => n
      case Last(_) => 16
      case Short(_) => 17
      case Long(_) => 18
    }

    function Extra(): nat {
      match this
      case One(_) => 0
      case Last(_) => 2
      case Short(_) => 3
      case Long(_) => 7
    }

    function Argument(): nat {
      match this
      case One(_) => 0
      case Last(k) => k
      case Short(k) => k
      case Long(k) => k
    }
  }

  function Repeat(x: nat, n: nat): (s: seq<nat>)
    ensures |s| == n && forall i :: 0 <= i < n ==> s[i] == x
  {
    seq(n, i => x)
  }

  ghost predicate OpAt(cl: Lengths, v: nat, op: LenOp) {
    && (op.One? ==> op.n < 16)
    && Matches(cl, op.Symbol(), v)
    && op.Argument() == Take(Drop(v, cl[op.Symbol()]), op.Extra())
  }

  function OpBits(cl: Lengths, op: LenOp): nat
    requires op.Symbol() < |cl|
  {
    cl[op.Symbol()] + op.Extra()
  }

  predicate CanExtend(list: seq<nat>, op: LenOp, total: nat) {
    (op.Last? ==> list != []) && |list| + |Added(list, op)| <= total
  }

  function Added(list: seq<nat>, op: LenOp): seq<nat> {
    match op
    case One(n) => [n]
    case Last(k) => Repeat(if list == [] then 0 else list[|list| - 1], 3 + k)
    case Short(k) => Repeat(0, 3 + k)
    case Long(k) => Repeat(0, 11 + k)
  }

  /** The stream begins with these instructions, each of which is still wanted and fits. */
  ghost predicate OpsRun(cl: Lengths, v: nat, list: seq<nat>, ops: seq<LenOp>, total: nat)
    decreases |ops|
  {
    ops == [] ||
    (|list| < total && OpAt(cl, v, ops[0]) && CanExtend(list, ops[0], total)
     && OpsRun(cl, Drop(v, OpBits(cl, ops[0])), list + Added(list, ops[0]), ops[1..], total))
  }

  function OpsList(list: seq<nat>, ops: seq<LenOp>): seq<nat>
    decreases |ops|
  {
    if ops == [] then list else OpsList(list + Added(list, ops[0]), ops[1..])
  }

  function OpsBits(cl: Lengths, ops: seq<LenOp>): nat {
    if ops == [] then 0
    else (if ops[0].Symbol() < |cl| then OpBits(cl, ops[0]) else 0) + OpsBits(cl, ops[1..])
  }

  /** The instructions build a list of exactly `total` lengths. */
  ghost predicate OpsAt(cl: Lengths, v: nat, ops: seq<LenOp>, total: nat) {
    OpsRun(cl, v, [], ops, total) && |OpsList([], ops)| == total
  }

  lemma {:induction false} OpsSnoc(cl: Lengths, v: nat, list: seq<nat>, ops: seq<LenOp>, op: LenOp, total: nat)
    requires OpsRun(cl, v, list, ops, total) && |OpsList(list, ops)| < total
    requires OpAt(cl, Drop(v, OpsBits(cl, ops)), op) && CanExtend(OpsList(list, ops), op, total)
    ensures OpsRun(cl, v, list, ops + [op], total)
    ensures OpsList(list, ops + [op]) == OpsList(list, ops) + Added(OpsList(list, ops), op)
    ensures OpsBits(cl, ops + [op]) == OpsBits(cl, ops) + OpBits(cl, op)
    decreases |ops|
  {
    if ops == [] {
      assert ops + [op] == [op];
      assert OpsRun(cl, Drop(v, OpBits(cl, op)), list + Added(list, op), [], total);
    } else {
      DropDrop(v, OpBits(cl, ops[0]), OpsBits(cl, ops[1..]));
      OpsSnoc(cl, Drop(v, OpBits(cl, ops[0])), list + Added(list, ops[0]), ops[1..], op, total);
      assert (ops + [op])[1..] == ops[1..] + [op];
    }
  }

  /** Of a complete list of instructions, any run is a beginning, and it goes on as the list does. */
  lemma {:induction false} OpsPrefix(cl: Lengths, v: nat, list: seq<nat>, whole: seq<LenOp>, part: seq<LenOp>,
                                     total: nat)
    requires Acceptable(cl)
    requires OpsRun(cl, v, list, whole, total) && |OpsList(list, whole)| == total
    requires OpsRun(cl, v, list, part, total)
    ensures part <= whole && OpsBits(cl, part) <= OpsBits(cl, whole)
    ensures part == whole <==> |OpsList(list, part)| == total
    ensures part != whole ==>
      var op := whole[|part|];
      && OpAt(cl, Drop(v, OpsBits(cl, part)), op) && CanExtend(OpsList(list, part), op, total)
      && OpsBits(cl, part) + OpBits(cl, op) <= OpsBits(cl, whole)
    decreases |part|
  {
    hide Acceptable, Take, Drop, Added, CanExtend;
    DropNothing(v);
    if part == [] {
    } else {
      OpsGrow(cl, v, list, part, total);
      assert whole != [];
      OpUnique(cl, v, part[0], whole[0]);
      var n := OpBits(cl, part[0]);
      OpsPrefix(cl, Drop(v, n), list + Added(list, part[0]), whole[1..], part[1..], total);
      DropDrop(v, n, OpsBits(cl, part[1..]));
      assert part == [part[0]] + part[1..];
      assert whole == [part[0]] + whole[1..];
    }
  }

  lemma {:induction false} OpsGrow(cl: Lengths, v: nat, list: seq<nat>, ops: seq<LenOp>, total: nat)
    requires OpsRun(cl, v, list, ops, total) && ops != []
    ensures |list| < total
  {
  }

  lemma OpUnique(cl: Lengths, v: nat, a: LenOp, b: LenOp)
    requires Acceptable(cl) && OpAt(cl, v, a) && OpAt(cl, v, b)
    ensures a == b
  {
    MatchUnique(cl, a.Symbol(), b.Symbol(), v);
  }

  lemma {:induction false} OpsListValid(cl: Lengths, v: nat, list: seq<nat>, ops: seq<LenOp>, total: nat)
    requires OpsRun(cl, v, list, ops, total)
    requires AllLengths(list)
    ensures AllLengths(OpsList(list, ops))
    decreases |ops|
  {
    if ops == [] {
    } else {
      var next := list + Added(list, ops[0]);
      forall i | 0 <= i < |next|
        ensures next[i] <= 15
      {
        if i >= |list| {
          assert next[i] == Added(list, ops[0])[i - |list|];
        }
      }
      OpsListValid(cl, Drop(v, OpBits(cl, ops[0])), next, ops[1..], total);
    }
  }

  predicate AllLengths(s: seq<nat>) {
    forall i :: 0 <= i < |s| ==> s[i] <= 15
  }

  // ----- the header of a dynamic block

  const LENGTH_ORDER: seq<nat> := [16, 17, 18, 0, 8, 7, 9, 6, 10, 5, 11, 4, 12, 3, 13, 2, 14, 1, 15]

  datatype DynHeader = DynHeader(hlit: nat, hdist: nat, sizes: seq<nat>, ops: seq<LenOp>)

  /** The lengths of the code length alphabet, listed in the order of RFC 1951. */
  function CodeLengthLengths(sizes: seq<nat>): (cl: seq<nat>)
    requires |sizes| <= 19
    ensures |cl| == 19
  {
    if sizes == [] then Repeat(0, 19)
    else
      var n := |sizes| - 1;
      CodeLengthLengths(sizes[..n])[OrderAt(n) := sizes[n]]
  }

  function OrderAt(i: nat): (s: nat)
    requires i < 19
    ensures s < 19
  {
    LENGTH_ORDER[i]
  }

  lemma {:induction false} CodeLengthLengthsValid(sizes: seq<nat>)
    requires |sizes| <= 19 && forall i :: 0 <= i < |sizes| ==> sizes[i] <= 7
    ensures forall i :: 0 <= i < 19 ==> CodeLengthLengths(sizes)[i] <= 7
  {
    if sizes == [] {
    } else {
      CodeLengthLengthsValid(sizes[..|sizes| - 1]);
    }
  }

  ghost predicate SizesAt(v: nat, sizes: seq<nat>) {
    forall i :: 0 <= i < |sizes| ==> sizes[i] == Take(Drop(v, 3 * i), 3)
  }

  lemma SizesValid(v: nat, sizes: seq<nat>)
    requires |sizes| <= 19 && SizesAt(v, sizes)
    ensures forall i :: 0 <= i < 19 ==> CodeLengthLengths(sizes)[i] <= 7
  {
    forall i | 0 <= i < |sizes|
      ensures sizes[i] <= 7
    {
      TakeBound(Drop(v, 3 * i), 3);
      assert Pow2(3) == 8;
    }
    CodeLengthLengthsValid(sizes);
  }

  ghost predicate DynHeaderAt(v: nat, h: DynHeader) {
    DynSizesAt(v, h) && DynOpsAt(AfterSizes(v, h), h) && DynLengthsOk(h)
  }

  /** The stream after the fixed-size fields and the code length lengths. */
  function AfterSizes(v: nat, h: DynHeader): nat {
    Drop(v, 14 + 3 * |h.sizes|)
  }

  ghost predicate DynSizesAt(v: nat, h: DynHeader) {
    && h.hlit == 257 + Take(v, 5) && h.hdist == 1 + Take(Drop(v, 5), 5)
    && |h.sizes| == 4 + Take(Drop(v, 10), 4) <= 19
    && SizesAt(Drop(v, 14), h.sizes)
  }

  ghost predicate DynOpsAt(v: nat, h: DynHeader) {
    && |h.sizes| <= 19
    && IsLengths(CodeLengthLengths(h.sizes)) && Acceptable(CodeLengthLengths(h.sizes))
    && OpsAt(CodeLengthLengths(h.sizes), v, h.ops, h.hlit + h.hdist)
  }

  /** The list splits into the lengths of two usable codes. */
  ghost predicate DynLengthsOk(h: DynHeader) {
    && h.hlit <= NSYMS && |OpsList([], h.ops)| == h.hlit + h.hdist && h.hdist <= 32
    && IsLengths(OpsList([], h.ops)[..h.hlit]) && IsLengths(OpsList([], h.ops)[h.hlit..])
    && Acceptable(LiteralLengths(h)) && Acceptable(DistLengths(h))
  }

  predicate IsLengths(s: seq<nat>) {
    |s| <= NSYMS && AllLengths(s)
  }

  function LiteralLengths(h: DynHeader): Lengths
    requires h.hlit <= |OpsList([], h.ops)| && IsLengths(OpsList([], h.ops)[..h.hlit])
  {
    OpsList([], h.ops)[..h.hlit]
  }

  function DistLengths(h: DynHeader): Lengths
    requires h.hlit <= |OpsList([], h.ops)| && IsLengths(OpsList([], h.ops)[h.hlit..])
  {
    OpsList([], h.ops)[h.hlit..]
  }

  function HeaderBits(h: DynHeader): nat
    requires |h.sizes| <= 19 && IsLengths(CodeLengthLengths(h.sizes))
  {
    14 + 3 * |h.sizes| + OpsBits(CodeLengthLengths(h.sizes), h.ops)
  }

  lemma SizesUnique(v: nat, a: seq<nat>, b: seq<nat>)
    requires |a| == |b| && SizesAt(v, a) && SizesAt(v, b)
    ensures a == b
  {
  }

  lemma SameSizes(v: nat, a: DynHeader, b: DynHeader)
    requires DynSizesAt(v, a) && DynSizesAt(v, b)
    ensures a.hlit == b.hlit && a.hdist == b.hdist && a.sizes == b.sizes
    ensures IsLengths(CodeLengthLengths(a.sizes))
  {
    SizesUnique(Drop(v, 14), a.sizes, b.sizes);
    SizesValid(Drop(v, 14), a.sizes);
  }

  lemma SameOps(v: nat, a: DynHeader, b: DynHeader)
    requires DynOpsAt(v, a) && DynOpsAt(v, b)
    requires a.hlit == b.hlit && a.hdist == b.hdist && a.sizes == b.sizes
    ensures a == b
  {
    OpsPrefix(CodeLengthLengths(a.sizes), v, [], a.ops, b.ops, a.hlit + a.hdist);
  }

  lemma DynHeaderUnique(v: nat, a: DynHeader, b: DynHeader)
    requires DynHeaderAt(v, a) && DynHeaderAt(v, b)
    ensures a == b
  {
    hide DynSizesAt, DynOpsAt, DynLengthsOk;
    SameSizes(v, a, b);
    SameOps(AfterSizes(v, a), a, b);
  }

  // ----- blocks

  datatype Block = Stored(data: seq<byte>) | Fixed(toks: seq<Token>) | Dynamic(h: DynHeader, toks: seq<Token>)

  /** The fixed code of section 3.2.6. */
  function FixedLength(i: nat): nat {
    if i <= 143 then 8 else if i <= 255 then 9 else if i <= 279 then 7 else 8
  }

  function FixedLiteralLengths(): (s: Lengths)
    ensures |s| == NSYMS && forall i :: 0 <= i < NSYMS ==> s[i] == FixedLength(i)
  {
    seq(NSYMS, i requires 0 <= i < NSYMS => FixedLength(i))
  }

  function FixedDistLengths(): (s: Lengths)
    ensures |s| == 32 && forall i :: 0 <= i < 32 ==> s[i] == 5
  {
    seq(32, i => 5)
  }

  /** The stream v, after `used` bits, begins with the block b, whose copies may reach into out. */
  ghost predicate BlockAt(v: nat, used: nat, out: seq<byte>, b: Block) {
    var kind, v3 := Take(Drop(v, 1), 2), Drop(v, 3);
    match b
    case Stored(data) => kind == 0 && StoredAt(v3, used + 3, data)
    case Fixed(toks) => kind == 1 && BlockBody(FixedLiteralLengths(), FixedDistLengths(), v3, out, toks)
    case Dynamic(h, toks) =>
      kind == 2 && DynHeaderAt(v3, h)
      && BlockBody(LiteralLengths(h), DistLengths(h), Drop(v3, HeaderBits(h)), out, toks)
  }

  ghost predicate IsFinal(v: nat) {
    Take(v, 1) == 1
  }

  ghost function BlockOut(v: nat, used: nat, out: seq<byte>, b: Block): (r: seq<byte>)
    requires BlockAt(v, used, out, b)
    ensures out <= r
  {
    match b
    case Stored(data) => out + data
    case Fixed(toks) => Expand(out, toks)
    case Dynamic(_, toks) => Expand(out, toks)
  }

  /** The compressed data of a block and its end mark. */
  ghost function BodyBits(ll: Lengths, dl: Lengths, v: nat, out: seq<byte>, toks: seq<Token>): nat
    requires BlockBody(ll, dl, v, out, toks)
  {
    BitLength(ll, dl, v, toks) + ll[END_OF_BLOCK]
  }

  ghost function BodyEnd(ll: Lengths, dl: Lengths, v: nat, out: seq<byte>, toks: seq<Token>): nat
    requires BlockBody(ll, dl, v, out, toks)
  {
    AfterSymbol(ll, END_OF_BLOCK, Rest(ll, dl, v, toks))
  }

  ghost function BlockBits(v: nat, used: nat, out: seq<byte>, b: Block): nat
    requires BlockAt(v, used, out, b)
  {
    var v3 := Drop(v, 3);
    3 + match b
        case Stored(data) => StoredBits(used + 3, data)
        case Fixed(toks) => BodyBits(FixedLiteralLengths(), FixedDistLengths(), v3, out, toks)
        case Dynamic(h, toks) =>
          var n := HeaderBits(h);
          n + BodyBits(LiteralLengths(h), DistLengths(h), Drop(v3, n), out, toks)
  }

  ghost function BlockEnd(v: nat, used: nat, out: seq<byte>, b: Block): nat
    requires BlockAt(v, used, out, b)
  {
    var v3 := Drop(v, 3);
    match b
    case Stored(data) => Drop(v3, StoredBits(used + 3, data))
    case Fixed(toks) => BodyEnd(FixedLiteralLengths(), FixedDistLengths(), v3, out, toks)
    case Dynamic(h, toks) => BodyEnd(LiteralLengths(h), DistLengths(h), Drop(v3, HeaderBits(h)), out, toks)
  }

  // ----- streams of blocks

  /** A position between blocks: the stream, the bits used and the output so far. */
  datatype Place = Place(v: nat, used: nat, out: seq<byte>)

  ghost predicate NextBlock(p: Place, b: Block) {
    BlockAt(p.v, p.used, p.out, b)
  }

  ghost function AfterBlock(p: Place, b: Block): (q: Place)
    requires NextBlock(p, b)
    ensures p.out <= q.out && p.used <= q.used
  {
    Place(BlockEnd(p.v, p.used, p.out, b), p.used + BlockBits(p.v, p.used, p.out, b), BlockOut(p.v, p.used, p.out, b))
  }

  ghost predicate PlainBlock(p: Place, b: Block) {
    NextBlock(p, b) && !IsFinal(p.v)
  }

  ghost function AfterPlain(p: Place, b: Block): Place {
    if NextBlock(p, b) then AfterBlock(p, b) else p
  }

  /** A run of blocks that are not final. */
  ghost predicate BlocksAt(p: Place, bs: seq<Block>) {
    Run(PlainBlock, AfterPlain, p, bs)
  }

  ghost function AfterBlocks(p: Place, bs: seq<Block>): (q: Place) {
    End(PlainBlock, AfterPlain, p, bs)
  }

  /** A zlib header this inflater accepts. */
  predicate HeaderOk(input: seq<byte>) {
    |input| > 2 && HeaderBytesOk(input[0], input[1])
  }

  predicate HeaderBytesOk(cmf: int, flg: int) {
    (cmf * 256 + flg) % 31 == 0 && flg / 32 % 2 == 0 && cmf % 16 == 8
  }

  /** The fields of the two bytes in section 2.2 of RFC 1950: the method is deflate, the first bits of the
      second byte are a check value, then comes the bit for a preset dictionary, not set, and a level. */
  predicate HeaderFields(cmf: int, flg: int, window: nat, level: nat, check: nat) {
    && window < 16 && level < 4 && check < 32
    && cmf == 16 * window + 8 && flg == 64 * level + check && MultipleOf31(256 * cmf + flg)
  }

  predicate MultipleOf31(n: int) {
    n % 31 == 0
  }

  lemma BytesOk(cmf: int, flg: int)
    requires MultipleOf31(256 * cmf + flg) && cmf % 16 == 8 && flg / 32 % 2 == 0
    ensures HeaderBytesOk(cmf, flg)
  {
  }

  lemma FieldBits(window: nat, level: nat, check: nat)
    requires check < 32
    ensures (16 * window + 8) % 16 == 8 && (64 * level + check) / 32 % 2 == 0
  {
    DivModUnique(16 * window + 8, 16, window, 8);
    DivModUnique(64 * level + check, 32, 2 * level, check);
  }

  /** Bytes with such fields are accepted ... */
  lemma FieldsAccepted(cmf: int, flg: int, window: nat, level: nat, check: nat)
    requires HeaderFields(cmf, flg, window, level, check)
    ensures HeaderBytesOk(cmf, flg)
  {
    hide MultipleOf31, HeaderBytesOk;
    FieldBits(window, level, check);
    BytesOk(cmf, flg);
  }

  /** ... and no others are. */
  lemma AcceptedFields(cmf: byte, flg: byte)
    requires HeaderBytesOk(cmf, flg)
    ensures HeaderFields(cmf, flg, cmf / 16, flg / 64, flg % 32)
  {
    DivDiv(flg, 32, 2);
    assert flg == 32 * (flg / 32) + flg % 32;
  }

  /** The first block begins after the two header bytes. */
  function Start(input: seq<byte>): Place
    requires HeaderOk(input)
  {
    Place(Le(input[2..]), 16, [])
  }

  /** The input, followed by zero bits, is a zlib stream: blocks bs, then the final block last. */
  ghost predicate ZlibStream(input: seq<byte>, bs: seq<Block>, last: Block) {
    && HeaderOk(input)
    && BlocksAt(Start(input), bs)
    && NextBlock(AfterBlocks(Start(input), bs), last)
    && IsFinal(AfterBlocks(Start(input), bs).v)
  }

  ghost function ZlibEnd(input: seq<byte>, bs: seq<Block>, last: Block): Place
    requires ZlibStream(input, bs, last)
  {
    AfterBlock(AfterBlocks(Start(input), bs), last)
  }

  // ----- a stream has one meaning

  lemma FixedAcceptable()
    ensures Acceptable(FixedLiteralLengths()) && Acceptable(FixedDistLengths())
  {
    FixedCounts();
  }

  lemma {:induction false} CountRun(lens: Lengths, s: nat, lo: nat, hi: nat)
    requires lo <= hi <= |lens|
    requires forall i :: lo <= i < hi ==> lens[i] == s
    ensures forall n :: lo <= n <= hi ==> Count(lens, s, n) == Count(lens, s, lo) + (n - lo)
    decreases hi
  {
    if lo >= hi {
    } else {
      CountRun(lens, s, lo, hi - 1);
      assert Count(lens, s, hi) == Count(lens, s, hi - 1) + 1;
    }
  }

  lemma {:induction false} CountGap(lens: Lengths, s: nat, lo: nat, hi: nat)
    requires lo <= hi <= |lens|
    requires forall i :: lo <= i < hi ==> lens[i] != s
    ensures forall n :: lo <= n <= hi ==> Count(lens, s, n) == Count(lens, s, lo)
    decreases hi
  {
    if lo >= hi {
    } else {
      CountGap(lens, s, lo, hi - 1);
      assert Count(lens, s, hi) == Count(lens, s, hi - 1);
    }
  }

  /** How many codes of each length the fixed code has, and each symbol's rank among them. */
  lemma FixedCounts()
    ensures var c := Hist(FixedLiteralLengths());
      forall s :: 1 <= s <= 16 ==>
        c[s] == if s == 7 then 24 else if s == 8 then 152 else if s == 9 then 112 else 0
    ensures var c := Hist(FixedDistLengths()); forall s :: 1 <= s <= 16 ==> c[s] == if s == 5 then 32 else 0
    ensures Acceptable(FixedLiteralLengths()) && Acceptable(FixedDistLengths())
  {
    var l, d := FixedLiteralLengths(), FixedDistLengths();
    forall s | 1 <= s <= 16
      ensures Count(l, s, NSYMS) == if s == 7 then 24 else if s == 8 then 152 else if s == 9 then 112 else 0
      ensures Count(d, s, 32) == if s == 5 then 32 else 0
    {
      FixedRank(s);
      if s == 5 { CountRun(d, 5, 0, 32); } else { CountGap(d, s, 0, 32); }
    }
    FixedFits(Hist(l));
    FixedDistFits(Hist(d));
  }

  lemma FixedFits(c: Counts)
    requires forall s :: 1 <= s <= 16 ==>
      c[s] == if s == 7 then 24 else if s == 8 then 152 else if s == 9 then 112 else 0
    ensures Fits(c, 15)
    ensures FirstCode(c, 7) == 0 && FirstCode(c, 8) == 48 && FirstCode(c, 9) == 400
  {
    assert FirstCode(c, 1) == 0 && FirstCode(c, 2) == 0 && FirstCode(c, 3) == 0 && FirstCode(c, 4) == 0;
    assert FirstCode(c, 5) == 0 && FirstCode(c, 6) == 0 && FirstCode(c, 7) == 0 && FirstCode(c, 8) == 48;
    assert FirstCode(c, 9) == 400 && FirstCode(c, 10) == 1024 && FirstCode(c, 11) == 2048 && FirstCode(c, 12) == 4096;
    assert FirstCode(c, 13) == 8192 && FirstCode(c, 14) == 16384 && FirstCode(c, 15) == 32768;
    Powers();
  }

  lemma FixedDistFits(c: Counts)
    requires forall s :: 1 <= s <= 16 ==> c[s] == if s == 5 then 32 else 0
    ensures Fits(c, 15)
    ensures FirstCode(c, 5) == 0
  {
    assert FirstCode(c, 1) == 0 && FirstCode(c, 2) == 0 && FirstCode(c, 3) == 0 && FirstCode(c, 4) == 0;
    assert FirstCode(c, 5) == 0 && FirstCode(c, 6) == 64 && FirstCode(c, 7) == 128 && FirstCode(c, 8) == 256;
    assert FirstCode(c, 9) == 512 && FirstCode(c, 10) == 1024 && FirstCode(c, 11) == 2048 && FirstCode(c, 12) == 4096;
    assert FirstCode(c, 13) == 8192 && FirstCode(c, 14) == 16384 && FirstCode(c, 15) == 32768;
    Powers();
  }

  lemma Powers()
    ensures Pow2(1) == 2 && Pow2(2) == 4 && Pow2(3) == 8 && Pow2(4) == 16 && Pow2(5) == 32
    ensures Pow2(6) == 64 && Pow2(7) == 128 && Pow2(8) == 256 && Pow2(9) == 512 && Pow2(10) == 1024
    ensures Pow2(11) == 2048 && Pow2(12) == 4096 && Pow2(13) == 8192 && Pow2(14) == 16384 && Pow2(15) == 32768
  {
  }

  lemma FixedRank(s: nat)
    ensures var l := FixedLiteralLengths();
      && (s == 8 ==> forall n :: 0 <= n <= 144 ==> Count(l, 8, n) == n)
      && (s == 8 ==> forall n :: 280 <= n <= 288 ==> Count(l, 8, n) == 144 + n - 280)
      && (s == 9 ==> (forall n :: 144 <= n <= 256 ==> Count(l, 9, n) == n - 144) && Count(l, 9, NSYMS) == 112)
      && (s == 7 ==> (forall n :: 256 <= n <= 280 ==> Count(l, 7, n) == n - 256) && Count(l, 7, NSYMS) == 24)
      && (s < 7 || s > 9 ==> Count(l, s, NSYMS) == 0)
  {
    if s == 8 {
      FixedRank8();
    } else if s == 9 {
      FixedRank9();
    } else if s == 7 {
      FixedRank7();
    } else {
      CountGap(FixedLiteralLengths(), s, 0, 288);
    }
  }

  lemma FixedRank8()
    ensures forall n :: 0 <= n <= 144 ==> Count(FixedLiteralLengths(), 8, n) == n
    ensures forall n :: 280 <= n <= 288 ==> Count(FixedLiteralLengths(), 8, n) == 144 + n - 280
  {
    var l := FixedLiteralLengths();
    CountRun(l, 8, 0, 144);
    CountGap(l, 8, 144, 280);
    CountRun(l, 8, 280, 288);
  }

  lemma FixedRank9()
    ensures forall n :: 144 <= n <= 256 ==> Count(FixedLiteralLengths(), 9, n) == n - 144
    ensures Count(FixedLiteralLengths(), 9, NSYMS) == 112
  {
    var l := FixedLiteralLengths();
    CountGap(l, 9, 0, 144);
    CountRun(l, 9, 144, 256);
    CountGap(l, 9, 256, 288);
  }

  lemma FixedRank7()
    ensures forall n :: 256 <= n <= 280 ==> Count(FixedLiteralLengths(), 7, n) == n - 256
    ensures Count(FixedLiteralLengths(), 7, NSYMS) == 24
  {
    var l := FixedLiteralLengths();
    CountGap(l, 7, 0, 256);
    CountRun(l, 7, 256, 280);
    CountGap(l, 7, 280, 288);
  }

  lemma StoredUnique(v: nat, used: nat, a: seq<byte>, b: seq<byte>)
    requires StoredAt(v, used, a) && StoredAt(v, used, b)
    ensures a == b
  {
    LeInjective(a, b);
  }

  lemma BodyUnique(ll: Lengths, dl: Lengths, v: nat, out: seq<byte>, a: seq<Token>, b: seq<Token>)
    requires Acceptable(ll) && Acceptable(dl) && BlockBody(ll, dl, v, out, a) && BlockBody(ll, dl, v, out, b)
    ensures a == b
  {
    ParseIsPrefix(ll, dl, v, out, a, b);
    ParseIsPrefix(ll, dl, v, out, b, a);
  }

  lemma BlockUnique(v: nat, used: nat, out: seq<byte>, a: Block, b: Block)
    requires BlockAt(v, used, out, a) && BlockAt(v, used, out, b)
    ensures a == b
  {
    var v3 := Drop(v, 3);
    match a
    case Stored(data) => StoredUnique(v3, used + 3, data, b.data);
    case Fixed(toks) =>
      FixedAcceptable();
      BodyUnique(FixedLiteralLengths(), FixedDistLengths(), v3, out, toks, b.toks);
    case Dynamic(h, toks) =>
      DynHeaderUnique(v3, h, b.h);
      BodyUnique(LiteralLengths(h), DistLengths(h), Drop(v3, HeaderBits(h)), out, toks, b.toks);
  }
}
