/** The compressor that Appendix F of GIF89a describes, and that the decoder undoes it: greedy matching
    against a table that gets one string for each code written, codes of growing width, clear codes
    whenever the compressor likes. */
module GifCompress {
  import opened Bits
  import opened BitPieces
  import opened ByteSource
  import opened GifLzw

  // ----- the compressor

  /** The strings of one index, and two places for the clear and the end code. */
  function FirstTable(cs: nat): (t: seq<seq<byte>>)
    requires cs <= 8
    ensures |t| == Pow2(cs) + 2
  {
    EightBits(cs);
    seq<seq<byte>>(Pow2(cs) + 2, c requires 0 <= c < Pow2(cs) + 2 => if c < Pow2(cs) then [c] else [])
  }

  lemma EightBits(cs: nat)
    requires cs <= 8
    ensures Pow2(cs) <= 256
  {
    Pow2Mono(cs, 8);
    assert Pow2(8) == 256;
  }

  /** The longest string among the first n that begins the indices. */
  function Longest(table: seq<seq<byte>>, px: seq<byte>, n: nat): (c: int)
    requires n <= |table|
    ensures -1 <= c < n && (c >= 0 ==> table[c] != [] && table[c] <= px)
    ensures forall i :: 0 <= i < n && table[i] != [] && table[i] <= px ==> c >= 0 && |table[i]| <= |table[c]|
  {
    if n == 0 then -1
    else
      var best, last := Longest(table, px, n - 1), table[n - 1];
      if last != [] && last <= px && (best < 0 || |table[best]| < |last|) then n - 1 else best
  }

  /** The least number of bits, from w up to twelve, that holds the number. */
  function LeastWidth(w: nat, top: nat): nat
    decreases 12 - w
  {
    if w >= 12 || top < Pow2(w) then w else LeastWidth(w + 1, top)
  }

  /** The width of a code after k others: they have made k strings, or would have if the table had no end. */
  function WidthAfter(cs: nat, k: nat): nat {
    LeastWidth(cs + 1, Pow2(cs) + 1 + k)
  }

  /** The table after a string is written and while there are more indices: with that string and the next
      index, unless it is full. */
  function Grown(table: seq<seq<byte>>, s: seq<byte>, rest: seq<byte>): seq<seq<byte>> {
    if rest != [] && |table| < 4096 then table + [s + [rest[0]]] else table
  }

  /** The codes of the indices px after k others; all of them have to begin with some string. */
  function Codes(cs: nat, table: seq<seq<byte>>, px: seq<byte>, k: nat): seq<Piece>
    decreases |px|
  {
    var c := Longest(table, px, |table|);
    if c < 0 then []
    else
      var rest := px[|table[c]|..];
      [Piece(c, WidthAfter(cs, k))] + Codes(cs, Grown(table, table[c], rest), rest, k + 1)
  }

  function Coded(cs: nat, px: seq<byte>): seq<Piece>
    requires cs <= 8
  {
    Codes(cs, FirstTable(cs), px, 0)
  }

  /** Parts of the indices one after the other, each after a clear code, and then the end code; k codes have
      been written since the last clear code. */
  function Parts(cs: nat, parts: seq<seq<byte>>, k: nat): seq<Piece>
    requires cs <= 8
    decreases |parts|
  {
    if parts == [] then [Piece(Pow2(cs) + 1, WidthAfter(cs, k))]
    else
      [Piece(Pow2(cs), WidthAfter(cs, k))] + Coded(cs, parts[0]) + Parts(cs, parts[1..], |Coded(cs, parts[0])|)
  }

  /** The data of a frame. */
  function Compress(cs: nat, parts: seq<seq<byte>>): seq<byte>
    requires cs <= 8
  {
    Packed(Parts(cs, parts, 0))
  }

  // ----- the decoder follows

  predicate Indices(cs: nat, px: seq<byte>) {
    forall i :: 0 <= i < |px| ==> px[i] < Pow2(cs)
  }

  /** The table is ahead of the dictionary by the string that the next index completes. */
  ghost predicate Mirrors(cs: nat, st: Lzw, table: seq<seq<byte>>, px: seq<byte>) {
    && Ok(cs, st) && st.prev >= 0 && px != []
    && table == if |st.dict| < 4096 then st.dict + [st.dict[st.prev] + [px[0]]] else st.dict
  }

  /** After k codes since the last clear code, at least one. */
  ghost predicate After(cs: nat, st: Lzw, k: nat) {
    Ok(cs, st) && Snug(cs, st) && st.prev >= 0 && st.count == Pow2(cs) + 1 + k && k > 0
  }

  /** The longest that fits is a root at least. */
  lemma Begins(cs: nat, table: seq<seq<byte>>, px: seq<byte>)
    requires cs <= 8 && Indices(cs, px) && px != [] && Pow2(cs) + 2 <= |table|
    requires table[..Pow2(cs) + 2] == FirstTable(cs)
    ensures var c := Longest(table, px, |table|);
      c >= 0 && c != Pow2(cs) && c != Pow2(cs) + 1 && 0 < |table[c]| <= |px| && table[c] == px[..|table[c]|]
  {
    var i := px[0];
    assert table[i] == FirstTable(cs)[i] == [i];
    assert table[Pow2(cs)] == FirstTable(cs)[Pow2(cs)] && table[Pow2(cs) + 1] == FirstTable(cs)[Pow2(cs) + 1];
  }

  /** The decoder makes the string that the compressor made, also when the code names that very string. */
  lemma SameEntry(cs: nat, st: Lzw, table: seq<seq<byte>>, px: seq<byte>, c: nat)
    requires cs <= 8 && Mirrors(cs, st, table, px) && c < |table| && table[c] != [] && table[c] <= px
    requires c != Clear(cs) && c != Clear(cs) + 1
    ensures c <= st.count && Extend(cs, st, c) == table && c < |table|
  {
    hide Pow2;
    assert table[c][0] == px[0];
  }

  lemma {:induction false} LeastIs(w0: nat, w: nat, top: nat)
    requires w0 <= w <= 12 && (w < 12 ==> top < Pow2(w)) && (w > w0 ==> Pow2(w - 1) <= top)
    ensures LeastWidth(w0, top) == w
    decreases w - w0
  {
    if w0 == w {
    } else {
      Pow2Mono(w0, w - 1);
      LeastIs(w0 + 1, w, top);
    }
  }

  /** The decoder expects the width that the compressor uses, and the code fits it. */
  lemma SameWidth(cs: nat, st: Lzw, k: nat, c: nat)
    requires 2 <= cs <= 8 && (After(cs, st, k) || (k == 0 && st == Start(cs))) && c <= st.count && c < 4096
    ensures st.width == WidthAfter(cs, k) && c < Pow2(st.width)
  {
    hide Roots, Pow2;
    TwelveBits();
    if k == 0 {
      Pow2Mono(2, cs);
      Doubles(cs);
    } else {
      LeastIs(cs + 1, st.width, st.count);
    }
  }

  lemma Doubles(cs: nat)
    requires cs >= 2 && Pow2(2) <= Pow2(cs)
    ensures Pow2(cs + 1) == 2 * Pow2(cs) && Pow2(cs) >= 4
  {
    assert Pow2(2) == 4;
  }

  /** How the decoding goes on after a code. */
  function Then(px: seq<byte>, rest: Result): Result {
    Result(px + rest.px, rest.problem)
  }

  lemma DecodeStep(cs: nat, cleared: bool, st: Lzw, c: nat, rest: nat, n: nat)
    requires Ok(cs, st) && c < Pow2(st.width) && n >= st.width
    ensures c < Limit(cs) && (Read(cs, cleared, st, c).Emit? ==> Ok(cs, Read(cs, cleared, st, c).st))
    ensures Decode(cs, cleared, st, c + Shl(rest, st.width), n) ==
      match Read(cs, cleared, st, c)
      case Stop => Result([], Fine)
      case Bad(why) => Result([], Broken(why))
      case Emit(next, px) =>
        Then(px, Decode(cs, cleared || c == Clear(cs), next, rest, n - st.width))
  {
    hide Read, Ok, Shl, Take, Drop, Pow2;
    SplitLow(c, rest, st.width);
    CodeBound(cs, st, c + Shl(rest, st.width));
    ReadOk(cs, cleared, st, c);
  }

  /** One code after the first. */
  lemma NextCode(cs: nat, st: Lzw, table: seq<seq<byte>>, px: seq<byte>, k: nat) returns (next: Lzw)
    requires 2 <= cs <= 8 && After(cs, st, k) && Mirrors(cs, st, table, px) && st.count < 8192
    requires Indices(cs, px) && Pow2(cs) + 2 <= |table| && table[..Pow2(cs) + 2] == FirstTable(cs)
    ensures var c := Longest(table, px, |table|);
      && 0 <= c < Limit(cs) && 0 < |table[c]| <= |px| && table[c] == px[..|table[c]|]
      && Read(cs, true, st, c) == Emit(next, table[c]) && After(cs, next, k + 1)
      && var rest := px[|table[c]|..];
         rest != [] ==> Mirrors(cs, next, Grown(table, table[c], rest), rest)
  {
    hide Pow2, Roots, FirstTable, Longest;
    TwelveBits();
    var c := Longest(table, px, |table|);
    Begins(cs, table, px);
    SameEntry(cs, st, table, px, c);
    next := Widen(st.(dict := table, count := st.count + 1, prev := c));
    ReadOk(cs, true, st, c);
    ReadSnug(cs, true, st, c);
  }

  /** The first code after a clear code. */
  lemma FirstCode(cs: nat, px: seq<byte>) returns (next: Lzw)
    requires 2 <= cs <= 8 && px != [] && Indices(cs, px)
    ensures var t := FirstTable(cs);
      var c := Longest(t, px, |t|);
      && 0 <= c < Pow2(cs) && 0 < |t[c]| <= |px| && t[c] == px[..|t[c]|] && c < Limit(cs)
      && Ok(cs, Start(cs)) && Read(cs, true, Start(cs), c) == Emit(next, t[c]) && After(cs, next, 1)
      && var rest := px[|t[c]|..];
         rest != [] ==> Mirrors(cs, next, Grown(t, t[c], rest), rest)
  {
    hide Pow2, Longest;
    TwelveBits();
    EightBits(cs);
    StartOk(cs);
    StartSnug(cs);
    ClearBound(cs);
    var t := FirstTable(cs);
    var c := Longest(t, px, |t|);
    assert t[..Pow2(cs) + 2] == t;
    Begins(cs, t, px);
    assert Roots(cs) == t;
    next := Widen(Start(cs).(prev := c));
    ReadOk(cs, true, Start(cs), c);
    ReadSnug(cs, true, Start(cs), c);
  }

  /** How many codes the decoder takes between clear codes: its count of entries goes on beyond the last one
      it can use, and ends at 8192. */
  function MostCodes(cs: nat): nat
    requires cs <= 8
  {
    EightBits(cs);
    8191 - Pow2(cs)
  }

  /** What the decoder makes of the codes ps of px, from state st, with rest to follow. */
  ghost predicate Follows(cs: nat, st: Lzw, px: seq<byte>, k: nat, ps: seq<Piece>, rest: nat, n: nat, end: Lzw)
    requires cs <= 8 && Ok(cs, st) && n >= Width(ps)
  {
    var r := Decode(cs, true, st, StreamOf(ps, rest), n);
    if k + |ps| <= MostCodes(cs) then
      Reaches(cs, end, k + |ps|) && r == Then(px, Decode(cs, true, end, rest, n - Width(ps)))
    else r.problem == Broken(TooManyCodes)
  }

  /** The state after k codes since the last clear code. */
  ghost predicate Reaches(cs: nat, st: Lzw, k: nat) {
    Ok(cs, st) && if k == 0 then st == Start(cs) else After(cs, st, k)
  }

  lemma NoCodes(cs: nat, table: seq<seq<byte>>, k: nat)
    ensures Codes(cs, table, [], k) == []
  {
  }

  lemma SomeCodes(cs: nat, table: seq<seq<byte>>, px: seq<byte>, k: nat, c: nat)
    requires c == Longest(table, px, |table|)
    ensures var more := px[|table[c]|..];
      Codes(cs, table, px, k) == [Piece(c, WidthAfter(cs, k))] + Codes(cs, Grown(table, table[c], more), more, k + 1)
  {
  }

  lemma FirstPiece(p: Piece, tail: seq<Piece>, rest: nat)
    ensures StreamOf([p] + tail, rest) == p.code + Shl(StreamOf(tail, rest), p.n)
    ensures Width([p] + tail) == p.n + Width(tail)
  {
    assert ([p] + tail)[1..] == tail;
  }

  lemma NothingFollows(cs: nat, st: Lzw, k: nat, rest: nat, n: nat)
    requires cs <= 8 && Reaches(cs, st, k) && k <= MostCodes(cs)
    ensures Follows(cs, st, [], k, [], rest, n, st)
  {
    hide Decode;
    assert [] + Decode(cs, true, st, rest, n).px == Decode(cs, true, st, rest, n).px;
  }

  /** The code c, which stands for s, and then the others. */
  lemma CodeFollows(cs: nat, st: Lzw, next: Lzw, k: nat, c: nat, s: seq<byte>, more: seq<byte>, tail: seq<Piece>,
                    rest: nat, n: nat, end: Lzw)
    requires cs <= 8 && Ok(cs, st) && Ok(cs, next) && c < Pow2(st.width) && c < Limit(cs) && c != Clear(cs)
    requires Read(cs, true, st, c) == Emit(next, s) && n >= st.width + Width(tail)
    requires Follows(cs, next, more, k + 1, tail, rest, n - st.width, end)
    ensures n >= Width([Piece(c, st.width)] + tail)
    ensures Follows(cs, st, s + more, k, [Piece(c, st.width)] + tail, rest, n, end)
  {
    hide Pow2, Decode, After, Read, StreamOf, Width, Ok, Shl;
    FirstPiece(Piece(c, st.width), tail, rest);
    DecodeStep(cs, true, st, c, StreamOf(tail, rest), n);
    if k + 1 + |tail| <= MostCodes(cs) {
      var r := Decode(cs, true, end, rest, n - st.width - Width(tail));
      assert s + (more + r.px) == s + more + r.px;
    }
  }

  lemma OneTooMany(cs: nat, st: Lzw, px: seq<byte>, k: nat, c: nat, tail: seq<Piece>, rest: nat, n: nat)
    requires cs <= 8 && Ok(cs, st) && After(cs, st, k) && k == MostCodes(cs)
    requires c < Pow2(st.width) && c < Limit(cs) && c <= st.count && c != Clear(cs) && c != Clear(cs) + 1
    requires n >= Width([Piece(c, st.width)] + tail)
    ensures Follows(cs, st, px, k, [Piece(c, st.width)] + tail, rest, n, st)
  {
    hide Pow2, Decode, StreamOf, Width, Shl;
    FirstPiece(Piece(c, st.width), tail, rest);
    DecodeStep(cs, true, st, c, StreamOf(tail, rest), n);
  }

  lemma GrownOk(cs: nat, table: seq<seq<byte>>, s: seq<byte>, more: seq<byte>)
    requires cs <= 8 && Pow2(cs) + 2 <= |table| && table[..Pow2(cs) + 2] == FirstTable(cs)
    ensures var t := Grown(table, s, more); Pow2(cs) + 2 <= |t| && t[..Pow2(cs) + 2] == FirstTable(cs)
  {
    hide Pow2, FirstTable;
  }

  /** After the first code. */
  lemma {:induction false} CodesRead(cs: nat, st: Lzw, table: seq<seq<byte>>, px: seq<byte>, k: nat, rest: nat, n: nat)
    returns (end: Lzw)
    requires 2 <= cs <= 8 && After(cs, st, k) && (px != [] ==> Mirrors(cs, st, table, px)) && k <= MostCodes(cs)
    requires Indices(cs, px) && Pow2(cs) + 2 <= |table| && table[..Pow2(cs) + 2] == FirstTable(cs)
    requires n >= Width(Codes(cs, table, px, k))
    ensures Follows(cs, st, px, k, Codes(cs, table, px, k), rest, n, end)
    decreases |px|
  {
    hide Pow2, Roots, FirstTable, Longest, Decode, Mirrors, Read, WidthAfter, StreamOf, Width, Codes, Grown, Follows;
    if px == [] {
      NoCodes(cs, table, k);
      NothingFollows(cs, st, k, rest, n);
      end := st;
    } else {
      Begins(cs, table, px);
      var c := Longest(table, px, |table|);
      var s, more := table[c], px[|table[c]|..];
      var tail := Codes(cs, Grown(table, s, more), more, k + 1);
      SomeCodes(cs, table, px, k, c);
      CodeInRange(cs, st, table, px, k, c);
      FirstPiece(Piece(c, st.width), tail, rest);
      if k == MostCodes(cs) {
        end := st;
        OneTooMany(cs, st, px, k, c, tail, rest, n);
      } else {
        var next := NextCode(cs, st, table, px, k);
        GrownOk(cs, table, s, more);
        end := CodesRead(cs, next, Grown(table, s, more), more, k + 1, rest, n - st.width);
        CodeFollows(cs, st, next, k, c, s, more, tail, rest, n, end);
        assert px == s + more;
      }
    }
  }

  lemma CodeInRange(cs: nat, st: Lzw, table: seq<seq<byte>>, px: seq<byte>, k: nat, c: nat)
    requires 2 <= cs <= 8 && After(cs, st, k) && Mirrors(cs, st, table, px)
    requires c < |table| && table[c] != [] && table[c] <= px && c != Clear(cs) && c != Clear(cs) + 1
    ensures c <= st.count && c < 4096 && c < Limit(cs) && st.width == WidthAfter(cs, k) && c < Pow2(st.width)
  {
    hide Pow2, WidthAfter;
    SameEntry(cs, st, table, px, c);
    SameWidth(cs, st, k, c);
  }

  /** All codes of the indices px, directly after a clear code. */
  lemma CodedRead(cs: nat, px: seq<byte>, rest: nat, n: nat) returns (end: Lzw)
    requires 2 <= cs <= 8 && Indices(cs, px) && Ok(cs, Start(cs)) && n >= Width(Coded(cs, px))
    ensures Follows(cs, Start(cs), px, 0, Coded(cs, px), rest, n, end)
  {
    hide Pow2, Roots, FirstTable, Longest, Decode, Mirrors, Read, WidthAfter, StreamOf, Width, Codes, Grown, Follows;
    var t := FirstTable(cs);
    EightBits(cs);
    if px == [] {
      NoCodes(cs, t, 0);
      NothingFollows(cs, Start(cs), 0, rest, n);
      end := Start(cs);
    } else {
      var c := Longest(t, px, |t|);
      var next := FirstCode(cs, px);
      var s, more := t[c], px[|t[c]|..];
      var tail := Codes(cs, Grown(t, s, more), more, 1);
      SomeCodes(cs, t, px, 0, c);
      SameWidth(cs, Start(cs), 0, c);
      FirstPiece(Piece(c, Start(cs).width), tail, rest);
      assert t[..Pow2(cs) + 2] == t;
      GrownOk(cs, t, s, more);
      end := CodesRead(cs, next, Grown(t, s, more), more, 1, rest, n - Start(cs).width);
      CodeFollows(cs, Start(cs), next, 0, c, s, more, tail, rest, n, end);
      assert px == s + more;
    }
  }

  function Joined(parts: seq<seq<byte>>): seq<byte> {
    if parts == [] then [] else parts[0] + Joined(parts[1..])
  }

  /** No part needs more codes than the decoder takes. */
  predicate Short(cs: nat, parts: seq<seq<byte>>)
    requires cs <= 8
  {
    forall i :: 0 <= i < |parts| ==> |Coded(cs, parts[i])| <= MostCodes(cs)
  }

  /** What the decoder makes of parts that all have few enough codes, or of ones that have not. */
  ghost predicate Means(cs: nat, parts: seq<seq<byte>>, r: Result)
    requires cs <= 8
  {
    if Short(cs, parts) then r == Result(Joined(parts), Fine) else r.problem == Broken(TooManyCodes)
  }

  lemma MeansMore(cs: nat, parts: seq<seq<byte>>, r: Result)
    requires cs <= 8 && parts != [] && |Coded(cs, parts[0])| <= MostCodes(cs) && Means(cs, parts[1..], r)
    ensures Means(cs, parts, Then(parts[0], r))
  {
    hide MostCodes, Coded;
    if Short(cs, parts[1..]) {
      forall i | 0 <= i < |parts| ensures |Coded(cs, parts[i])| <= MostCodes(cs) {
        assert i > 0 ==> parts[i] == parts[1..][i - 1];
      }
    } else {
      var i :| 0 <= i < |parts[1..]| && |Coded(cs, parts[1..][i])| > MostCodes(cs);
      assert parts[i + 1] == parts[1..][i];
    }
  }

  lemma MeansNothing(cs: nat)
    requires cs <= 8
    ensures Means(cs, [], Result([], Fine))
  {
  }

  lemma ClearFits(cs: nat, st: Lzw, k: nat)
    requires 2 <= cs <= 8 && Reaches(cs, st, k)
    ensures Clear(cs) + 1 <= st.count && Clear(cs) + 1 < 4096
  {
    EightBits(cs);
  }

  lemma FollowsOn(cs: nat, px: seq<byte>, ps: seq<Piece>, rest: nat, n: nat, end: Lzw)
    requires cs <= 8 && Ok(cs, Start(cs)) && n >= Width(ps) && |ps| <= MostCodes(cs)
    requires Follows(cs, Start(cs), px, 0, ps, rest, n, end)
    ensures Reaches(cs, end, |ps|)
    ensures Decode(cs, true, Start(cs), StreamOf(ps, rest), n) == Then(px, Decode(cs, true, end, rest, n - Width(ps)))
  {
    hide Decode, Reaches, StreamOf, Width;
  }

  lemma FollowsNot(cs: nat, parts: seq<seq<byte>>, rest: nat, n: nat, end: Lzw)
    requires cs <= 8 && parts != [] && Ok(cs, Start(cs))
    requires var ps := Coded(cs, parts[0]);
      n >= Width(ps) && |ps| > MostCodes(cs) && Follows(cs, Start(cs), parts[0], 0, ps, rest, n, end)
    ensures Means(cs, parts, Decode(cs, true, Start(cs), StreamOf(Coded(cs, parts[0]), rest), n))
  {
    hide Decode, Reaches, StreamOf, Width, Coded;
  }

  lemma {:induction false} PartsRead(cs: nat, cleared: bool, st: Lzw, parts: seq<seq<byte>>, k: nat, rest: nat, n: nat)
    requires 2 <= cs <= 8 && Reaches(cs, st, k) && (forall i :: 0 <= i < |parts| ==> Indices(cs, parts[i]))
    requires n >= Width(Parts(cs, parts, k))
    ensures Means(cs, parts, Decode(cs, cleared, st, StreamOf(Parts(cs, parts, k), rest), n))
    decreases |parts|
  {
    hide Pow2, Decode, Coded, StreamOf, Width, Shl, MostCodes, Follows, WidthAfter, Means, Indices;
    StartOk(cs);
    ClearFits(cs, st, k);
    SameWidth(cs, st, k, Clear(cs));
    SameWidth(cs, st, k, Clear(cs) + 1);
    if parts == [] {
      FirstPiece(Piece(Clear(cs) + 1, st.width), [], rest);
      assert Parts(cs, parts, k) == [Piece(Clear(cs) + 1, st.width)] + [];
      DecodeStep(cs, cleared, st, Clear(cs) + 1, StreamOf([], rest), n);
      MeansNothing(cs);
    } else {
      var first, clear := Coded(cs, parts[0]), Piece(Clear(cs), st.width);
      var tail := Parts(cs, parts[1..], |first|);
      assert Parts(cs, parts, k) == [clear] + (first + tail);
      FirstPiece(clear, first + tail, rest);
      StreamAppend(first, tail, rest);
      DecodeStep(cs, cleared, st, Clear(cs), StreamOf(first + tail, rest), n);
      var end := CodedRead(cs, parts[0], StreamOf(tail, rest), n - st.width);
      var r := Decode(cs, true, Start(cs), StreamOf(first + tail, rest), n - st.width);
      if |first| <= MostCodes(cs) {
        FollowsOn(cs, parts[0], first, StreamOf(tail, rest), n - st.width, end);
        PartsRead(cs, true, end, parts[1..], |first|, rest, n - st.width - Width(first));
        MeansMore(cs, parts, Decode(cs, true, end, StreamOf(tail, rest), n - st.width - Width(first)));
      } else {
        FollowsNot(cs, parts, StreamOf(tail, rest), n - st.width, end);
      }
      assert [] + r.px == r.px;
    }
  }

  // ----- the codes fit their widths

  lemma {:induction false} LeastFits(w: nat, top: nat)
    requires w <= 12
    ensures var r := LeastWidth(w, top); r <= 12 && (top < Pow2(r) || r == 12)
    decreases 12 - w
  {
    if w < 12 && top >= Pow2(w) {
      LeastFits(w + 1, top);
    }
  }

  lemma CodeFits(cs: nat, k: nat, c: nat)
    requires cs <= 8 && c <= Pow2(cs) + 1 + k && c < 4096
    ensures Piece(c, WidthAfter(cs, k)).Fits()
  {
    hide Pow2, LeastWidth;
    TwelveBits();
    LeastFits(cs + 1, Pow2(cs) + 1 + k);
  }

  lemma GrownSize(table: seq<seq<byte>>, s: seq<byte>, rest: seq<byte>)
    ensures |Grown(table, s, rest)| <= |table| + 1 && (|table| <= 4096 ==> |Grown(table, s, rest)| <= 4096)
  {
  }

  lemma NoneFits(cs: nat, table: seq<seq<byte>>, px: seq<byte>, k: nat)
    requires Longest(table, px, |table|) < 0
    ensures AllFit(Codes(cs, table, px, k))
  {
  }

  lemma {:induction false} CodesFit(cs: nat, table: seq<seq<byte>>, px: seq<byte>, k: nat)
    requires cs <= 8 && |table| <= 4096 && |table| <= Pow2(cs) + 2 + k
    ensures AllFit(Codes(cs, table, px, k))
    decreases |px|
  {
    hide Pow2, WidthAfter, Longest, Piece.Fits, Codes, Grown, AllFit;
    var c := Longest(table, px, |table|);
    if c < 0 {
      NoneFits(cs, table, px, k);
    } else {
      var rest := px[|table[c]|..];
      var t := Grown(table, table[c], rest);
      CodeFits(cs, k, c);
      SomeCodes(cs, table, px, k, c);
      GrownSize(table, table[c], rest);
      CodesFit(cs, t, rest, k + 1);
      FitMore(Piece(c, WidthAfter(cs, k)), Codes(cs, t, rest, k + 1));
    }
  }

  lemma {:induction false} PartsFit(cs: nat, parts: seq<seq<byte>>, k: nat)
    requires cs <= 8
    ensures AllFit(Parts(cs, parts, k))
    decreases |parts|
  {
    hide Pow2, WidthAfter, FirstTable, Codes;
    EightBits(cs);
    CodeFits(cs, k, Pow2(cs));
    CodeFits(cs, k, Pow2(cs) + 1);
    if parts == [] {
    } else {
      CodesFit(cs, FirstTable(cs), parts[0], 0);
      PartsFit(cs, parts[1..], |Coded(cs, parts[0])|);
    }
  }

  /** Decoding gives back the indices, whatever they are and wherever clear codes stand, unless more codes
      than the decoder takes stand without a clear code; then it says so. */
  lemma RoundTrip(cs: nat, parts: seq<seq<byte>>)
    requires 2 <= cs <= 8 && forall i :: 0 <= i < |parts| ==> Indices(cs, parts[i])
    ensures
      var r := DecodeData(cs, Compress(cs, parts));
      if forall i :: 0 <= i < |parts| ==> |Coded(cs, parts[i])| <= MostCodes(cs) then
        r == Result(Joined(parts), Fine)
      else r.problem == Broken(TooManyCodes)
  {
    hide Parts, Coded, MostCodes, Indices, Joined, Decode, Pow2;
    var ps, n := Parts(cs, parts, 0), 8 * |Compress(cs, parts)|;
    PartsFit(cs, parts, 0);
    LePacked(ps);
    StartOk(cs);
    PartsRead(cs, false, Start(cs), parts, 0, 0, n);
    assert Means(cs, parts, DecodeData(cs, Compress(cs, parts)));
  }

  // ----- the data in sub-blocks

  /** Chunks of one to 255 bytes, each behind its length, and an empty one at the end. */
  function Blocks(chunks: seq<seq<byte>>): seq<byte>
    requires forall i :: 0 <= i < |chunks| ==> 0 < |chunks[i]| < 256
  {
    if chunks == [] then [0] else [|chunks[0]|] + chunks[0] + Blocks(chunks[1..])
  }

  lemma {:induction false} ChunkRead(input: seq<byte>, pos: nat, len: nat)
    requires pos + len <= |input|
    ensures Data(input, pos, len) == input[pos..pos + len] + Data(input, pos + len, 0)
    decreases len
  {
    if len == 0 {
    } else {
      assert Data(input, pos, len) == [input[pos]] + Data(input, pos + 1, len - 1);
      hide Data;
      ChunkRead(input, pos + 1, len - 1);
      assert input[pos..pos + len] == [input[pos]] + input[pos + 1..pos + len];
    }
  }

  lemma FirstChunk(input: seq<byte>, pos: nat, c: seq<byte>, more: seq<byte>)
    requires pos <= |input| && |c| < 256 && [|c|] + c + more <= input[pos..]
    ensures var next := pos + 1 + |c|;
      next <= |input| && input[pos] == |c| && input[pos + 1..next] == c && more <= input[next..]
  {
    var b, rest := [|c|] + c + more, input[pos..];
    assert rest[0] == b[0] && rest[1..1 + |c|] == b[1..1 + |c|] == c && b[1 + |c|..] == more <= rest[1 + |c|..];
    assert rest[1..1 + |c|] == input[pos + 1..pos + 1 + |c|] && rest[1 + |c|..] == input[pos + 1 + |c|..];
  }

  lemma BlockStep(input: seq<byte>, pos: nat, c: seq<byte>)
    requires 0 < |c| < 256 && pos + 1 + |c| <= |input|
    requires input[pos] == |c| && input[pos + 1..pos + 1 + |c|] == c
    ensures var next := pos + 1 + |c|;
      Data(input, pos, 0) == c + Data(input, next, 0) && DataEnd(input, pos, 0) == DataEnd(input, next, 0)
  {
    NewBlock(input, pos);
    hide Data, DataEnd;
    ChunkRead(input, pos + 1, |c|);
    SkipBlock(input, pos + 1, |c|);
  }

  lemma {:induction false} BlocksRead(input: seq<byte>, pos: nat, chunks: seq<seq<byte>>)
    requires forall i :: 0 <= i < |chunks| ==> 0 < |chunks[i]| < 256
    requires pos <= |input| && Blocks(chunks) <= input[pos..]
    ensures Data(input, pos, 0) == Joined(chunks) && DataEnd(input, pos, 0) == pos + |Blocks(chunks)|
    decreases |chunks|
  {
    hide Data, DataEnd;
    if chunks == [] {
      assert input[pos] == Blocks([])[0];
      NewBlock(input, pos);
    } else {
      var c, more := chunks[0], chunks[1..];
      FirstChunk(input, pos, c, Blocks(more));
      BlockStep(input, pos, c);
      BlocksRead(input, pos + 1 + |c|, more);
    }
  }

  /** A frame's code size and the compressed indices, cut into sub-blocks anywhere: the indices to be drawn
      are those compressed, and reading ends after the last sub-block. */
  lemma FrameRead(input: seq<byte>, pos: nat, cs: byte, px: seq<byte>, chunks: seq<seq<byte>>)
    requires 2 <= cs <= 8 && Indices(cs, px) && |Coded(cs, px)| <= MostCodes(cs)
    requires forall i :: 0 <= i < |chunks| ==> 0 < |chunks[i]| < 256
    requires Joined(chunks) == Compress(cs, [px])
    requires pos <= |input| && [cs] + Blocks(chunks) <= input[pos..]
    ensures At(input, pos) == cs
    ensures DecodeData(cs, Data(input, Next(input, pos), 0)) == Result(px, Fine)
    ensures DataEnd(input, Next(input, pos), 0) == pos + 1 + |Blocks(chunks)|
  {
    hide Compress, Coded, MostCodes, Indices, Decode, Data, DataEnd;
    assert input[pos] == ([cs] + Blocks(chunks))[0];
    assert Blocks(chunks) == ([cs] + Blocks(chunks))[1..] <= input[pos..][1..] == input[pos + 1..];
    BlocksRead(input, pos + 1, chunks);
    RoundTrip(cs, [px]);
    assert [px][1..] == [] && Joined([px]) == px;
  }
}
