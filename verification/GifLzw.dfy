/** The pixel data of a GIF frame as GIF89a describes it: sub-blocks of bytes, codes of growing width,
    and a dictionary of strings (Appendix F). */
module GifLzw {
  import opened Bits
  import opened ByteSource

  // ----- sub-blocks

  /** The data bytes still to come, len of them in the current sub-block. */
  function Data(input: seq<byte>, pos: nat, len: nat): seq<byte>
    decreases Remaining(input, pos), len
  {
    if len > 0 then [At(input, pos)] + Data(input, Next(input, pos), len - 1)
    else if At(input, pos) == 0 then []
    else Data(input, Next(input, pos), At(input, pos))
  }

  /** The position after the empty sub-block that ends the data, or the end of the input. */
  function DataEnd(input: seq<byte>, pos: nat, len: nat): (e: nat)
    ensures e <= |input|
    decreases Remaining(input, pos), len
  {
    if len > 0 then DataEnd(input, Next(input, pos), len - 1)
    else if pos >= |input| then |input|
    else if input[pos] == 0 then pos + 1
    else DataEnd(input, pos + 1, input[pos])
  }

  /** The bits in hand and those of the data still to come, least significant first. */
  function Stream(input: seq<byte>, pos: nat, len: nat, bits: nat, valid: nat): nat {
    bits + Shl(Le(Data(input, pos, len)), valid)
  }

  function StreamBits(input: seq<byte>, pos: nat, len: nat, valid: nat): nat {
    valid + 8 * |Data(input, pos, len)|
  }

  lemma NewBlock(input: seq<byte>, pos: nat)
    ensures var b, p := At(input, pos), Next(input, pos);
      if b == 0 then Data(input, pos, 0) == [] && DataEnd(input, pos, 0) == Clip(input, p)
      else Data(input, pos, 0) == Data(input, p, b) && DataEnd(input, pos, 0) == DataEnd(input, p, b)
  {
  }

  lemma NewBlockStream(input: seq<byte>, pos: nat, bits: nat, valid: nat)
    requires At(input, pos) > 0
    ensures var b, p := At(input, pos), Next(input, pos);
      && Stream(input, pos, 0, bits, valid) == Stream(input, p, b, bits, valid)
      && StreamBits(input, pos, 0, valid) == StreamBits(input, p, b, valid)
  {
    NewBlock(input, pos);
  }

  lemma NextByte(input: seq<byte>, pos: nat, len: nat, bits: nat, valid: nat)
    requires len > 0 && bits < Pow2(valid)
    ensures var b, p := At(input, pos), Next(input, pos);
      && Or(bits, Shl(b, valid)) < Pow2(valid + 8)
      && Stream(input, p, len - 1, Or(bits, Shl(b, valid)), valid + 8) == Stream(input, pos, len, bits, valid)
      && StreamBits(input, p, len - 1, valid + 8) == StreamBits(input, pos, len, valid)
      && DataEnd(input, p, len - 1) == DataEnd(input, pos, len)
  {
    hide Or, Shl;
    var rest := Data(input, Next(input, pos), len - 1);
    FillStep(bits, valid, At(input, pos), Le(rest));
    assert Data(input, pos, len)[1..] == rest;
  }

  lemma CutCode(input: seq<byte>, pos: nat, len: nat, bits: nat, valid: nat, n: nat)
    requires bits < Pow2(valid) && n <= valid
    ensures Take(bits, n) == Take(Stream(input, pos, len, bits, valid), n)
    ensures Drop(bits, n) < Pow2(valid - n)
    ensures Stream(input, pos, len, Drop(bits, n), valid - n) == Drop(Stream(input, pos, len, bits, valid), n)
    ensures StreamBits(input, pos, len, valid - n) == StreamBits(input, pos, len, valid) - n
  {
    hide Take, Drop, Shl, Pow2;
    ConsumeStep(bits, n, valid, Le(Data(input, pos, len)));
  }

  lemma {:induction false} SkipBlock(input: seq<byte>, pos: nat, len: nat)
    ensures DataEnd(input, pos, len) == DataEnd(input, pos + len, 0)
    decreases len
  {
    if len == 0 {
    } else {
      SkipBlock(input, Next(input, pos), len - 1);
    }
  }

  // ----- the dictionary

  /** The dictionary of strings, how many entries would exist without the limit of the code width, the
      previous code, and the width of the next code. */
  datatype Lzw = Lzw(dict: seq<seq<byte>>, count: nat, prev: int, width: nat)

  function Clear(cs: nat): nat {
    Pow2(cs)
  }

  /** Codes have at most twelve bits, except that a frame may start with thirteen. */
  function Limit(cs: nat): nat {
    if cs <= 11 then 4096 else 8192
  }

  function Roots(cs: nat): (d: seq<seq<byte>>)
    ensures |d| == Clear(cs) + 2
    ensures forall c :: 0 <= c < Clear(cs) ==> d[c] == [c % 256]
  {
    seq<seq<byte>>(Clear(cs) + 2, c requires 0 <= c < Clear(cs) + 2 => if c < Clear(cs) then [c % 256] else [])
  }

  function Start(cs: nat): Lzw {
    Lzw(Roots(cs), Clear(cs) + 2, -1, cs + 1)
  }

  predicate Usable(cs: nat, dict: seq<seq<byte>>, c: int) {
    0 <= c < |dict| && c != Clear(cs) && c != Clear(cs) + 1
  }

  ghost predicate Ok(cs: nat, st: Lzw) {
    && cs <= 12 && 0 < st.width <= 13 && (cs <= 11 ==> st.width <= 12)
    && Clear(cs) + 2 <= |st.dict| && st.count <= 8192
    && |st.dict| == (if st.count < Limit(cs) then st.count else Limit(cs))
    && (forall c :: Usable(cs, st.dict, c) ==> st.dict[c] != [])
    && (st.prev == -1 || Usable(cs, st.dict, st.prev))
  }

  datatype Problem = BadCodeSize | NoClearCode | TooManyCodes | IllegalCode
  datatype Step = Emit(st: Lzw, px: seq<byte>) | Stop | Bad(why: Problem)

  /** The next code gets wider when the entries made so far fill the width. */
  function Widen(st: Lzw): Lzw {
    if Take(st.count, st.width) == 0 && st.count <= 0xFFF then st.(width := st.width + 1) else st
  }

  /** A code the dictionary has, or is about to have: the previous string and one more byte. */
  function Extend(cs: nat, st: Lzw, code: nat): (d: seq<seq<byte>>)
    requires Ok(cs, st) && st.prev >= 0 && code <= st.count && code != Clear(cs) && code != Clear(cs) + 1
    ensures st.dict <= d && |d| <= |st.dict| + 1 && (|st.dict| < Limit(cs) ==> |d| == st.count + 1)
  {
    var prev := st.dict[st.prev];
    var byte := if code < |st.dict| then st.dict[code][0] else prev[0];
    if |st.dict| < Limit(cs) then st.dict + [prev + [byte]] else st.dict
  }

  /** The entry made is the previous string and the first index of the string that the code names, which may
      be that entry. */
  lemma NewEntry(cs: nat, st: Lzw, code: nat)
    requires Ok(cs, st) && st.prev >= 0 && code <= st.count < Limit(cs) && code != Clear(cs) && code != Clear(cs) + 1
    ensures var d := Extend(cs, st, code);
      && st.dict <= d && |d| == |st.dict| + 1 && d[code] != []
      && d[|st.dict|] == st.dict[st.prev] + [d[code][0]]
  {
    var d := Extend(cs, st, code);
    assert d[code] == if code < |st.dict| then st.dict[code] else d[|st.dict|];
    assert Usable(cs, st.dict, st.prev);
  }

  function Read(cs: nat, cleared: bool, st: Lzw, code: nat): Step
    requires Ok(cs, st) && code < Limit(cs)
  {
    if code == Clear(cs) then Emit(Start(cs), [])
    else if code == Clear(cs) + 1 then Stop
    else if code > st.count then Bad(IllegalCode)
    else if !cleared then Bad(NoClearCode)
    else if st.prev < 0 then
      if code == st.count then Bad(IllegalCode)
      else Emit(Widen(st.(prev := code)), st.dict[code])
    else if st.count == 8192 then Bad(TooManyCodes)
    else
      var d := Extend(cs, st, code);
      Emit(Widen(st.(dict := d, count := st.count + 1, prev := code)), d[code])
  }

  lemma ReadOk(cs: nat, cleared: bool, st: Lzw, code: nat)
    requires Ok(cs, st) && code < Limit(cs)
    ensures Read(cs, cleared, st, code).Emit? ==> Ok(cs, Read(cs, cleared, st, code).st)
  {
    hide Pow2;
    TwelveBits();
    ClearBound(cs);
    StartOk(cs);
    WidenOk(st.count, st.width);
    WidenOk(st.count + 1, st.width);
  }

  lemma TwelveBits()
    ensures Pow2(11) == 2048 && Pow2(12) == 4096 && Pow2(13) == 8192
  {
    assert Pow2(4) == 16 && Pow2(8) == 256;
  }

  lemma ClearBound(cs: nat)
    requires cs <= 12
    ensures 0 < Clear(cs) && Clear(cs) + 2 <= Limit(cs)
  {
    TwelveBits();
    Pow2Mono(cs, if cs <= 11 then 11 else 12);
  }

  lemma StartOk(cs: nat)
    requires cs <= 12
    ensures Ok(cs, Start(cs))
  {
    ClearBound(cs);
  }

  /** A width of twelve bits never grows. */
  lemma WidenOk(count: nat, width: nat)
    ensures width >= 12 && 0 < count <= 0xFFF ==> Take(count, width) != 0
  {
    if width >= 12 && count <= 0xFFF {
      TwelveBits();
      Pow2Mono(12, width);
      TakeSmall(count, width);
    }
  }

  /** How the data went wrong, if it did, and the indices produced until then. */
  datatype Result = Result(px: seq<byte>, problem: Verdict)
  datatype Verdict = Fine | Broken(why: Problem)

  /** Decodes the first n bits of v.  Running out of data is no error. */
  function Decode(cs: nat, cleared: bool, st: Lzw, v: nat, n: nat): Result
    requires Ok(cs, st)
    decreases n
  {
    if n < st.width then Result([], Fine)
    else
      var code := Take(v, st.width);
      CodeBound(cs, st, v);
      ReadOk(cs, cleared, st, code);
      match Read(cs, cleared, st, code)
      case Stop => Result([], Fine)
      case Bad(why) => Result([], Broken(why))
      case Emit(next, px) =>
        var rest := Decode(cs, cleared || code == Clear(cs), next, Drop(v, st.width), n - st.width);
        Result(px + rest.px, rest.problem)
  }

  /** What the data bytes of a frame with code size cs mean. */
  function DecodeData(cs: nat, data: seq<byte>): Result
    requires cs <= 12
  {
    StartOk(cs);
    Decode(cs, false, Start(cs), Le(data), 8 * |data|)
  }

  /** The whole decoding is what has been produced and the decoding of the rest. */
  ghost predicate Leaves(whole: Result, done: seq<byte>, rest: Result) {
    whole == Result(done + rest.px, rest.problem)
  }

  lemma LeavesStep(whole: Result, done: seq<byte>, cs: nat, cleared: bool, st: Lzw, v: nat, n: nat)
    requires Ok(cs, st) && n >= st.width && Leaves(whole, done, Decode(cs, cleared, st, v, n))
    ensures var code := Take(v, st.width);
      && code < Limit(cs)
      && match Read(cs, cleared, st, code)
         case Stop => whole == Result(done, Fine)
         case Bad(why) => whole == Result(done, Broken(why))
         case Emit(next, px) =>
           Ok(cs, next)
           && Leaves(whole, done + px, Decode(cs, cleared || code == Clear(cs), next, Drop(v, st.width), n - st.width))
  {
    CodeBound(cs, st, v);
    ReadOk(cs, cleared, st, Take(v, st.width));
    hide Read, Ok, Take, Drop;
    if Read(cs, cleared, st, Take(v, st.width)).Emit? {
      var e := Read(cs, cleared, st, Take(v, st.width));
      var rest := Decode(cs, cleared || Take(v, st.width) == Clear(cs), e.st, Drop(v, st.width), n - st.width);
      assert done + (e.px + rest.px) == done + e.px + rest.px;
    } else {
      assert done + [] == done;
    }
  }

  lemma LeavesNothing(whole: Result, done: seq<byte>, cs: nat, cleared: bool, st: Lzw, v: nat, n: nat)
    requires Ok(cs, st) && n < st.width && Leaves(whole, done, Decode(cs, cleared, st, v, n))
    ensures whole == Result(done, Fine)
  {
    assert done + [] == done;
  }

  lemma CodeBound(cs: nat, st: Lzw, v: nat)
    requires Ok(cs, st)
    ensures Take(v, st.width) < Limit(cs)
  {
    TwelveBits();
    TakeBound(v, st.width);
    Pow2Mono(st.width, if cs <= 11 then 12 else 13);
  }

  // ----- the width of the codes

  /** Code sizes of two to eleven: the width is the least that can express the next entry, from
      cs + 1 bits up to twelve. */
  ghost predicate Snug(cs: nat, st: Lzw) {
    && cs < st.width <= 12
    && (st.width < 12 ==> st.count < Pow2(st.width))
    && (st.width > cs + 1 ==> Pow2(st.width - 1) <= st.count)
  }

  lemma StartSnug(cs: nat)
    requires 2 <= cs <= 11
    ensures Snug(cs, Start(cs))
  {
    Pow2Mono(2, cs);
    assert Pow2(2) == 4;
  }

  /** The rule of the decoder keeps the width snug, wherever the stream of codes leads. */
  lemma ReadSnug(cs: nat, cleared: bool, st: Lzw, code: nat)
    requires 2 <= cs <= 11 && Ok(cs, st) && Snug(cs, st) && code < Limit(cs)
    requires Read(cs, cleared, st, code).Emit?
    ensures Snug(cs, Read(cs, cleared, st, code).st)
  {
    hide Widen, Roots, Extend;
    StartSnug(cs);
    if st.prev < 0 {
      WidenSnug(cs, st.(prev := code));
    } else if code <= st.count && code != Clear(cs) && code != Clear(cs) + 1 {
      WidenSnug(cs, st.(dict := Extend(cs, st, code), count := st.count + 1, prev := code));
    }
  }

  lemma WidenSnug(cs: nat, st: Lzw)
    requires 2 <= cs < st.width <= 12 && st.count > 0
    requires st.width < 12 ==> st.count <= Pow2(st.width)
    requires st.width > cs + 1 ==> Pow2(st.width - 1) <= st.count
    ensures Snug(cs, Widen(st))
  {
    TwelveBits();
    WidenOk(st.count, st.width);
    if st.width < 12 {
      Pow2Mono(st.width, 11);
      if st.count == Pow2(st.width) {
        ShlIsMul(1, st.width);
        SplitLow(0, 1, st.width);
      } else {
        TakeSmall(st.count, st.width);
      }
    }
  }
}
