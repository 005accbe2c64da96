/** The GIF raster loop: codes are cut out of the sub-blocks as they arrive, strings are chains of table
    entries, and their pixels are drawn from the first to the last by recursion. */
module GifRaster {
  import opened Bits
  import opened ByteSource
  import opened GifFrame
  import opened GifLzw
  import ImageRows

  datatype Entry = Entry(prefix: int, first: byte, suffix: byte)

  /** Entry c of the table stands for its string in the dictionary. */
  ghost predicate EntryOk(cs: nat, dict: seq<seq<byte>>, codes: seq<Entry>, c: int)
    requires |dict| <= |codes| && 0 <= c < |dict|
  {
    var e, s := codes[c], dict[c];
    && s != [] && e.first == s[0]
    && if e.prefix < 0 then s == [e.suffix]
       else e.prefix < c && Usable(cs, dict, e.prefix) && s == dict[e.prefix] + [e.suffix]
  }

  ghost predicate TableOk(cs: nat, dict: seq<seq<byte>>, codes: seq<Entry>) {
    |dict| <= |codes| && forall c :: Usable(cs, dict, c) ==> EntryOk(cs, dict, codes, c)
  }

  class Gif {
    const area: Area
    const colors: Colors
    const out: array<byte>
    const history: array<byte>
    const codes: array<Entry>
    const lineSize: nat
    const startX: nat
    const startY: nat
    const maxX: nat
    const maxY: nat
    var curX: nat
    var curY: nat
    var step: nat
    var parse: nat
    ghost var cursor: Cursor

    /** The fields set from an image descriptor, and the buffers of the screen. */
    constructor (a: Area, cols: Colors, o: array<byte>, h: array<byte>, interlaced: bool)
      requires a.Ok() && o != h && o.Length == 4 * h.Length && h.Length == a.width * a.height
      ensures Valid() && area == a && colors == cols && out == o && history == h && fresh(codes)
      ensures cursor == Beginning(a, interlaced)
    {
      hide Area.Ok, Area.RowStart;
      area, colors, out, history := a, cols, o, h;
      var table := new Entry[8192](_ => Entry(0, 0, 0));
      codes := table;
      lineSize := 4 * a.width;
      startX, maxX := 4 * a.x, 4 * a.x + 4 * a.w;
      startY := a.y * (4 * a.width);
      maxY := a.y * (4 * a.width) + a.h * (4 * a.width);
      curX := 4 * a.x;
      curY := if a.w == 0 then a.y * (4 * a.width) + a.h * (4 * a.width) else a.y * (4 * a.width);
      step := if interlaced then 8 * (4 * a.width) else 4 * a.width;
      parse := if interlaced then 3 else 0;
      cursor := Beginning(a, interlaced);
      Corners(a);
    }

    /** The fields stand for the cursor. */
    ghost predicate Valid()
      reads this
    {
      && area.Ok() && out != history && out.Length == 4 * history.Length && history.Length == area.width * area.height
      && codes.Length == 8192
      && lineSize == 4 * area.width && startX == 4 * area.x && maxX == startX + 4 * area.w
      && startY == 4 * area.RowStart(0) && maxY == 4 * area.RowStart(area.h)
      && curX == 4 * (area.x + cursor.col) && curY == 4 * area.RowStart(cursor.row)
      && step == 4 * (cursor.step * area.width) && parse == cursor.parse
      && cursor.step > 0 && (cursor.row < area.h ==> cursor.col < area.w)
    }

    ghost function Now(): (cv: Canvas)
      requires Valid()
      reads this, out, history
      ensures Fits(area, cv)
    {
      Canvas(out[..], history[..], cursor)
    }

    /** The row test of the source, in units of rows. */
    lemma Below()
      requires Valid()
      ensures cursor.row < area.h ==> area.width > 0
      ensures area.width > 0 ==> (curY >= maxY <==> cursor.row >= area.h)
      ensures cursor.row >= area.h ==> curY >= maxY
    {
      var w := area.width;
      if cursor.row >= area.h {
        MulMono(area.y + area.h, area.y + cursor.row, w);
      } else {
        MulMono(area.y + cursor.row + 1, area.y + area.h, w);
        ImageRows.MulNext(area.y + cursor.row, w);
      }
    }

    /** Draws the string of a code, its prefix first. */
    method OutGifCode(code: nat, ghost cs: nat, ghost dict: seq<seq<byte>>)
      requires Valid() && TableOk(cs, dict, codes[..]) && Usable(cs, dict, code)
      modifies this, out, history
      ensures Valid() && Now() == Plot(area, colors, old(Now()), dict[code])
      decreases code
    {
      assert EntryOk(cs, dict, codes[..], code);
      ghost var s, e := dict[code], codes[code];
      if codes[code].prefix >= 0 {
        OutGifCode(codes[code].prefix, cs, dict);
        PlotAppend(area, colors, old(Now()), dict[e.prefix], [e.suffix]);
      }
      DrawSuffix(codes[code].suffix);
    }

    method DrawSuffix(suffix: byte)
      requires Valid()
      modifies this, out, history
      ensures Valid() && Now() == Plot(area, colors, old(Now()), [suffix])
    {
      Below();
      if curY >= maxY {
        return;
      }
      PixelInside(area, cursor.row, cursor.col);
      var idx := curX + curY;
      ghost var q, before := area.Pixel(cursor.row, cursor.col), Now();
      assert idx == 4 * q;
      history[idx / 4] := 1;
      var c := 4 * suffix as int;
      if colors[c + 3] > 128 {
        out[idx] := colors[c + 2];
        out[idx + 1] := colors[c + 1];
        out[idx + 2] := colors[c];
        out[idx + 3] := colors[c + 3];
      }
      assert out[..] == Paint(before.out, q, colors, suffix);
      assert history[..] == before.history[q := 1];
      Advance();
      assert [suffix][1..] == [];
    }

    method Advance()
      requires Valid() && cursor.row < area.h
      modifies this
      ensures Valid() && cursor == NextSpot(old(cursor), area.w, area.h)
    {
      Below();
      curX := curX + 4;
      if curX >= maxX {
        curX := startX;
        MulSum(area.y + cursor.row, cursor.step, area.width);
        curY := curY + step;
        cursor := cursor.(col := 0, row := cursor.row + cursor.step);
        SkipPasses();
      } else {
        cursor := cursor.(col := cursor.col + 1);
      }
    }

    /** Past the bottom, on to the next pass. */
    method SkipPasses()
      requires Valid() && area.width > 0 && area.w > 0 && cursor.col == 0
      modifies this
      ensures Valid() && cursor == NextPass(old(cursor), area.h)
    {
      hide Pow2, Area.Ok, Area.RowStart;
      while curY >= maxY && parse > 0
        invariant Valid() && cursor.col == 0
        invariant NextPass(cursor, area.h) == NextPass(old(cursor), area.h)
        decreases parse
      {
        Below();
        StartPass();
      }
      Below();
    }

    /** To the first row of the next pass. */
    method StartPass()
      requires Valid() && parse > 0 && area.w > 0 && cursor.col == 0
      modifies `step, `curY, `parse, `cursor
      ensures Valid()
      ensures cursor == Cursor(0, Pow2(old(parse)) / 2, Pow2(old(parse)), old(parse) - 1)
      ensures parse == old(parse) - 1
    {
      hide Pow2, Area.Ok;
      PassStart(parse, area.y, area.width);
      step := Shl(1, parse) * lineSize;
      curY := startY + step / 2;
      parse := parse - 1;
      cursor := Cursor(0, Pow2(cursor.parse) / 2, Pow2(cursor.parse), cursor.parse - 1);
    }

    // ----- the raster loop

    /** Fills the table with the roots. */
    method InitTable(cs: nat)
      requires Valid() && cs <= 12
      modifies codes
      ensures Valid() && TableOk(cs, Roots(cs), codes[..])
    {
      ClearBound(cs);
      var clear := Shl(1, cs);
      ShlIsMul(1, cs);
      for code := 0 to clear
        invariant forall c :: 0 <= c < code ==> codes[c] == Entry(-1, c % 256, c % 256)
      {
        codes[code] := Entry(-1, code % 256, code % 256);
      }
    }

    /** Makes the entry `index`: the string of oldcode and one more byte. */
    method AddEntry(index: nat, oldcode: nat, code: nat)
      requires Valid() && index < 8192 && oldcode < 8192 && code <= index
      modifies codes
      ensures codes[..] == Extended(old(codes[..]), index, oldcode, code)
    {
      var avail := index + 1;
      codes[index] := codes[index].(prefix := oldcode);
      codes[index] := codes[index].(first := codes[oldcode].first);
      if code == avail {
        // the source's test for a code being made comes after avail has moved past it
        assert false;
      } else {
        codes[index] := codes[index].(suffix := codes[code].first);
      }
    }

    /** Decodes the data of the frame and draws it.  The pixels are those of the dictionary decoding, and
        after a complete frame the input is past its data. */
    method ProcessRaster(s: Context) returns (v: Verdict)
      requires Valid()
      modifies this, out, history, codes, s
      ensures Valid()
      ensures var cs, p := At(s.input, old(s.pos)), Next(s.input, old(s.pos));
        if cs > 12 then v == Broken(BadCodeSize) && Now() == old(Now())
        else
          && v == DecodeData(cs, Data(s.input, p, 0)).problem
          && Now() == Plot(area, colors, old(Now()), DecodeData(cs, Data(s.input, p, 0)).px)
          && (v == Fine ==> Clip(s.input, s.pos) == DataEnd(s.input, p, 0))
    {
      hide Decode, Plot, Data, DataEnd, TableOk, EntryOk, Leaves, Stream, Take, Drop, Pow2, Or, Shl, Limit;
      hide Extend, Roots, Widen, Usable;
      var cs := s.Get8();
      if cs > 12 {
        return Broken(BadCodeSize);
      }
      ghost var p, cv0 := s.pos, Now();
      InitTable(cs);
      StartOk(cs);
      ShlIsMul(1, cs);
      var clear := Shl(1, cs);
      var first := true;
      var codesize := cs + 1;
      var bits: nat, validBits: nat := 0, 0;
      var avail := clear + 2;
      var oldcode: int := -1;
      var len: nat := 0;
      ghost var st, done: seq<byte> := Start(cs), [];
      ghost var whole := DecodeData(cs, Data(s.input, p, 0));
      Beginning0(cs, s.input, p);
      PlotNothing(area, colors, cv0);
      while true
        invariant Valid() && Ok(cs, st) && TableOk(cs, st.dict, codes[..]) && TableOk(cs, Roots(cs), codes[..])
        invariant codesize == st.width && avail == st.count && oldcode == st.prev
        invariant bits < Pow2(validBits) && validBits < codesize + 8
        invariant Leaves(whole, done, Decode(cs, !first, st, Stream(s.input, s.pos, len, bits, validBits),
                                             StreamBits(s.input, s.pos, len, validBits)))
        invariant Now() == Plot(area, colors, cv0, done)
        invariant DataEnd(s.input, s.pos, len) == DataEnd(s.input, p, 0)
        decreases Remaining(s.input, s.pos), len, validBits
      {
        if validBits < codesize {
          if len == 0 {
            NewBlock(s.input, s.pos);
            ghost var q := s.pos;
            len := s.Get8();
            if len == 0 {
              LeavesNothing(whole, done, cs, !first, st, Stream(s.input, q, len, bits, validBits), validBits);
              return Fine;
            }
            NewBlockStream(s.input, q, bits, validBits);
          }
          NextByte(s.input, s.pos, len, bits, validBits);
          len := len - 1;
          var b := s.Get8();
          bits := Or(bits, Shl(b, validBits));
          validBits := validBits + 8;
        } else {
          LeavesStep(whole, done, cs, !first, st, Stream(s.input, s.pos, len, bits, validBits),
                     StreamBits(s.input, s.pos, len, validBits));
          CutCode(s.input, s.pos, len, bits, validBits, codesize);
          var code := Take(bits, codesize);
          bits := Drop(bits, codesize);
          validBits := validBits - codesize;
          if code == clear {
            codesize := cs + 1;
            avail := clear + 2;
            oldcode := -1;
            first := false;
            st := Start(cs);
            assert done + [] == done;
          } else if code == clear + 1 {
            SkipData(s, len);
            return Fine;
          } else if code <= avail {
            if first {
              return Broken(NoClearCode);
            }
            ghost var px;
            v, codesize, avail, st, px := EmitCode(cs, code, codesize, avail, oldcode, st);
            if v != Fine {
              return;
            }
            PlotAppend(area, colors, cv0, done, px);
            done := done + px;
            oldcode := code;
          } else {
            return Broken(IllegalCode);
          }
        }
      }
    }

    /** A code for a string: the table grows by an entry, the string is drawn, the width may grow. */
    method EmitCode(cs: nat, code: nat, width: nat, count: nat, oldcode: int, ghost st: Lzw)
      returns (v: Verdict, codesize: nat, avail: nat, ghost next: Lzw, ghost px: seq<byte>)
      requires Valid() && Ok(cs, st) && TableOk(cs, st.dict, codes[..]) && TableOk(cs, Roots(cs), codes[..])
      requires width == st.width && count == st.count && oldcode == st.prev
      requires code < Limit(cs) && code <= count && code != Clear(cs) && code != Clear(cs) + 1
      modifies this, out, history, codes
      ensures Valid() && TableOk(cs, Roots(cs), codes[..])
      ensures v != Fine ==>
        Read(cs, true, st, code) == Bad(if v == Fine then IllegalCode else v.why) && Now() == old(Now())
      ensures v == Fine ==> Read(cs, true, st, code) == Emit(next, px) && Now() == Plot(area, colors, old(Now()), px)
      ensures v == Fine ==> TableOk(cs, next.dict, codes[..])
      ensures v == Fine ==> codesize == next.width && avail == next.count && code == next.prev
    {
      hide Plot, TableOk, EntryOk, Take, Roots, Extend;
      codesize, avail, next, px := width, count, st, [];
      if oldcode >= 0 {
        if avail + 1 > 8192 {
          return Broken(TooManyCodes), codesize, avail, next, px;
        }
        ExtendOk(cs, st, code, codes[..]);
        AddEntry(avail, oldcode, code);
        avail := avail + 1;
        next := st.(dict := Extend(cs, st, code), count := avail);
      } else if code == avail {
        return Broken(IllegalCode), codesize, avail, next, px;
      }
      OutGifCode(code, cs, next.dict);
      px := next.dict[code];
      if Take(avail, codesize) == 0 && avail <= 0xFFF {
        codesize := codesize + 1;
      }
      next := Widen(next.(prev := code));
      v := Fine;
    }

    /** Skips the rest of the data, sub-block by sub-block. */
    method SkipData(s: Context, len: nat)
      modifies s
      ensures Clip(s.input, s.pos) == DataEnd(s.input, old(s.pos), len)
    {
      SkipBlock(s.input, s.pos, len);
      s.Skip(len);
      NewBlock(s.input, s.pos);
      var n := s.Get8();
      while n > 0
        invariant if n > 0 then DataEnd(s.input, s.pos, n) == DataEnd(s.input, old(s.pos), len)
                  else Clip(s.input, s.pos) == DataEnd(s.input, old(s.pos), len)
        decreases Remaining(s.input, s.pos), n
      {
        SkipBlock(s.input, s.pos, n);
        s.Skip(n);
        NewBlock(s.input, s.pos);
        n := s.Get8();
      }
    }
  }

  lemma Beginning0(cs: nat, input: seq<byte>, p: nat)
    requires cs <= 12 && Ok(cs, Start(cs))
    ensures Pow2(0) == 1 && Stream(input, p, 0, 0, 0) == Le(Data(input, p, 0))
    ensures StreamBits(input, p, 0, 0) == 8 * |Data(input, p, 0)|
    ensures var d := Data(input, p, 0);
      Leaves(DecodeData(cs, d), [], Decode(cs, false, Start(cs), Stream(input, p, 0, 0, 0), StreamBits(input, p, 0, 0)))
  {
  }

  lemma Corners(a: Area)
    ensures a.y * (4 * a.width) == 4 * a.RowStart(0)
    ensures a.y * (4 * a.width) + a.h * (4 * a.width) == 4 * a.RowStart(a.h)
    ensures 8 * (4 * a.width) == 4 * (8 * a.width)
  {
    MulSum(a.y, a.h, a.width);
    FourTimes(a.y, a.width);
    FourTimes(a.h, a.width);
  }

  lemma FourTimes(a: nat, w: nat)
    ensures a * (4 * w) == 4 * (a * w)
  {
  }

  lemma MulSum(a: nat, b: nat, w: nat)
    ensures (a + b) * w == a * w + b * w
  {
  }

  /** Bytes and rows at the start of an interlace pass. */
  lemma PassStart(parse: nat, y: nat, width: nat)
    requires parse > 0
    ensures Pow2(parse) > 0 && Shl(1, parse) == Pow2(parse)
    ensures Pow2(parse) * (4 * width) == 4 * (Pow2(parse) * width)
    ensures 4 * (y * width) + Pow2(parse) * (4 * width) / 2 == 4 * ((y + Pow2(parse) / 2) * width)
  {
    ShlIsMul(1, parse);
    var half := Pow2(parse - 1);
    assert Pow2(parse) == 2 * half;
    assert (2 * half) * (4 * width) == 2 * (4 * (half * width));
    MulSum(y, half, width);
  }

  /** The table after a new entry; a code for the entry being made stands for the first byte again. */
  function Extended(codes: seq<Entry>, index: nat, oldcode: nat, code: nat): seq<Entry>
    requires index < |codes| && oldcode < |codes| && code <= index
  {
    var first := if oldcode == index then codes[index].first else codes[oldcode].first;
    codes[index := Entry(oldcode, first, if code == index then first else codes[code].first)]
  }

  lemma ExtendOk(cs: nat, st: Lzw, code: nat, codes: seq<Entry>)
    requires Ok(cs, st) && st.prev >= 0 && code <= st.count < 8192 && code != Clear(cs) && code != Clear(cs) + 1
    requires |codes| == 8192 && TableOk(cs, st.dict, codes) && TableOk(cs, Roots(cs), codes)
    ensures TableOk(cs, Extend(cs, st, code), Extended(codes, st.count, st.prev, code))
    ensures TableOk(cs, Roots(cs), Extended(codes, st.count, st.prev, code))
  {
    var d, codes' := Extend(cs, st, code), Extended(codes, st.count, st.prev, code);
    forall c | Usable(cs, d, c)
      ensures EntryOk(cs, d, codes', c)
    {
      assert EntryOk(cs, st.dict, codes, st.prev);
      if c < |st.dict| {
        assert EntryOk(cs, st.dict, codes, c);
      }
      if code < |st.dict| {
        assert EntryOk(cs, st.dict, codes, code);
      }
    }
    forall c | Usable(cs, Roots(cs), c)
      ensures EntryOk(cs, Roots(cs), codes', c)
    {
      assert EntryOk(cs, Roots(cs), codes, c);
    }
  }
}
