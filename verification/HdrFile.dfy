/** Run-length coded scanlines of HDR images as their format describes them, byte by byte. */
module HdrFile {
  import opened Bits
  import opened ImageRows
  import opened HdrRle

  /** A count above 128 stands for that many less 128 of the byte that follows, any other for that many
      bytes as they are. */
  ghost function Spelled(ps: seq<Packet>): seq<byte>
    requires AllOk(ps)
  {
    if ps == [] then []
    else
      var first: seq<byte> :=
        match ps[0]
        case Run(n, value) => [128 + n, value]
        case Dump(data) => [|data|] + data;
      first + Spelled(ps[1..])
  }

  /** The packets of one scanline: all red bytes, then the green and blue ones, then the exponents. */
  datatype Line = Line(red: seq<Packet>, green: seq<Packet>, blue: seq<Packet>, exponent: seq<Packet>) {
    ghost predicate Ok(width: nat) {
      && AllOk(red) && AllOk(green) && AllOk(blue) && AllOk(exponent)
      && |Expand(red)| == |Expand(green)| == |Expand(blue)| == |Expand(exponent)| == width
    }

    ghost function Spells(width: nat): seq<byte>
      requires Ok(width) && width < 32768
    {
      [2, 2, width / 256, width % 256] + (Spelled(red) + Spelled(green) + Spelled(blue) + Spelled(exponent))
    }

    ghost function Row(width: nat): (row: seq<Rgbe>)
      requires Ok(width)
      ensures |row| == width
    {
      seq(width, i requires 0 <= i < width =>
        Rgbe(Expand(red)[i], Expand(green)[i], Expand(blue)[i], Expand(exponent)[i]))
    }

    function Packets(): seq<seq<Packet>> {
      [red, green, blue, exponent]
    }
  }

  ghost predicate AllLines(lines: seq<Line>, width: nat) {
    forall j :: 0 <= j < |lines| ==> lines[j].Ok(width)
  }

  ghost function FileOf(lines: seq<Line>, width: nat): seq<byte>
    requires AllLines(lines, width) && width < 32768
    decreases |lines|
  {
    if lines == [] then []
    else FileOf(lines[..|lines| - 1], width) + lines[|lines| - 1].Spells(width)
  }

  ghost function RowsOf(lines: seq<Line>, width: nat): (rows: seq<seq<Rgbe>>)
    requires AllLines(lines, width)
    ensures |rows| == |lines| && forall j :: 0 <= j < |rows| ==> rows[j] == lines[j].Row(width)
  {
    seq(|lines|, j requires 0 <= j < |lines| => lines[j].Row(width))
  }

  ghost function PacketsOf(lines: seq<Line>): (coded: seq<seq<seq<Packet>>>)
    ensures |coded| == |lines| && forall j :: 0 <= j < |coded| ==> coded[j] == lines[j].Packets()
  {
    seq(|lines|, j requires 0 <= j < |lines| => lines[j].Packets())
  }

  lemma {:induction false} SpelledIsCodes(ps: seq<Packet>)
    requires AllOk(ps)
    ensures Spelled(ps) == Codes(ps)
  {
    if ps == [] {
    } else {
      SpelledIsCodes(ps[1..]);
    }
  }

  lemma FourPlanes(a: seq<Packet>, b: seq<Packet>, c: seq<Packet>, d: seq<Packet>)
    requires AllOk(a) && AllOk(b) && AllOk(c) && AllOk(d)
    ensures PlaneCodes([a, b, c, d]) == Codes(a) + Codes(b) + Codes(c) + Codes(d)
  {
    hide Codes;
    assert [a, b, c, d][..3] == [a, b, c] && [a, b, c][..2] == [a, b] && [a, b][..1] == [a] && [a][..0] == [];
    assert PlaneCodes([]) == [];
    assert PlaneCodes([a]) == Codes(a);
    assert PlaneCodes([a, b]) == Codes(a) + Codes(b);
    assert PlaneCodes([a, b, c]) == Codes(a) + Codes(b) + Codes(c);
  }

  lemma LineCoded(line: Line, width: nat)
    requires line.Ok(width) && width < 32768
    ensures PlanesCoded(line.Row(width), line.Packets())
    ensures line.Spells(width) == Header(width) + PlaneCodes(line.Packets())
  {
    hide Expand, Codes, Spelled, PlaneCodes;
    SpelledIsCodes(line.red);
    SpelledIsCodes(line.green);
    SpelledIsCodes(line.blue);
    SpelledIsCodes(line.exponent);
    FourPlanes(line.red, line.green, line.blue, line.exponent);
  }

  lemma {:induction false} FileIsCodes(lines: seq<Line>, width: nat)
    requires AllLines(lines, width) && width < 32768
    ensures CodedRows(RowsOf(lines, width), width, PacketsOf(lines))
    ensures FileOf(lines, width) == RowCodes(width, PacketsOf(lines))
    decreases |lines|
  {
    hide AllOk, Expand, Line.Spells, Line.Row, Header, PlaneCodes;
    forall j | 0 <= j < |lines|
      ensures PlanesCoded(lines[j].Row(width), lines[j].Packets())
    {
      LineCoded(lines[j], width);
    }
    if lines == [] {
    } else {
      var n := |lines| - 1;
      FileIsCodes(lines[..n], width);
      LineCoded(lines[n], width);
      assert PacketsOf(lines)[..n] == PacketsOf(lines[..n]);
    }
  }

  /** Any such file is read as the image it spells. */
  lemma FileRead(lines: seq<Line>, width: nat, rest: seq<byte>)
    requires AllLines(lines, width) && 8 <= width < 32768
    ensures ImageFrom(FileOf(lines, width) + rest, 0, width, |lines|) ==
      Image(Concat(RowsOf(lines, width)), |FileOf(lines, width)|)
  {
    hide ImageFrom, Concat, RowCodes, CodedRows;
    FileIsCodes(lines, width);
    RowsRead(RowsOf(lines, width), width, PacketsOf(lines), rest);
  }
}
