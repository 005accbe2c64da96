/** Scanlines of Radiance HDR images: four byte planes, each a sequence of runs and dumps; narrow and
    very wide images are flat. */
module HdrRle {
  import opened Bits
  import opened ByteSource
  import opened ImageRows
  import opened Sizes

  datatype Rgbe = Rgbe(r: byte, g: byte, b: byte, e: byte) {
    function Bytes(): seq<byte> {
      [r, g, b, e]
    }
  }

  // ----- packets

  datatype Packet = Run(n: nat, value: byte) | Dump(data: seq<byte>) {
    predicate Ok() {
      match this
      case Run(n, _) => 1 <= n <= 127
      case Dump(data) => 1 <= |data| <= 128
    }

    function Code(): seq<byte>
      requires Ok()
    {
      match this
      case Run(n, value) => [128 + n, value]
      case Dump(data) => [|data|] + data
    }

    function Plain(): (s: seq<byte>) {
      match this
      case Run(n, value) => Repeat(value, n)
      case Dump(data) => data
    }
  }

  function Repeat(value: byte, n: nat): (s: seq<byte>)
    ensures |s| == n && forall i :: 0 <= i < n ==> s[i] == value
  {
    seq<byte>(n, _ => value)
  }

  predicate AllOk(ps: seq<Packet>) {
    forall i :: 0 <= i < |ps| ==> ps[i].Ok()
  }

  function Codes(ps: seq<Packet>): seq<byte>
    requires AllOk(ps)
  {
    if ps == [] then [] else ps[0].Code() + Codes(ps[1..])
  }

  function Expand(ps: seq<Packet>): seq<byte> {
    if ps == [] then [] else ps[0].Plain() + Expand(ps[1..])
  }

  lemma {:induction false} PacketMore(ps: seq<Packet>, p: Packet)
    requires AllOk(ps) && p.Ok()
    ensures AllOk(ps + [p]) && Codes(ps + [p]) == Codes(ps) + p.Code() && Expand(ps + [p]) == Expand(ps) + p.Plain()
  {
    hide Packet.Code, Packet.Plain, Packet.Ok;
    if ps == [] {
      assert [p][1..] == [];
    } else {
      assert (ps + [p])[1..] == ps[1..] + [p];
      PacketMore(ps[1..], p);
    }
  }

  // ----- writing a plane

  /** Three equal bytes begin at r. */
  predicate RunAt(comp: seq<byte>, r: nat) {
    r + 2 < |comp| && comp[r] == comp[r + 1] == comp[r + 2]
  }

  /** No dump holds three equal bytes in a row. */
  predicate Tight(p: Packet) {
    p.Dump? ==> forall i :: 0 <= i < |p.data| ==> !RunAt(p.data, i)
  }

  /** What has been written stands for the first x bytes. */
  ghost predicate Written(comp: seq<byte>, x: nat, out: seq<byte>, ps: seq<Packet>) {
    && x <= |comp| && AllOk(ps) && out == Codes(ps) && Expand(ps) == comp[..x]
    && forall i :: 0 <= i < |ps| ==> Tight(ps[i])
  }

  /** The first run of at least three equal bytes from x on, or the end. */
  method FindRun(comp: seq<byte>, x: nat) returns (r: nat)
    requires x < |comp|
    ensures x <= r <= |comp| && (r < |comp| ==> RunAt(comp, r))
    ensures forall i :: x <= i < r ==> !RunAt(comp, i)
  {
    var width := |comp|;
    r := x;
    while r + 2 < width
      invariant x <= r <= width && forall i :: x <= i < r ==> !RunAt(comp, i)
    {
      if comp[r] == comp[r + 1] && comp[r] == comp[r + 2] {
        break;
      }
      r := r + 1;
    }
    if r + 2 >= width {
      r := width;
    }
  }

  method WriteDumps(comp: seq<byte>, x0: nat, r: nat, out0: seq<byte>, ghost ps0: seq<Packet>)
    returns (out: seq<byte>, ghost ps: seq<Packet>)
    requires x0 <= r <= |comp| && Written(comp, x0, out0, ps0) && forall i :: x0 <= i < r ==> !RunAt(comp, i)
    ensures Written(comp, r, out, ps)
  {
    hide Codes, Expand, RunAt;
    var x := x0;
    out, ps := out0, ps0;
    while x < r
      invariant x0 <= x <= r && Written(comp, x, out, ps)
    {
      var len := r - x;
      if len > 128 {
        len := 128;
      }
      ghost var p := Dump(comp[x..x + len]);
      NoRunInside(comp, x, len);
      PacketMore(ps, p);
      ps := ps + [p];
      out := out + ([len] + comp[x..x + len]);
      assert comp[..x] + comp[x..x + len] == comp[..x + len];
      x := x + len;
    }
  }

  lemma NoRunInside(comp: seq<byte>, x: nat, len: nat)
    requires x + len <= |comp| && forall i :: x <= i < x + len ==> !RunAt(comp, i)
    ensures Tight(Dump(comp[x..x + len]))
  {
    var data := comp[x..x + len];
    forall i | 0 <= i < |data|
      ensures !RunAt(data, i)
    {
      assert !RunAt(comp, x + i);
    }
  }

  method WriteRuns(comp: seq<byte>, x0: nat, r: nat, out0: seq<byte>, ghost ps0: seq<Packet>)
    returns (out: seq<byte>, ghost ps: seq<Packet>)
    requires x0 <= r <= |comp| && Written(comp, x0, out0, ps0) && forall i :: x0 <= i < r ==> comp[i] == comp[x0]
    ensures Written(comp, r, out, ps)
  {
    hide Codes, Expand;
    var x := x0;
    out, ps := out0, ps0;
    while x < r
      invariant x0 <= x <= r && Written(comp, x, out, ps)
    {
      var len := r - x;
      if len > 127 {
        len := 127;
      }
      ghost var p := Run(len, comp[x]);
      PacketMore(ps, p);
      ps := ps + [p];
      out := out + [len + 128, comp[x]];
      assert comp[..x] + Repeat(comp[x], len) == comp[..x + len];
      x := x + len;
    }
  }

  /** The packets of a plane. */
  method EncodePlane(comp: seq<byte>) returns (out: seq<byte>, ghost ps: seq<Packet>)
    ensures AllOk(ps) && out == Codes(ps) && Expand(ps) == comp && forall i :: 0 <= i < |ps| ==> Tight(ps[i])
  {
    hide Codes, Expand, Tight;
    out, ps := [], [];
    NoPackets([], []);
    var x := 0;
    while x < |comp|
      invariant 0 <= x <= |comp| && Written(comp, x, out, ps)
    {
      var r := FindRun(comp, x);
      out, ps := WriteDumps(comp, x, r, out, ps);
      x := r;
      if r + 2 < |comp| {
        while r < |comp| && comp[r] == comp[x]
          invariant x <= r <= |comp| && forall i :: x <= i < r ==> comp[i] == comp[x]
        {
          r := r + 1;
        }
        out, ps := WriteRuns(comp, x, r, out, ps);
        x := r;
      }
    }
    assert comp[..|comp|] == comp;
  }

  // ----- reading a plane

  datatype Plane = Bad | Plane(data: seq<byte>, end: nat)

  /** The next nleft bytes of a plane, and where they end in the input. */
  function PlaneFrom(input: seq<byte>, pos: nat, nleft: nat): (p: Plane)
    ensures p.Plane? ==> |p.data| == nleft
    decreases nleft
  {
    if nleft == 0 then Plane([], pos)
    else
      var count := At(input, pos) as int;
      var n, at := if count > 128 then count - 128 else count, Next(input, pos);
      if n == 0 || n > nleft then Bad
      else
        var plain := if count > 128 then Repeat(At(input, at), n) else Bytes(input, at, n);
        var end := if count > 128 then Next(input, at) else After(input, at, n);
        match PlaneFrom(input, end, nleft - n)
        case Bad => Bad
        case Plane(data, e) => Plane(plain + data, e)
  }

  /** Any packets are read back. */
  lemma {:induction false} PacketsRead(before: seq<byte>, ps: seq<Packet>, rest: seq<byte>)
    requires AllOk(ps)
    ensures PlaneFrom(before + Codes(ps) + rest, |before|, |Expand(ps)|) == Plane(Expand(ps), |before| + |Codes(ps)|)
    decreases |ps|
  {
    hide PlaneFrom, Packet.Code, Packet.Plain, AllOk;
    if ps == [] {
      NoPackets(before, rest);
    } else {
      FirstPacket(ps);
      var p, more := ps[0], Codes(ps[1..]);
      hide Codes, Expand;
      Regroup4(before, p.Code(), more, rest);
      PacketsRead(before + p.Code(), ps[1..], rest);
      PacketStep(before, p, more + rest, |Expand(ps)|);
    }
  }

  lemma NoPackets(before: seq<byte>, rest: seq<byte>)
    ensures Codes([]) == [] && Expand([]) == []
    ensures PlaneFrom(before + [] + rest, |before|, 0) == Plane([], |before|)
  {
  }

  lemma FirstPacket(ps: seq<Packet>)
    requires AllOk(ps) && ps != []
    ensures ps[0].Ok() && AllOk(ps[1..]) && Codes(ps) == ps[0].Code() + Codes(ps[1..])
    ensures Expand(ps) == ps[0].Plain() + Expand(ps[1..])
  {
  }

  lemma Regroup4<T>(a: seq<T>, b: seq<T>, c: seq<T>, d: seq<T>)
    ensures a + (b + c) + d == (a + b) + c + d == a + b + (c + d)
  {
  }

  /** A packet in front of the rest of its plane. */
  function Ahead(plain: seq<byte>, rest: Plane): Plane {
    match rest
    case Bad => Bad
    case Plane(data, end) => Plane(plain + data, end)
  }

  lemma PacketStep(before: seq<byte>, p: Packet, rest: seq<byte>, nleft: nat)
    requires p.Ok() && |p.Plain()| <= nleft
    ensures var input, pos := before + p.Code() + rest, |before|;
      PlaneFrom(input, pos, nleft) == Ahead(p.Plain(), PlaneFrom(input, pos + |p.Code()|, nleft - |p.Plain()|))
  {
    hide PlaneFrom, Bytes, After, Repeat;
    PacketRead(before, p, rest);
    var input, pos := before + p.Code() + rest, |before|;
    match p
    case Run(n, value) => RunStep(input, pos, nleft, n, value);
    case Dump(data) => DumpStep(input, pos, nleft, data);
  }

  lemma RunStep(input: seq<byte>, pos: nat, nleft: nat, n: nat, value: byte)
    requires pos + 1 < |input| && 1 <= n <= 127 && n <= nleft && input[pos] == 128 + n && input[pos + 1] == value
    ensures PlaneFrom(input, pos, nleft) == Ahead(Repeat(value, n), PlaneFrom(input, pos + 2, nleft - n))
  {
    hide Bytes, After;
  }

  lemma DumpStep(input: seq<byte>, pos: nat, nleft: nat, data: seq<byte>)
    requires pos < |input| && 1 <= |data| <= 128 && |data| <= nleft && input[pos] == |data|
    requires Bytes(input, pos + 1, |data|) == data && After(input, pos + 1, |data|) == pos + 1 + |data|
    ensures PlaneFrom(input, pos, nleft) == Ahead(data, PlaneFrom(input, pos + 1 + |data|, nleft - |data|))
  {
    hide Bytes, After;
  }

  lemma PacketRead(before: seq<byte>, p: Packet, rest: seq<byte>)
    requires p.Ok()
    ensures var input, pos := before + p.Code() + rest, |before|;
      && pos < |input| && |p.Plain()| > 0
      && match p
         case Run(n, value) => input[pos] == 128 + n && pos + 1 < |input| && input[pos + 1] == value && |p.Code()| == 2
         case Dump(data) =>
           && input[pos] == |data| && Bytes(input, pos + 1, |data|) == data
           && After(input, pos + 1, |data|) == pos + 1 + |data|
  {
    if p.Dump? {
      DumpRead(before, p.data, rest);
    } else {
      RunRead(before, p.n, p.value, rest);
    }
  }

  lemma RunRead(before: seq<byte>, n: nat, value: byte, rest: seq<byte>)
    requires 1 <= n <= 127
    ensures var input, pos := before + [128 + n, value] + rest, |before|;
      pos + 1 < |input| && input[pos] == 128 + n && input[pos + 1] == value
  {
  }

  lemma DumpRead(before: seq<byte>, data: seq<byte>, rest: seq<byte>)
    requires 1 <= |data| <= 128
    ensures var input, pos := before + ([|data|] + data) + rest, |before|;
      && pos < |input| && input[pos] == |data|
      && Bytes(input, pos + 1, |data|) == data && After(input, pos + 1, |data|) == pos + 1 + |data|
  {
    hide Bytes, After;
    var input, pos := before + ([|data|] + data) + rest, |before|;
    BytesInside(input, pos + 1, |data|);
    assert input[pos + 1..pos + 1 + |data|] == data;
  }

  // ----- scanlines

  /** Byte c of each pixel. */
  function PlaneOf(row: seq<Rgbe>, c: nat): (s: seq<byte>)
    requires c < 4
    ensures |s| == |row| && forall i :: 0 <= i < |s| ==> s[i] == row[i].Bytes()[c]
  {
    seq<byte>(|row|, i requires 0 <= i < |row| => row[i].Bytes()[c])
  }

  predicate Compressed(width: nat) {
    8 <= width < 32768
  }

  function Flat(row: seq<Rgbe>): (s: seq<byte>)
    ensures |s| == 4 * |row|
  {
    if row == [] then [] else Flat(row[..|row| - 1]) + row[|row| - 1].Bytes()
  }

  function Header(width: nat): seq<byte>
    requires width < 32768
  {
    [2, 2, width / 256, width % 256]
  }

  /** The four planes of a scanline, in packets. */
  ghost predicate PlanesCoded(row: seq<Rgbe>, pss: seq<seq<Packet>>) {
    |pss| <= 4 && forall c :: 0 <= c < |pss| ==> AllOk(pss[c]) && Expand(pss[c]) == PlaneOf(row, c)
  }

  function PlaneCodes(pss: seq<seq<Packet>>): seq<byte>
    requires forall c :: 0 <= c < |pss| ==> AllOk(pss[c])
  {
    if pss == [] then [] else PlaneCodes(pss[..|pss| - 1]) + Codes(pss[|pss| - 1])
  }

  ghost predicate PlaneHeld(scratch: seq<byte>, row: seq<Rgbe>, c: nat)
    requires c < 4
  {
    c * |row| + |row| <= |scratch| && scratch[c * |row|..c * |row| + |row|] == PlaneOf(row, c)
  }

  /** The bytes of the first n pixels are in their planes. */
  ghost predicate Sorted(s: seq<byte>, row: seq<Rgbe>, n: nat) {
    && |s| == 4 * |row| && n <= |row|
    && (forall i :: 0 <= i < n ==> s[i] == row[i].r)
    && (forall i :: 0 <= i < n ==> s[i + |row|] == row[i].g)
    && (forall i :: 0 <= i < n ==> s[i + 2 * |row|] == row[i].b)
    && (forall i :: 0 <= i < n ==> s[i + 3 * |row|] == row[i].e)
  }

  lemma FourPlanes(s: seq<byte>, row: seq<Rgbe>)
    requires Sorted(s, row, |row|)
    ensures forall c :: 0 <= c < 4 ==> PlaneHeld(s, row, c)
  {
    var width := |row|;
    assert PlaneHeld(s, row, 0) && PlaneHeld(s, row, 1) && PlaneHeld(s, row, 2) && PlaneHeld(s, row, 3);
  }

  function SetFour(s: seq<byte>, row: seq<Rgbe>, x: nat): seq<byte>
    requires |s| == 4 * |row| && x < |row|
  {
    s[x := row[x].r][x + |row| := row[x].g][x + 2 * |row| := row[x].b][x + 3 * |row| := row[x].e]
  }

  lemma NothingSorted(s: seq<byte>, row: seq<Rgbe>)
    requires |s| == 4 * |row|
    ensures Sorted(s, row, 0)
  {
  }

  lemma SortedMore(s: seq<byte>, row: seq<Rgbe>, x: nat)
    requires x < |row| && Sorted(s, row, x)
    ensures Sorted(SetFour(s, row, x), row, x + 1)
  {
  }

  /** Sorts the bytes of the pixels into four planes. */
  method FillScratch(row: seq<Rgbe>) returns (scratch: array<byte>)
    ensures fresh(scratch) && forall c :: 0 <= c < 4 ==> PlaneHeld(scratch[..], row, c)
  {
    hide Sorted, PlaneHeld;
    var width := |row|;
    scratch := new byte[4 * width](_ => 0);
    NothingSorted(scratch[..], row);
    for x := 0 to width
      invariant Sorted(scratch[..], row, x)
    {
      ghost var before := scratch[..];
      scratch[x] := row[x].r;
      scratch[x + width] := row[x].g;
      scratch[x + 2 * width] := row[x].b;
      scratch[x + 3 * width] := row[x].e;
      assert scratch[..] == SetFour(before, row, x);
      SortedMore(before, row, x);
    }
    FourPlanes(scratch[..], row);
  }

  method WriteFlat(row: seq<Rgbe>) returns (out: seq<byte>)
    ensures out == Flat(row)
  {
    out := [];
    for x := 0 to |row|
      invariant out == Flat(row[..x])
    {
      out := out + row[x].Bytes();
      assert row[..x + 1][..x] == row[..x];
    }
    assert row[..|row|] == row;
  }

  lemma NoPlanesCoded(row: seq<Rgbe>, head: seq<byte>)
    ensures PlanesCoded(row, []) && PlaneCodes([]) == [] && head + PlaneCodes([]) == head
  {
  }

  lemma HeldPlane(scratch: seq<byte>, row: seq<Rgbe>, c: nat)
    requires c < 4 && PlaneHeld(scratch, row, c)
    ensures c * |row| + |row| <= |scratch| && scratch[c * |row|..c * |row| + |row|] == PlaneOf(row, c)
  {
  }

  lemma OnePlaneMore(row: seq<Rgbe>, pss: seq<seq<Packet>>, ps: seq<Packet>, head: seq<byte>)
    requires |pss| < 4 && PlanesCoded(row, pss) && AllOk(ps) && Expand(ps) == PlaneOf(row, |pss|)
    ensures PlanesCoded(row, pss + [ps])
    ensures head + PlaneCodes(pss + [ps]) == head + PlaneCodes(pss) + Codes(ps)
  {
    hide Codes, Expand, AllOk, PlaneOf, PlaneCodes;
    CodesSnoc(pss, ps);
  }

  lemma CodesSnoc(pss: seq<seq<Packet>>, ps: seq<Packet>)
    requires AllOk(ps) && forall c :: 0 <= c < |pss| ==> AllOk(pss[c])
    ensures PlaneCodes(pss + [ps]) == PlaneCodes(pss) + Codes(ps)
  {
    hide Codes, AllOk;
    assert (pss + [ps])[..|pss|] == pss;
  }

  /** Writes a scanline: flat, or a header and the four planes from a planar buffer. */
  method WriteScanline(row: seq<Rgbe>) returns (out: seq<byte>, ghost pss: seq<seq<Packet>>)
    ensures !Compressed(|row|) ==> out == Flat(row)
    ensures Compressed(|row|) ==> PlanesCoded(row, pss) && |pss| == 4 && out == Header(|row|) + PlaneCodes(pss)
  {
    hide Codes, Expand, AllOk, Flat, PlaneHeld, PlaneCodes, PlaneOf;
    var width := |row|;
    out, pss := [], [];
    if width < 8 || width >= 32768 {
      out := WriteFlat(row);
    } else {
      var scratch := FillScratch(row);
      out := Header(width);
      NoPlanesCoded(row, out);
      ghost var held := scratch[..];
      for c := 0 to 4
        invariant scratch[..] == held
        invariant |pss| == c && PlanesCoded(row, pss) && out == Header(width) + PlaneCodes(pss)
      {
        HeldPlane(held, row, c);
        var code;
        ghost var ps;
        code, ps := EncodePlane(scratch[c * width..c * width + width]);
        OnePlaneMore(row, pss, ps, Header(width));
        pss := pss + [ps];
        out := out + code;
      }
    }
  }

  // ----- reading scanlines

  datatype Planes = NoPlanes | Planes(data: seq<seq<byte>>, end: nat)

  /** Planes one after the other. */
  function PlanesFrom(input: seq<byte>, pos: nat, width: nat, n: nat): (p: Planes)
    ensures p.Planes? ==> |p.data| == n && forall c :: 0 <= c < n ==> |p.data[c]| == width
    decreases n
  {
    if n == 0 then Planes([], pos)
    else
      match PlanesFrom(input, pos, width, n - 1)
      case NoPlanes => NoPlanes
      case Planes(data, end) =>
        match PlaneFrom(input, end, width)
        case Bad => NoPlanes
        case Plane(plane, e) => Planes(data + [plane], e)
  }

  function Pixels(planes: seq<seq<byte>>, width: nat): (row: seq<Rgbe>)
    requires |planes| == 4 && forall c :: 0 <= c < 4 ==> |planes[c]| == width
    ensures |row| == width
  {
    seq(width, i requires 0 <= i < width => Rgbe(planes[0][i], planes[1][i], planes[2][i], planes[3][i]))
  }

  /** The reader is at the header of a compressed scanline. */
  predicate AtHeader(input: seq<byte>, pos: nat) {
    At(input, pos) == 2 && At(input, Next(input, pos)) == 2 && At(input, Next(input, Next(input, pos))) < 128
  }

  function HeaderEnd(input: seq<byte>, pos: nat): nat {
    After(input, pos, 4)
  }

  function HeaderWidth(input: seq<byte>, pos: nat): nat {
    At(input, After(input, pos, 2)) * 256 + At(input, After(input, pos, 3))
  }

  datatype Image = Corrupt | Uncompressed(at: nat) | Image(px: seq<Rgbe>, end: nat)

  /** n scanlines; one that does not begin with the header makes the reader start over, taking that
      scanline for the first pixels of a flat image. */
  function ImageFrom(input: seq<byte>, pos: nat, width: nat, n: nat): (r: Image)
    ensures r.Image? ==> |r.px| == n * width
    decreases n
  {
    if n == 0 then Image([], pos)
    else
      match ImageFrom(input, pos, width, n - 1)
      case Corrupt => Corrupt
      case Uncompressed(at) => Uncompressed(at)
      case Image(px, at) =>
        if !AtHeader(input, at) then Uncompressed(at)
        else if HeaderWidth(input, at) != width then Corrupt
        else
          match PlanesFrom(input, HeaderEnd(input, at), width, 4)
          case NoPlanes => Corrupt
          case Planes(data, end) => Image(px + Pixels(data, width), end)
  }

  // ----- the reader

  /** Byte c of pixel i in an interleaved buffer. */
  function Cell(s: seq<byte>, i: nat, c: nat): byte {
    if 4 * i + c < |s| then s[4 * i + c] else 0
  }

  lemma CellSet(s: seq<byte>, i: nat, k: nat, b: byte)
    requires k < 4 && 4 * i + k < |s|
    ensures var t := s[4 * i + k := b];
      Cell(t, i, k) == b && forall j: nat, c: nat :: c < 4 && (j != i || c != k) ==> Cell(t, j, c) == Cell(s, j, c)
  {
  }

  /** Plane k of the buffer holds data from pixel i on. */
  ghost predicate Holds(s: seq<byte>, k: nat, i: nat, data: seq<byte>) {
    forall j :: 0 <= j < |data| ==> Cell(s, i + j, k) == data[j]
  }

  /** Outside plane k, and outside its pixels from lo to hi, nothing has changed. */
  ghost predicate OthersSame(before: seq<byte>, s: seq<byte>, k: nat, lo: nat, hi: nat) {
    && |s| == |before|
    && forall j: nat, c: nat :: c < 4 && (c != k || j < lo || hi <= j) ==> Cell(s, j, c) == Cell(before, j, c)
  }

  lemma HoldsMore(before: seq<byte>, s: seq<byte>, k: nat, i: nat, n: nat, data: seq<byte>, more: seq<byte>)
    requires k < 4 && Holds(before, k, i, data) && n == i + |data|
    requires OthersSame(before, s, k, n, n + |more|) && Holds(s, k, n, more)
    ensures Holds(s, k, i, data + more)
  {
    forall j | 0 <= j < |data + more|
      ensures Cell(s, i + j, k) == (data + more)[j]
    {
      if j < |data| {
        assert Cell(before, i + j, k) == data[j];
      } else {
        assert Cell(s, n + (j - |data|), k) == more[j - |data|];
      }
    }
  }

  lemma OthersChain(a: seq<byte>, b: seq<byte>, c: seq<byte>, k: nat, lo: nat, mid: nat, hi: nat)
    requires lo <= mid <= hi && OthersSame(a, b, k, lo, mid) && OthersSame(b, c, k, mid, hi)
    ensures OthersSame(a, c, k, lo, hi)
  {
  }

  /** Writes one sample. */
  method Put(scanline: array<byte>, k: nat, i: nat, b: byte)
    requires k < 4 && 4 * i + k < scanline.Length
    modifies scanline
    ensures Holds(scanline[..], k, i, [b]) && OthersSame(old(scanline[..]), scanline[..], k, i, i + 1)
  {
    CellSet(scanline[..], i, k, b);
    ghost var before := scanline[..];
    scanline[4 * i + k] := b;
    assert scanline[..] == before[4 * i + k := b];
  }

  method FillRun(scanline: array<byte>, k: nat, i: nat, n: nat, value: byte)
    requires k < 4 && 4 * (i + n) <= scanline.Length
    modifies scanline
    ensures Holds(scanline[..], k, i, Repeat(value, n)) && OthersSame(old(scanline[..]), scanline[..], k, i, i + n)
  {
    hide Cell, Holds, OthersSame;
    NothingHeld(scanline[..], k, i);
    assert Repeat(value, 0) == [];
    for z := 0 to n
      invariant Holds(scanline[..], k, i, Repeat(value, z)) && OthersSame(old(scanline[..]), scanline[..], k, i, i + z)
    {
      ghost var before := scanline[..];
      Put(scanline, k, i + z, value);
      HoldsMore(before, scanline[..], k, i, i + z, Repeat(value, z), [value]);
      OthersChain(old(scanline[..]), before, scanline[..], k, i, i + z, i + z + 1);
      assert Repeat(value, z) + [value] == Repeat(value, z + 1);
    }
  }

  lemma NothingHeld(s: seq<byte>, k: nat, i: nat)
    ensures Holds(s, k, i, []) && OthersSame(s, s, k, i, i)
  {
  }

  method FillDump(s: Context, scanline: array<byte>, k: nat, i: nat, n: nat)
    requires k < 4 && 4 * (i + n) <= scanline.Length
    modifies s, scanline
    ensures s.pos == After(s.input, old(s.pos), n)
    ensures Holds(scanline[..], k, i, Bytes(s.input, old(s.pos), n))
    ensures OthersSame(old(scanline[..]), scanline[..], k, i, i + n)
  {
    hide Cell, Holds, OthersSame;
    NothingHeld(scanline[..], k, i);
    for z := 0 to n
      invariant s.pos == After(s.input, old(s.pos), z)
      invariant Holds(scanline[..], k, i, Bytes(s.input, old(s.pos), z))
      invariant OthersSame(old(scanline[..]), scanline[..], k, i, i + z)
    {
      ghost var before := scanline[..];
      BytesSnoc(s.input, old(s.pos), z);
      var b := s.Get8();
      Put(scanline, k, i + z, b);
      HoldsMore(before, scanline[..], k, i, i + z, Bytes(s.input, old(s.pos), z), [b]);
      OthersChain(old(scanline[..]), before, scanline[..], k, i, i + z, i + z + 1);
    }
  }

  /** The plane is what has been read and the rest. */
  ghost predicate Along(goal: Plane, done: seq<byte>, rest: Plane) {
    goal == Ahead(done, rest)
  }

  /** One packet of the plane: what it holds and where it ends. */
  lemma PacketAlong(input: seq<byte>, pos: nat, nleft: nat, goal: Plane, done: seq<byte>)
    requires nleft > 0 && Along(goal, done, PlaneFrom(input, pos, nleft))
    ensures var count := At(input, pos) as int;
      var n, at := if count > 128 then count - 128 else count, Next(input, pos);
      if n == 0 || n > nleft then goal == Bad
      else if count > 128 then Along(goal, done + Repeat(At(input, at), n),
                                     PlaneFrom(input, Next(input, at), nleft - n))
      else Along(goal, done + Bytes(input, at, n), PlaneFrom(input, After(input, at, n), nleft - n))
  {
    hide Bytes, After, Repeat;
    var count := At(input, pos) as int;
    var n, at := if count > 128 then count - 128 else count, Next(input, pos);
    if 0 < n <= nleft {
      var plain := if count > 128 then Repeat(At(input, at), n) else Bytes(input, at, n);
      var end := if count > 128 then Next(input, at) else After(input, at, n);
      AheadOf(done, plain, PlaneFrom(input, end, nleft - n));
    }
  }

  lemma AheadOf(done: seq<byte>, plain: seq<byte>, rest: Plane)
    ensures Ahead(done, Ahead(plain, rest)) == Ahead(done + plain, rest)
  {
    if rest.Plane? {
      assert done + (plain + rest.data) == done + plain + rest.data;
    }
  }

  /** Reads one plane of a scanline into every fourth byte of the buffer. */
  method ReadPlane(s: Context, scanline: array<byte>, k: nat, width: nat) returns (ok: bool)
    requires scanline.Length == 4 * width && k < 4
    modifies s, scanline
    ensures OthersSame(old(scanline[..]), scanline[..], k, 0, width)
    ensures match PlaneFrom(s.input, old(s.pos), width)
            case Bad => !ok
            case Plane(data, end) => ok && s.pos == end && Holds(scanline[..], k, 0, data)
  {
    hide Cell, Holds, OthersSame, PlaneFrom, Bytes, After;
    ghost var goal, done: seq<byte> := PlaneFrom(s.input, s.pos, width), [];
    var i := 0;
    NothingHeld(scanline[..], k, 0);
    while width - i > 0
      invariant i == |done| <= width && Along(goal, done, PlaneFrom(s.input, s.pos, width - i))
      invariant Holds(scanline[..], k, 0, done) && OthersSame(old(scanline[..]), scanline[..], k, 0, i)
    {
      var nleft := width - i;
      ghost var before := scanline[..];
      PacketAlong(s.input, s.pos, nleft, goal, done);
      var b := s.Get8();
      var count := b as int;
      ghost var plain;
      if count > 128 {
        var value := s.Get8();
        count := count - 128;
        if count == 0 || count > nleft {
          OthersMore(old(scanline[..]), scanline[..], k, 0, i, width);
          return false;
        }
        plain := Repeat(value, count);
        FillRun(scanline, k, i, count, value);
      } else {
        if count == 0 || count > nleft {
          OthersMore(old(scanline[..]), scanline[..], k, 0, i, width);
          return false;
        }
        plain := Bytes(s.input, s.pos, count);
        FillDump(s, scanline, k, i, count);
      }
      HoldsMore(before, scanline[..], k, 0, i, done, plain);
      OthersChain(old(scanline[..]), before, scanline[..], k, 0, i, i + count);
      done := done + plain;
      i := i + count;
    }
    NothingMore(s.input, s.pos);
    assert done + [] == done;
    return true;
  }

  lemma NothingMore(input: seq<byte>, pos: nat)
    ensures PlaneFrom(input, pos, 0) == Plane([], pos)
  {
  }

  lemma OthersMore(a: seq<byte>, b: seq<byte>, k: nat, lo: nat, mid: nat, hi: nat)
    requires lo <= mid <= hi && OthersSame(a, b, k, lo, mid)
    ensures OthersSame(a, b, k, lo, hi)
  {
  }

  /** The four planes of a scanline. */
  method ReadPlanes(s: Context, scanline: array<byte>, width: nat) returns (ok: bool)
    requires scanline.Length == 4 * width
    modifies s, scanline
    ensures match PlanesFrom(s.input, old(s.pos), width, 4)
            case NoPlanes => !ok
            case Planes(data, end) =>
              ok && s.pos == end && forall i :: 0 <= i < width ==> PixelIs(scanline[..], i, Pixels(data, width)[i])
  {
    hide Cell, OthersSame, PlaneFrom;
    ghost var data: seq<seq<byte>> := [];
    ghost var start := s.pos;
    for k := 0 to 4
      invariant PlanesFrom(s.input, start, width, k) == Planes(data, s.pos)
      invariant |data| == k && forall c :: 0 <= c < k ==> |data[c]| == width && Holds(scanline[..], c, 0, data[c])
    {
      ghost var before := scanline[..];
      ghost var plane := PlaneFrom(s.input, s.pos, width);
      var read := ReadPlane(s, scanline, k, width);
      if !read {
        LaterPlanes(s.input, start, width, k);
        return false;
      }
      forall c: nat | c < k
        ensures Holds(scanline[..], c, 0, data[c])
      {
        StillHolds(before, scanline[..], k, c, width, data[c]);
      }
      data := data + [plane.data];
    }
    forall i: nat | i < width
      ensures PixelIs(scanline[..], i, Pixels(data, width)[i])
    {
      FourCells(scanline[..], data, width, i);
    }
    return true;
  }

  lemma StillHolds(before: seq<byte>, s: seq<byte>, k: nat, c: nat, width: nat, data: seq<byte>)
    requires c < 4 && c != k && OthersSame(before, s, k, 0, width) && Holds(before, c, 0, data)
    ensures Holds(s, c, 0, data)
  {
    forall j | 0 <= j < |data|
      ensures Cell(s, 0 + j, c) == data[j]
    {
      assert Cell(before, 0 + j, c) == data[j];
    }
  }

  lemma {:induction false} LaterPlanes(input: seq<byte>, pos: nat, width: nat, k: nat)
    requires k < 4 && PlanesFrom(input, pos, width, k).Planes?
    requires PlaneFrom(input, PlanesFrom(input, pos, width, k).end, width).Bad?
    ensures PlanesFrom(input, pos, width, 4).NoPlanes?
  {
    NoLater(input, pos, width, k + 1, 4);
  }

  lemma {:induction false} NoLater(input: seq<byte>, pos: nat, width: nat, k: nat, n: nat)
    requires k <= n && PlanesFrom(input, pos, width, k).NoPlanes?
    ensures PlanesFrom(input, pos, width, n).NoPlanes?
    decreases n
  {
    if k >= n {
    } else {
      NoLater(input, pos, width, k, n - 1);
    }
  }

  /** The pixel's four bytes are in the buffer. */
  ghost predicate PixelIs(s: seq<byte>, i: nat, p: Rgbe) {
    4 * i + 4 <= |s| && p == Rgbe(s[4 * i], s[4 * i + 1], s[4 * i + 2], s[4 * i + 3])
  }

  lemma FourCells(s: seq<byte>, data: seq<seq<byte>>, width: nat, i: nat)
    requires |s| == 4 * width && |data| == 4 && i < width
    requires forall c :: 0 <= c < 4 ==> |data[c]| == width && Holds(s, c, 0, data[c])
    ensures PixelIs(s, i, Pixels(data, width)[i])
  {
    assert Cell(s, 0 + i, 0) == data[0][i] && Cell(s, 0 + i, 1) == data[1][i];
    assert Cell(s, 0 + i, 2) == data[2][i] && Cell(s, 0 + i, 3) == data[3][i];
  }

  /** The pixel of four bytes, zeros after the end. */
  function PixelAt(input: seq<byte>, pos: nat): Rgbe {
    Rgbe(At(input, pos), At(input, pos + 1), At(input, pos + 2), At(input, pos + 3))
  }

  /** From pixel `first` on the flat pixels at pos are shown, those whose four bytes are all there. */
  ghost predicate FlatShown(input: seq<byte>, pos: nat, first: nat, px: seq<Rgbe>) {
    forall i :: first <= i < |px| && pos + 4 * (i - first) + 4 <= |input| ==>
      px[i] == PixelAt(input, pos + 4 * (i - first))
  }

  /** Four bytes, if there are that many; otherwise whatever was there before. */
  method GetPixel(s: Context, junk: Rgbe) returns (p: Rgbe)
    modifies s
    ensures if old(s.pos) + 4 <= |s.input| then s.pos == old(s.pos) + 4 && p == PixelAt(s.input, old(s.pos))
            else s.pos == old(s.pos) && p == junk
  {
    p := junk;
    if s.pos + 4 <= |s.input| {
      var r := s.Get8();
      var g := s.Get8();
      var b := s.Get8();
      var e := s.Get8();
      p := Rgbe(r, g, b, e);
    }
  }

  /** Where the reader is after k flat pixels: short of four bytes it does not move. */
  ghost predicate FlatPlace(input: seq<byte>, start: nat, k: nat, pos: nat) {
    if start + 4 * k <= |input| then pos == start + 4 * k else |input| < pos + 4
  }

  /** Reads flat pixels from pixel `first` on. */
  method ReadFlat(s: Context, out: array<Rgbe>, first: nat)
    requires first <= out.Length
    modifies s, out
    ensures out[..first] == old(out[..first]) && FlatShown(s.input, old(s.pos), first, out[..])
  {
    hide PixelAt;
    for i := first to out.Length
      invariant out[..first] == old(out[..first]) && FlatPlace(s.input, old(s.pos), i - first, s.pos)
      invariant FlatShown(s.input, old(s.pos), first, out[..i])
    {
      out[i] := GetPixel(s, out[i]);
    }
    assert out[..out.Length] == out[..];
  }

  /** What the reader shows of an image. */
  ghost predicate Shown(input: seq<byte>, pos: nat, width: nat, height: nat, ok: bool, px: seq<Rgbe>) {
    if !Compressed(width) then ok && FlatShown(input, pos, 0, px)
    else
      match ImageFrom(input, pos, width, height)
      case Corrupt => !ok
      case Image(p, _) => ok && px == p
      case Uncompressed(at) => ok && px != [] && px[0] == PixelAt(input, at) && FlatShown(input, at, 0, px)
  }

  /** Reads flat pixels after the first three bytes have been read in search of a header. */
  method ReadAllFlat(s: Context, out: array<Rgbe>, c1: byte, c2: byte, len: byte, ghost at: nat)
    requires out.Length > 0 && s.pos == After(s.input, at, 3)
    requires c1 == At(s.input, at) && c2 == At(s.input, at + 1) && len == At(s.input, at + 2)
    modifies s, out
    ensures out[0] == PixelAt(s.input, at) && FlatShown(s.input, at, 0, out[..])
  {
    FourOn(s.input, at);
    var e := s.Get8();
    out[0] := Rgbe(c1, c2, len, e);
    ghost var pos := s.pos;
    ReadFlat(s, out, 1);
    assert out[..1][0] == PixelAt(s.input, at);
    StartOver(s.input, at, pos, out[..]);
  }

  /** Reading byte by byte past the end. */
  lemma FourOn(input: seq<byte>, at: nat)
    ensures At(input, After(input, at, 3)) == At(input, at + 3)
    ensures at + 4 <= |input| ==> Next(input, After(input, at, 3)) == at + 4
    ensures at < |input| < at + 4 ==> |input| <= Next(input, After(input, at, 3))
    ensures At(input, Next(input, at)) == At(input, at + 1)
    ensures At(input, Next(input, Next(input, at))) == At(input, at + 2)
    ensures After(input, at, 3) == Next(input, Next(input, Next(input, at)))
  {
    assert After(input, at, 1) == Next(input, at);
    assert After(input, at, 2) == Next(input, Next(input, at));
    assert After(input, at, 3) == Next(input, Next(input, Next(input, at)));
  }

  /** The four bytes that were no header are the first pixel. */
  lemma StartOver(input: seq<byte>, at: nat, pos: nat, px: seq<Rgbe>)
    requires px != [] && px[0] == PixelAt(input, at) && FlatShown(input, pos, 1, px)
    requires at + 4 <= |input| ==> pos == at + 4
    ensures FlatShown(input, at, 0, px)
  {
    hide PixelAt;
    forall i | 0 <= i < |px| && at + 4 * (i - 0) + 4 <= |input|
      ensures px[i] == PixelAt(input, at + 4 * (i - 0))
    {
      if i > 0 {
        assert pos + 4 * (i - 1) == at + 4 * i;
      }
    }
  }

  /** Reads the pixels of an image. */
  method LoadData(s: Context, width: nat, height: nat) returns (ok: bool, out: array<Rgbe>)
    modifies s
    ensures fresh(out) && out.Length == width * height && Shown(s.input, old(s.pos), width, height, ok, out[..])
  {
    hide PlanesFrom, FlatShown, ImageFrom, Pixels, PixelIs, HeaderEnd, After;
    ghost var start := s.pos;
    out := new Rgbe[width * height](_ => Rgbe(0, 0, 0, 0));
    if width < 8 || width >= 32768 {
      ReadFlat(s, out, 0);
      return true, out;
    }
    var scanline := new byte[4 * width](_ => 0);
    ghost var px: seq<Rgbe> := [];
    NoRows(s.input, start, width);
    for j := 0 to height
      invariant ImageFrom(s.input, start, width, j) == Image(px, s.pos)
      invariant |px| == j * width <= width * height && out[..j * width] == px
    {
      RowOffset(j, height, width);
      ghost var at := s.pos;
      HeaderParts(s.input, at);
      FourOn(s.input, at);
      var c1 := s.Get8();
      var c2 := s.Get8();
      var len := s.Get8();
      if c1 != 2 || c2 != 2 || len >= 128 {
        NotCompressed(s.input, start, width, height, j, at);
        ReadAllFlat(s, out, c1, c2, len, at);
        return true, out;
      }
      var low := s.Get8();
      if len as int * 256 + low as int != width {
        BadRow(s.input, start, width, height, j);
        return false, out;
      }
      var read := ReadPlanes(s, scanline, width);
      if !read {
        BadRow(s.input, start, width, height, j);
        return false, out;
      }
      ghost var row := Pixels(PlanesFrom(s.input, HeaderEnd(s.input, at), width, 4).data, width);
      CopyRow(out, j * width, scanline, width, row);
      NextRow(s.input, start, width, j, px, at, row, s.pos);
      px := px + row;
    }
    WholeImage(width, height, out[..], px);
    ok := true;
  }

  /** Copies a scanline of interleaved bytes to the output. */
  method CopyRow(out: array<Rgbe>, first: nat, scanline: array<byte>, width: nat, ghost row: seq<Rgbe>)
    requires first + width <= out.Length && scanline.Length == 4 * width && |row| == width
    requires forall i :: 0 <= i < width ==> PixelIs(scanline[..], i, row[i])
    modifies out
    ensures out[..first + width] == old(out[..first]) + row
  {
    for i := 0 to width
      invariant out[..first + i] == old(out[..first]) + row[..i]
    {
      assert PixelIs(scanline[..], i, row[i]);
      out[first + i] := Rgbe(scanline[4 * i], scanline[4 * i + 1], scanline[4 * i + 2], scanline[4 * i + 3]);
    }
    assert row[..width] == row;
  }

  lemma NoRows(input: seq<byte>, pos: nat, width: nat)
    ensures ImageFrom(input, pos, width, 0) == Image([], pos)
  {
  }

  lemma RowOffset(j: nat, height: nat, width: nat)
    requires j < height
    ensures j * width + width == (j + 1) * width <= width * height
    ensures width > 0 ==> width * height > 0
  {
    MulNext(j, width);
    MulNotLess(j + 1, height, width);
  }

  lemma HeaderParts(input: seq<byte>, pos: nat)
    ensures var p1 := Next(input, pos);
      var p2 := Next(input, p1);
      var p3 := Next(input, p2);
      && HeaderEnd(input, pos) == Next(input, p3)
      && HeaderWidth(input, pos) == At(input, p2) * 256 + At(input, p3)
  {
    assert After(input, pos, 1) == Next(input, pos);
    assert After(input, pos, 2) == Next(input, Next(input, pos));
    assert After(input, pos, 3) == Next(input, Next(input, Next(input, pos)));
  }

  lemma NextRow(input: seq<byte>, start: nat, width: nat, j: nat, px: seq<Rgbe>, at: nat, row: seq<Rgbe>, end: nat)
    requires ImageFrom(input, start, width, j) == Image(px, at) && AtHeader(input, at)
    requires HeaderWidth(input, at) == width
    requires PlanesFrom(input, HeaderEnd(input, at), width, 4).Planes?
    requires row == Pixels(PlanesFrom(input, HeaderEnd(input, at), width, 4).data, width)
    requires end == PlanesFrom(input, HeaderEnd(input, at), width, 4).end
    ensures ImageFrom(input, start, width, j + 1) == Image(px + row, end)
  {
    hide PlanesFrom, Pixels, AtHeader, HeaderWidth, HeaderEnd;
  }

  /** After a row that cannot be read, the outcome for all later rows is the same. */
  lemma {:induction false} SameOutcome(input: seq<byte>, start: nat, width: nat, j: nat, height: nat)
    requires j <= height && !ImageFrom(input, start, width, j).Image?
    ensures ImageFrom(input, start, width, height) == ImageFrom(input, start, width, j)
    decreases height
  {
    hide PlanesFrom, Pixels, AtHeader, HeaderEnd, HeaderWidth;
    if j >= height {
    } else {
      SameOutcome(input, start, width, j, height - 1);
    }
  }

  lemma NotCompressed(input: seq<byte>, start: nat, width: nat, height: nat, j: nat, at: nat)
    requires j < height && ImageFrom(input, start, width, j).Image? && ImageFrom(input, start, width, j).end == at
    requires !AtHeader(input, at)
    ensures ImageFrom(input, start, width, height) == Uncompressed(at)
  {
    hide PlanesFrom, Pixels, AtHeader;
    SameOutcome(input, start, width, j + 1, height);
  }

  lemma BadRow(input: seq<byte>, start: nat, width: nat, height: nat, j: nat)
    requires j < height && ImageFrom(input, start, width, j).Image?
    requires var at := ImageFrom(input, start, width, j).end;
      && AtHeader(input, at)
      && (HeaderWidth(input, at) != width || PlanesFrom(input, HeaderEnd(input, at), width, 4).NoPlanes?)
    ensures ImageFrom(input, start, width, height) == Corrupt
  {
    hide PlanesFrom, Pixels, AtHeader, HeaderWidth, HeaderEnd;
    SameOutcome(input, start, width, j + 1, height);
  }

  lemma WholeImage(width: nat, height: nat, out: seq<Rgbe>, px: seq<Rgbe>)
    requires |out| == width * height && |px| == height * width && out[..height * width] == px
    ensures out == px
  {
    assert height * width == width * height;
  }

  datatype Status = Ok | TooLarge | CorruptData

  /** Components asked for; none means three. */
  function Comps(reqComp: nat): (n: nat)
    ensures n > 0
  {
    if reqComp == 0 then 3 else reqComp
  }

  /** No dimension is too large or negative, and the sizes of the result can be held. */
  predicate SizesOk(width: int, height: int, reqComp: nat) {
    && 0 <= width <= 0x100_0000 && 0 <= height <= 0x100_0000
    && width * height * Comps(reqComp) * 4 <= 0x7FFF_FFFF
  }

  /** Loads an image of the size its header gives. */
  method LoadHdr(s: Context, width: int, height: int, reqComp: nat) returns (st: Status, out: array<Rgbe>)
    modifies s
    ensures fresh(out) && (st == TooLarge <==> !SizesOk(width, height, reqComp))
    ensures st != TooLarge ==>
      out.Length == width * height && Shown(s.input, old(s.pos), width, height, st == Ok, out[..])
  {
    hide Shown, Mad4Valid;
    out := new Rgbe[0];
    if height > MAX_DIMENSIONS || width > MAX_DIMENSIONS {
      return TooLarge, out;
    }
    var comps := if reqComp == 0 then 3 else reqComp;
    Mad4Exact(width, height, comps, 4);
    if !Mad4Valid(width, height, comps, 4) {
      return TooLarge, out;
    }
    var ok;
    ok, out := LoadData(s, width, height);
    st := if ok then Ok else CorruptData;
  }

  // ----- round trip

  /** Writes an image scanline by scanline. */
  method WriteImage(rows: seq<seq<Rgbe>>, width: nat) returns (out: seq<byte>, ghost coded: seq<seq<seq<Packet>>>)
    requires forall j :: 0 <= j < |rows| ==> |rows[j]| == width
    ensures !Compressed(width) ==> out == Flat(Concat(rows))
    ensures Compressed(width) ==> CodedRows(rows, width, coded) && out == RowCodes(width, coded)
  {
    hide Flat, Concat, AllOk, Expand, PlaneOf;
    out, coded := [], [];
    NothingWritten(width);
    for j := 0 to |rows|
      invariant !Compressed(width) ==> out == Flat(Concat(rows[..j]))
      invariant Compressed(width) ==> CodedRows(rows[..j], width, coded) && out == RowCodes(width, coded)
    {
      var code;
      ghost var pss;
      code, pss := WriteScanline(rows[j]);
      assert rows[..j + 1] == rows[..j] + [rows[j]];
      if !Compressed(width) {
        ConcatSnoc(rows[..j], rows[j]);
        FlatAppend(Concat(rows[..j]), rows[j]);
      } else {
        CodedMore(rows[..j], rows[j], width, coded, pss);
        coded := coded + [pss];
      }
      out := out + code;
    }
    assert rows[..|rows|] == rows;
  }

  /** Writes an image that has pixels. */
  method WriteHdr(rows: seq<seq<Rgbe>>, width: nat)
    returns (written: bool, out: seq<byte>, ghost coded: seq<seq<seq<Packet>>>)
    requires forall j :: 0 <= j < |rows| ==> |rows[j]| == width
    ensures written <==> width > 0 && rows != []
    ensures !written ==> out == []
    ensures written && !Compressed(width) ==> out == Flat(Concat(rows))
    ensures written && Compressed(width) ==> CodedRows(rows, width, coded) && out == RowCodes(width, coded)
  {
    hide Flat, Concat, CodedRows, RowCodes;
    if |rows| <= 0 || width <= 0 {
      return false, [], [];
    }
    out, coded := WriteImage(rows, width);
    written := true;
  }

  ghost predicate CodedRows(rows: seq<seq<Rgbe>>, width: nat, coded: seq<seq<seq<Packet>>>) {
    && |coded| == |rows|
    && forall j :: 0 <= j < |rows| ==> |rows[j]| == width && |coded[j]| == 4 && PlanesCoded(rows[j], coded[j])
  }

  ghost function RowCodes(width: nat, coded: seq<seq<seq<Packet>>>): seq<byte>
    requires width < 32768 && forall j, c :: 0 <= j < |coded| && 0 <= c < |coded[j]| ==> AllOk(coded[j][c])
  {
    if coded == [] then []
    else RowCodes(width, coded[..|coded| - 1]) + (Header(width) + PlaneCodes(coded[|coded| - 1]))
  }

  lemma NothingWritten(width: nat)
    ensures Flat(Concat([])) == [] && CodedRows([], width, []) && (width < 32768 ==> RowCodes(width, []) == [])
  {
  }

  lemma CodedMore(rows: seq<seq<Rgbe>>, row: seq<Rgbe>, width: nat, coded: seq<seq<seq<Packet>>>, pss: seq<seq<Packet>>)
    requires Compressed(width) && CodedRows(rows, width, coded)
    requires |row| == width && |pss| == 4 && PlanesCoded(row, pss)
    ensures CodedRows(rows + [row], width, coded + [pss])
    ensures RowCodes(width, coded + [pss]) == RowCodes(width, coded) + (Header(width) + PlaneCodes(pss))
  {
    assert (coded + [pss])[..|coded|] == coded;
  }

  lemma {:induction false} FlatAppend(a: seq<Rgbe>, b: seq<Rgbe>)
    ensures Flat(a + b) == Flat(a) + Flat(b)
    decreases |b|
  {
    if b == [] {
      assert a + b == a;
    } else {
      var n := |b| - 1;
      FlatAppend(a, b[..n]);
      assert (a + b)[..|a| + n] == a + b[..n];
    }
  }

  /** The first n planes of a scanline. */
  function PlanesOf(row: seq<Rgbe>, n: nat): (planes: seq<seq<byte>>)
    requires n <= 4
    ensures |planes| == n && forall c :: 0 <= c < n ==> planes[c] == PlaneOf(row, c)
  {
    if n == 0 then [] else PlanesOf(row, n - 1) + [PlaneOf(row, n - 1)]
  }

  lemma {:induction false} PlanesRead(before: seq<byte>, row: seq<Rgbe>, pss: seq<seq<Packet>>, rest: seq<byte>)
    requires PlanesCoded(row, pss)
    ensures PlanesFrom(before + PlaneCodes(pss) + rest, |before|, |row|, |pss|) ==
      Planes(PlanesOf(row, |pss|), |before| + |PlaneCodes(pss)|)
    decreases |pss|
  {
    hide Codes, Expand, AllOk, PlaneOf, PlaneFrom;
    if pss == [] {
    } else {
      var n := |pss| - 1;
      var last, more := pss[n], PlaneCodes(pss[..n]);
      PlanesRead(before, row, pss[..n], Codes(last) + rest);
      PacketsRead(before + more, last, rest);
      hide PlaneCodes;
      assert PlaneCodes(pss) == more + Codes(last);
      Regroup4(before, more, Codes(last), rest);
      assert before + more + Codes(last) + rest == before + more + (Codes(last) + rest);
    }
  }

  /** A compressed scanline is read back. */
  lemma RowRead(before: seq<byte>, row: seq<Rgbe>, pss: seq<seq<Packet>>, rest: seq<byte>)
    requires Compressed(|row|) && PlanesCoded(row, pss) && |pss| == 4
    ensures var code := Header(|row|) + PlaneCodes(pss);
      var input, pos := before + code + rest, |before|;
      && AtHeader(input, pos) && HeaderWidth(input, pos) == |row|
      && PlanesFrom(input, HeaderEnd(input, pos), |row|, 4) == Planes(PlanesOf(row, 4), pos + |code|)
      && Pixels(PlanesOf(row, 4), |row|) == row
  {
    hide PlanesFrom, PlaneCodes, AtHeader, HeaderWidth, HeaderEnd, Pixels, PlanesOf, PlaneOf, AllOk, Expand;
    var w := |row|;
    var head, codes := Header(w), PlaneCodes(pss);
    PlanesRead(before + head, row, pss, rest);
    HeaderRead(before, w, codes + rest);
    PixelsOf(row);
    hide Header;
    Regroup4(before, head, codes, rest);
  }

  lemma HeaderRead(before: seq<byte>, width: nat, rest: seq<byte>)
    requires Compressed(width)
    ensures var input, pos := before + Header(width) + rest, |before|;
      AtHeader(input, pos) && HeaderWidth(input, pos) == width && HeaderEnd(input, pos) == pos + 4
  {
    var input, pos := before + Header(width) + rest, |before|;
    HeaderParts(input, pos);
    hide After;
    assert input[pos] == 2 && input[pos + 1] == 2 && input[pos + 2] == width / 256 && input[pos + 3] == width % 256;
  }

  lemma PixelsOf(row: seq<Rgbe>)
    ensures Pixels(PlanesOf(row, 4), |row|) == row
  {
    hide PlanesOf;
    forall i | 0 <= i < |row|
      ensures Pixels(PlanesOf(row, 4), |row|)[i] == row[i]
    {
    }
  }

  lemma {:induction false} RowsRead(rows: seq<seq<Rgbe>>, width: nat, coded: seq<seq<seq<Packet>>>, rest: seq<byte>)
    requires Compressed(width) && CodedRows(rows, width, coded)
    ensures ImageFrom(RowCodes(width, coded) + rest, 0, width, |rows|) == Image(Concat(rows), |RowCodes(width, coded)|)
    decreases |rows|
  {
    hide PlanesFrom, AllOk, PlaneOf, Expand, PlaneCodes, Pixels, AtHeader, HeaderWidth, HeaderEnd, Header, PlanesOf;
    if rows == [] {
    } else {
      var n := |rows| - 1;
      var before, code := RowCodes(width, coded[..n]), Header(width) + PlaneCodes(coded[n]);
      RowsRead(rows[..n], width, coded[..n], code + rest);
      RowRead(before, rows[n], coded[n], rest);
      assert before + code + rest == before + (code + rest);
    }
  }

  /** Flat pixels are read back. */
  lemma {:induction false} FlatRead(px: seq<Rgbe>, i: nat)
    requires i < |px|
    ensures 4 * i + 4 <= |Flat(px)| && Flat(px)[4 * i..4 * i + 4] == px[i].Bytes()
    decreases |px|
  {
    var n := |px| - 1;
    if i >= n {
    } else {
      FlatRead(px[..n], i);
      assert Flat(px)[4 * i..4 * i + 4] == Flat(px[..n])[4 * i..4 * i + 4];
    }
  }

  lemma FlatImage(px: seq<Rgbe>, shown: seq<Rgbe>)
    requires |shown| == |px| && FlatShown(Flat(px), 0, 0, shown)
    ensures shown == px
  {
    hide Flat;
    forall i | 0 <= i < |px|
      ensures shown[i] == px[i]
    {
      FlatRead(px, i);
      var four := Flat(px)[4 * i..4 * i + 4];
      assert shown[i] == PixelAt(Flat(px), 0 + 4 * (i - 0));
      assert four[0] == Flat(px)[4 * i] && four[1] == Flat(px)[4 * i + 1];
      assert four[2] == Flat(px)[4 * i + 2] && four[3] == Flat(px)[4 * i + 3];
    }
  }

  /** Nothing is written of an image without pixels; any other one is refused by the reader exactly if it
      is too large, and otherwise read back as it was written. */
  method RoundTrip(rows: seq<seq<Rgbe>>, width: nat, reqComp: nat)
    returns (written: bool, bytes: seq<byte>, st: Status, px: array<Rgbe>)
    requires forall j :: 0 <= j < |rows| ==> |rows[j]| == width
    ensures fresh(px) && (written <==> width > 0 && rows != []) && (!written ==> bytes == [])
    ensures written ==> st == if SizesOk(width, |rows|, reqComp) then Ok else TooLarge
    ensures written && st == Ok ==> px[..] == Concat(rows)
  {
    hide CodedRows, ImageFrom, FlatShown, Flat, Concat, RowCodes, SizesOk;
    ghost var coded;
    written, bytes, coded := WriteHdr(rows, width);
    var s := new Context(bytes);
    st, px := LoadHdr(s, width, |rows|, reqComp);
    ConcatLength(rows, width);
    if written && st != TooLarge {
      if Compressed(width) {
        RowsRead(rows, width, coded, []);
        assert bytes + [] == bytes;
      } else {
        FlatImage(Concat(rows), px[..]);
      }
    }
  }
}
