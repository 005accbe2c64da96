/** Run-length coded TGA images: rows bottom up, each a sequence of packets of one to 128 pixels whose
    colour bytes are stored blue first. */
module TgaRle {
  import opened Bits
  import opened ByteSource
  import opened ImageRows
  import opened Sizes

  /** One to four bytes: grey, grey and alpha, red green blue, or red green blue and alpha. */
  type Pixel = seq<byte>

  /** A pixel as it is stored: red and blue change places. */
  function Stored(px: Pixel): (s: Pixel)
    ensures |s| == |px|
  {
    if |px| >= 3 then [px[2], px[1], px[0]] + px[3..] else px
  }

  lemma StoredTwice(px: Pixel)
    ensures Stored(Stored(px)) == px
  {
  }

  function StoredRow(row: seq<Pixel>): (s: seq<Pixel>)
    ensures |s| == |row| && forall i :: 0 <= i < |s| ==> s[i] == Stored(row[i])
  {
    seq(|row|, i requires 0 <= i < |row| => Stored(row[i]))
  }

  // ----- packets

  /** Packets of stored pixels. */
  datatype Packet = Same(n: nat, px: Pixel) | Each(pxs: seq<Pixel>) {
    ghost predicate Ok(comp: nat) {
      match this
      case Same(n, px) => 1 <= n <= 128 && |px| == comp
      case Each(pxs) => 1 <= |pxs| <= 128 && forall i :: 0 <= i < |pxs| ==> |pxs[i]| == comp
    }

    ghost function Code(comp: nat): seq<byte>
      requires Ok(comp)
    {
      match this
      case Same(n, px) => [127 + n] + px
      case Each(pxs) => [|pxs| - 1] + Concat(pxs)
    }

    function Plain(): (s: seq<Pixel>) {
      match this
      case Same(n, px) => Copies(px, n)
      case Each(pxs) => pxs
    }
  }

  function Copies(px: Pixel, n: nat): (s: seq<Pixel>)
    ensures |s| == n && forall i :: 0 <= i < n ==> s[i] == px
  {
    seq(n, _ => px)
  }

  ghost predicate AllOk(comp: nat, ps: seq<Packet>) {
    forall i :: 0 <= i < |ps| ==> ps[i].Ok(comp)
  }

  ghost function Codes(comp: nat, ps: seq<Packet>): seq<byte>
    requires AllOk(comp, ps)
  {
    if ps == [] then [] else ps[0].Code(comp) + Codes(comp, ps[1..])
  }

  function Expand(ps: seq<Packet>): seq<Pixel> {
    if ps == [] then [] else ps[0].Plain() + Expand(ps[1..])
  }

  lemma {:induction false} CodesAppend(comp: nat, a: seq<Packet>, b: seq<Packet>)
    requires AllOk(comp, a) && AllOk(comp, b)
    ensures AllOk(comp, a + b) && Codes(comp, a + b) == Codes(comp, a) + Codes(comp, b)
    ensures Expand(a + b) == Expand(a) + Expand(b)
  {
    hide Packet.Code, Packet.Plain, Packet.Ok;
    if a == [] {
      assert a + b == b;
    } else {
      assert (a + b)[1..] == a[1..] + b;
      CodesAppend(comp, a[1..], b);
    }
  }

  lemma OnePacket(comp: nat, p: Packet)
    requires p.Ok(comp)
    ensures AllOk(comp, [p]) && Codes(comp, [p]) == p.Code(comp) && Expand([p]) == p.Plain()
  {
    hide Packet.Code, Packet.Plain, Packet.Ok;
    assert [p][1..] == [];
  }

  // ----- writing

  ghost predicate Sized(comp: nat, row: seq<Pixel>) {
    forall i :: 0 <= i < |row| ==> |row[i]| == comp
  }

  /** Alpha, if there is any, goes after the colour. */
  method WritePixel(comp: nat, writeAlpha: bool, d: Pixel) returns (out: seq<byte>)
    requires 1 <= comp <= 4 && |d| == comp && writeAlpha == (comp == 2 || comp == 4)
    ensures out == Stored(d)
  {
    out := [];
    match comp {
      case 1 | 2 => out := out + [d[0]];
      case _ => out := out + [d[2], d[1], d[0]];
    }
    if writeAlpha {
      out := out + [d[comp - 1]];
    }
  }

  /** How far the packet that begins at pixel i goes, and whether its pixels differ.  A run takes all the
      equal pixels it may; a packet of different pixels ends one pixel before the first that equals the
      one two places back. */
  ghost predicate PacketAt(row: seq<Pixel>, i: nat, diff: bool, len: nat) {
    && 1 <= len <= 128 && i + len <= |row|
    && if diff then
         && (i + 1 < |row| ==> row[i] != row[i + 1])
         && (forall k :: i + 2 <= k < i + len ==> row[k - 2] != row[k])
         && (i + len == |row| || len == 128 || (i + len + 1 < |row| && row[i + len - 1] == row[i + len + 1]))
       else
         && len >= 2
         && (forall k :: i <= k < i + len ==> row[k] == row[i])
         && (i + len == |row| || len == 128 || row[i + len] != row[i])
  }

  lemma PacketInside(row: seq<Pixel>, i: nat, diff: bool, len: nat)
    requires PacketAt(row, i, diff, len)
    ensures 1 <= len && i + len <= |row|
  {
  }

  method FindPacket(row: seq<Pixel>, i: nat) returns (diff: bool, len: nat)
    requires i < |row|
    ensures PacketAt(row, i, diff, len)
  {
    var x := |row|;
    diff, len := true, 1;
    if i < x - 1 {
      len := len + 1;
      diff := row[i] != row[i + 1];
      if diff {
        var prev := i;
        var k := i + 2;
        while k < x && len < 128
          invariant i + 2 <= k <= x && prev == k - 2 && len == k - i <= 128
          invariant forall h :: i + 2 <= h < k ==> row[h - 2] != row[h]
        {
          if row[prev] != row[k] {
            prev := prev + 1;
            len := len + 1;
          } else {
            len := len - 1;
            break;
          }
          k := k + 1;
        }
      } else {
        var k := i + 2;
        while k < x && len < 128
          invariant i + 2 <= k <= x && len == k - i <= 128
          invariant forall h :: i <= h < k ==> row[h] == row[i]
        {
          if row[i] == row[k] {
            len := len + 1;
          } else {
            break;
          }
          k := k + 1;
        }
      }
    }
  }

  /** The packets cut the first x pixels of the row where they should. */
  ghost predicate Cut(row: seq<Pixel>, x: int, ps: seq<Packet>)
    decreases |ps|
  {
    if ps == [] then x == 0
    else
      var n := |ps| - 1;
      var len := |ps[n].Plain()|;
      x >= len && PacketAt(row, x - len, ps[n].Each?, len) && Cut(row, x - len, ps[..n])
  }

  /** What has been written stands for the first x pixels of the row. */
  ghost predicate Written(comp: nat, row: seq<Pixel>, x: nat, out: seq<byte>, ps: seq<Packet>) {
    && x <= |row| && AllOk(comp, ps) && out == Codes(comp, ps)
    && Expand(ps) == StoredRow(row)[..x] && Cut(row, x, ps)
  }

  /** The pixels of a packet that differ. */
  method WriteEach(comp: nat, hasAlpha: bool, row: seq<Pixel>, begin: nat, len: nat) returns (out: seq<byte>)
    requires 1 <= comp <= 4 && Sized(comp, row) && begin + len <= |row| && hasAlpha == (comp == 2 || comp == 4)
    ensures out == Concat(StoredRow(row)[begin..begin + len])
  {
    hide Stored;
    out := [];
    for k := 0 to len
      invariant out == Concat(StoredRow(row)[begin..begin + k])
    {
      var px := WritePixel(comp, hasAlpha, row[begin + k]);
      var s := StoredRow(row)[begin..begin + k + 1];
      assert s[..k] == StoredRow(row)[begin..begin + k] && s[k] == px;
      out := out + px;
    }
  }

  method WritePacket(comp: nat, hasAlpha: bool, row: seq<Pixel>, i: nat, diff: bool, len: nat)
    returns (out: seq<byte>, ghost p: Packet)
    requires 1 <= comp <= 4 && Sized(comp, row) && hasAlpha == (comp == 2 || comp == 4)
    requires i < |row| && PacketAt(row, i, diff, len)
    ensures p.Ok(comp) && out == p.Code(comp) && p.Plain() == StoredRow(row)[i..i + len] && p.Each? == diff
  {
    hide Stored, Concat;
    var size: int := len;
    if diff {
      var header := (size - 1) % 256;
      var data := WriteEach(comp, hasAlpha, row, i, len);
      out, p := [header] + data, Each(StoredRow(row)[i..i + len]);
    } else {
      var header := (size - 129) % 256;
      var data := WritePixel(comp, hasAlpha, row[i]);
      out, p := [header] + data, Same(len, Stored(row[i]));
    }
  }

  method WriteRow(comp: nat, hasAlpha: bool, row: seq<Pixel>) returns (out: seq<byte>, ghost ps: seq<Packet>)
    requires 1 <= comp <= 4 && Sized(comp, row) && hasAlpha == (comp == 2 || comp == 4)
    ensures AllOk(comp, ps) && out == Codes(comp, ps) && Expand(ps) == StoredRow(row) && Cut(row, |row|, ps)
  {
    hide Codes, Expand, AllOk, Stored, Concat, PacketAt, Packet.Code, Packet.Plain, Packet.Ok;
    out, ps := [], [];
    NoPackets(comp);
    var i := 0;
    while i < |row|
      invariant i <= |row| && Written(comp, row, i, out, ps)
    {
      var diff, len := FindPacket(row, i);
      var code;
      ghost var p;
      code, p := WritePacket(comp, hasAlpha, row, i, diff, len);
      OnePacket(comp, p);
      CodesAppend(comp, ps, [p]);
      PacketInside(row, i, diff, len);
      assert (ps + [p])[..|ps|] == ps;
      ps := ps + [p];
      out := out + code;
      assert StoredRow(row)[..i] + StoredRow(row)[i..i + len] == StoredRow(row)[..i + len];
      i := i + len;
    }
    assert StoredRow(row)[..|row|] == StoredRow(row);
  }

  lemma NoPackets(comp: nat)
    ensures AllOk(comp, []) && Codes(comp, []) == [] && Expand([]) == []
  {
  }

  /** The rows in the order they are written: bottom up, unless the image is flipped on the way out. */
  function InOrder<T>(rows: seq<T>, flip: bool): (s: seq<T>)
    ensures |s| == |rows| && forall j :: 0 <= j < |s| ==> s[j] == rows[if flip then j else |rows| - 1 - j]
  {
    seq(|rows|, j requires 0 <= j < |rows| => rows[if flip then j else |rows| - 1 - j])
  }

  function StoredRows(rows: seq<seq<Pixel>>): (s: seq<seq<Pixel>>)
    ensures |s| == |rows| && forall j :: 0 <= j < |s| ==> s[j] == StoredRow(rows[j])
  {
    seq(|rows|, j requires 0 <= j < |rows| => StoredRow(rows[j]))
  }

  ghost predicate Rectangle(comp: nat, width: nat, rows: seq<seq<Pixel>>) {
    forall j :: 0 <= j < |rows| ==> |rows[j]| == width && Sized(comp, rows[j])
  }

  function Header(width: nat, height: nat, comp: nat): seq<byte>
    requires 1 <= comp <= 4
  {
    var hasAlpha := comp == 2 || comp == 4;
    var colorbytes := if hasAlpha then comp - 1 else comp;
    var format := if colorbytes < 2 then 3 else 2;
    [0, 0, format + 8, 0, 0, 0, 0, 0, 0, 0, 0, 0, width % 256, width / 256 % 256, height % 256, height / 256 % 256,
     (colorbytes + if hasAlpha then 1 else 0) * 8, if hasAlpha then 8 else 0]
  }

  /** Writes the header and the rows. */
  method WriteTga(comp: nat, width: nat, rows: seq<seq<Pixel>>, flip: bool)
    returns (out: seq<byte>, ghost ps: seq<Packet>)
    requires 1 <= comp <= 4 && Rectangle(comp, width, rows)
    ensures AllOk(comp, ps) && out == Header(width, |rows|, comp) + Codes(comp, ps)
    ensures Expand(ps) == Concat(StoredRows(InOrder(rows, flip)))
  {
    hide Codes, Expand, AllOk, Header, StoredRow, Cut, Concat;
    var hasAlpha := comp == 2 || comp == 4;
    var y := |rows|;
    out, ps := Header(width, y, comp), [];
    NoPackets(comp);
    assert out + [] == out && Concat<Pixel>([]) == [] by {
      NoRows();
    }
    var j: int, jend: int, jdir: int := y - 1, -1, -1;
    if flip {
      j, jend, jdir := 0, y, 1;
    }
    ghost var n := 0;
    ghost var all := StoredRows(InOrder(rows, flip));
    while j != jend
      invariant 0 <= n <= y && j == if flip then n else y - 1 - n
      invariant AllOk(comp, ps) && out == Header(width, y, comp) + Codes(comp, ps) && Expand(ps) == Concat(all[..n])
      decreases y - n
    {
      var code;
      ghost var more;
      code, more := WriteRow(comp, hasAlpha, rows[j]);
      CodesAppend(comp, ps, more);
      ConcatSnoc(all[..n], all[n]);
      assert all[..n + 1] == all[..n] + [StoredRow(rows[j])];
      ps := ps + more;
      out := out + code;
      j := j + jdir;
      n := n + 1;
    }
    assert all[..y] == all;
  }

  lemma NoRows()
    ensures Concat<Pixel>([]) == []
  {
  }

  // ----- reading packets

  function PixelsAt(input: seq<byte>, pos: nat, comp: nat, n: nat): (s: seq<Pixel>)
    ensures |s| == n
    decreases n
  {
    if n == 0 then [] else [Bytes(input, pos, comp)] + PixelsAt(input, After(input, pos, comp), comp, n - 1)
  }

  function AfterPixels(input: seq<byte>, pos: nat, comp: nat, n: nat): nat
    decreases n
  {
    if n == 0 then pos else AfterPixels(input, After(input, pos, comp), comp, n - 1)
  }

  function Min(a: nat, b: nat): nat {
    if a < b then a else b
  }

  /** The next `left` pixels of the image, packet by packet; the last packet may have more. */
  function Unpacked(input: seq<byte>, pos: nat, comp: nat, left: nat): (s: seq<Pixel>)
    ensures |s| == left
    decreases left
  {
    if left == 0 then []
    else
      var cmd, at := At(input, pos), Next(input, pos);
      var n := Min(1 + cmd % 128, left);
      if cmd >= 128 then Copies(Bytes(input, at, comp), n) + Unpacked(input, After(input, at, comp), comp, left - n)
      else PixelsAt(input, at, comp, n) + Unpacked(input, AfterPixels(input, at, comp, n), comp, left - n)
  }

  lemma {:induction false} PixelsInside(before: seq<byte>, comp: nat, pxs: seq<Pixel>, rest: seq<byte>)
    requires Sized(comp, pxs)
    ensures PixelsAt(before + Concat(pxs) + rest, |before|, comp, |pxs|) == pxs
    ensures AfterPixels(before + Concat(pxs) + rest, |before|, comp, |pxs|) == |before| + |Concat(pxs)|
    decreases |pxs|
  {
    if pxs == [] {
    } else {
      ConcatCons(pxs);
      var p, more := pxs[0], Concat(pxs[1..]);
      var input := before + Concat(pxs) + rest;
      assert input == before + p + more + rest;
      BytesInside(input, |before|, comp);
      assert input[|before|..|before| + comp] == p;
      PixelsInside(before + p, comp, pxs[1..], rest);
    }
  }

  lemma {:induction false} PacketsRead(before: seq<byte>, comp: nat, ps: seq<Packet>, rest: seq<byte>)
    requires AllOk(comp, ps)
    ensures Unpacked(before + Codes(comp, ps) + rest, |before|, comp, |Expand(ps)|) == Expand(ps)
    decreases |ps|
  {
    hide Unpacked, Packet.Code, Packet.Plain, AllOk;
    if ps == [] {
      NoPackets(comp);
      NothingLeft(before + [] + rest, |before|, comp);
    } else {
      FirstPacket(comp, ps);
      var p, more := ps[0], Codes(comp, ps[1..]);
      hide Codes, Expand;
      assert before + (p.Code(comp) + more) + rest == before + p.Code(comp) + more + rest
          == before + p.Code(comp) + (more + rest);
      PacketsRead(before + p.Code(comp), comp, ps[1..], rest);
      PacketStep(before, comp, p, more + rest, |Expand(ps)|);
    }
  }

  lemma NothingLeft(input: seq<byte>, pos: nat, comp: nat)
    ensures Unpacked(input, pos, comp, 0) == []
  {
  }

  lemma FirstPacket(comp: nat, ps: seq<Packet>)
    requires AllOk(comp, ps) && ps != []
    ensures ps[0].Ok(comp) && AllOk(comp, ps[1..]) && Codes(comp, ps) == ps[0].Code(comp) + Codes(comp, ps[1..])
    ensures Expand(ps) == ps[0].Plain() + Expand(ps[1..])
  {
  }

  lemma PacketStep(before: seq<byte>, comp: nat, p: Packet, rest: seq<byte>, left: nat)
    requires p.Ok(comp) && |p.Plain()| <= left
    ensures var input, pos := before + p.Code(comp) + rest, |before|;
      Unpacked(input, pos, comp, left) == p.Plain() + Unpacked(input, pos + |p.Code(comp)|, comp, left - |p.Plain()|)
  {
    hide Unpacked, Bytes, After, PixelsAt, AfterPixels, Copies, Concat, Packet.Code, Packet.Ok;
    var input, pos := before + p.Code(comp) + rest, |before|;
    CommandByte(before, comp, p, rest);
    match p
    case Same(n, px) =>
      SameInside(before, comp, n, px, rest);
      SameStep(input, pos, comp, left, n, px);
    case Each(pxs) =>
      EachInside(before, comp, pxs, rest);
      EachStep(input, pos, comp, left, pxs, pos + |p.Code(comp)|);
  }

  lemma CommandByte(before: seq<byte>, comp: nat, p: Packet, rest: seq<byte>)
    requires p.Ok(comp)
    ensures var input := before + p.Code(comp) + rest;
      && |before| < |input|
      && match p
         case Same(n, px) => 1 <= n <= 128 && |p.Code(comp)| == 1 + comp && input[|before|] == 127 + n
         case Each(pxs) => 1 <= |pxs| <= 128 && |p.Code(comp)| == 1 + |Concat(pxs)| && input[|before|] == |pxs| - 1
  {
    hide Concat;
  }

  lemma SameInside(before: seq<byte>, comp: nat, n: nat, px: Pixel, rest: seq<byte>)
    requires Same(n, px).Ok(comp)
    ensures var input := before + Same(n, px).Code(comp) + rest;
      Bytes(input, |before| + 1, comp) == px && After(input, |before| + 1, comp) == |before| + 1 + comp
  {
    hide Bytes, After;
    var input := before + Same(n, px).Code(comp) + rest;
    BytesInside(input, |before| + 1, comp);
    assert input[|before| + 1..|before| + 1 + comp] == px;
  }

  lemma EachInside(before: seq<byte>, comp: nat, pxs: seq<Pixel>, rest: seq<byte>)
    requires Each(pxs).Ok(comp)
    ensures var input := before + Each(pxs).Code(comp) + rest;
      && PixelsAt(input, |before| + 1, comp, |pxs|) == pxs
      && AfterPixels(input, |before| + 1, comp, |pxs|) == |before| + 1 + |Concat(pxs)|
  {
    hide PixelsAt, AfterPixels, Concat;
    var head: seq<byte> := [|pxs| - 1];
    assert before + Each(pxs).Code(comp) + rest == before + head + Concat(pxs) + rest;
    PixelsInside(before + head, comp, pxs, rest);
  }

  lemma SameStep(input: seq<byte>, pos: nat, comp: nat, left: nat, n: nat, px: Pixel)
    requires pos < |input| && 1 <= n <= 128 && n <= left && input[pos] == 127 + n
    requires Bytes(input, pos + 1, comp) == px && After(input, pos + 1, comp) == pos + 1 + comp
    ensures Unpacked(input, pos, comp, left) == Copies(px, n) + Unpacked(input, pos + 1 + comp, comp, left - n)
  {
    hide Bytes, After, Copies;
  }

  lemma EachStep(input: seq<byte>, pos: nat, comp: nat, left: nat, pxs: seq<Pixel>, end: nat)
    requires pos < |input| && 1 <= |pxs| <= 128 && |pxs| <= left && input[pos] == |pxs| - 1
    requires PixelsAt(input, pos + 1, comp, |pxs|) == pxs && AfterPixels(input, pos + 1, comp, |pxs|) == end
    ensures Unpacked(input, pos, comp, left) == pxs + Unpacked(input, end, comp, left - |pxs|)
  {
    hide Bytes, After, PixelsAt, AfterPixels, Copies;
  }

  // ----- the reader

  /** In the middle of a packet with `count` pixels to go. */
  datatype Place = Place(pos: nat, count: nat, repeating: bool, raw: Pixel)

  /** The pixels still to come. */
  function Pending(input: seq<byte>, at: Place, comp: nat, left: nat): (s: seq<Pixel>) {
    var m := Min(at.count, left);
    if at.repeating then Copies(at.raw, m) + Unpacked(input, at.pos, comp, left - m)
    else PixelsAt(input, at.pos, comp, m) + Unpacked(input, AfterPixels(input, at.pos, comp, m), comp, left - m)
  }

  /** A pixel read at the beginning of a packet. */
  lemma PendingCommand(input: seq<byte>, at: Place, comp: nat, left: nat)
    requires at.count == 0 && left > 0
    ensures var cmd, p := At(input, at.pos), Next(input, at.pos);
      var px, end := Bytes(input, p, comp), After(input, p, comp);
      Pending(input, at, comp, left) == [px] + Pending(input, Place(end, cmd % 128, cmd >= 128, px), comp, left - 1)
  {
    hide Bytes, After, PixelsAt, AfterPixels, Copies, Unpacked;
    NothingPending(input, at, comp, left);
    var cmd, p := At(input, at.pos), Next(input, at.pos);
    var n := Min(1 + cmd % 128, left);
    assert Min(cmd % 128, left - 1) == n - 1;
    if cmd >= 128 {
      CommandRun(input, at.pos, comp, left, n);
    } else {
      CommandRaw(input, at.pos, comp, left, n);
    }
  }

  lemma CommandRun(input: seq<byte>, pos: nat, comp: nat, left: nat, n: nat)
    requires At(input, pos) >= 128 && n == Min(1 + At(input, pos) % 128, left) > 0
    ensures var p := Next(input, pos);
      var px, end := Bytes(input, p, comp), After(input, p, comp);
      Unpacked(input, pos, comp, left) == [px] + (Copies(px, n - 1) + Unpacked(input, end, comp, left - n))
  {
    hide Bytes, After, Copies;
    var p := Next(input, pos);
    MoreCopies(Bytes(input, p, comp), n, Unpacked(input, After(input, p, comp), comp, left - n));
  }

  lemma CommandRaw(input: seq<byte>, pos: nat, comp: nat, left: nat, n: nat)
    requires At(input, pos) < 128 && n == Min(1 + At(input, pos) % 128, left) > 0
    ensures var p := Next(input, pos);
      var px, end := Bytes(input, p, comp), After(input, p, comp);
      var e := AfterPixels(input, end, comp, n - 1);
      Unpacked(input, pos, comp, left)
      == [px] + (PixelsAt(input, end, comp, n - 1) + Unpacked(input, e, comp, left - n))
  {
    hide Bytes, After, PixelsAt, AfterPixels;
    var p := Next(input, pos);
    MorePixels(input, p, comp, n, Unpacked(input, AfterPixels(input, p, comp, n), comp, left - n));
  }

  lemma NothingPending(input: seq<byte>, at: Place, comp: nat, left: nat)
    requires at.count == 0
    ensures Pending(input, at, comp, left) == Unpacked(input, at.pos, comp, left)
  {
    hide Unpacked;
    assert [] + Unpacked(input, at.pos, comp, left) == Unpacked(input, at.pos, comp, left);
  }

  lemma MoreCopies(px: Pixel, n: nat, rest: seq<Pixel>)
    requires n > 0
    ensures Copies(px, n) + rest == [px] + (Copies(px, n - 1) + rest)
  {
  }

  lemma MorePixels(input: seq<byte>, pos: nat, comp: nat, n: nat, rest: seq<Pixel>)
    requires n > 0
    ensures var px, end := Bytes(input, pos, comp), After(input, pos, comp);
      && PixelsAt(input, pos, comp, n) + rest == [px] + (PixelsAt(input, end, comp, n - 1) + rest)
      && AfterPixels(input, pos, comp, n) == AfterPixels(input, end, comp, n - 1)
  {
    var px, end := Bytes(input, pos, comp), After(input, pos, comp);
    assert [px] + PixelsAt(input, end, comp, n - 1) + rest == [px] + (PixelsAt(input, end, comp, n - 1) + rest);
  }

  /** A pixel inside a packet of different pixels. */
  lemma PendingRaw(input: seq<byte>, at: Place, comp: nat, left: nat)
    requires at.count > 0 && left > 0 && !at.repeating
    ensures var px, end := Bytes(input, at.pos, comp), After(input, at.pos, comp);
      Pending(input, at, comp, left) == [px] + Pending(input, Place(end, at.count - 1, false, px), comp, left - 1)
  {
    hide Bytes, After, Unpacked, PixelsAt, AfterPixels;
    var m := Min(at.count, left);
    MorePixels(input, at.pos, comp, m, Unpacked(input, AfterPixels(input, at.pos, comp, m), comp, left - m));
  }

  /** A pixel inside a run. */
  lemma PendingRun(input: seq<byte>, at: Place, comp: nat, left: nat)
    requires at.count > 0 && left > 0 && at.repeating
    ensures Pending(input, at, comp, left) == [at.raw] + Pending(input, at.(count := at.count - 1), comp, left - 1)
  {
    hide Unpacked, Copies;
    var m := Min(at.count, left);
    MoreCopies(at.raw, m, Unpacked(input, at.pos, comp, left - m));
  }

  method GetBytes(s: Context, n: nat) returns (raw: seq<byte>)
    modifies s
    ensures raw == Bytes(s.input, old(s.pos), n) && s.pos == After(s.input, old(s.pos), n)
  {
    raw := [];
    for j := 0 to n
      invariant raw == Bytes(s.input, old(s.pos), j) && s.pos == After(s.input, old(s.pos), j)
    {
      BytesSnoc(s.input, old(s.pos), j);
      var b := s.Get8();
      raw := raw + [b];
    }
  }

  /** Fills the output with pixels, keeping track of the packet. */
  method Unpack(s: Context, out: array<Pixel>, comp: nat)
    modifies s, out
    ensures out[..] == Unpacked(s.input, old(s.pos), comp, out.Length)
  {
    hide Unpacked, Pending, Bytes, After;
    var n := out.Length;
    var count, repeating, readNext, raw := 0, false, true, [];
    ghost var goal := Unpacked(s.input, s.pos, comp, n);
    NothingPending(s.input, Place(s.pos, 0, false, []), comp, n);
    for i := 0 to n
      invariant readNext ==> count == 0
      invariant goal == out[..i] + Pending(s.input, Place(s.pos, count, repeating, raw), comp, n - i)
    {
      ghost var at, done := Place(s.pos, count, repeating, raw), out[..i];
      if count == 0 {
        PendingCommand(s.input, at, comp, n - i);
        var cmd := s.Get8();
        count := 1 + cmd % 128;
        repeating := cmd >= 128;
        readNext := true;
      } else if !repeating {
        PendingRaw(s.input, at, comp, n - i);
        readNext := true;
      } else {
        PendingRun(s.input, at, comp, n - i);
      }
      if readNext {
        raw := GetBytes(s, comp);
        readNext := false;
      }
      out[i] := raw;
      count := count - 1;
      ghost var more := Pending(s.input, Place(s.pos, count, repeating, raw), comp, n - i - 1);
      assert out[..i + 1] + more == done + [raw] + more == done + ([raw] + more);
    }
    AllRead(s.input, Place(s.pos, count, repeating, raw), comp);
  }

  lemma AllRead(input: seq<byte>, at: Place, comp: nat)
    ensures Pending(input, at, comp, 0) == []
  {
  }

  // ----- turning the image over

  /** n pixels that were at `from` are now at `to`. */
  ghost predicate Moved(was: seq<Pixel>, now: seq<Pixel>, to: nat, from: nat, n: nat) {
    to + n <= |now| && from + n <= |was| && forall k :: to <= k < to + n ==> now[k] == was[k - to + from]
  }

  /** Outside two stretches of n pixels nothing has changed. */
  ghost predicate Unmoved(was: seq<Pixel>, now: seq<Pixel>, a: nat, b: nat, n: nat) {
    |now| == |was| && forall k :: 0 <= k < |now| && !(a <= k < a + n) && !(b <= k < b + n) ==> now[k] == was[k]
  }

  /** Exchanges w pixels at a and at b. */
  method SwapRows(out: array<Pixel>, a: nat, b: nat, w: nat)
    requires (a + w <= b || a == b) && b + w <= out.Length
    modifies out
    ensures Moved(old(out[..]), out[..], a, b, w) && Moved(old(out[..]), out[..], b, a, w)
    ensures Unmoved(old(out[..]), out[..], a, b, w)
  {
    for i := 0 to w
      invariant forall k :: a <= k < a + i ==> out[k] == old(out[k - a + b])
      invariant forall k :: b <= k < b + i ==> out[k] == old(out[k - b + a])
      invariant forall k :: 0 <= k < out.Length && !(a <= k < a + i) && !(b <= k < b + i) ==> out[k] == old(out[k])
    {
      var temp := out[a + i];
      out[a + i] := out[b + i];
      out[b + i] := temp;
    }
  }

  /** Two rows have changed places. */
  lemma RowsSwapped(was: seq<Pixel>, now: seq<Pixel>, w: nat, h: nat, j: nat, i: nat)
    requires |was| == |now| == h * w && j <= i < h
    requires Moved(was, now, j * w, i * w, w) && Moved(was, now, i * w, j * w, w)
    requires Unmoved(was, now, j * w, i * w, w)
    ensures Grid(now, w, h) == Grid(was, w, h)[j := Grid(was, w, h)[i]][i := Grid(was, w, h)[j]]
  {
    hide Grid, Moved, Unmoved, Row;
    forall r | 0 <= r < h
      ensures Grid(now, w, h)[r] == Grid(was, w, h)[j := Grid(was, w, h)[i]][i := Grid(was, w, h)[j]][r]
    {
      MovedRow(was, now, w, h, j, i, r);
    }
  }

  lemma MovedRow(was: seq<Pixel>, now: seq<Pixel>, w: nat, h: nat, j: nat, i: nat, r: nat)
    requires |was| == |now| == h * w && j <= i < h && r < h
    requires Moved(was, now, j * w, i * w, w) && Moved(was, now, i * w, j * w, w)
    requires Unmoved(was, now, j * w, i * w, w)
    ensures Grid(now, w, h)[r] == Grid(was, w, h)[if r == i then j else if r == j then i else r]
  {
    hide Grid, Moved, Unmoved, Row;
    if r == i {
      RowFrom(was, now, w, h, i, j);
    } else if r == j {
      RowFrom(was, now, w, h, j, i);
    } else {
      GridAt(now, w, h, r);
      UnmovedRow(was, now, w, j, i, r);
      MovesNothing(was, now, r * w, w);
      RowFrom(was, now, w, h, r, r);
    }
  }

  lemma MovesNothing(was: seq<Pixel>, now: seq<Pixel>, to: nat, n: nat)
    requires to + n <= |was| == |now| && now[to..to + n] == was[to..to + n]
    ensures Moved(was, now, to, to, n)
  {
    forall k | to <= k < to + n
      ensures now[k] == was[k]
    {
      assert now[to..to + n][k - to] == was[to..to + n][k - to];
    }
  }

  /** Row r now is what row q was. */
  lemma RowFrom(was: seq<Pixel>, now: seq<Pixel>, w: nat, h: nat, r: nat, q: nat)
    requires |was| == |now| == h * w && r < h && q < h && Moved(was, now, r * w, q * w, w)
    ensures Grid(now, w, h)[r] == Grid(was, w, h)[q]
  {
    hide Grid, Moved, Row;
    GridAt(now, w, h, r);
    GridAt(was, w, h, q);
    MovedSlice(was, now, r * w, q * w, w);
  }

  lemma UnmovedRow(was: seq<Pixel>, now: seq<Pixel>, w: nat, j: nat, i: nat, r: nat)
    requires Unmoved(was, now, j * w, i * w, w) && r != i && r != j && r * w + w <= |was|
    ensures |now| == |was| && now[r * w..r * w + w] == was[r * w..r * w + w]
  {
    hide Unmoved;
    Apart(r, j, w);
    Apart(r, i, w);
    UnmovedSlice(was, now, j * w, i * w, r * w, w);
  }

  lemma MovedSlice(was: seq<Pixel>, now: seq<Pixel>, to: nat, from: nat, n: nat)
    requires Moved(was, now, to, from, n)
    ensures to + n <= |now| && from + n <= |was| && now[to..to + n] == was[from..from + n]
  {
  }

  lemma UnmovedSlice(was: seq<Pixel>, now: seq<Pixel>, a: nat, b: nat, c: nat, n: nat)
    requires Unmoved(was, now, a, b, n) && c + n <= |was| && (c + n <= a || a + n <= c) && (c + n <= b || b + n <= c)
    ensures |now| == |was| && now[c..c + n] == was[c..c + n]
  {
  }

  lemma Apart(r: nat, j: nat, w: nat)
    ensures r < j ==> r * w + w <= j * w
    ensures j < r ==> j * w + w <= r * w
  {
    if r < j {
      RowInside(r, j, w);
    }
    if j < r {
      RowInside(j, r, w);
    }
  }

  /** Turns the image upside down. */
  method InvertRows(out: array<Pixel>, w: nat, h: nat)
    requires out.Length == h * w
    modifies out
    ensures Grid(out[..], w, h) == InOrder(old(Grid(out[..], w, h)), false)
  {
    hide Grid, InOrder, Moved, Unmoved, Turned;
    ghost var g := Grid(out[..], w, h);
    ghost var g0 := g;
    var j := 0;
    NotTurned(g0);
    while j * 2 < h
      invariant g == Grid(out[..], w, h) && Turned(g0, g, j)
    {
      ghost var was := out[..];
      var i := h - 1 - j;
      RowInside(j, h, w);
      RowInside(i, h, w);
      Apart(j, i, w);
      SwapRows(out, j * w, i * w, w);
      RowsSwapped(was, out[..], w, h, j, i);
      TurnMore(g0, g, j);
      g := g[j := g[i]][i := g[j]];
      j := j + 1;
    }
    AllTurned(g0, g, j);
  }

  /** j rows at either end have been exchanged. */
  ghost predicate Turned<T>(g0: seq<T>, g: seq<T>, j: nat) {
    && |g| == |g0| && 2 * j <= |g| + 1
    && (forall r :: 0 <= r < |g| && (r < j || |g| - 1 - r < j) ==> g[r] == g0[|g| - 1 - r])
    && (forall r :: j <= r < |g| - j ==> g[r] == g0[r])
  }

  lemma NotTurned<T>(g: seq<T>)
    ensures Turned(g, g, 0)
  {
  }

  lemma TurnMore<T>(g0: seq<T>, g: seq<T>, j: nat)
    requires Turned(g0, g, j) && 2 * j < |g|
    ensures Turned(g0, g[j := g[|g| - 1 - j]][|g| - 1 - j := g[j]], j + 1)
  {
  }

  lemma AllTurned<T>(g0: seq<T>, g: seq<T>, j: nat)
    requires Turned(g0, g, j) && 2 * j >= |g|
    ensures g == InOrder(g0, false)
  {
  }

  /** Exchanges red and blue. */
  method SwapRgb(out: array<Pixel>, comp: nat)
    requires forall i :: 0 <= i < out.Length ==> |out[i]| == comp
    modifies out
    ensures out[..] == StoredRow(old(out[..]))
  {
    if comp >= 3 {
      for i := 0 to out.Length
        invariant forall k :: 0 <= k < i ==> out[k] == Stored(old(out[k]))
        invariant forall k :: i <= k < out.Length ==> out[k] == old(out[k])
      {
        var px := out[i];
        out[i] := px[0 := px[2]][2 := px[0]];
      }
    }
  }

  // ----- loading

  /** Bytes in a pixel; none for a format that cannot be read. */
  function GetComp(bitsPerPixel: nat, isGrey: bool): nat {
    match bitsPerPixel
    case 8 => 1
    case 16 => if isGrey then 2 else 3
    case 15 => 3
    case 24 => 3
    case 32 => 4
    case _ => 0
  }

  function IsRgb16(bitsPerPixel: nat, isGrey: bool): bool {
    bitsPerPixel == 15 || (bitsPerPixel == 16 && !isGrey)
  }

  datatype Loaded = TooLarge | BadFormat | OtherKind | Image(width: nat, height: nat, comp: nat, px: seq<Pixel>)

  lemma {:induction false} UnpackedSized(input: seq<byte>, pos: nat, comp: nat, left: nat)
    ensures Sized(comp, Unpacked(input, pos, comp, left))
    decreases left
  {
    if left == 0 {
    } else {
      var cmd, at := At(input, pos), Next(input, pos);
      var n := Min(1 + cmd % 128, left);
      if cmd >= 128 {
        UnpackedSized(input, After(input, at, comp), comp, left - n);
      } else {
        PixelsSized(input, at, comp, n);
        UnpackedSized(input, AfterPixels(input, at, comp, n), comp, left - n);
      }
    }
  }

  lemma {:induction false} PixelsSized(input: seq<byte>, pos: nat, comp: nat, n: nat)
    ensures Sized(comp, PixelsAt(input, pos, comp, n))
    decreases n
  {
    if n == 0 {
    } else {
      PixelsSized(input, After(input, pos, comp), comp, n - 1);
    }
  }

  /** The pixels as they come from the packets, upside down if need be, with red and blue exchanged. */
  function Upright(px: seq<Pixel>, width: nat, height: nat, inverted: bool): (s: seq<Pixel>)
    requires |px| == width * height
  {
    StoredRow(if inverted then Concat(InOrder(Grid(px, width, height), false)) else px)
  }

  method LoadPixels(s: Context, width: nat, height: nat, comp: nat, inverted: bool) returns (out: array<Pixel>)
    modifies s
    ensures fresh(out)
    ensures out[..] == Upright(Unpacked(s.input, old(s.pos), comp, width * height), width, height, inverted)
  {
    hide Unpacked, Grid, InOrder, StoredRow, Concat;
    ghost var px := Unpacked(s.input, s.pos, comp, width * height);
    UnpackedSized(s.input, s.pos, comp, width * height);
    out := new Pixel[width * height](_ => []);
    Unpack(s, out, comp);
    if inverted {
      InvertRows(out, width, height);
      ConcatGrid(out[..], width, height);
      GridSized(px, width, height, comp);
    }
    SwapRgb(out, comp);
  }

  lemma GridSized(px: seq<Pixel>, w: nat, h: nat, comp: nat)
    requires |px| == h * w && Sized(comp, px)
    ensures Sized(comp, Concat(InOrder(Grid(px, w, h), false)))
  {
    var g := InOrder(Grid(px, w, h), false);
    forall r | 0 <= r < h
      ensures Sized(comp, g[r])
    {
      GridAt(px, w, h, h - 1 - r);
    }
    ConcatSized(g, comp);
  }

  lemma {:induction false} ConcatSized(rows: seq<seq<Pixel>>, comp: nat)
    requires forall r :: 0 <= r < |rows| ==> Sized(comp, rows[r])
    ensures Sized(comp, Concat(rows))
    decreases |rows|
  {
    if rows == [] {
    } else {
      ConcatSized(rows[..|rows| - 1], comp);
    }
  }

  /** What a header says. */
  datatype Head = Head(offset: nat, indexed: bool, rle: bool, width: nat, height: nat, comp: nat, rgb16: bool,
                       inverted: bool)

  function ParseHead(h: seq<byte>): Head
    requires |h| == 18
  {
    var kind := if h[2] >= 8 then h[2] - 8 else h[2];
    Head(h[0], h[1] != 0, h[2] >= 8, h[12] as int + h[13] as int * 256, h[14] as int + h[15] as int * 256,
         GetComp(h[16], kind == 3), IsRgb16(h[16], kind == 3), h[17] / 32 % 2 == 0)
  }

  /** The image with this header whose packets begin at pos. */
  function Shown(input: seq<byte>, h: Head, pos: nat): Loaded {
    if h.indexed || !h.rle || h.rgb16 then OtherKind
    else if h.comp == 0 then BadFormat
    else if h.width * h.height * h.comp > INT_MAX then TooLarge
    else
      var px := Unpacked(input, pos + h.offset, h.comp, h.width * h.height);
      Image(h.width, h.height, h.comp, Upright(px, h.width, h.height, h.inverted))
  }

  /** Loads a run-length coded image; palettes, 15 and 16 bit colour and plain rows are other kinds. */
  method LoadTga(s: Context) returns (r: Loaded)
    modifies s
    ensures r == Shown(s.input, ParseHead(Bytes(s.input, old(s.pos), 18)), After(s.input, old(s.pos), 18))
  {
    hide Bytes, After, Unpacked, Upright, Mad3Valid, GetComp, IsRgb16;
    var bytes := GetBytes(s, 18);
    var h := ParseHead(bytes);
    if h.indexed || !h.rle || h.rgb16 {
      return OtherKind;
    }
    if h.comp == 0 {
      return BadFormat;
    }
    Mad3Exact(h.width, h.height, h.comp);
    if !Mad3Valid(h.width, h.height, h.comp) {
      return TooLarge;
    }
    s.Skip(h.offset);
    var out := LoadPixels(s, h.width, h.height, h.comp, h.inverted);
    r := Image(h.width, h.height, h.comp, out[..]);
  }

  // ----- round trip

  /** The header is read back; sizes are kept in 16 bits. */
  lemma HeaderRead(width: nat, height: nat, comp: nat)
    requires 1 <= comp <= 4
    ensures ParseHead(Header(width, height, comp))
         == Head(0, false, true, width % 65536, height % 65536, comp, false, true)
  {
    SixteenBits(width);
    SixteenBits(height);
  }

  lemma SixteenBits(n: nat)
    ensures n % 256 + n / 256 % 256 * 256 == n % 65536
  {
    var q := n / 256;
    var high, x := q / 256, n % 256 + q % 256 * 256;
    assert n == high * 65536 + x;
  }

  lemma UprightAgain(rows: seq<seq<Pixel>>, width: nat, flip: bool)
    requires forall j :: 0 <= j < |rows| ==> |rows[j]| == width
    ensures var px := Concat(StoredRows(InOrder(rows, flip)));
      |px| == |rows| * width && Upright(px, width, |rows|, true) == Concat(InOrder(rows, !flip))
  {
    hide Grid, Concat, Stored;
    var stored := StoredRows(InOrder(rows, flip));
    GridConcat(stored, width);
    var turned := InOrder(stored, false);
    assert turned == StoredRows(InOrder(rows, !flip));
    StoredConcat(turned);
    assert StoredRows(turned) == InOrder(rows, !flip) by {
      forall j | 0 <= j < |rows|
        ensures StoredRows(turned)[j] == InOrder(rows, !flip)[j]
      {
        StoredRowTwice(InOrder(rows, !flip)[j]);
      }
    }
  }

  lemma StoredRowTwice(row: seq<Pixel>)
    ensures StoredRow(StoredRow(row)) == row
  {
    hide Stored;
    forall i | 0 <= i < |row|
      ensures StoredRow(StoredRow(row))[i] == row[i]
    {
      StoredTwice(row[i]);
    }
  }

  lemma {:induction false} StoredConcat(rows: seq<seq<Pixel>>)
    ensures StoredRow(Concat(rows)) == Concat(StoredRows(rows))
    decreases |rows|
  {
    hide Stored;
    if rows == [] {
    } else {
      var n := |rows| - 1;
      StoredConcat(rows[..n]);
      assert StoredRows(rows)[..n] == StoredRows(rows[..n]);
      assert StoredRow(Concat(rows[..n]) + rows[n]) == StoredRow(Concat(rows[..n])) + StoredRow(rows[n]);
    }
  }

  /** Every image that has 16 bit sizes and is not too large is read back as it was written, or upside
      down if it was flipped on the way out. */
  method RoundTrip(comp: nat, width: nat, rows: seq<seq<Pixel>>, flip: bool) returns (r: Loaded)
    requires 1 <= comp <= 4 && width < 65536 && |rows| < 65536 && Rectangle(comp, width, rows)
    ensures r ==
      if width * |rows| * comp > INT_MAX then TooLarge
      else Image(width, |rows|, comp, Concat(InOrder(rows, !flip)))
  {
    hide Header, Codes, Expand, Unpacked, ParseHead, Concat, InOrder, Upright, Bytes, After, StoredRows;
    var bytes;
    ghost var ps;
    bytes, ps := WriteTga(comp, width, rows, flip);
    var s := new Context(bytes);
    r := LoadTga(s);
    ghost var head := Header(width, |rows|, comp);
    HeaderSize(width, |rows|, comp);
    BytesInside(bytes, 0, 18);
    assert bytes[0..0 + 18] == head;
    HeaderRead(width, |rows|, comp);
    PacketsRead(head, comp, ps, []);
    assert head + Codes(comp, ps) + [] == bytes;
    UprightAgain(rows, width, flip);
  }

  lemma HeaderSize(width: nat, height: nat, comp: nat)
    requires 1 <= comp <= 4
    ensures |Header(width, height, comp)| == 18
  {
  }
}
