/** Bit streams written piece by piece. */
module BitPieces {
  import opened Bits

  /** A value written in the next n bits. */
  datatype Piece = Piece(code: nat, n: nat) {
    predicate Fits() {
      code < Pow2(n)
    }
  }

  /** The stream that begins with these pieces and goes on with tail. */
  function StreamOf(ps: seq<Piece>, tail: nat): nat {
    if ps == [] then tail else ps[0].code + Shl(StreamOf(ps[1..], tail), ps[0].n)
  }

  function Width(ps: seq<Piece>): nat {
    if ps == [] then 0 else ps[0].n + Width(ps[1..])
  }

  lemma {:induction false} StreamAppend(a: seq<Piece>, b: seq<Piece>, tail: nat)
    ensures StreamOf(a + b, tail) == StreamOf(a, StreamOf(b, tail))
    ensures Width(a + b) == Width(a) + Width(b)
  {
    if a == [] {
      assert a + b == b;
    } else {
      StreamAppend(a[1..], b, tail);
      assert (a + b)[1..] == a[1..] + b;
    }
  }

  lemma {:induction false} StreamTail(ps: seq<Piece>, tail: nat)
    ensures StreamOf(ps, tail) == StreamOf(ps, 0) + Shl(tail, Width(ps))
  {
    if ps == [] {
    } else {
      var n, w := ps[0].n, Width(ps[1..]);
      StreamTail(ps[1..], tail);
      ShlAdd(StreamOf(ps[1..], 0), Shl(tail, w), n);
      ShlShl(tail, w, n);
    }
  }

  /** Writing one more piece adds it above the bits written so far. */
  lemma StreamSnoc(ps: seq<Piece>, p: Piece)
    ensures StreamOf(ps + [p], 0) == StreamOf(ps, 0) + Shl(p.code, Width(ps))
    ensures Width(ps + [p]) == Width(ps) + p.n
  {
    StreamAppend(ps, [p], 0);
    ShlZero(p.n);
    assert StreamOf([p], 0) == p.code;
    StreamTail(ps, p.code);
  }

  // ----- pieces in bytes

  predicate AllFit(ps: seq<Piece>) {
    forall i :: 0 <= i < |ps| ==> ps[i].Fits()
  }

  lemma FitMore(p: Piece, more: seq<Piece>)
    requires p.Fits() && AllFit(more)
    ensures AllFit([p] + more)
  {
  }

  lemma FitBoth(a: seq<Piece>, b: seq<Piece>)
    requires AllFit(a) && AllFit(b)
    ensures AllFit(a + b)
  {
  }

  lemma {:induction false} StreamBound(ps: seq<Piece>)
    requires AllFit(ps)
    ensures StreamOf(ps, 0) < Pow2(Width(ps))
  {
    if ps == [] {
    } else {
      var p, more := ps[0], ps[1..];
      assert p.Fits() && AllFit(more);
      StreamBound(more);
      ShlBound(StreamOf(more, 0), Width(more), p.n);
    }
  }

  function BytesOf(v: nat, n: nat): (s: seq<byte>)
    ensures |s| == n
  {
    if n == 0 then [] else [v % 256] + BytesOf(v / 256, n - 1)
  }

  lemma {:induction false} LeBytes(v: nat, n: nat)
    requires v < Pow2(8 * n)
    ensures Le(BytesOf(v, n)) == v
    decreases n
  {
    if n == 0 {
    } else {
      Pow2Byte(8 * (n - 1));
      LeBytes(v / 256, n - 1);
      assert BytesOf(v, n)[1..] == BytesOf(v / 256, n - 1);
    }
  }

  /** The pieces one after the other, the last byte filled up with zeros. */
  function Packed(ps: seq<Piece>): (s: seq<byte>)
    ensures Width(ps) <= 8 * |s| <= Width(ps) + 7
  {
    BytesOf(StreamOf(ps, 0), (Width(ps) + 7) / 8)
  }

  lemma LePacked(ps: seq<Piece>)
    requires AllFit(ps)
    ensures Le(Packed(ps)) == StreamOf(ps, 0)
  {
    StreamBound(ps);
    Pow2Mono(Width(ps), 8 * |Packed(ps)|);
    LeBytes(StreamOf(ps, 0), |Packed(ps)|);
  }

  /** Bytes after the packed pieces follow after the zeros that fill up their last byte. */
  lemma PackedTail(ps: seq<Piece>, more: seq<byte>) returns (tail: nat)
    requires AllFit(ps)
    ensures Le(Packed(ps) + more) == StreamOf(ps, tail)
  {
    var pad := 8 * |Packed(ps)| - Width(ps);
    tail := Shl(Le(more), pad);
    LePacked(ps);
    LeAppend(Packed(ps), more);
    ShlShl(Le(more), pad, Width(ps));
    StreamTail(ps, tail);
  }
}
