/** Images as rows one after the other. */
module ImageRows {
  lemma MulNext(j: int, width: int)
    ensures j * width + width == (j + 1) * width
  {
  }

  lemma MulNotLess(a: nat, b: nat, width: nat)
    requires a <= b
    ensures a * width <= width * b && (a > 0 && width > 0 ==> width * b > 0)
    decreases b
  {
    if a >= b {
    } else {
      MulNotLess(a, b - 1, width);
      MulNext(b - 1, width);
    }
  }

  function Concat<T>(rows: seq<seq<T>>): seq<T> {
    if rows == [] then [] else Concat(rows[..|rows| - 1]) + rows[|rows| - 1]
  }

  lemma {:induction false} ConcatLength<T>(rows: seq<seq<T>>, width: nat)
    requires forall j :: 0 <= j < |rows| ==> |rows[j]| == width
    ensures |Concat(rows)| == width * |rows|
    decreases |rows|
  {
    if rows == [] {
    } else {
      var n := |rows| - 1;
      ConcatLength(rows[..n], width);
      assert |Concat(rows)| == |Concat(rows[..n])| + width;
      hide Concat;
      MulNext(n, width);
    }
  }

  lemma ConcatSnoc<T>(rows: seq<seq<T>>, row: seq<T>)
    ensures Concat(rows + [row]) == Concat(rows) + row
  {
    assert (rows + [row])[..|rows|] == rows;
  }

  lemma {:induction false} ConcatCons<T>(rows: seq<seq<T>>)
    requires rows != []
    ensures Concat(rows) == rows[0] + Concat(rows[1..])
    decreases |rows|
  {
    hide Concat;
    var n := |rows| - 1;
    if n == 0 {
      OnlyRow(rows);
    } else {
      var init, last := rows[..n], rows[n];
      ConcatCons(init);
      assert rows == init + [last] && rows[1..] == init[1..] + [last];
      ConcatSnoc(init, last);
      ConcatSnoc(init[1..], last);
    }
  }

  lemma OnlyRow<T>(rows: seq<seq<T>>)
    requires |rows| == 1
    ensures Concat(rows) == rows[0] + Concat(rows[1..])
  {
    assert rows[..0] == [];
  }

  lemma RowInside(r: nat, h: nat, w: nat)
    requires r < h
    ensures r * w + w <= h * w
  {
    MulNext(r, w);
    MulNotLess(r + 1, h, w);
  }

  function Row<T>(s: seq<T>, w: nat, h: nat, r: nat): (row: seq<T>)
    requires |s| == h * w && r < h
    ensures |row| == w
  {
    RowInside(r, h, w);
    s[r * w..r * w + w]
  }

  /** The rows of an image. */
  function Grid<T>(s: seq<T>, w: nat, h: nat): (g: seq<seq<T>>)
    requires |s| == h * w
    ensures |g| == h && forall r :: 0 <= r < h ==> |g[r]| == w
  {
    seq(h, r requires 0 <= r < h => Row(s, w, h, r))
  }

  lemma GridAt<T>(s: seq<T>, w: nat, h: nat, r: nat)
    requires |s| == h * w && r < h
    ensures r * w + w <= |s| && Grid(s, w, h)[r] == s[r * w..r * w + w]
  {
    RowInside(r, h, w);
  }

  /** An image is its rows. */
  lemma {:induction false} ConcatGrid<T>(s: seq<T>, w: nat, h: nat)
    requires |s| == h * w
    ensures Concat(Grid(s, w, h)) == s
    decreases h
  {
    if h == 0 {
    } else {
      var n := h - 1;
      MulNext(n, w);
      var init := s[..n * w];
      forall r | 0 <= r < n
        ensures Grid(init, w, n)[r] == Grid(s, w, h)[r]
      {
        GridAt(init, w, n, r);
        GridAt(s, w, h, r);
      }
      ConcatGrid(init, w, n);
      GridAt(s, w, h, n);
      assert Grid(s, w, h)[..n] == Grid(init, w, n);
      assert s == init + s[n * w..n * w + w];
    }
  }

  lemma {:induction false} GridConcat<T>(rows: seq<seq<T>>, w: nat)
    requires forall j :: 0 <= j < |rows| ==> |rows[j]| == w
    ensures |Concat(rows)| == |rows| * w && Grid(Concat(rows), w, |rows|) == rows
  {
    ConcatLength(rows, w);
    forall r | 0 <= r < |rows|
      ensures Grid(Concat(rows), w, |rows|)[r] == rows[r]
    {
      RowOfConcat(rows, w, r);
      GridAt(Concat(rows), w, |rows|, r);
    }
  }

  lemma {:induction false} RowOfConcat<T>(rows: seq<seq<T>>, w: nat, r: nat)
    requires r < |rows| && forall j :: 0 <= j < |rows| ==> |rows[j]| == w
    ensures r * w + w <= |Concat(rows)| && Concat(rows)[r * w..r * w + w] == rows[r]
    decreases |rows|
  {
    hide Concat;
    var n := |rows| - 1;
    var init, last := Concat(rows[..n]), rows[n];
    assert rows == rows[..n] + [last];
    ConcatSnoc(rows[..n], last);
    if r < n {
      RowOfConcat(rows[..n], w, r);
      SliceLeft(init, last, r * w, r * w + w);
    } else {
      ConcatLength(rows[..n], w);
      SliceRight(init, last, r * w, w);
    }
  }

  lemma SliceLeft<T>(a: seq<T>, b: seq<T>, lo: nat, hi: nat)
    requires lo <= hi <= |a|
    ensures (a + b)[lo..hi] == a[lo..hi]
  {
  }

  lemma SliceRight<T>(a: seq<T>, b: seq<T>, lo: nat, n: nat)
    requires lo == |a| && n == |b|
    ensures (a + b)[lo..lo + n] == b
  {
  }
}
