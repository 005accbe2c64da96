/** The row filters of PNG (sections 9.2 and 9.4 of the PNG specification), how the writer applies them
    and how the reader undoes them. */
module PngFilter {
  import opened Bits

  // ----- the filters as the standard defines them

  function Abs(x: int): nat {
    if x < 0 then -x else x
  }

  function Paeth(a: int, b: int, c: int): int {
    var p := a + b - c;
    var pa, pb, pc := Abs(p - a), Abs(p - b), Abs(p - c);
    if pa <= pb && pa <= pc then a else if pb <= pc then b else c
  }

  type FilterNo = n: nat | n < 5

  /** The prediction from the bytes to the left, above, and above left. */
  function Predict(filter: nat, a: byte, b: byte, c: byte): int {
    if filter == 1 then a as int
    else if filter == 2 then b as int
    else if filter == 3 then (a as int + b as int) / 2
    else if filter == 4 then Paeth(a, b, c)
    else 0
  }

  /** The nearest of three to the sum of left and above less the corner, and of equally near ones the first. */
  ghost predicate Nearest(p: int, a: int, b: int, c: int) {
    var far := x => Abs(a + b - c - x);
    && (p == a || p == b || p == c)
    && far(p) <= far(a) && far(p) <= far(b) && far(p) <= far(c)
    && (p != a ==> far(p) < far(a)) && (p != a && p != b ==> far(p) < far(b))
  }

  /** The five filters in other words: nothing, left, above, half the sum rounded down, the nearest. */
  lemma Predictions(a: byte, b: byte, c: byte)
    ensures Predict(0, a, b, c) == 0 && Predict(1, a, b, c) == a as int && Predict(2, a, b, c) == b as int
    ensures 2 * Predict(3, a, b, c) <= a as int + b as int < 2 * (Predict(3, a, b, c) + 1)
    ensures Nearest(Predict(4, a, b, c), a, b, c)
  {
  }

  /** There is one nearest. */
  lemma NearestOnce(p: int, q: int, a: int, b: int, c: int)
    requires Nearest(p, a, b, c) && Nearest(q, a, b, c)
    ensures p == q
  {
  }

  /** The byte n places to the left, zero before the first pixel. */
  function Left(line: seq<byte>, n: nat, i: nat): byte
    requires i < |line| + n
  {
    if i < n then 0 else line[i - n]
  }

  function Zeros(len: nat): (s: seq<byte>)
    ensures |s| == len && forall i :: 0 <= i < len ==> s[i] == 0
  {
    seq<byte>(len, _ => 0)
  }

  function FilteredAt(filter: nat, n: nat, line: seq<byte>, prior: seq<byte>, i: nat): byte
    requires i < |line| == |prior|
  {
    (line[i] - Predict(filter, Left(line, n, i), prior[i], Left(prior, n, i))) % 256
  }

  function Filtered(filter: nat, n: nat, line: seq<byte>, prior: seq<byte>): (f: seq<byte>)
    requires |line| == |prior|
    ensures |f| == |line| && forall i :: 0 <= i < |f| ==> f[i] == FilteredAt(filter, n, line, prior, i)
  {
    seq<byte>(|line|, i requires 0 <= i < |line| => FilteredAt(filter, n, line, prior, i))
  }

  ghost predicate RestoredAt(filter: nat, n: nat, raw: seq<byte>, prior: seq<byte>, line: seq<byte>, i: nat)
    requires i < |raw| == |prior| && |line| == |raw|
  {
    line[i] == (raw[i] + Predict(filter, Left(line, n, i), prior[i], Left(prior, n, i))) % 256
  }

  /** The line is what the filtered bytes stand for below the line prior. */
  ghost predicate Restored(filter: nat, n: nat, raw: seq<byte>, prior: seq<byte>, line: seq<byte>) {
    |raw| == |prior| == |line| && forall i :: 0 <= i < |raw| ==> RestoredAt(filter, n, raw, prior, line, i)
  }

  /** Restoring undoes filtering ... */
  lemma FilterRoundTrip(filter: nat, n: nat, line: seq<byte>, prior: seq<byte>)
    requires |line| == |prior|
    ensures Restored(filter, n, Filtered(filter, n, line, prior), prior, line)
  {
    forall i | 0 <= i < |line|
      ensures RestoredAt(filter, n, Filtered(filter, n, line, prior), prior, line, i)
    {
      SubAdd(line[i], Predict(filter, Left(line, n, i), prior[i], Left(prior, n, i)));
    }
  }

  lemma SubAdd(x: byte, p: int)
    ensures ((x - p) % 256 + p) % 256 == x
  {
  }

  /** ... and filtered bytes stand for one line only. */
  lemma {:induction false} RestoredOnce(filter: nat, n: nat, raw: seq<byte>, prior: seq<byte>, s: seq<byte>,
                                        t: seq<byte>, k: nat)
    requires n > 0 && Restored(filter, n, raw, prior, s) && Restored(filter, n, raw, prior, t) && k <= |raw|
    ensures s[..k] == t[..k]
  {
    if k == 0 {
    } else {
      RestoredOnce(filter, n, raw, prior, s, t, k - 1);
      assert RestoredAt(filter, n, raw, prior, s, k - 1) && RestoredAt(filter, n, raw, prior, t, k - 1);
      assert k > n ==> s[..k - 1][k - 1 - n] == t[..k - 1][k - 1 - n];
    }
  }

  // ----- the reader's predictor

  /** The reader's formulation, with comparisons only. */
  function ReaderPaeth(a: int, b: int, c: int): int {
    var thresh := c * 3 - (a + b);
    var lo := if a < b then a else b;
    var hi := if a < b then b else a;
    var t0 := if hi <= thresh then lo else c;
    if thresh <= lo then hi else t0
  }

  /** The two agree on all integers, ties included. */
  lemma PaethsAgree(a: int, b: int, c: int)
    ensures ReaderPaeth(a, b, c) == Paeth(a, b, c)
  {
  }
}
