/** The two rules of section 3.2.2 of RFC 1951 that fix the code words of a list of lengths: shorter codes
    come before longer ones, codes of one length come in the order of their symbols, and no room is left
    between them. */
module CanonicalOrder {
  import opened Bits
  import opened Canonical
  import opened ZHuffman

  /** Symbol k comes before a symbol i of length s. */
  predicate Precedes(lens: Lengths, k: nat, s: nat, i: nat)
    requires k < |lens|
  {
    0 < lens[k] < s || (0 < lens[k] == s && k < i)
  }

  /** The room that the first n symbols take up before symbol i of length s, where a code of fifteen bits
      takes one and each bit less twice as much. */
  function Room(lens: Lengths, s: nat, i: nat, n: nat): nat
    requires n <= |lens|
  {
    if n == 0 then 0
    else Room(lens, s, i, n - 1) + if Precedes(lens, n - 1, s, i) then Pow2(15 - lens[n - 1]) else 0
  }

  lemma Twice(a: nat, p: nat)
    ensures (2 * a) * p == a * (2 * p)
  {
  }

  lemma Plus(a: nat, b: nat, p: nat)
    ensures (a + b) * p == a * p + b * p
  {
  }

  /** One length more: the codes of length s join those before. */
  lemma {:induction false} RoomNext(lens: Lengths, s: nat, n: nat)
    requires 1 <= s <= 15 && n <= |lens|
    ensures Room(lens, s + 1, 0, n) == Room(lens, s, 0, n) + Count(lens, s, n) * Pow2(15 - s)
  {
    if n == 0 {
    } else {
      RoomNext(lens, s, n - 1);
      Plus(Count(lens, s, n - 1), 1, Pow2(15 - s));
    }
  }

  lemma {:induction false} RoomNone(lens: Lengths, n: nat)
    requires n <= |lens|
    ensures Room(lens, 1, 0, n) == 0
  {
    if n == 0 {
    } else {
      RoomNone(lens, n - 1);
    }
  }

  /** Of the codes of one length, those of smaller symbols come before. */
  lemma {:induction false} RoomWithin(lens: Lengths, s: nat, i: nat, n: nat)
    requires 1 <= s <= 15 && n <= |lens| && i <= |lens|
    ensures Room(lens, s, i, n) == Room(lens, s, 0, n) + Count(lens, s, if n < i then n else i) * Pow2(15 - s)
  {
    if n == 0 {
    } else {
      RoomWithin(lens, s, i, n - 1);
      if n <= i {
        Plus(Count(lens, s, n - 1), 1, Pow2(15 - s));
      }
    }
  }

  /** The first code of a length begins where the shorter ones end. */
  lemma {:induction false} FirstAfter(lens: Lengths, s: nat)
    requires 1 <= s <= 15
    ensures FirstCode(Hist(lens), s) * Pow2(15 - s) == Room(lens, s, 0, |lens|)
  {
    hide Room;
    if s == 1 {
      RoomNone(lens, |lens|);
    } else {
      var c := Hist(lens);
      FirstAfter(lens, s - 1);
      RoomNext(lens, s - 1, |lens|);
      Twice(FirstCode(c, s - 1) + c[s - 1], Pow2(15 - s));
      Plus(FirstCode(c, s - 1), c[s - 1], Pow2(16 - s));
    }
  }

  /** The code word of a symbol, moved to the top of fifteen bits, is the room of the symbols before it. */
  lemma CodeAfter(lens: Lengths, i: nat)
    requires i < |lens| && lens[i] > 0
    ensures Code(lens, i) * Pow2(15 - lens[i]) == Room(lens, lens[i], i, |lens|)
  {
    hide Room, FirstCode;
    var s := lens[i];
    FirstAfter(lens, s);
    RoomWithin(lens, s, i, |lens|);
    Plus(FirstCode(Hist(lens), s), Count(lens, s, i), Pow2(15 - s));
  }
}
