/** The bytes of a file in memory, as the image readers see them. */
module ByteSource {
  import opened Bits

  /** Reading past the end of the input yields zeros. */
  function At(input: seq<byte>, pos: nat): byte {
    if pos < |input| then input[pos] else 0
  }

  function Remaining(input: seq<byte>, pos: nat): nat {
    if pos < |input| then |input| - pos else 0
  }

  function Next(input: seq<byte>, pos: nat): nat {
    if pos < |input| then pos + 1 else pos
  }

  function Clip(input: seq<byte>, pos: nat): nat {
    if pos < |input| then pos else |input|
  }

  /** n bytes read one by one. */
  function Bytes(input: seq<byte>, pos: nat, n: nat): (s: seq<byte>)
    ensures |s| == n
    decreases n
  {
    if n == 0 then [] else [At(input, pos)] + Bytes(input, Next(input, pos), n - 1)
  }

  function After(input: seq<byte>, pos: nat, n: nat): nat
    decreases n
  {
    if n == 0 then pos else After(input, Next(input, pos), n - 1)
  }

  lemma {:induction false} BytesInside(input: seq<byte>, pos: nat, n: nat)
    requires pos + n <= |input|
    ensures Bytes(input, pos, n) == input[pos..pos + n] && After(input, pos, n) == pos + n
    decreases n
  {
    if n == 0 {
    } else {
      BytesInside(input, pos + 1, n - 1);
    }
  }

  lemma {:induction false} BytesSnoc(input: seq<byte>, pos: nat, n: nat)
    ensures Bytes(input, pos, n + 1) == Bytes(input, pos, n) + [At(input, After(input, pos, n))]
    ensures After(input, pos, n + 1) == Next(input, After(input, pos, n))
    decreases n
  {
    if n == 0 {
    } else {
      BytesSnoc(input, Next(input, pos), n - 1);
    }
  }

  class Context {
    const input: seq<byte>
    var pos: nat

    constructor (bytes: seq<byte>)
      ensures input == bytes && pos == 0
    {
      input, pos := bytes, 0;
    }

    method Get8() returns (b: byte)
      modifies this
      ensures b == At(input, old(pos)) && pos == Next(input, old(pos))
    {
      if pos < |input| {
        b := input[pos];
        pos := pos + 1;
      } else {
        b := 0;
      }
    }

    method Skip(n: nat)
      modifies this
      ensures pos == old(pos) + n
    {
      pos := pos + n;
    }
  }
}
