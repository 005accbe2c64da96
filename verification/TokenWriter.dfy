/** The tokens of a block written with any two codes, and that they are read back. */
module TokenWriter {
  import opened Bits
  import opened BitPieces
  import opened ZHuffman
  import opened DeflateFormat

  // ----- code words and extra bits

  predicate HasWord(lens: Lengths, i: nat) {
    i < |lens| && lens[i] > 0
  }

  /** The code word of symbol i, its first bit written first. */
  function Word(lens: Lengths, i: nat): Piece
    requires HasWord(lens, i)
  {
    Piece(Rev(Code(lens, i), lens[i]), lens[i])
  }

  /** A value whose width may be zero: then nothing is written. */
  function Extra(code: nat, n: nat): seq<Piece> {
    if n == 0 then [] else [Piece(code, n)]
  }

  lemma WordWritten(lens: Lengths, i: nat, tail: nat)
    requires HasWord(lens, i)
    ensures var v := StreamOf([Word(lens, i)], tail);
      Matches(lens, i, v) && AfterSymbol(lens, i, v) == tail
    ensures Width([Word(lens, i)]) == lens[i]
  {
    SplitLow(Word(lens, i).code, tail, lens[i]);
    assert StreamOf([Word(lens, i)], tail) == Word(lens, i).code + Shl(tail, lens[i]);
  }

  lemma ExtraWritten(x: nat, n: nat, tail: nat)
    requires x < Pow2(n)
    ensures var v := StreamOf(Extra(x, n), tail); Take(v, n) == x && Drop(v, n) == tail
    ensures Width(Extra(x, n)) == n
  {
    SplitLow(x, tail, n);
  }

  // ----- tokens

  /** The token's extra bits are in range. */
  predicate Encodable(t: Token) {
    && t.WellFormed()
    && (t.Copy? ==> t.lextra < Pow2(LengthExtra(t.lsym)) && t.dextra < Pow2(DistExtra(t.dsym)))
  }

  predicate AllEncodable(toks: seq<Token>) {
    forall i :: 0 <= i < |toks| ==> Encodable(toks[i])
  }

  /** The symbols of the token have code words. */
  predicate Writable(ll: Lengths, dl: Lengths, t: Token) {
    && Encodable(t)
    && match t
       case Literal(b) => HasWord(ll, b)
       case Copy(lsym, _, dsym, _) => HasWord(ll, lsym) && HasWord(dl, dsym)
  }

  predicate AllWritable(ll: Lengths, dl: Lengths, toks: seq<Token>) {
    HasWord(ll, 256) && forall i :: 0 <= i < |toks| ==> Writable(ll, dl, toks[i])
  }

  function TokenPieces(ll: Lengths, dl: Lengths, t: Token): seq<Piece>
    requires Writable(ll, dl, t)
  {
    match t
    case Literal(b) => [Word(ll, b)]
    case Copy(lsym, lextra, dsym, dextra) =>
      [Word(ll, lsym)] + (Extra(lextra, LengthExtra(lsym)) + ([Word(dl, dsym)] + Extra(dextra, DistExtra(dsym))))
  }

  /** Reading what was written for a token gives the token back. */
  lemma TokenRead(ll: Lengths, dl: Lengths, t: Token, tail: nat)
    requires Writable(ll, dl, t)
    ensures var v := StreamOf(TokenPieces(ll, dl, t), tail);
      TokenAt(ll, dl, v, t) && Skip(ll, dl, v, t) == tail && TokenBits(ll, dl, v, t) == Width(TokenPieces(ll, dl, t))
  {
    hide StreamOf, Width, Word, Extra, Matches, AfterSymbol, LengthExtra, DistExtra;
    match t
    case Literal(b) =>
      WordWritten(ll, b, tail);
    case Copy(lsym, lextra, dsym, dextra) =>
      var e1, e2 := Extra(lextra, LengthExtra(lsym)), Extra(dextra, DistExtra(dsym));
      var v3 := StreamOf(e2, tail);
      var v2 := StreamOf([Word(dl, dsym)], v3);
      StreamAppend([Word(ll, lsym)], e1 + ([Word(dl, dsym)] + e2), tail);
      StreamAppend(e1, [Word(dl, dsym)] + e2, tail);
      StreamAppend([Word(dl, dsym)], e2, tail);
      WordWritten(ll, lsym, StreamOf(e1, v2));
      ExtraWritten(lextra, LengthExtra(lsym), v2);
      WordWritten(dl, dsym, v3);
      ExtraWritten(dextra, DistExtra(dsym), tail);
  }

  // ----- the body of a block

  /** The tokens and the end mark, which is symbol 256. */
  function BodyPieces(ll: Lengths, dl: Lengths, toks: seq<Token>): seq<Piece>
    requires AllWritable(ll, dl, toks)
  {
    if toks == [] then [Word(ll, 256)]
    else TokenPieces(ll, dl, toks[0]) + BodyPieces(ll, dl, toks[1..])
  }

  /** Reading what was written for the tokens and the end mark gives the tokens back. */
  lemma {:induction false} BodyRead(ll: Lengths, dl: Lengths, toks: seq<Token>, tail: nat)
    requires AllWritable(ll, dl, toks)
    ensures var v := StreamOf(BodyPieces(ll, dl, toks), tail);
      && Parses(ll, dl, v, toks)
      && Matches(ll, END_OF_BLOCK, Rest(ll, dl, v, toks))
      && AfterSymbol(ll, END_OF_BLOCK, Rest(ll, dl, v, toks)) == tail
      && BitLength(ll, dl, v, toks) + ll[END_OF_BLOCK] == Width(BodyPieces(ll, dl, toks))
    decreases |toks|
  {
    hide StreamOf, Width, Word, TokenPieces, Matches, AfterSymbol, TokenAt, Skip, TokenBits, Writable;
    if toks == [] {
      WordWritten(ll, END_OF_BLOCK, tail);
    } else {
      var more := BodyPieces(ll, dl, toks[1..]);
      StreamAppend(TokenPieces(ll, dl, toks[0]), more, tail);
      TokenRead(ll, dl, toks[0], StreamOf(more, tail));
      BodyRead(ll, dl, toks[1..], tail);
    }
  }

  lemma TokenFits(ll: Lengths, dl: Lengths, t: Token)
    requires Writable(ll, dl, t)
    ensures AllFit(TokenPieces(ll, dl, t))
  {
  }

  lemma {:induction false} BodyFits(ll: Lengths, dl: Lengths, toks: seq<Token>)
    requires AllWritable(ll, dl, toks)
    ensures AllFit(BodyPieces(ll, dl, toks))
  {
    hide TokenPieces, Writable, AllFit;
    if toks == [] {
      EndFits(ll);
    } else {
      TokenFits(ll, dl, toks[0]);
      BodyFits(ll, dl, toks[1..]);
      FitBoth(TokenPieces(ll, dl, toks[0]), BodyPieces(ll, dl, toks[1..]));
    }
  }

  lemma EndFits(ll: Lengths)
    requires HasWord(ll, 256)
    ensures AllFit([Word(ll, 256)])
  {
  }
}
