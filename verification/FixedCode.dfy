/** The fixed Huffman code as the writer spells it out: four ranges of code words instead of a list of
    lengths. */
module FixedCode {
  import opened Bits
  import opened Canonical
  import opened ZHuffman
  import opened DeflateFormat
  import opened ZlibFormat
  import opened BitPieces
  import opened TokenWriter

  // ----- the writer's code words

  /** Code word and length of literal/length symbol n, as the writer computes them. */
  function HuffCode(n: nat): (nat, nat)
    requires n < 288
  {
    if n <= 143 then (0x30 + n, 8)
    else if n <= 255 then (0x190 + n - 144, 9)
    else if n <= 279 then (n - 256, 7)
    else (0xc0 + n - 280, 8)
  }

  /** The writer's ranges are the canonical code of the fixed lengths. */
  lemma HuffCodeIsCanonical(n: nat)
    requires n < 288
    ensures HuffCode(n) == (Code(FixedLiteralLengths(), n), FixedLiteralLengths()[n])
  {
    hide FirstCode, Acceptable, Fits;
    var l := FixedLiteralLengths();
    FixedCounts();
    FixedFits(Hist(l));
    FixedRank(l[n]);
  }

  /** The code words of the fixed code as section 3.2.6 tabulates them: 00110000 to 10111111, 110010000 to
      111111111, 0000000 to 0010111 and 11000000 to 11000111. */
  lemma FixedTable(n: nat)
    requires n < 288
    ensures var code, len := Code(FixedLiteralLengths(), n), FixedLiteralLengths()[n];
      && (n < 144 ==> len == 8 && code == 48 + n && 48 <= code <= 191)
      && (144 <= n < 256 ==> len == 9 && code == 256 + n && 400 <= code <= 511)
      && (256 <= n < 280 ==> len == 7 && code == n - 256 && code <= 23)
      && (280 <= n ==> len == 8 && code == n - 88 && 192 <= code <= 199)
  {
    HuffCodeIsCanonical(n);
  }

  lemma DistCodeIsCanonical(j: nat)
    requires j < 32
    ensures Code(FixedDistLengths(), j) == j
  {
    var d := FixedDistLengths();
    FixedCounts();
    FixedDistFits(Hist(d));
    CountRun(d, 5, 0, 32);
  }

  function HuffPiece(n: nat): Piece
    requires n < 288
  {
    Piece(Rev(HuffCode(n).0, HuffCode(n).1), HuffCode(n).1)
  }

  function DistPiece(j: nat): Piece {
    Piece(Rev(j, 5), 5)
  }

  function Pieces(t: Token): seq<Piece>
    requires Encodable(t)
  {
    match t
    case Literal(b) => [HuffPiece(b)]
    case Copy(lsym, lextra, dsym, dextra) =>
      [HuffPiece(lsym)] + (Extra(lextra, LengthExtra(lsym)) + ([DistPiece(dsym)] + Extra(dextra, DistExtra(dsym))))
  }

  lemma HuffWord(n: nat)
    requires n < 288
    ensures HasWord(FixedLiteralLengths(), n) && HuffPiece(n) == Word(FixedLiteralLengths(), n)
  {
    HuffCodeIsCanonical(n);
  }

  lemma DistWord(j: nat)
    requires j < 32
    ensures HasWord(FixedDistLengths(), j) && DistPiece(j) == Word(FixedDistLengths(), j)
  {
    DistCodeIsCanonical(j);
  }

  lemma TokenSame(t: Token)
    requires Encodable(t)
    ensures var l, d := FixedLiteralLengths(), FixedDistLengths();
      Writable(l, d, t) && Pieces(t) == TokenPieces(l, d, t)
  {
    match t
    case Literal(b) =>
      HuffWord(b);
    case Copy(lsym, _, dsym, _) =>
      HuffWord(lsym);
      DistWord(dsym);
  }

  /** Reading what was written for a token gives the token back. */
  lemma TokenWritten(t: Token, tail: nat)
    requires Encodable(t)
    ensures var l, d, v := FixedLiteralLengths(), FixedDistLengths(), StreamOf(Pieces(t), tail);
      TokenAt(l, d, v, t) && Skip(l, d, v, t) == tail && TokenBits(l, d, v, t) == Width(Pieces(t))
  {
    TokenSame(t);
    TokenRead(FixedLiteralLengths(), FixedDistLengths(), t, tail);
  }

  function AllPieces(toks: seq<Token>): seq<Piece>
    requires AllEncodable(toks)
  {
    if toks == [] then [] else Pieces(toks[0]) + AllPieces(toks[1..])
  }

  lemma {:induction false} AllPiecesSnoc(toks: seq<Token>, t: Token)
    requires AllEncodable(toks) && Encodable(t)
    ensures AllEncodable(toks + [t]) && AllPieces(toks + [t]) == AllPieces(toks) + Pieces(t)
  {
    if toks == [] {
      assert toks + [t] == [t];
    } else {
      AllPiecesSnoc(toks[1..], t);
      assert (toks + [t])[1..] == toks[1..] + [t];
      Reassociate(Pieces(toks[0]), AllPieces(toks[1..]), Pieces(t));
    }
  }

  lemma Reassociate<T>(a: seq<T>, b: seq<T>, c: seq<T>)
    ensures (a + b) + c == a + (b + c)
  {
  }

  lemma {:induction false} BodySame(toks: seq<Token>)
    requires AllEncodable(toks)
    ensures var l, d := FixedLiteralLengths(), FixedDistLengths();
      AllWritable(l, d, toks) && AllPieces(toks) + [HuffPiece(END_OF_BLOCK)] == BodyPieces(l, d, toks)
    decreases |toks|
  {
    hide Pieces, TokenPieces, HuffPiece, Word, Encodable, Writable;
    HuffWord(END_OF_BLOCK);
    if toks == [] {
    } else {
      TokenSame(toks[0]);
      BodySame(toks[1..]);
      Reassociate(Pieces(toks[0]), AllPieces(toks[1..]), [HuffPiece(END_OF_BLOCK)]);
    }
  }

  /** Reading what was written for a list of tokens and an end mark gives the block back. */
  lemma BlockWritten(toks: seq<Token>, tail: nat)
    requires AllEncodable(toks)
    ensures var l, d := FixedLiteralLengths(), FixedDistLengths();
      var v := StreamOf(AllPieces(toks) + [HuffPiece(END_OF_BLOCK)], tail);
      && Parses(l, d, v, toks)
      && Matches(l, END_OF_BLOCK, Rest(l, d, v, toks))
      && AfterSymbol(l, END_OF_BLOCK, Rest(l, d, v, toks)) == tail
      && BitLength(l, d, v, toks) + l[END_OF_BLOCK] == Width(AllPieces(toks) + [HuffPiece(END_OF_BLOCK)])
  {
    BodySame(toks);
    BodyRead(FixedLiteralLengths(), FixedDistLengths(), toks, tail);
  }
}
