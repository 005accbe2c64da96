/** The Huffman tables of the JPEG writer: the code words it holds are those of the counts and values it
    writes to the file (the tables of Annex K.3 of ITU-T T.81). */
module JpegTables {
  import opened Bits
  import opened Canonical
  import opened JpegFormat
  import opened JpegBlock
  import JpegWrite

  // ----- tables by rows of sixteen

  function Word(words: seq<seq<(nat, nat)>>, sym: nat): (nat, nat) {
    if sym / 16 < |words| && sym % 16 < |words[sym / 16]| then words[sym / 16][sym % 16] else (0, 0)
  }

  function Value(values: seq<seq<byte>>, k: nat): byte {
    if k / 16 < |values| && k % 16 < |values[k / 16]| then values[k / 16][k % 16] else 0
  }

  lemma WordAt(words: seq<seq<(nat, nat)>>, sym: nat)
    requires sym / 16 < |words| && sym % 16 < |words[sym / 16]|
    ensures Word(words, sym) == words[sym / 16][sym % 16]
  {
  }

  /** The code word w is one of its length, and its index leads to the symbol. */
  predicate Leads(w: (nat, nat), values: seq<seq<byte>>, counts: Counts, first: seq<nat>, index: seq<nat>, sym: nat)
    requires |first| == |index| == 17
  {
    && 1 <= w.1 <= 16 && first[w.1] <= w.0 < first[w.1] + counts[w.1]
    && var k := index[w.1] + (w.0 - first[w.1]); k < 256 && Value(values, k) == sym
  }

  /** Code words and values, the number of codes of each length, and for each length the first code word
      and its index. */
  datatype Listing = Listing(words: seq<seq<(nat, nat)>>, values: seq<seq<byte>>, counts: Counts,
                             first: seq<nat>, index: seq<nat>)
  {
    /** The table as it is written to the file. */
    function Table(): HuffTable {
      HuffTable(counts, seq<byte>(256, k requires 0 <= k < 256 => Value(values, k)))
    }

    /** The table as the writer uses it. */
    function Words(): CodeWords {
      seq(256, sym requires 0 <= sym < 256 => Word(words, sym))
    }

    predicate Listed(sym: nat) {
      |first| == |index| == 17 && Leads(Word(words, sym), values, counts, first, index, sym)
    }

    predicate Absent(sym: nat) {
      Word(words, sym) == (0, 0)
    }
  }

  /** First codes and indices are right, and the codes fit. */
  ghost predicate FirstsRight(counts: Counts, first: seq<nat>, index: seq<nat>) {
    && |first| == |index| == 17
    && (forall s :: 1 <= s <= 16 ==> FirstCode(counts, s) == first[s] && FirstIndex(counts, s) == index[s])
    && Fits(counts, 16) && FirstIndex(counts, 17) <= 255
  }

  ghost predicate Right(l: Listing) {
    FirstsRight(l.counts, l.first, l.index)
  }

  lemma ListedSpells(l: Listing, sym: byte)
    requires Right(l) && l.Listed(sym)
    ensures Spells(l.Table(), l.Words(), sym) && l.Words()[sym].0 < Pow2(l.Words()[sym].1)
  {
    var code, s := l.Words()[sym].0, l.Words()[sym].1;
    var k := l.index[s] + (code - l.first[s]);
    assert FirstCode(l.counts, s) == l.first[s] && FirstIndex(l.counts, s) == l.index[s];
    assert EndCode(l.counts, s) <= Pow2(s);
    assert l.Table().values[k] == sym && IsCode(l.counts, k, l.Words()[sym].0, l.Words()[sym].1);
  }

  lemma AllWordsFit(l: Listing)
    requires Right(l) && forall sym: nat :: sym < 256 ==> l.Listed(sym) || l.Absent(sym)
    ensures JpegWrite.WordsFit(l.Words())
  {
    forall i: nat | i < 256
      ensures l.Words()[i].1 <= 16 && l.Words()[i].0 < Pow2(l.Words()[i].1)
    {
      if l.Listed(i) {
        ListedSpells(l, i);
      }
    }
  }

  lemma UsableTable(l: Listing)
    requires Right(l)
    ensures l.Table().Usable()
  {
    FirstIndexMono(l.counts, 10, 17);
  }

  /** The first code word and the first index of each length follow from those of the length before, and
      the codes of the length fit. */
  predicate Follows(c: Counts, first: seq<nat>, index: seq<nat>, s: nat)
    requires 1 <= s <= 16 && |first| == |index| == 17
  {
    && first[s] == (if s == 1 then 0 else 2 * (first[s - 1] + c[s - 1]))
    && index[s] == (if s == 1 then 0 else index[s - 1] + c[s - 1])
    && first[s] + c[s] <= POWERS[s]
  }

  const POWERS: seq<nat> :=
    [1, 2, 4, 8, 16, 32, 64, 128, 256, 512, 1024, 2048, 4096, 8192, 16384, 32768, 65536]

  lemma {:induction false} FirstsFollow(c: Counts, first: seq<nat>, index: seq<nat>, s: nat)
    requires 1 <= s <= 16 && |first| == |index| == 17 && forall t :: 1 <= t <= s ==> Follows(c, first, index, t)
    ensures FirstCode(c, s) == first[s] && FirstIndex(c, s) == index[s]
  {
    assert Follows(c, first, index, s);
    if s == 1 {
    } else {
      FirstsFollow(c, first, index, s - 1);
    }
  }

  lemma FirstsFit(c: Counts, first: seq<nat>, index: seq<nat>)
    requires |first| == |index| == 17 && index[16] + c[16] <= 255
    requires forall s :: 1 <= s <= 16 ==> Follows(c, first, index, s)
    ensures FirstsRight(c, first, index)
  {
    hide Pow2;
    forall s | 1 <= s <= 16
      ensures FirstCode(c, s) == first[s] && FirstIndex(c, s) == index[s] && EndCode(c, s) <= Pow2(s)
    {
      FirstsFollow(c, first, index, s);
      AllPowers(s);
      assert Follows(c, first, index, s);
    }
  }

  lemma AllPowers(s: nat)
    requires s <= 16
    ensures Pow2(s) == POWERS[s]
  {
    assert Pow2(1) == 2 && Pow2(2) == 4 && Pow2(3) == 8 && Pow2(4) == 16 && Pow2(5) == 32 && Pow2(6) == 64;
    assert Pow2(7) == 128 && Pow2(8) == 256 && Pow2(9) == 512 && Pow2(10) == 1024 && Pow2(11) == 2048;
    assert Pow2(12) == 4096 && Pow2(13) == 8192 && Pow2(14) == 16384 && Pow2(15) == 32768 && Pow2(16) == 65536;
  }

  lemma SpellsAcTable(l: Listing)
    requires Right(l)
    requires forall sym: nat :: sym < 256 ==> l.Listed(sym) || (l.Absent(sym) && !AcSymbol(sym))
    ensures SpellsAc(l.Table(), l.Words()) && JpegWrite.WordsFit(l.Words())
  {
    hide Spells, Listing.Listed, Listing.Absent, Listing.Table, Listing.Words;
    UsableTable(l);
    AllWordsFit(l);
    forall sym: byte | AcSymbol(sym)
      ensures Spells(l.Table(), l.Words(), sym)
    {
      ListedSpells(l, sym);
    }
  }

  lemma SpellsDcTable(l: Listing)
    requires Right(l)
    requires forall sym: nat :: sym < 256 ==> if sym <= 11 then l.Listed(sym) else l.Absent(sym)
    ensures SpellsDc(l.Table(), l.Words()) && JpegWrite.WordsFit(l.Words())
  {
    hide Spells, Listing.Listed, Listing.Absent, Listing.Table, Listing.Words;
    UsableTable(l);
    AllWordsFit(l);
    forall sym: byte | sym <= 11
      ensures Spells(l.Table(), l.Words(), sym)
    {
      ListedSpells(l, sym);
    }
  }

  // ----- luminance differences

  const LUMINANCE_DC_COUNTS: Counts := [0, 0, 1, 5, 1, 1, 1, 1, 1, 1, 0, 0, 0, 0, 0, 0, 0]
  const LUMINANCE_DC_FIRST: seq<nat> :=
    [0, 0, 0, 2, 14, 30, 62, 126, 254, 510, 1022, 2044, 4088, 8176, 16352, 32704, 65408]
  const LUMINANCE_DC_INDEX: seq<nat> :=
    [0, 0, 0, 1, 6, 7, 8, 9, 10, 11, 12, 12, 12, 12, 12, 12, 12]
  const LUMINANCE_DC_WORDS: seq<seq<(nat, nat)>> := [
    [(0, 2), (2, 3), (3, 3), (4, 3), (5, 3), (6, 3), (14, 4), (30, 5),
     (62, 6), (126, 7), (254, 8), (510, 9), (0, 0), (0, 0), (0, 0), (0, 0)]]
  const LUMINANCE_DC_VALUES: seq<seq<byte>> := [
    [0, 1, 2, 3, 4, 5, 6, 7, 8, 9, 10, 11, 0, 0, 0, 0]]
  const LUMINANCE_DC: Listing :=
    Listing(LUMINANCE_DC_WORDS, LUMINANCE_DC_VALUES, LUMINANCE_DC_COUNTS,
            LUMINANCE_DC_FIRST, LUMINANCE_DC_INDEX)

  lemma LuminanceDcFirsts()
    ensures FirstsRight(LUMINANCE_DC_COUNTS, LUMINANCE_DC_FIRST, LUMINANCE_DC_INDEX)
  {
    assert forall s :: 1 <= s <= 16 ==> Follows(LUMINANCE_DC_COUNTS, LUMINANCE_DC_FIRST, LUMINANCE_DC_INDEX, s);
    FirstsFit(LUMINANCE_DC_COUNTS, LUMINANCE_DC_FIRST, LUMINANCE_DC_INDEX);
  }

  lemma LuminanceDcWords(sym: nat)
    requires sym < 256
    ensures if sym <= 11 then
              Leads(Word(LUMINANCE_DC_WORDS, sym), LUMINANCE_DC_VALUES, LUMINANCE_DC_COUNTS,
                    LUMINANCE_DC_FIRST, LUMINANCE_DC_INDEX, sym)
            else Word(LUMINANCE_DC_WORDS, sym) == (0, 0)
  {
  }

  lemma LuminanceDc()
    ensures SpellsDc(LUMINANCE_DC.Table(), LUMINANCE_DC.Words()) && JpegWrite.WordsFit(LUMINANCE_DC.Words())
  {
    hide Leads, Word, Value, Listing.Table, Listing.Words, FirstsRight;
    LuminanceDcFirsts();
    forall sym: nat | sym < 256
      ensures if sym <= 11 then LUMINANCE_DC.Listed(sym) else LUMINANCE_DC.Absent(sym)
    {
      LuminanceDcWords(sym);
    }
    SpellsDcTable(LUMINANCE_DC);
  }

  // ----- chrominance differences

  const CHROMINANCE_DC_COUNTS: Counts := [0, 0, 3, 1, 1, 1, 1, 1, 1, 1, 1, 1, 0, 0, 0, 0, 0]
  const CHROMINANCE_DC_FIRST: seq<nat> :=
    [0, 0, 0, 6, 14, 30, 62, 126, 254, 510, 1022, 2046, 4094, 8188, 16376, 32752, 65504]
  const CHROMINANCE_DC_INDEX: seq<nat> :=
    [0, 0, 0, 3, 4, 5, 6, 7, 8, 9, 10, 11, 12, 12, 12, 12, 12]
  const CHROMINANCE_DC_WORDS: seq<seq<(nat, nat)>> := [
    [(0, 2), (1, 2), (2, 2), (6, 3), (14, 4), (30, 5), (62, 6), (126, 7),
     (254, 8), (510, 9), (1022, 10), (2046, 11), (0, 0), (0, 0), (0, 0), (0, 0)]]
  const CHROMINANCE_DC_VALUES: seq<seq<byte>> := [
    [0, 1, 2, 3, 4, 5, 6, 7, 8, 9, 10, 11, 0, 0, 0, 0]]
  const CHROMINANCE_DC: Listing :=
    Listing(CHROMINANCE_DC_WORDS, CHROMINANCE_DC_VALUES, CHROMINANCE_DC_COUNTS,
            CHROMINANCE_DC_FIRST, CHROMINANCE_DC_INDEX)

  lemma ChrominanceDcFirsts()
    ensures FirstsRight(CHROMINANCE_DC_COUNTS, CHROMINANCE_DC_FIRST, CHROMINANCE_DC_INDEX)
  {
    assert forall s :: 1 <= s <= 16 ==> Follows(CHROMINANCE_DC_COUNTS, CHROMINANCE_DC_FIRST, CHROMINANCE_DC_INDEX, s);
    FirstsFit(CHROMINANCE_DC_COUNTS, CHROMINANCE_DC_FIRST, CHROMINANCE_DC_INDEX);
  }

  lemma ChrominanceDcWords(sym: nat)
    requires sym < 256
    ensures if sym <= 11 then
              Leads(Word(CHROMINANCE_DC_WORDS, sym), CHROMINANCE_DC_VALUES, CHROMINANCE_DC_COUNTS,
                    CHROMINANCE_DC_FIRST, CHROMINANCE_DC_INDEX, sym)
            else Word(CHROMINANCE_DC_WORDS, sym) == (0, 0)
  {
  }

  lemma ChrominanceDc()
    ensures SpellsDc(CHROMINANCE_DC.Table(), CHROMINANCE_DC.Words()) && JpegWrite.WordsFit(CHROMINANCE_DC.Words())
  {
    hide Leads, Word, Value, Listing.Table, Listing.Words, FirstsRight;
    ChrominanceDcFirsts();
    forall sym: nat | sym < 256
      ensures if sym <= 11 then CHROMINANCE_DC.Listed(sym) else CHROMINANCE_DC.Absent(sym)
    {
      ChrominanceDcWords(sym);
    }
    SpellsDcTable(CHROMINANCE_DC);
  }

  // ----- luminance coefficients

  const LUMINANCE_AC_COUNTS: Counts := [0, 0, 2, 1, 3, 3, 2, 4, 3, 5, 5, 4, 4, 0, 0, 1, 125]
  const LUMINANCE_AC_FIRST: seq<nat> :=
    [0, 0, 0, 4, 10, 26, 58, 120, 248, 502, 1014, 2038, 4084, 8176, 16352, 32704, 65410]
  const LUMINANCE_AC_INDEX: seq<nat> :=
    [0, 0, 0, 2, 3, 6, 9, 11, 15, 18, 23, 28, 32, 36, 36, 36, 37]
  const LUMINANCE_AC_WORDS: seq<seq<(nat, nat)>> := [
    [(10, 4), (0, 2), (1, 2), (4, 3), (11, 4), (26, 5), (120, 7), (248, 8),
     (1014, 10), (65410, 16), (65411, 16), (0, 0), (0, 0), (0, 0), (0, 0), (0, 0)],
    [(0, 0), (12, 4), (27, 5), (121, 7), (502, 9), (2038, 11), (65412, 16), (65413, 16),
     (65414, 16), (65415, 16), (65416, 16), (0, 0), (0, 0), (0, 0), (0, 0), (0, 0)],
    [(0, 0), (28, 5), (249, 8), (1015, 10), (4084, 12), (65417, 16), (65418, 16), (65419, 16),
     (65420, 16), (65421, 16), (65422, 16), (0, 0), (0, 0), (0, 0), (0, 0), (0, 0)],
    [(0, 0), (58, 6), (503, 9), (4085, 12), (65423, 16), (65424, 16), (65425, 16), (65426, 16),
     (65427, 16), (65428, 16), (65429, 16), (0, 0), (0, 0), (0, 0), (0, 0), (0, 0)],
    [(0, 0), (59, 6), (1016, 10), (65430, 16), (65431, 16), (65432, 16), (65433, 16), (65434, 16),
     (65435, 16), (65436, 16), (65437, 16), (0, 0), (0, 0), (0, 0), (0, 0), (0, 0)],
    [(0, 0), (122, 7), (2039, 11), (65438, 16), (65439, 16), (65440, 16), (65441, 16), (65442, 16),
     (65443, 16), (65444, 16), (65445, 16), (0, 0), (0, 0), (0, 0), (0, 0), (0, 0)],
    [(0, 0), (123, 7), (4086, 12), (65446, 16), (65447, 16), (65448, 16), (65449, 16), (65450, 16),
     (65451, 16), (65452, 16), (65453, 16), (0, 0), (0, 0), (0, 0), (0, 0), (0, 0)],
    [(0, 0), (250, 8), (4087, 12), (65454, 16), (65455, 16), (65456, 16), (65457, 16), (65458, 16),
     (65459, 16), (65460, 16), (65461, 16), (0, 0), (0, 0), (0, 0), (0, 0), (0, 0)],
    [(0, 0), (504, 9), (32704, 15), (65462, 16), (65463, 16), (65464, 16), (65465, 16), (65466, 16),
     (65467, 16), (65468, 16), (65469, 16), (0, 0), (0, 0), (0, 0), (0, 0), (0, 0)],
    [(0, 0), (505, 9), (65470, 16), (65471, 16), (65472, 16), (65473, 16), (65474, 16), (65475, 16),
     (65476, 16), (65477, 16), (65478, 16), (0, 0), (0, 0), (0, 0), (0, 0), (0, 0)],
    [(0, 0), (506, 9), (65479, 16), (65480, 16), (65481, 16), (65482, 16), (65483, 16), (65484, 16),
     (65485, 16), (65486, 16), (65487, 16), (0, 0), (0, 0), (0, 0), (0, 0), (0, 0)],
    [(0, 0), (1017, 10), (65488, 16), (65489, 16), (65490, 16), (65491, 16), (65492, 16), (65493, 16),
     (65494, 16), (65495, 16), (65496, 16), (0, 0), (0, 0), (0, 0), (0, 0), (0, 0)],
    [(0, 0), (1018, 10), (65497, 16), (65498, 16), (65499, 16), (65500, 16), (65501, 16), (65502, 16),
     (65503, 16), (65504, 16), (65505, 16), (0, 0), (0, 0), (0, 0), (0, 0), (0, 0)],
    [(0, 0), (2040, 11), (65506, 16), (65507, 16), (65508, 16), (65509, 16), (65510, 16), (65511, 16),
     (65512, 16), (65513, 16), (65514, 16), (0, 0), (0, 0), (0, 0), (0, 0), (0, 0)],
    [(0, 0), (65515, 16), (65516, 16), (65517, 16), (65518, 16), (65519, 16), (65520, 16), (65521, 16),
     (65522, 16), (65523, 16), (65524, 16), (0, 0), (0, 0), (0, 0), (0, 0), (0, 0)],
    [(2041, 11), (65525, 16), (65526, 16), (65527, 16), (65528, 16), (65529, 16), (65530, 16), (65531, 16),
     (65532, 16), (65533, 16), (65534, 16), (0, 0), (0, 0), (0, 0), (0, 0), (0, 0)]]
  const LUMINANCE_AC_VALUES: seq<seq<byte>> := [
    [0x01, 0x02, 0x03, 0x00, 0x04, 0x11, 0x05, 0x12, 0x21, 0x31, 0x41, 0x06, 0x13, 0x51, 0x61, 0x07],
    [0x22, 0x71, 0x14, 0x32, 0x81, 0x91, 0xa1, 0x08, 0x23, 0x42, 0xb1, 0xc1, 0x15, 0x52, 0xd1, 0xf0],
    [0x24, 0x33, 0x62, 0x72, 0x82, 0x09, 0x0a, 0x16, 0x17, 0x18, 0x19, 0x1a, 0x25, 0x26, 0x27, 0x28],
    [0x29, 0x2a, 0x34, 0x35, 0x36, 0x37, 0x38, 0x39, 0x3a, 0x43, 0x44, 0x45, 0x46, 0x47, 0x48, 0x49],
    [0x4a, 0x53, 0x54, 0x55, 0x56, 0x57, 0x58, 0x59, 0x5a, 0x63, 0x64, 0x65, 0x66, 0x67, 0x68, 0x69],
    [0x6a, 0x73, 0x74, 0x75, 0x76, 0x77, 0x78, 0x79, 0x7a, 0x83, 0x84, 0x85, 0x86, 0x87, 0x88, 0x89],
    [0x8a, 0x92, 0x93, 0x94, 0x95, 0x96, 0x97, 0x98, 0x99, 0x9a, 0xa2, 0xa3, 0xa4, 0xa5, 0xa6, 0xa7],
    [0xa8, 0xa9, 0xaa, 0xb2, 0xb3, 0xb4, 0xb5, 0xb6, 0xb7, 0xb8, 0xb9, 0xba, 0xc2, 0xc3, 0xc4, 0xc5],
    [0xc6, 0xc7, 0xc8, 0xc9, 0xca, 0xd2, 0xd3, 0xd4, 0xd5, 0xd6, 0xd7, 0xd8, 0xd9, 0xda, 0xe1, 0xe2],
    [0xe3, 0xe4, 0xe5, 0xe6, 0xe7, 0xe8, 0xe9, 0xea, 0xf1, 0xf2, 0xf3, 0xf4, 0xf5, 0xf6, 0xf7, 0xf8],
    [0xf9, 0xfa, 0x00, 0x00, 0x00, 0x00, 0x00, 0x00, 0x00, 0x00, 0x00, 0x00, 0x00, 0x00, 0x00, 0x00]]
  const LUMINANCE_AC: Listing :=
    Listing(LUMINANCE_AC_WORDS, LUMINANCE_AC_VALUES, LUMINANCE_AC_COUNTS,
            LUMINANCE_AC_FIRST, LUMINANCE_AC_INDEX)

  lemma LuminanceAcFirsts()
    ensures FirstsRight(LUMINANCE_AC_COUNTS, LUMINANCE_AC_FIRST, LUMINANCE_AC_INDEX)
  {
    assert forall s :: 1 <= s <= 16 ==> Follows(LUMINANCE_AC_COUNTS, LUMINANCE_AC_FIRST, LUMINANCE_AC_INDEX, s);
    FirstsFit(LUMINANCE_AC_COUNTS, LUMINANCE_AC_FIRST, LUMINANCE_AC_INDEX);
  }

  /** The word w for the symbol leads to it, or there is none and none is needed. */
  predicate LuminanceAcEntry(w: (nat, nat), sym: byte) {
    if w == (0, 0) then !AcSymbol(sym)
    else Leads(w, LUMINANCE_AC_VALUES, LUMINANCE_AC_COUNTS, LUMINANCE_AC_FIRST, LUMINANCE_AC_INDEX, sym)
  }

  lemma LuminanceAcRow0Low()
    ensures forall i :: 0 <= i < 6 ==> LuminanceAcEntry(LUMINANCE_AC_WORDS[0][i], 0 + i)
  {
  }

  lemma LuminanceAcRow0High()
    ensures forall i :: 6 <= i < 16 ==> LuminanceAcEntry(LUMINANCE_AC_WORDS[0][i], 0 + i)
  {
  }

  lemma LuminanceAcRow1()
    ensures forall i :: 0 <= i < 16 ==> LuminanceAcEntry(LUMINANCE_AC_WORDS[1][i], 16 + i)
  {
  }

  lemma LuminanceAcRow2()
    ensures forall i :: 0 <= i < 16 ==> LuminanceAcEntry(LUMINANCE_AC_WORDS[2][i], 32 + i)
  {
  }

  lemma LuminanceAcRow3()
    ensures forall i :: 0 <= i < 16 ==> LuminanceAcEntry(LUMINANCE_AC_WORDS[3][i], 48 + i)
  {
  }

  lemma LuminanceAcRow4()
    ensures forall i :: 0 <= i < 16 ==> LuminanceAcEntry(LUMINANCE_AC_WORDS[4][i], 64 + i)
  {
  }

  lemma LuminanceAcRow5()
    ensures forall i :: 0 <= i < 16 ==> LuminanceAcEntry(LUMINANCE_AC_WORDS[5][i], 80 + i)
  {
  }

  lemma LuminanceAcRow6()
    ensures forall i :: 0 <= i < 16 ==> LuminanceAcEntry(LUMINANCE_AC_WORDS[6][i], 96 + i)
  {
  }

  lemma LuminanceAcRow7()
    ensures forall i :: 0 <= i < 16 ==> LuminanceAcEntry(LUMINANCE_AC_WORDS[7][i], 112 + i)
  {
  }

  lemma LuminanceAcRow8()
    ensures forall i :: 0 <= i < 16 ==> LuminanceAcEntry(LUMINANCE_AC_WORDS[8][i], 128 + i)
  {
  }

  lemma LuminanceAcRow9()
    ensures forall i :: 0 <= i < 16 ==> LuminanceAcEntry(LUMINANCE_AC_WORDS[9][i], 144 + i)
  {
  }

  lemma LuminanceAcRow10()
    ensures forall i :: 0 <= i < 16 ==> LuminanceAcEntry(LUMINANCE_AC_WORDS[10][i], 160 + i)
  {
  }

  lemma LuminanceAcRow11()
    ensures forall i :: 0 <= i < 16 ==> LuminanceAcEntry(LUMINANCE_AC_WORDS[11][i], 176 + i)
  {
  }

  lemma LuminanceAcRow12()
    ensures forall i :: 0 <= i < 16 ==> LuminanceAcEntry(LUMINANCE_AC_WORDS[12][i], 192 + i)
  {
  }

  lemma LuminanceAcRow13()
    ensures forall i :: 0 <= i < 16 ==> LuminanceAcEntry(LUMINANCE_AC_WORDS[13][i], 208 + i)
  {
  }

  lemma LuminanceAcRow14()
    ensures forall i :: 0 <= i < 16 ==> LuminanceAcEntry(LUMINANCE_AC_WORDS[14][i], 224 + i)
  {
  }

  lemma LuminanceAcRow15()
    ensures forall i :: 0 <= i < 16 ==> LuminanceAcEntry(LUMINANCE_AC_WORDS[15][i], 240 + i)
  {
  }

  lemma LuminanceAcRows(run: nat, i: nat)
    requires run < 16 && i < 16
    ensures |LUMINANCE_AC_WORDS| == |LUMINANCE_AC_WORDS[run]| == 16
    ensures LuminanceAcEntry(LUMINANCE_AC_WORDS[run][i], 16 * run + i)
  {
    hide LuminanceAcEntry;
    match run
    case 0 => LuminanceAcRow0Low(); LuminanceAcRow0High();
    case 1 => LuminanceAcRow1();
    case 2 => LuminanceAcRow2();
    case 3 => LuminanceAcRow3();
    case 4 => LuminanceAcRow4();
    case 5 => LuminanceAcRow5();
    case 6 => LuminanceAcRow6();
    case 7 => LuminanceAcRow7();
    case 8 => LuminanceAcRow8();
    case 9 => LuminanceAcRow9();
    case 10 => LuminanceAcRow10();
    case 11 => LuminanceAcRow11();
    case 12 => LuminanceAcRow12();
    case 13 => LuminanceAcRow13();
    case 14 => LuminanceAcRow14();
    case 15 => LuminanceAcRow15();
  }

  lemma LuminanceAc()
    ensures SpellsAc(LUMINANCE_AC.Table(), LUMINANCE_AC.Words()) && JpegWrite.WordsFit(LUMINANCE_AC.Words())
  {
    hide Leads, Word, Value, Listing.Table, Listing.Words, FirstsRight;
    LuminanceAcFirsts();
    forall sym: nat | sym < 256
      ensures LUMINANCE_AC.Listed(sym) || (LUMINANCE_AC.Absent(sym) && !AcSymbol(sym))
    {
      LuminanceAcRows(sym / 16, sym % 16);
      WordAt(LUMINANCE_AC_WORDS, sym);
    }
    SpellsAcTable(LUMINANCE_AC);
  }

  // ----- chrominance coefficients

  const CHROMINANCE_AC_COUNTS: Counts := [0, 0, 2, 1, 2, 4, 4, 3, 4, 7, 5, 4, 4, 0, 1, 2, 119]
  const CHROMINANCE_AC_FIRST: seq<nat> :=
    [0, 0, 0, 4, 10, 24, 56, 120, 246, 500, 1014, 2038, 4084, 8176, 16352, 32706, 65416]
  const CHROMINANCE_AC_INDEX: seq<nat> :=
    [0, 0, 0, 2, 3, 5, 9, 13, 16, 20, 27, 32, 36, 40, 40, 41, 43]
  const CHROMINANCE_AC_WORDS: seq<seq<(nat, nat)>> := [
    [(0, 2), (1, 2), (4, 3), (10, 4), (24, 5), (25, 5), (56, 6), (120, 7),
     (500, 9), (1014, 10), (4084, 12), (0, 0), (0, 0), (0, 0), (0, 0), (0, 0)],
    [(0, 0), (11, 4), (57, 6), (246, 8), (501, 9), (2038, 11), (4085, 12), (65416, 16),
     (65417, 16), (65418, 16), (65419, 16), (0, 0), (0, 0), (0, 0), (0, 0), (0, 0)],
    [(0, 0), (26, 5), (247, 8), (1015, 10), (4086, 12), (32706, 15), (65420, 16), (65421, 16),
     (65422, 16), (65423, 16), (65424, 16), (0, 0), (0, 0), (0, 0), (0, 0), (0, 0)],
    [(0, 0), (27, 5), (248, 8), (1016, 10), (4087, 12), (65425, 16), (65426, 16), (65427, 16),
     (65428, 16), (65429, 16), (65430, 16), (0, 0), (0, 0), (0, 0), (0, 0), (0, 0)],
    [(0, 0), (58, 6), (502, 9), (65431, 16), (65432, 16), (65433, 16), (65434, 16), (65435, 16),
     (65436, 16), (65437, 16), (65438, 16), (0, 0), (0, 0), (0, 0), (0, 0), (0, 0)],
    [(0, 0), (59, 6), (1017, 10), (65439, 16), (65440, 16), (65441, 16), (65442, 16), (65443, 16),
     (65444, 16), (65445, 16), (65446, 16), (0, 0), (0, 0), (0, 0), (0, 0), (0, 0)],
    [(0, 0), (121, 7), (2039, 11), (65447, 16), (65448, 16), (65449, 16), (65450, 16), (65451, 16),
     (65452, 16), (65453, 16), (65454, 16), (0, 0), (0, 0), (0, 0), (0, 0), (0, 0)],
    [(0, 0), (122, 7), (2040, 11), (65455, 16), (65456, 16), (65457, 16), (65458, 16), (65459, 16),
     (65460, 16), (65461, 16), (65462, 16), (0, 0), (0, 0), (0, 0), (0, 0), (0, 0)],
    [(0, 0), (249, 8), (65463, 16), (65464, 16), (65465, 16), (65466, 16), (65467, 16), (65468, 16),
     (65469, 16), (65470, 16), (65471, 16), (0, 0), (0, 0), (0, 0), (0, 0), (0, 0)],
    [(0, 0), (503, 9), (65472, 16), (65473, 16), (65474, 16), (65475, 16), (65476, 16), (65477, 16),
     (65478, 16), (65479, 16), (65480, 16), (0, 0), (0, 0), (0, 0), (0, 0), (0, 0)],
    [(0, 0), (504, 9), (65481, 16), (65482, 16), (65483, 16), (65484, 16), (65485, 16), (65486, 16),
     (65487, 16), (65488, 16), (65489, 16), (0, 0), (0, 0), (0, 0), (0, 0), (0, 0)],
    [(0, 0), (505, 9), (65490, 16), (65491, 16), (65492, 16), (65493, 16), (65494, 16), (65495, 16),
     (65496, 16), (65497, 16), (65498, 16), (0, 0), (0, 0), (0, 0), (0, 0), (0, 0)],
    [(0, 0), (506, 9), (65499, 16), (65500, 16), (65501, 16), (65502, 16), (65503, 16), (65504, 16),
     (65505, 16), (65506, 16), (65507, 16), (0, 0), (0, 0), (0, 0), (0, 0), (0, 0)],
    [(0, 0), (2041, 11), (65508, 16), (65509, 16), (65510, 16), (65511, 16), (65512, 16), (65513, 16),
     (65514, 16), (65515, 16), (65516, 16), (0, 0), (0, 0), (0, 0), (0, 0), (0, 0)],
    [(0, 0), (16352, 14), (65517, 16), (65518, 16), (65519, 16), (65520, 16), (65521, 16), (65522, 16),
     (65523, 16), (65524, 16), (65525, 16), (0, 0), (0, 0), (0, 0), (0, 0), (0, 0)],
    [(1018, 10), (32707, 15), (65526, 16), (65527, 16), (65528, 16), (65529, 16), (65530, 16), (65531, 16),
     (65532, 16), (65533, 16), (65534, 16), (0, 0), (0, 0), (0, 0), (0, 0), (0, 0)]]
  const CHROMINANCE_AC_VALUES: seq<seq<byte>> := [
    [0x00, 0x01, 0x02, 0x03, 0x11, 0x04, 0x05, 0x21, 0x31, 0x06, 0x12, 0x41, 0x51, 0x07, 0x61, 0x71],
    [0x13, 0x22, 0x32, 0x81, 0x08, 0x14, 0x42, 0x91, 0xa1, 0xb1, 0xc1, 0x09, 0x23, 0x33, 0x52, 0xf0],
    [0x15, 0x62, 0x72, 0xd1, 0x0a, 0x16, 0x24, 0x34, 0xe1, 0x25, 0xf1, 0x17, 0x18, 0x19, 0x1a, 0x26],
    [0x27, 0x28, 0x29, 0x2a, 0x35, 0x36, 0x37, 0x38, 0x39, 0x3a, 0x43, 0x44, 0x45, 0x46, 0x47, 0x48],
    [0x49, 0x4a, 0x53, 0x54, 0x55, 0x56, 0x57, 0x58, 0x59, 0x5a, 0x63, 0x64, 0x65, 0x66, 0x67, 0x68],
    [0x69, 0x6a, 0x73, 0x74, 0x75, 0x76, 0x77, 0x78, 0x79, 0x7a, 0x82, 0x83, 0x84, 0x85, 0x86, 0x87],
    [0x88, 0x89, 0x8a, 0x92, 0x93, 0x94, 0x95, 0x96, 0x97, 0x98, 0x99, 0x9a, 0xa2, 0xa3, 0xa4, 0xa5],
    [0xa6, 0xa7, 0xa8, 0xa9, 0xaa, 0xb2, 0xb3, 0xb4, 0xb5, 0xb6, 0xb7, 0xb8, 0xb9, 0xba, 0xc2, 0xc3],
    [0xc4, 0xc5, 0xc6, 0xc7, 0xc8, 0xc9, 0xca, 0xd2, 0xd3, 0xd4, 0xd5, 0xd6, 0xd7, 0xd8, 0xd9, 0xda],
    [0xe2, 0xe3, 0xe4, 0xe5, 0xe6, 0xe7, 0xe8, 0xe9, 0xea, 0xf2, 0xf3, 0xf4, 0xf5, 0xf6, 0xf7, 0xf8],
    [0xf9, 0xfa, 0x00, 0x00, 0x00, 0x00, 0x00, 0x00, 0x00, 0x00, 0x00, 0x00, 0x00, 0x00, 0x00, 0x00]]
  const CHROMINANCE_AC: Listing :=
    Listing(CHROMINANCE_AC_WORDS, CHROMINANCE_AC_VALUES, CHROMINANCE_AC_COUNTS,
            CHROMINANCE_AC_FIRST, CHROMINANCE_AC_INDEX)

  lemma ChrominanceAcFirsts()
    ensures FirstsRight(CHROMINANCE_AC_COUNTS, CHROMINANCE_AC_FIRST, CHROMINANCE_AC_INDEX)
  {
    assert forall s :: 1 <= s <= 16 ==> Follows(CHROMINANCE_AC_COUNTS, CHROMINANCE_AC_FIRST, CHROMINANCE_AC_INDEX, s);
    FirstsFit(CHROMINANCE_AC_COUNTS, CHROMINANCE_AC_FIRST, CHROMINANCE_AC_INDEX);
  }

  /** The word w for the symbol leads to it, or there is none and none is needed. */
  predicate ChrominanceAcEntry(w: (nat, nat), sym: byte) {
    if w == (0, 0) then !AcSymbol(sym)
    else Leads(w, CHROMINANCE_AC_VALUES, CHROMINANCE_AC_COUNTS, CHROMINANCE_AC_FIRST, CHROMINANCE_AC_INDEX, sym)
  }

  lemma ChrominanceAcRow0Low()
    ensures forall i :: 0 <= i < 6 ==> ChrominanceAcEntry(CHROMINANCE_AC_WORDS[0][i], 0 + i)
  {
  }

  lemma ChrominanceAcRow0High()
    ensures forall i :: 6 <= i < 16 ==> ChrominanceAcEntry(CHROMINANCE_AC_WORDS[0][i], 0 + i)
  {
  }

  lemma ChrominanceAcRow1()
    ensures forall i :: 0 <= i < 16 ==> ChrominanceAcEntry(CHROMINANCE_AC_WORDS[1][i], 16 + i)
  {
  }

  lemma ChrominanceAcRow2()
    ensures forall i :: 0 <= i < 16 ==> ChrominanceAcEntry(CHROMINANCE_AC_WORDS[2][i], 32 + i)
  {
  }

  lemma ChrominanceAcRow3()
    ensures forall i :: 0 <= i < 16 ==> ChrominanceAcEntry(CHROMINANCE_AC_WORDS[3][i], 48 + i)
  {
  }

  lemma ChrominanceAcRow4()
    ensures forall i :: 0 <= i < 16 ==> ChrominanceAcEntry(CHROMINANCE_AC_WORDS[4][i], 64 + i)
  {
  }

  lemma ChrominanceAcRow5()
    ensures forall i :: 0 <= i < 16 ==> ChrominanceAcEntry(CHROMINANCE_AC_WORDS[5][i], 80 + i)
  {
  }

  lemma ChrominanceAcRow6()
    ensures forall i :: 0 <= i < 16 ==> ChrominanceAcEntry(CHROMINANCE_AC_WORDS[6][i], 96 + i)
  {
  }

  lemma ChrominanceAcRow7()
    ensures forall i :: 0 <= i < 16 ==> ChrominanceAcEntry(CHROMINANCE_AC_WORDS[7][i], 112 + i)
  {
  }

  lemma ChrominanceAcRow8()
    ensures forall i :: 0 <= i < 16 ==> ChrominanceAcEntry(CHROMINANCE_AC_WORDS[8][i], 128 + i)
  {
  }

  lemma ChrominanceAcRow9()
    ensures forall i :: 0 <= i < 16 ==> ChrominanceAcEntry(CHROMINANCE_AC_WORDS[9][i], 144 + i)
  {
  }

  lemma ChrominanceAcRow10()
    ensures forall i :: 0 <= i < 16 ==> ChrominanceAcEntry(CHROMINANCE_AC_WORDS[10][i], 160 + i)
  {
  }

  lemma ChrominanceAcRow11()
    ensures forall i :: 0 <= i < 16 ==> ChrominanceAcEntry(CHROMINANCE_AC_WORDS[11][i], 176 + i)
  {
  }

  lemma ChrominanceAcRow12()
    ensures forall i :: 0 <= i < 16 ==> ChrominanceAcEntry(CHROMINANCE_AC_WORDS[12][i], 192 + i)
  {
  }

  lemma ChrominanceAcRow13()
    ensures forall i :: 0 <= i < 16 ==> ChrominanceAcEntry(CHROMINANCE_AC_WORDS[13][i], 208 + i)
  {
  }

  lemma ChrominanceAcRow14()
    ensures forall i :: 0 <= i < 16 ==> ChrominanceAcEntry(CHROMINANCE_AC_WORDS[14][i], 224 + i)
  {
  }

  lemma ChrominanceAcRow15()
    ensures forall i :: 0 <= i < 16 ==> ChrominanceAcEntry(CHROMINANCE_AC_WORDS[15][i], 240 + i)
  {
  }

  lemma ChrominanceAcRows(run: nat, i: nat)
    requires run < 16 && i < 16
    ensures |CHROMINANCE_AC_WORDS| == |CHROMINANCE_AC_WORDS[run]| == 16
    ensures ChrominanceAcEntry(CHROMINANCE_AC_WORDS[run][i], 16 * run + i)
  {
    hide ChrominanceAcEntry;
    match run
    case 0 => ChrominanceAcRow0Low(); ChrominanceAcRow0High();
    case 1 => ChrominanceAcRow1();
    case 2 => ChrominanceAcRow2();
    case 3 => ChrominanceAcRow3();
    case 4 => ChrominanceAcRow4();
    case 5 => ChrominanceAcRow5();
    case 6 => ChrominanceAcRow6();
    case 7 => ChrominanceAcRow7();
    case 8 => ChrominanceAcRow8();
    case 9 => ChrominanceAcRow9();
    case 10 => ChrominanceAcRow10();
    case 11 => ChrominanceAcRow11();
    case 12 => ChrominanceAcRow12();
    case 13 => ChrominanceAcRow13();
    case 14 => ChrominanceAcRow14();
    case 15 => ChrominanceAcRow15();
  }

  lemma ChrominanceAc()
    ensures SpellsAc(CHROMINANCE_AC.Table(), CHROMINANCE_AC.Words()) && JpegWrite.WordsFit(CHROMINANCE_AC.Words())
  {
    hide Leads, Word, Value, Listing.Table, Listing.Words, FirstsRight;
    ChrominanceAcFirsts();
    forall sym: nat | sym < 256
      ensures CHROMINANCE_AC.Listed(sym) || (CHROMINANCE_AC.Absent(sym) && !AcSymbol(sym))
    {
      ChrominanceAcRows(sym / 16, sym % 16);
      WordAt(CHROMINANCE_AC_WORDS, sym);
    }
    SpellsAcTable(CHROMINANCE_AC);
  }
}
