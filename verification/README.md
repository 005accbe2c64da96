# Verified models of the codecs, the subcase scheduler and the matcher

The engine compiles three pieces of vendored code whose correctness rests on details: the image codecs
of stb (a writer and an independently written reader), the subcase scheduler of doctest, and doctest's
wildcard matcher and striped counter.  This project models them in Dafny and proves what they are for.

`dafny verify dfyconfig.toml` checks everything.

## What is proved

**DEFLATE.**  `ZlibCompress.RoundTrip`: compressing and inflating returns exactly the data, for every
quality, if and only if neither the data nor the initial buffer are empty.  The parts are of
interest by themselves: the reader's nine-bit fast table and slow path return the symbol whose canonical
code begins the stream (`Inflate.Zbuf.Decode` on the tables of `ZHuffman.Table.Build`); the reader is
sound and complete for the format as a whole, dynamic blocks included, with growing and with fixed
buffers, up to the last bit of its input, and a stream has one reading (`InflateTheorems`); the writer's
tokens are exactly those its lazy matching chooses, and expand to the data (`Deflate.CompressFixed`);
Adler-32 does not overflow and has its closed form (`Adler`).  What the compressor never writes is anchored by
a second writer: dynamic blocks told after RFC 1951, with any codes, are decoded to what their tokens stand for
(`DynamicStream.DecodeFile`).  A bit stream is a natural number, lowest bit first: the zeros above
its top bit are the implicit zeros the reader feeds itself at the end of its input.

**PNG.**  Filtering, compressing, inflating and unfiltering give back the pixels
(`PngRoundTrip.RoundTrip`); the two Paeth predictors agree; Adam7 passes are a bijection and follow the pattern of the
standard (`Adam7`).

**GIF.**  The table-driven raster loop draws what decoding with a dictionary of strings gives, for every input
(`GifRaster.Gif.ProcessRaster`), and that undoes the compressor of Appendix F of GIF89a
(`GifCompress.RoundTrip`); rows are visited once each (`GifFrame`).

**JPEG.**  What the entropy coder writes for quantised blocks, the decoder reads back, with stuffing,
prediction, runs, and the packed table (`JpegRoundTrip`), and what it reads from any other input, cut short
or not, is stated too (`JpegScan.ReadScan`); the writer's built-in tables spell the codes it
announces (`JpegTables`).

**HDR and TGA.**  Run-length coded images are read back, unless they are too large, which is told exactly
(`HdrRle.RoundTrip`, `TgaRle.RoundTrip`); files told byte by byte are
shown as their formats say (`HdrFile.FileRead`, `TgaFile.FileShown`).

**doctest.**  A test function is run once for each leaf of its tree of subcases, in preorder, each run entering
exactly the path of its leaf, if and only if siblings have different signatures (`SubcaseFilters.OneRunPerLeaf`);
with filters on the names, applied on the first so many levels, the exact condition for the same with the
pruned tree is `SubcaseFilters.FiltersPrune`.
`wildcmp` is the declarative match (`Wildcmp.WildCmp`), which the laws on plain patterns, wildcards, sequences
and case pin down.  A load of the striped counter lies between the totals
at its call and at its return, in every interleaving, if and only if threads do not both add and subtract
(`MultiLane.WithinExactly`).

## Where code and expectation differ

- Compressing nothing yields a stream without any block; the reader takes the checksum for one and fails
  (`ZlibCompress.EmptyHoldsNothing`).
- In the GIF raster loop the comparison of the code with the next entry comes after that entry has been
  counted, so it never holds.  The entry is right nevertheless: its first index has just been stored
  in the very entry the code names (`GifRaster.ExtendOk`).
- The GIF raster loop goes on counting entries when its dictionary is full, and refuses the code for which the
  count would pass 8192.  A compressor may write as many codes as it likes without a clear code; the
  frame is drawn if and only if there are at most 8191 less the clear code between two clear codes
  (Extra/stb/stb_image.h:6750-6753, `GifCompress.RoundTrip`).
- A JPEG code of at most nine bits with index 255 is mistaken for one without a fast entry: ten bits are
  read for it, and the value is one of the last four, told by the bits that follow (`JpegLost.LostCodeMisread`,
  `JpegRead.Jpeg.HuffDecode`).  The assertion behind the look-up holds only if the value happens to be right.
  The fast table can be trusted exactly if at most 255 codes have nine bits or less (`JpegLost.MarkTrusted`),
  which the round trip asks for.
- A row of an HDR image that lacks the scanline header restarts the reader at the first pixel, wherever
  the row was (`HdrRle.LoadData` states what is then shown).
- Subcases that are siblings and share a signature: a subcase equal to one just left is entered in the same
  run, so there is no longer one run for each leaf.  That is so exactly for trees with equal siblings
  (`SubcaseFilters.OneRunPerLeaf`).  What happens instead depends on the tree: two equal leaves are entered in one
  run, the look-up in the stack of subcases can leave its range (both in `Subcases.Twins`), and the loop can
  go on for ever (`Subcases.NeverEnds`).
- Filters on the names of subcases that are applied on some levels only: on the way back from a leaf the
  number of levels is compared with the depth of that leaf, not with that of the subcase just met.  After a leaf
  at the last filtered level or below, the next subcase becomes the goal of a run though it is filtered out, and
  cannot be reached.  The filters do no more than prune the tree exactly if that does not happen
  (`SubcaseFilters.FiltersPrune`); if the goal is at the top, the loop goes on for ever: two subcases, the
  second filtered out, on one level of filters (`SubcaseFilters.Hangs`).  By default all levels are
  filtered (`SubcaseFilters.DeepFilters`).
- A load of the striped counter can return a value outside the interval between the two totals, at its call and
  at its return, exactly if threads both add and subtract (`MultiLane.WithinExactly`); one thread is enough
  (`MultiLane.BothSigns`).  Inside the interval it need not be a total that ever was: with one thread adding 2
  and then another 3, a load can return 3 (`MultiLane.LoadReturns` gives its exact value).  doctest itself only
  ever counts such counters up, and sets them to zero between test cases (Extra/doctest/doctest.h:4874, 4879
  and 6977-6978).
- A comment in the inflater says that using a padding bit is caught later (Extra/stb/stb_image.h:4249-4252).  It is
  not always: the bit buffer is filled with zero bytes at the end of the input without the padding being
  noted, and then nothing is tested.  Every success means a reading of the input followed by zeros, and has used
  bits beyond the input exactly if the blocks of that reading end there.  Where they end within the first
  48 bits, cut off or not, the stream is accepted (`InflateTheorems.ZlibDecode`, `CutStreams.DecodeCut`): three
  bytes of the stream for one letter are decoded, without an error, to another letter (`CutStreams.CutShort`).
- A zlib output buffer that may grow but begins with no bytes is doubled for ever as soon as a byte is to be
  written (`Inflate.DoublingEnds`, `InflateTheorems.ZlibDecode`).

## Layout

| files | what they model |
|---|---|
| Bits, BitPieces, Canonical, CanonicalOrder, BitReverse, Runs | bit strings, pieces of bits, canonical codes, runs of a reader |
| ZHuffman, DeflateFormat, ZlibFormat, Inflate, InflateStored, InflateDynamic, InflateStream, InflateTheorems | the inflater |
| FixedCode, Deflate, Adler, ZlibCompress | the compressor and the round trip |
| TokenWriter, DynamicWriter, DynamicStream | blocks and streams written with any codes, after RFC 1951 |
| CutStreams | streams that are cut short |
| PngFilter, PngWrite, PngRead, PngRoundTrip, Adam7 | PNG |
| ByteSource, GifLzw, GifCompress, GifFrame, GifRaster | input bytes and GIF |
| JpegFormat, JpegBlock, JpegBits, JpegHuffman, JpegLost, JpegRead, JpegDecode, JpegScan, JpegWrite, JpegTables, JpegRoundTrip | JPEG entropy coding |
| ImageRows, Sizes, HdrRle, HdrFile, TgaRle, TgaFile | rows of pixels, checks on sizes, HDR and TGA |
| Subcases, SubcaseFilters, Wildcmp, MultiLane | doctest |

## Model

| member | source | states |
|---|---|---|
| Canonical.PrefixFree | Extra/stb/stb_image.h:4138-4149 | no window of sixteen bits begins with codes of two different lengths |
| Canonical.Coverage | Extra/stb/stb_image.h:4146-4150 | the shifted bound of length t separates exactly the windows that begin with a code of at most t bits; by this the slow search for a length is right |
| CanonicalOrder.CodeAfter | Extra/stb/stb_image.h:4135-4157 | the code word of a symbol, moved to the top of fifteen bits, is the sum of the room taken by the symbols before it, shorter codes first and equal lengths in the order of symbols: the two rules of section 3.2.2 of RFC 1951 |
| BitReverse.BitRev | Extra/stb/stb_image_write.h:849-857 | the loop reverses the low bits, as the recursive definition does for every code and width |
| BitReverse.BitReverse16IsRev | Extra/stb/stb_image.h:4107-4114 | four mask-and-shift lines reverse sixteen bits, for every word, including words with higher bits set |
| BitReverse.BitReverseShiftIsRev | Extra/stb/stb_image.h:4116-4122 | reversing sixteen bits and shifting reverses any smaller number of bits |
| BitReverse.RevBits | Extra/stb/stb_image.h:4107-4114 | the number-level reversal is the reversal of the sequence of bits |
| ZHuffman.Table.Build | Extra/stb/stb_image.h:4124-4169 | tables are built exactly when the lengths fit a prefix code (an if and only if), and then fast table, bounds and symbol table represent the canonical code |
| ZHuffman.Table.CountSizes | Extra/stb/stb_image.h:4129-4134 | the histogram of the code lengths |
| ZHuffman.Table.AssignFirstCodes | Extra/stb/stb_image.h:4135-4149 | first code, first symbol and shifted bound of every length; refused exactly for lengths that do not fit |
| ZHuffman.Table.AssignSymbol | Extra/stb/stb_image.h:4152-4165 | a symbol gets the next code of its length and enters the symbol table and, if short, all its places in the fast table |
| ZHuffman.Table.FillFast | Extra/stb/stb_image.h:4155-4163 | stepping by 2 to the length from the reversed code hits exactly the nine-bit windows that begin with the code |
| ZHuffman.SlotInjective | Extra/stb/stb_image.h:4154-4157 | no two symbols share a place in the symbol table |
| ZHuffman.SlotBound | Extra/stb/stb_image.h:4154-4157 | every place is inside the table |
| ZHuffman.MatchUnique | Extra/stb/stb_image.h:4124-4169 | at most one symbol has a code that begins the bits |
| Inflate.Zbuf.Get8 | Extra/stb/stb_image.h:4192-4200 | next byte of the input, zero at its end |
| Inflate.Zbuf.FillBits | Extra/stb/stb_image.h:4202-4212 | more than 24 bits are buffered afterwards and the bit stream is unchanged; the overflow guard never fires |
| Inflate.Zbuf.Receive | Extra/stb/stb_image.h:4214-4222 | the low n bits of the stream, which advances by n |
| Inflate.Zbuf.EnsureBits | Extra/stb/stb_image.h:4246-4262 | at least 16 bits are buffered without changing the stream (zeros are added once at the end of the input); failure only when bits beyond the input have been used, and more than the 48 of the header and the first four bytes |
| Inflate.Zbuf.DecodeSlowPath | Extra/stb/stb_image.h:4224-4241 | with no short code matching: the symbol whose code begins the stream, consuming its length, or failure exactly when there is none |
| Inflate.LookupLong | Extra/stb/stb_image.h:4229-4240 | the symbol of a long code is found by its length bound and slot; the two consistency guards never fire |
| Inflate.LookupFast | Extra/stb/stb_image.h:4263-4268 | a non-zero fast entry is the symbol and length of the one code that begins the window; a zero entry means no code of at most nine bits does |
| Inflate.Zbuf.DecodeBuffered | Extra/stb/stb_image.h:4263-4271 | with 16 bits buffered: exactly the symbol whose code begins the stream, its length consumed, or failure if and only if there is none |
| Inflate.Zbuf.Decode | Extra/stb/stb_image.h:4243-4271 | the same from any state; the only other failure is that bits beyond the input have been used already |
| Inflate.Zbuf.Grow | Extra/stb/stb_image.h:4273-4293 | keeps the contents; afterwards there is room, or the buffer is fixed, or more than 2 GiB would be needed, or the buffer has no bytes to double |
| Inflate.DoublingEnds | Extra/stb/stb_image.h:4283-4286 | doubling makes room in the end if and only if the buffer has a byte or none is needed: from no bytes the loop does not end |
| Inflate.Zbuf.CopyMatch | Extra/stb/stb_image.h:4348-4354 | both copy loops, that for distance one included, do the byte-by-byte copy that repeats what it has just written |
| Inflate.Zbuf.Emit | Extra/stb/stb_image.h:4316-4320 | a literal or copy applied to the output, growing it first if necessary |
| Inflate.Zbuf.ReadCopy | Extra/stb/stb_image.h:4335-4342 | length and distance symbols with their extra bits make up the copy that the stream spells |
| Inflate.Zbuf.Step | Extra/stb/stb_image.h:4313-4355 | one literal, copy or end of block: stream, output and bit count move as the token says; every failure has its reason |
| Inflate.Zbuf.ParseHuffmanBlock | Extra/stb/stb_image.h:4309-4357 | the block spells a sequence of tokens, and the output is what they expand to; a failure is explained at the place it happens |
| DeflateFormat.ExtraRule | Extra/stb/stb_image.h:4300-4307 | how many extra bits each symbol has, by rule: one more every four length symbols and every two distance symbols |
| DeflateFormat.LengthsTile | Extra/stb/stb_image.h:4295-4298 | length symbols begin at 3 and each begins where the one before ends; 258 has its own |
| DeflateFormat.DistancesTile | Extra/stb/stb_image.h:4303-4304 | the same for distances, from 1 on |
| DeflateFormat.TokenUnique | Extra/stb/stb_image.h:4313-4342 | at any place in the stream at most one token can be read |
| DeflateFormat.ParseIsPrefix | Extra/stb/stb_image.h:4309-4357 | any sound reading of a block body is a prefix of its one complete reading |
| InflateStored.ParseUncompressedBlock | Extra/stb/stb_image.h:4409-4436 | a stored block appends its bytes after alignment; failures: complement wrong, input too short, no room |
| InflateDynamic.ReadOp | Extra/stb/stb_image.h:4381-4397 | one code length operation, as the stream spells it |
| InflateDynamic.ApplyOp | Extra/stb/stb_image.h:4383-4400 | accepted exactly when it fits, and then the list grows by what it stands for |
| InflateDynamic.ReadOps | Extra/stb/stb_image.h:4379-4403 | the code length list is the one its operations spell; refused only when no operation could continue it |
| InflateDynamic.ComputeHuffmanCodes | Extra/stb/stb_image.h:4359-4407 | a dynamic header is read exactly as the format defines it and both tables represent its lengths; failure only if there is no such header or the input ends.  For every plan of DynamicWriter whose header comes next: the tables represent its two lists and what follows it comes next, or the input ended within it |
| DynamicWriter.SentRead | Extra/stb/stb_image.h:4361-4376 | the sizes of the code length code get to their symbols, the order being told by rule: 16, 17, 18, 0, then 8 + k at place 4 + 2k and 7 - k at place 5 + 2k |
| DynamicWriter.ItemsRead | Extra/stb/stb_image.h:4379-4403 | a list told in any way as single lengths, three to six copies of the last, and three to 138 zeros is read back as that list |
| DynamicWriter.HeaderWritten | Extra/stb/stb_image.h:4359-4407 | whatever follows, the header written for two lists of code lengths is one the reader finds, and it means exactly those lists |
| DynamicWriter.HeaderRead | Extra/stb/stb_image.h:4359-4407 | no other header can be read there: any reading gives exactly those lists and ends where the header ends |
| DynamicWriter.AnyLists | Extra/stb/stb_image.h:4359-4407 | every two lists of lengths that fit codes can be written so |
| TokenWriter.TokenRead | Extra/stb/stb_image.h:4313-4342 | a token written with any two codes is read back, whatever follows |
| TokenWriter.BodyRead | Extra/stb/stb_image.h:4309-4357 | so are all tokens of a block and its end mark |
| DynamicStream.FileRead | Extra/stb/stb_image.h:4481-4508 | header bytes, dynamic blocks with any codes and tokens, and any trailer are a complete zlib stream whose content is what the tokens expand to |
| DynamicStream.DecodeFile | Extra/stb/stb_image.h:4520-4534 | decoding such a stream gives that content |
| ZlibFormat.DynHeaderUnique | Extra/stb/stb_image.h:4359-4407 | at most one dynamic header can be read at a place |
| ZlibFormat.FixedCounts | Extra/stb/stb_image.h:4452-4466 | the fixed lengths have 24, 152 and 112 codes of 7, 8 and 9 bits and 32 distance codes, and fit |
| ZlibFormat.BlockUnique | Extra/stb/stb_image.h:4489-4505 | at most one block of any kind can be read at a place |
| InflateStream.ParseZlibHeader | Extra/stb/stb_image.h:4438-4450 | accepted exactly when the two header bytes meet the four conditions |
| ZlibFormat.FieldsAccepted | Extra/stb/stb_image.h:4438-4450 | two bytes that hold the method deflate, any window, level and check value, no preset dictionary, and are a multiple of 31, are accepted |
| ZlibFormat.AcceptedFields | Extra/stb/stb_image.h:4438-4450 | and no others |
| InflateStream.ParseBlock | Extra/stb/stb_image.h:4490-4505 | one block of any of the three kinds moves reader and output to the place after it |
| InflateStream.ParseZlib | Extra/stb/stb_image.h:4481-4508 | success means header, blocks and a final block were read and the output is theirs; the loop terminates on every input because the rest of the stream shrinks |
| InflateStream.BlockEndSmaller | Extra/stb/stb_image.h:4489-4506 | every block, even an empty one, uses up part of the stream |
| InflateTheorems.Uniqueness | Extra/stb/stb_image.h:4481-4508 | a zlib stream has one reading |
| InflateTheorems.ZlibDecode | Extra/stb/stb_image.h:4520-4534 | sound: what is returned is the content of the input followed by zeros; complete: a stream of at most 2 GiB of content whose blocks end within the input, or within 48 bits, is decoded if and only if the initial size is positive or the content empty; otherwise the doubling does not end |
| InflateTheorems.ZlibDecodeBuffer | Extra/stb/stb_image.h:4557-4566 | sound with a fixed buffer; complete: a stream whose blocks end within the input, or within 48 bits, is decoded if and only if its content fits the buffer, and otherwise the result is that the buffer is full |
| CutStreams.ZerosSayNothing | Extra/stb/stb_image.h:4197-4212 | zero bytes at the end of a stream change nothing of what it says, nor where its blocks end |
| CutStreams.DecodeCut | Extra/stb/stb_image.h:4243-4271 | a stream whose blocks end within 48 bits is decoded from its first three bytes on, if the bytes cut off are zero |
| CutStreams.CutShort | Extra/stb/stb_image.h:4326-4332 | a stream of one letter, cut off within the code of that letter, is decoded to another letter: success with ten bits used that are not in the input |
| FixedCode.HuffCodeIsCanonical | Extra/stb/stb_image_write.h:884-889 | the four ranges of the writer's code formula are the canonical code of the fixed lengths |
| FixedCode.FixedTable | Extra/stb/stb_image_write.h:884-889 | each code word of the fixed code, by its number: 00110000 to 10111111, 110010000 to 111111111, 0000000 to 0010111, 11000000 to 11000111 |
| FixedCode.TokenWritten | Extra/stb/stb_image_write.h:957-970 | the pieces written for a literal or copy are read back as that token, whatever follows |
| FixedCode.BlockWritten | Extra/stb/stb_image_write.h:915-978 | the pieces of all tokens and the end mark are read back as those tokens |
| Deflate.BitSink.Flush | Extra/stb/stb_image_write.h:839-847 | whole bytes move to the output; the bits written stay the same |
| Deflate.BitSink.Add | Extra/stb/stb_image_write.h:879-881 | the value is appended to what has been written, for up to 16 bits |
| Deflate.BitSink.Huffa | Extra/stb/stb_image_write.h:882 | the same with the bits reversed |
| Deflate.CountM | Extra/stb/stb_image_write.h:859-865 | the length of the common prefix, up to the limit and 258: those bytes agree and the next do not |
| Deflate.FindMatch | Extra/stb/stb_image_write.h:924-933 | of the chain entries with a match of three to 258 bytes at most 32767 back, the last of the longest, or none if there is none |
| Deflate.BetterMatch | Extra/stb/stb_image_write.h:941-955 | true if and only if an entry has a longer match within the window |
| Deflate.MatchCopies | Extra/stb/stb_image_write.h:941-966 | copying back from the match position yields the next bytes of the data, overlapping or not |
| Deflate.LengthSlot | Extra/stb/stb_image_write.h:960-962 | the slot search finds base and extra bits that RFC 1951 gives for the length |
| Deflate.DistSlot | Extra/stb/stb_image_write.h:963-965 | the same for distances |
| Deflate.WriteMatch | Extra/stb/stb_image_write.h:957-966 | the pieces written are those of a copy with this length and distance |
| Deflate.Enter | Extra/stb/stb_image_write.h:934-939 | the chain keeps only earlier positions; a full one loses its older half |
| Deflate.ChooseMatch | Extra/stb/stb_image_write.h:922-955 | the longest match of the chain, given up if and only if the next position has a longer one; the chain gets the position, and all chains hold only earlier ones |
| Deflate.CompressFixed | Extra/stb/stb_image_write.h:913-978 | for every input and quality each token written is the one chosen at its place from the chains as they are there, the last three bytes being literals; together they are sound and expand to the data, and the bits are theirs, padded to a byte |
| Deflate.CompressNext | Extra/stb/stb_image_write.h:915-973 | one turn of the loop: position, chains and tokens stay those of the choices made so far |
| Adler.SumBlock | Extra/stb/stb_image_write.h:1007-1008 | neither sum leaves 32 bits within a block of 5552 bytes, and both are right modulo 65521 |
| Adler.Adler32 | Extra/stb/stb_image_write.h:1001-1011 | reducing once per block gives one plus the sum of the bytes, and the sum of those sums, each modulo 65521 |
| Adler.Sums | Extra/stb/stb_image_write.h:1007-1009 | the two sums in closed form, unreduced until the end: 1 plus all bytes, and the length plus every byte times the number of bytes from it to the end |
| Adler.TrailerIsChecksum | Extra/stb/stb_image_write.h:1012-1015 | the four bytes written are the checksum as a number, most significant byte first |
| ZlibCompress.StoreBlocks | Extra/stb/stb_image_write.h:984-999 | the data in chunks of at most 32767 bytes with header, length and complement |
| ZlibCompress.StoredReads | Extra/stb/stb_image_write.h:987-998 | the stored chunks are read back as blocks that hold the data |
| ZlibCompress.StoredSize | Extra/stb/stb_image_write.h:985 | the size of the stored form: the data and five bytes per chunk |
| ZlibCompress.Compress | Extra/stb/stb_image_write.h:895-1022 | the fixed-code form of the tokens chosen, or the stored form if that is shorter; the last four bytes are 65536 times the second sum plus the first, most significant byte first: a zlib stream of the data, unless they are empty |
| ZlibCompress.Readable | Extra/stb/stb_image_write.h:895-1022 | what stands for the data has a complete reading whose content is the data |
| ZlibCompress.OneMeaning | Extra/stb/stb_image.h:4481-4508 | no stream stands for two different data |
| ZlibCompress.EmptyHoldsNothing | Extra/stb/stb_image_write.h:985-999 | the bytes written for empty data are no zlib stream: the last of the checksum is taken for a block |
| ZlibCompress.RoundTrip | Extra/stb/stb_image_write.h:895-1022 | decoding succeeds if and only if the data are not empty and the initial size is not zero, and then returns exactly the data, for every quality and initial size |
| Subcases.AimsSelf | Extra/doctest/doctest.h:4207-4219 | the goal noted for a run leads to one leaf |
| Subcases.AimsUnique | Extra/doctest/doctest.h:4207-4219 | and to no other |
| Subcases.Subcase.constructor | Extra/doctest/doctest.h:4196-4237 | enters, notes, filters out or skips the subcase, changing the five fields and telling the reporters |
| Subcases.Subcase.Destroy | Extra/doctest/doctest.h:4243-4272 | leaves it; at a leaf the goal is cleared, and finished paths are recorded |
| SubcaseFilters.Execute | Extra/doctest/doctest.h:4196-4273 | one run of any tree from any state with any filters is the total function Sift, which tells also whether the stack look-up leaves its range |
| Subcases.RunDown | Extra/doctest/doctest.h:4207-4273 | with distinct siblings a run from a goal for leaf i visits exactly the path of leaf i and notes the goal for leaf i + 1, if there is one; the look-up stays in range |
| Subcases.DistinctLoop | Extra/doctest/doctest.h:6988-7031 | the state after k runs, for every k up to the number of leaves |
| Subcases.Twins | Extra/doctest/doctest.h:4220-4225 | two equal leaves: both entered in the only run; if the second holds a subcase, the look-up leaves its range |
| Subcases.LeafCount | Extra/doctest/doctest.h:6988-7031 | the number of root paths is the number of leaves, or one without subcases |
| Subcases.PathsApart | Extra/doctest/doctest.h:4249-4255 | no leaf path is a prefix of another |
| SubcaseFilters.RunTestCase | Extra/doctest/doctest.h:6980-7035 | for any tree, any filters and any number of runs followed, the loop is the function SiftCase |
| SubcaseFilters.SiftedCase | Extra/doctest/doctest.h:6980-7035 | if siblings left by the filters are distinct and the way back from every leaf is clear, the loop stops after one run per leaf of the pruned tree, run i entering exactly the path of leaf i in preorder, and the reporters are told so |
| SubcaseFilters.SiftIsGo | Extra/doctest/doctest.h:4196-4237 | on a clear way a run with filters is the run of the pruned tree without |
| SubcaseFilters.Strays | Extra/doctest/doctest.h:4226-4236 | otherwise the run tells of its leaf, but a subcase that is filtered out becomes the next goal |
| SubcaseFilters.LostRun | Extra/doctest/doctest.h:4209-4213 | a run towards such a goal ends at the node above it |
| SubcaseFilters.FiltersPrune | Extra/doctest/doctest.h:4196-4205 | for every tree and all filters: the loop stops with the events of one run per leaf of the pruned tree if and only if no siblings left in it are equal and, after every leaf as deep as the levels filtered, the next subcase met is not one filtered out |
| SubcaseFilters.DeepFilters | Extra/doctest/doctest.h:6669 | that is so where every leaf is above the last level filtered, as with the default |
| SubcaseFilters.Hangs | Extra/doctest/doctest.h:4226-4236 | two subcases, the second filtered out, with one level of filters: one run of the first, and then the loop goes on for ever |
| SubcaseFilters.OneRunPerLeaf | Extra/doctest/doctest.h:6980-7035 | for every tree without filters: the loop stops with the events of one run per leaf in preorder if and only if siblings are distinct |
| SubcaseFilters.OnlyDistinct | Extra/doctest/doctest.h:4220-4235 | the converse: whenever the events are those, siblings left by the filters are distinct, however many runs it took |
| SubcaseFilters.RunIsClean | Extra/doctest/doctest.h:4220-4225 | a run that tells of one path only has met no later sibling with the signature of a subcase on it |
| Subcases.NeverEnds | Extra/doctest/doctest.h:6988-7031 | a tree with two equal siblings of different content for which the loop goes on after any number of runs |
| SubcaseFilters.RunAll | Extra/doctest/doctest.h:6970-7035 | any sequence of test cases; if the conditions hold for each, the events are those of one run per leaf of its pruned tree throughout, the fields left by one not disturbing the next |
| Wildcmp.PlainSensitive | Extra/doctest/doctest.h:4117-4121 | a pattern without wildcards matches, where case counts, the equal text only |
| Wildcmp.PlainInsensitive | Extra/doctest/doctest.h:4117-4121 | and where it does not, exactly the texts of the same length whose characters are equal or the upper and lower form of one of the 26 letters |
| Wildcmp.Wildcards | Extra/doctest/doctest.h:4119-4128 | a question mark matches exactly the texts of one character, a star all texts |
| Wildcmp.Sequence | Extra/doctest/doctest.h:4113-4147 | two patterns one after the other match exactly the texts that split into one for each |
| Wildcmp.CaseIrrelevant | Extra/doctest/doctest.h:4115-4118 | without case sensitivity, letters of text and pattern may change case |
| Wildcmp.SensitiveIsStricter | Extra/doctest/doctest.h:4115-4118 | what matches with case sensitivity matches without |
| Wildcmp.LiteralFirst | Extra/doctest/doctest.h:4117-4124 | a segment without stars matches character by character |
| Wildcmp.EarliestIsEnough | Extra/doctest/doctest.h:4127-4132 | committing a segment to its earliest place loses no match |
| Wildcmp.NextPlace | Extra/doctest/doctest.h:4137-4140 | on a mismatch it is enough to try one character further |
| Wildcmp.StarsMatchNothing | Extra/doctest/doctest.h:4143-4146 | the rest of a pattern matches the empty text exactly if it is all stars |
| Wildcmp.WildCmp | Extra/doctest/doctest.h:4113-4147 | terminates and returns 1 if and only if text and pattern match, in both case modes; for a pattern without wildcards that is equality, or equality up to the case of letters |
| Wildcmp.MatchesAny | Extra/doctest/doctest.h:4150-4158 | true exactly if some filter matches, or as asked when there is none |
| MultiLane.Shared.FetchAdd | Extra/doctest/doctest.h:3456-3458 | an addition by any thread raises the total by its argument |
| MultiLane.StepPromise | Extra/doctest/doctest.h:3466-3472 | a step changes what a load in progress will return by exactly what it adds to lanes not read yet |
| MultiLane.LoadReturns | Extra/doctest/doctest.h:3466-3472 | over every interleaving a load returns the total at its start and what was added to lanes it had not read |
| MultiLane.LoadBetween | Extra/doctest/doctest.h:3452-3472 | while threads only count up, the result lies between the totals at start and end, and is the total if nothing was added |
| MultiLane.OwnLanes | Extra/doctest/doctest.h:3500-3506 | in every run, as long as there are no more threads than lanes, no two threads share a lane |
| MultiLane.WithinExactly | Extra/doctest/doctest.h:3460-3472 | for given additions and subtractions of each thread, every load, whatever the interleaving so far, lies between the totals at its call and at its return if and only if the threads do not both add and subtract |
| MultiLane.SeenParts | Extra/doctest/doctest.h:3466-3472 | of what a thread has added so far, in its order, a load sees a beginning: what it did before its lane was read |
| MultiLane.BothSigns | Extra/doctest/doctest.h:3456-3472 | one thread doing 1, -1 and 5: a load that returns between the last two gives one more than the total, which is the same at its call and at its return |
| MultiLane.MultiLaneAtomic.FetchAdd | Extra/doctest/doctest.h:3456-3458 | one lane changes, its old value is returned |
| MultiLane.MultiLaneAtomic.Load | Extra/doctest/doctest.h:3466-3472 | alone, a load returns the sum of the lanes |
| MultiLane.MultiLaneAtomic.Store | Extra/doctest/doctest.h:3479-3486 | afterwards the sum is the value |
| GifLzw.ReadOk | Extra/stb/stb_image.h:6733-6771 | reading a code keeps the dictionary well formed |
| GifLzw.ReadSnug | Extra/stb/stb_image.h:6763-6766 | the code width always is the least that holds the next code, up to twelve bits |
| GifLzw.NewEntry | Extra/stb/stb_image.h:6749-6757 | in every state the entry made is the previous string and the first index of the string that the code names in the grown dictionary |
| GifCompress.RoundTrip | Extra/stb/stb_image.h:6721-6771 | what the compressor of Appendix F of GIF89a writes for any indices, with clear codes wherever it likes, is decoded to them if and only if no more than 8191 less the clear code are written between clear codes; otherwise the verdict is that there are too many |
| GifCompress.FrameRead | Extra/stb/stb_image.h:6698-6774 | code size and compressed indices, cut into sub-blocks anywhere, mean those indices, and the data end after the last sub-block |
| GifRaster.Gif.InitTable | Extra/stb/stb_image.h:6707-6711 | the table represents the single-index strings |
| GifRaster.Gif.AddEntry | Extra/stb/stb_image.h:6749-6757 | a new entry holds prefix, first and last index; the test against the next code, made after it was counted, never holds |
| GifRaster.ExtendOk | Extra/stb/stb_image.h:6749-6757 | the new entry is the previous string and the first index of the current one, also when the code is the entry just made |
| GifRaster.Gif.OutGifCode | Extra/stb/stb_image.h:6654-6689 | following the prefixes draws exactly the string of the code |
| GifRaster.Gif.EmitCode | Extra/stb/stb_image.h:6744-6771 | table, width and counter move as the decoding does, entries beyond 4095 included |
| GifRaster.Gif.DrawSuffix | Extra/stb/stb_image.h:6664-6689 | one index is drawn and the cursor moves on |
| GifRaster.Gif.Advance | Extra/stb/stb_image.h:6677-6688 | the byte offsets move as row and column do |
| GifRaster.Gif.SkipPasses | Extra/stb/stb_image.h:6683-6687 | passes without rows are skipped, at most three |
| GifRaster.Gif.SkipData | Extra/stb/stb_image.h:6740-6742 | the sub-blocks after the end code are skipped |
| GifRaster.Gif.ProcessRaster | Extra/stb/stb_image.h:6691-6774 | for every input the canvas is what decoding the data draws (GifCompress.FrameRead: the indices that were compressed), with the same verdict, and the reader ends after the data |
| GifFrame.RowOrder | Extra/stb/stb_image.h:6874-6880 | the rows come in the order of Appendix E of GIF89a, or from the top |
| GifFrame.RowsOnce | Extra/stb/stb_image.h:6677-6688 | every row of the frame comes exactly once, for every height |
| GifFrame.SpotsOnce | Extra/stb/stb_image.h:6666-6682 | no pixel of the frame is reached twice |
| GifFrame.FrameDrawn | Extra/stb/stb_image.h:6854-6890 | index j * w + i of the data shows at column i of the j-th row visited, transparent ones leaving what was there, and the pixel is marked |
| GifFrame.FrameElsewhere | Extra/stb/stb_image.h:6664-6689 | nothing outside the frame changes |
| PngFilter.Predictions | Extra/stb/stb_image.h:4755-4785 | the predictions in other words: nothing, left, above, half the sum rounded down, and the one of three nearest to left plus above less corner, the first of equally near ones |
| PngFilter.NearestOnce | Extra/stb/stb_image.h:4657-4668 | there is one nearest |
| PngFilter.PaethsAgree | Extra/stb/stb_image.h:4657-4668 | the comparison-only predictor equals the one by distances for all integers, ties included |
| PngFilter.FilterRoundTrip | Extra/stb/stb_image_write.h:1108-1125 | a filtered line is restored by adding the predictions |
| PngFilter.RestoredOnce | Extra/stb/stb_image.h:4754-4785 | and by no other line |
| PngWrite.EncodePngLine | Extra/stb/stb_image_write.h:1092-1126 | the line, whatever stride and flip, is filtered as section 9.2 of the PNG specification says, the first row against zeros |
| PngWrite.HeadByte | Extra/stb/stb_image_write.h:1108-1117 | bytes of the first pixel, in all seven kinds |
| PngWrite.TailByte | Extra/stb/stb_image_write.h:1118-1125 | all others |
| PngWrite.Entropy | Extra/stb/stb_image_write.h:1157-1160 | the sum of absolute values |
| PngWrite.ChooseFilter | Extra/stb/stb_image_write.h:1151-1170 | the filter with the least estimate, the first of equals, and the line buffer holds its line |
| PngWrite.FilterImage | Extra/stb/stb_image_write.h:1146-1174 | rows of filter number and filtered line, forced or chosen |
| PngRead.UnfilterByte | Extra/stb/stb_image.h:4755-4785 | byte plus prediction, for the ordinary and first-row kinds alike |
| PngRead.UnfilterLine | Extra/stb/stb_image.h:4751-4785 | the line in the buffer is the one whose filtering was read |
| PngRead.AlphaExpand8 | Extra/stb/stb_image.h:4675-4693 | an opaque alpha after each pixel |
| PngRead.ShowLine | Extra/stb/stb_image.h:4789-4826 | the line as it is, or with alpha |
| PngRead.CreatePngImageRaw | Extra/stb/stb_image.h:4696-4859 | succeeds if and only if sizes, length and filter numbers are sound, and then shows every unfiltered line; each failure has its cause |
| PngRoundTrip.LinesAreRows | Extra/stb/stb_image.h:4737-4787 | the lines the reader restores are the rows the writer filtered |
| PngRoundTrip.WritePngData | Extra/stb/stb_image_write.h:1144-1176 | the compressed data stand for the filtered rows |
| PngRoundTrip.ReadPngData | Extra/stb/stb_image.h:4696-4859 | data standing for rows are inflated and unfiltered |
| PngRoundTrip.RoundTrip | Extra/stb/stb_image_write.h:1128-1176 | 1 to 4 channels, any stride, flip, filter choice and quality: inflating and unfiltering give the pixels in written order |
| Adam7.PassPattern | Extra/stb/stb_image.h:4874-4877 | the pass of every pixel is the one of the eight by eight pattern of section 8.2 of the PNG specification |
| Adam7.PassOrder | Extra/stb/stb_image.h:4888-4891 | within a pass rows come from the top and pixels from the left |
| Adam7.HomeIn | Extra/stb/stb_image.h:4874-4881 | every pixel has a place in one of the passes |
| Adam7.SpotIn | Extra/stb/stb_image.h:4888-4891 | every place of every pass is the one place of a pixel of the image; with the line above, a bijection |
| Adam7.PlacePass | Extra/stb/stb_image.h:4888-4895 | a pass puts its pixels in their places and touches no other |
| Adam7.CreatePngImage | Extra/stb/stb_image.h:4861-4904 | succeeds if and only if all passes are sound, and then every pixel is the one its pass has for it |
| JpegFormat.CodeReads | Extra/stb/stb_image.h:2123-2145 | a code word at the front of the stream is recognised with its length and index |
| JpegFormat.ExtendMagnitude | Extra/stb/stb_image_write.h:1318-1326 | extending the magnitude bits of a value gives the value |
| JpegFormat.ExtendInOrder | Extra/stb/stb_image.h:2148-2167 | n magnitude bits stand, in increasing order, for all numbers of category n, the top bit being set for positive ones |
| JpegHuffman.Huffman.BuildHuffman | Extra/stb/stb_image.h:2003-2046 | succeeds if and only if there are at most 256 codes and they fit, and then sizes, codes, bounds, offsets and fast table are right |
| JpegHuffman.CodeAtIsCode | Extra/stb/stb_image.h:2016-2030 | the k-th code is canonical |
| JpegHuffman.LastCodeLost | Extra/stb/stb_image.h:2033-2044 | a short code with index 255 cannot be told from the mark of an empty entry |
| JpegLost.MarkTrusted | Extra/stb/stb_image.h:2107-2115 | the mark of an empty entry means that no short code comes next if and only if at most 255 codes have nine bits or less |
| JpegLost.LostCodeMisread | Extra/stb/stb_image.h:2123-2140 | every stream that begins with the lost code is searched on and the search ends at ten bits; the index computed is 256 less a power of two plus the bits after the code, one of the last four; the source's assertion on it holds if and only if it is 255 |
| JpegLost.LostIsLast | Extra/stb/stb_image.h:2033-2044 | the lost code is the last of exactly 256 codes and has eight bits or nine |
| JpegRead.Jpeg.NextByte | Extra/stb/stb_image.h:2078-2087 | the next entropy-coded byte, with stuffing, fill bytes and markers; zero after a marker |
| JpegRead.Jpeg.GrowBufferUnsafe | Extra/stb/stb_image.h:2075-2091 | the buffer is filled from the destuffed bytes, the stream unchanged |
| JpegRead.Jpeg.HuffDecode | Extra/stb/stb_image.h:2097-2146 | for every table that can be built: the value whose code begins the stream, its length consumed; for the lost code the value of the index it is misread for, ten bits consumed; failure only if there is no code or the bits are used up |
| JpegRead.Jpeg.ExtendReceive | Extra/stb/stb_image.h:2150-2167 | the next n bits as a signed value; or zero with nothing consumed, only if fewer than n bits are left before the marker |
| JpegRead.Biases | Extra/stb/stb_image.h:2148-2149 | the table of biases |
| JpegDecode.BuildFastAc | Extra/stb/stb_image.h:2050-2073 | the entry of a window is the packed run, value and length of the code that leads it, wherever one can be packed, and zero exactly elsewhere |
| JpegDecode.PackedReads | Extra/stb/stb_image.h:2235-2246 | a non-zero entry gives the run, signed value and number of bits of the plain decoding |
| JpegDecode.AddIntsExact | Extra/stb/stb_image.h:1069-1075 | the test holds exactly if the sum is an int |
| JpegDecode.MulShortsExact | Extra/stb/stb_image.h:1077-1084 | the test holds exactly if the product is a short, for the non-negative factors it is used with |
| JpegDecode.DecodeDc | Extra/stb/stb_image.h:2215-2227 | prediction plus difference, refused exactly where the tests say; where the bits end, refused or with a difference of zero |
| JpegDecode.DecodePacked | Extra/stb/stb_image.h:2237-2245 | one packed symbol, or failure, only if its bits are not all there |
| JpegDecode.DecodePlain | Extra/stb/stb_image.h:2247-2260 | one plain symbol; failure only if no code comes or the bits end; a magnitude that is not all there is zero |
| JpegDecode.DecodeSymbol | Extra/stb/stb_image.h:2234-2260 | either way the same step |
| JpegDecode.DecodeBlock | Extra/stb/stb_image.h:2210-2263 | for every stream: symbol by symbol, each coefficient going to the row and column that the scan of figure A.6 of T.81 gives its place; where the bits before the marker end, refused there or with that value zero and only its symbol consumed |
| JpegDecode.AcEnough | Extra/stb/stb_image.h:2230-2263 | with bits enough the coefficients are the ones section F.2.2 of T.81 reads |
| JpegDecode.BlockEnough | Extra/stb/stb_image.h:2210-2263 | with bits enough the block is the one section F.2.2 of T.81 reads from the stream, times the quantiser |
| JpegBlock.ScanIsZigZag | Extra/stb/stb_image.h:2194-2207 | the scan of figure A.6 of T.81 in closed form: row r and column c with r + c = s < 8 are at place s(s + 1)/2 plus r if s is odd and plus c if it is even, and the lower half is the upper one turned round; both tables agree with it |
| JpegBlock.ZigZagInverse | Extra/stb/stb_image.h:2194-2207 | the two zigzag tables are inverse to each other |
| JpegBlock.AcReads | Extra/stb/stb_image_write.h:1365-1394 | the pieces of the AC coefficients, runs of sixteen and more and a missing end mark included, are read back |
| JpegBlock.BlockReads | Extra/stb/stb_image_write.h:1355-1394 | the pieces of a block are read back as the block, with nothing left over |
| JpegBits.DestuffStuffed | Extra/stb/stb_image_write.h:1260-1262 | stuffing is undone |
| JpegBits.NoMarkers | Extra/stb/stb_image_write.h:1260-1262 | every byte of all ones in the stuffed data has a zero behind it |
| JpegWrite.JpegSink.WriteBits | Extra/stb/stb_image_write.h:1253-1268 | bits are appended, top first; bytes of ones are stuffed |
| JpegWrite.CalcBits | Extra/stb/stb_image_write.h:1318-1326 | category and magnitude bits, T.81 section F.1.2.1 |
| JpegWrite.WriteDc | Extra/stb/stb_image_write.h:1355-1364 | the pieces of the difference |
| JpegWrite.WriteRun | Extra/stb/stb_image_write.h:1374-1391 | the pieces of one run and value |
| JpegWrite.WriteAc | Extra/stb/stb_image_write.h:1365-1394 | the pieces of all AC coefficients |
| JpegWrite.ProcessDU | Extra/stb/stb_image_write.h:1343-1396 | coefficients taken by row and column in the order of figure A.6 of T.81, and the pieces of the block |
| JpegTables.LuminanceDc | Extra/stb/stb_image_write.h:1400-1401 | the code words the writer uses are those of the counts and values it puts in the file |
| JpegTables.LuminanceAc | Extra/stb/stb_image_write.h:1402-1411 | the code words the writer uses are those of the counts and values it puts in the file |
| JpegTables.ChrominanceDc | Extra/stb/stb_image_write.h:1412-1413 | the code words the writer uses are those of the counts and values it puts in the file |
| JpegTables.ChrominanceAc | Extra/stb/stb_image_write.h:1414-1423 | the code words the writer uses are those of the counts and values it puts in the file |
| JpegRoundTrip.WriteScan | Extra/stb/stb_image_write.h:1522-1602 | the file holds the stuffed bits of all blocks, filled up with ones, and the end marker |
| JpegRoundTrip.UnitReads | Extra/stb/stb_image.h:2210-2263 | a block decodes to its coefficients; refused exactly if the first does not fit a short |
| JpegScan.ReadScan | Extra/stb/stb_image.h:2210-2263 | for every input: blocks of several components, each decoded from where the one before ended with its component's prediction, up to the first that is refused; where the bits end, as DecodeBlock says |
| JpegRoundTrip.UnitsRead | Extra/stb/stb_image.h:2210-2263 | a stream of the pieces of units is decoded to them; refused exactly if a first coefficient does not fit |
| JpegRoundTrip.RoundTrip | Extra/stb/stb_image_write.h:1253-1396 | any tables of at most 255 short codes: decoding succeeds if and only if every first coefficient fits, and gives all coefficients times the quantiser |
| JpegRoundTrip.StandardRoundTrip | Extra/stb/stb_image_write.h:1398-1602 | the same with the writer's own tables and three components |
| HdrRle.FindRun | Extra/stb/stb_image_write.h:728-735 | the first place where three equal bytes begin, or the end |
| HdrRle.EncodePlane | Extra/stb/stb_image_write.h:725-756 | dumps of 1 to 128 bytes, none with three equal bytes in a row, and runs of 1 to 127 that stand for exactly the plane; all loops terminate |
| HdrRle.WriteScanline | Extra/stb/stb_image_write.h:672-759 | header and the packets of four planes for widths from 8 to 32767, flat pixels otherwise |
| HdrRle.FillScratch | Extra/stb/stb_image_write.h:701-718 | the bytes of the pixels sorted into planes |
| HdrRle.PacketsRead | Extra/stb/stb_image.h:7260-7277 | any packets are read back as the plane they stand for, none running over its end |
| HdrRle.ReadPlane | Extra/stb/stb_image.h:7260-7277 | every fourth byte of the buffer from the packets, refused exactly where a packet is empty or too long; the other planes stay |
| HdrRle.ReadPlanes | Extra/stb/stb_image.h:7259-7278 | four planes, interleaved |
| HdrRle.ReadFlat | Extra/stb/stb_image.h:7218-7225 | flat pixels in order, every one whose four bytes are all there |
| HdrRle.LoadData | Extra/stb/stb_image.h:7216-7284 | rows in compressed form; a row that does not begin with the header makes the reader start over, taking it for flat pixels, the first of which is always shown |
| HdrRle.LoadHdr | Extra/stb/stb_image.h:7197-7284 | refused as too large exactly if a dimension is above the limit or negative or the result has no int size; otherwise as LoadData |
| HdrRle.RowRead | Extra/stb/stb_image_write.h:719-757 | a written scanline is read back |
| HdrRle.RowsRead | Extra/stb/stb_image_write.h:719-757 | all of them are |
| HdrFile.FileRead | Extra/stb/stb_image.h:7226-7284 | scanlines told byte by byte, with any packets of the red, green, blue and exponent bytes in turn, are read as the pixels they spell |
| HdrRle.RoundTrip | Extra/stb/stb_image_write.h:761-786 | an image without pixels is not written; any other is too large for the reader exactly if its sizes are, and otherwise read back as it was written |
| TgaRle.WritePixel | Extra/stb/stb_image_write.h:418-449 | stored order: blue, green, red, alpha |
| TgaRle.FindPacket | Extra/stb/stb_image_write.h:563-591 | a run of all equal pixels up to 128, or different pixels up to the one before the first that equals the one two places back |
| TgaRle.WriteRow | Extra/stb/stb_image_write.h:559-605 | packets of 1 to 128 pixels that stand for the row, cut where the rule says |
| TgaRle.WriteTga | Extra/stb/stb_image_write.h:532-608 | header and all rows, bottom up or flipped |
| TgaRle.PacketsRead | Extra/stb/stb_image.h:5969-6025 | packets are read back as the pixels they stand for |
| TgaRle.Unpack | Extra/stb/stb_image.h:5969-6025 | the pixel-by-pixel loop with its counters unpacks packet by packet, whatever the input |
| TgaRle.InvertRows | Extra/stb/stb_image.h:6026-6042 | the image upside down |
| TgaRle.SwapRgb | Extra/stb/stb_image.h:6050-6061 | red and blue exchanged |
| Sizes.Mad3Exact | Extra/stb/stb_image.h:1012-1035 | the overflow test holds exactly if no factor is negative and the product is an int |
| Sizes.Mad4Exact | Extra/stb/stb_image.h:1037-1044 | the same for four factors |
| TgaRle.LoadTga | Extra/stb/stb_image.h:5871-6074 | header, packets, turning over and colours, for every input |
| TgaRle.HeaderRead | Extra/stb/stb_image_write.h:548 | the header is read back, sizes modulo 65536 |
| TgaFile.HeaderSays | Extra/stb/stb_image_write.h:548 | the header written says the format, the sizes modulo 65536 and rows from the bottom |
| TgaFile.FileShown | Extra/stb/stb_image.h:5871-6074 | a file told byte by byte, with any identifier, packets and origin: pixel i of row j is that of the file, from its top if bit 5 of the descriptor is set and otherwise from its bottom, red first |
| TgaRle.RoundTrip | Extra/stb/stb_image_write.h:532-608 | 1 to 4 channels, 16 bit sizes: the image is read back, or too large, or upside down if flipped |

## Left out

Everywhere:

- Files, streams and callbacks: input is a sequence of bytes in memory, output a sequence of bytes.
- Failure of memory allocation; the growth of the writer's own dynamic arrays, which are sequences here.
- int overflow in the writers' size computations near 2 GiB; the compressor is stated for data of at most 0x7FFFFFFF bytes.

DEFLATE:

- Streams without the zlib header, and the variant for such streams that some PNG files use.
- The checksum is written but the reader never looks at it.
- InflateTheorems.ZlibDecode: the loop that does not end is modelled as a result, NoEnd; whether a stream is accepted whose blocks end beyond its input and beyond 48 bits depends on how the bit buffer came to be filled, and is not stated.

PNG:

- Chunks, checksums, palettes and transparent colours; sample depths other than 8.
- PngWrite.ChooseFilter: estimates are unbounded numbers; in the source a line of more than 16 million bytes could overflow the estimate.
- PngRead.ShowLine: only lines of eight-bit samples, which need no unpacking or swapping of bytes.
- Adam7.CreatePngImage: likewise.
- PngRead.CreatePngImageRaw: only eight-bit samples; failure of the size tests and of allocation by overflow are one result, TooLarge.

GIF:

- Headers, colour tables, disposal of frames and animation; the frame's place in the canvas is a parameter, with the check the source makes.
- GifCompress.RoundTrip: code sizes of two to eight, as the format has them; the reader takes any up to twelve, for which GifLzw.NewEntry and GifRaster.Gif.ProcessRaster hold too.
- GifRaster.Gif.OutGifCode: the depth of its recursion is not limited as a machine stack is.

JPEG:

- The cosine transform, quantisation and colour conversion, which use floating point: the writer starts at, and the reader ends at, quantised coefficients and their products with the quantiser.
- Markers, frame and scan headers, restart intervals, subsampling and progressive images: which component each block belongs to is a parameter.
- JpegDecode.DecodeBlock: asks for tables of at most 255 short codes; for tables of 256 JpegRead.Jpeg.HuffDecode says what each symbol gives.  Which of the two happens where the bits before the marker end, a refusal or a value of zero, depends on how the word came to be filled, as does reading on with zeros; all are admitted there.
- JpegScan.ReadScan: the same, for each block.
- JpegRoundTrip.RoundTrip: coefficients are in the baseline range, differences below 2048 and others below 1024 in size, as 8-bit images give.
- JpegWrite.JpegSink.WriteBits: the signed buffer is taken to wrap around at 32 bits when shifted.
- JpegDecode.MulShortsExact: only for a second factor that is not negative, as in all calls.

HDR and TGA:

- Conversion between floating point and shared exponent pixels; the text header of HDR files.
- HdrRle.LoadHdr: width and height come from the text header, and are parameters here.
- HdrRle.ReadFlat: pixels whose four bytes are not all there are shown as whatever was in memory.
- TgaRle.LoadTga: images with palettes, of 15 or 16 bits, and not run-length coded are one outcome, OtherKind; buffers hold pixels, not single bytes, so rows are exchanged pixel by pixel.
- TgaRle.RoundTrip: sizes of 65536 and more do not fit the header; TgaRle.HeaderRead says what is read instead.

doctest:

- SubcaseFilters.RunTestCase: follows a given number of runs, since the loop need not end; a test function meets the same subcases in every run that gets there (none depend on data), throws no exceptions and is not aborted; finished subcases are recorded by their paths, not by hashes of them, which could collide.
- Subcases.Subcase.constructor: the two lists of name filters are one predicate on names (Wildcmp.MatchesAny says what a list accepts); a negative number of levels stands for all, as its conversion makes it.
- Wildcmp.WildCmp: lower case is that of ASCII letters.
- MultiLane.LoadBetween: counters are unbounded numbers; every access is sequentially consistent, as by default.
- The command line, reporters, output and timing.

Of the repository, the engine itself, which only calls these libraries, and the remaining image formats, whose
code branches much but has few properties beyond its text.
