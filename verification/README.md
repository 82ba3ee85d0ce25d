# A verified model of lbzip2-rs

This project models the bzip2 decompressor of the repository in Dafny and proves what it is for: that a
block, and a whole file, decodes to the text that was compressed, that scanning, splitting and carrying do
not change the meaning of a stream, and what the threads of `lbunzip2` write in every interleaving.  There
are three layers.

1. **The block decoder.**  A 64-bit buffered bit reader refines a cursor over a bit sequence.  Canonical
   Huffman codes are decoded by a 10-bit table and a tree that are both proved against one plain walk over
   a prefix-free book of words.  Move-to-front, bijective base-2 runs, the in-place inverse Burrows-Wheeler
   transform and the run-length expansion are each proved to invert a reference transform, and the block
   decoder inverts a reference compressor for every text and every choice the format leaves open.  What
   decoder and compressor share is fixed apart from both: `BlockFormat` says bit by bit which headers are
   accepted and which bits stand for which symbols, the codes are those of section 3.2.2 of RFC 1951, and the
   move-to-front lists are in the order of last use.
2. **Scanning, splitting and carrying.**  Decoding a block depends only on its own bits.  From that and
   from the overlap of the 48-bit magic with itself (only at distance 45) follow the equality of serial and
   parallel scans, of sequential and parallel decompression, of whole and segmented decoding, of decoding a
   file in one go and chunk by chunk with a carry, and of streamed and whole output.
3. **The `lbunzip2` pipeline.**  Reader, main thread, workers, collector and writer are a labelled
   transition system over all interleavings, with workers and a main thread that can panic.  Written bytes are
   always a prefix of the right output, slots are conserved and never reused early, and every run is bounded.
   If no segment panics and every carry fits its headroom, the system never deadlocks and shuts down with the
   whole output; `Lbunzip2` joins this to layer 2.

Code that works step by step is modelled by methods with loops and by classes (`BitReader`, `MtfDecoder`,
`HuffmanTree`, the reorder `Buffer`, the readers); their contracts tie them to functions on values
(`...Spec`, `...Theory`), about which the lemmas are proved.  Numbers that could wrap in the program have
their range proved (`U32` table entries, the run counters, the tree nodes).

Every main theorem is stated for all inputs that the code promises it for.  Where the promise fails, the
model keeps the code's behaviour and the failure is described exactly:

- `lbunzip2` keeps everything behind the last split point of a chunk for the next one, and asserts that it fits
  a headroom of 32 MiB (`src/bin/lbunzip2.rs:313`); `src/bin/design.md:31` calls this carry tiny.  It is about one
  n-th of the chunk for n workers (`CarryTheory.CarryLength`).  `ChunkedTheory.AllFitIff` says exactly when the assertion
  holds for a whole file, from the boundaries kept at the ends of the chunks, and every theorem about chunks
  and the pipeline has that condition.  A headroom of one (n-1)-th of the chunk size is always enough
  (`CarryTheory.EnoughHeadroom`).  As shipped, on files with block starts at most 1 MiB apart
  (`OrdinaryFiles.ShippedHeadroom`, `Lbunzip2.ShippedPipeline`): with 2 to 6 workers every file that fills a chunk of
  200 MiB aborts the program in front of the second chunk, with 7 workers every file that fills 225 chunks does
  in front of some chunk, with 8 to 199 no file does.
- `rle2_decode_alloc` (`src/block.rs:247-299`) reserves room in front of a repetition and writes literals unchecked.
  `RleTheory.InsideIff` shows that with the capacity the library guarantees all its writes stay inside the vector if
  and only if the expansion, a last repetition aside, takes at most a quarter more than the run-length string; so
  they do whenever the whole text takes no more.  For a run of 255 bytes and 100 bytes without runs they do not,
  even if the capacity is doubled (`RleTheory.RunAndMoreOverruns`), and a valid file holds that text
  (`StreamRoundTrip.OverrunningFile`).  What then happens is undefined; the model ends there with the outcome
  `WriteBehindVector`.  `decode_block`, `decompress`, `decompress_parallel` and both readers use this form, so what is
  proved of their results holds where that outcome does not come; `decode_block_into` does not use it.
- `src/block.rs:371` says that the block size and a quarter of it is a safe buffer.  It is not:
  `BlockRoundTrip.BlockHeadroom` shows that such a buffer holds the text of every decodable block if and only
  if the block size is below 5, and `StreamRoundTrip.OverflowingFile` gives, for each of the nine levels, a file
  that `decompress` accepts and that overflows it.  `decode_block_into` then panics, and `lbunzip2` loses a worker.
  `PipelineHang.HangsIff` and `Lbunzip2.OverflowHangs` say exactly when the program then hangs, in every interleaving:
  with fewer such segments than workers, when six split chunks from the first of them on come before the last
  chunk.  Otherwise the main thread panics when it joins a lost worker.
- `src/parallel.rs:35-38` says that the parallel scan finds the identical boundary set.
  `ScanTheory.ScansAgreeIff` proves for every buffer when that holds for all numbers of threads: when no two magics
  overlap, a second one that ends the buffer aside, and a magic in the seventh byte from the end, if there is
  one, is seen by the serial scan and by some thread of any number.  `ScanTheory.TailAgreesIff` gives the exact condition
  for each number of threads if no magics overlap, and `ScanTheory.ScansCanDiffer` a buffer of 19 bytes on which two
  threads find more than one.  What stays open is a given number of threads on a buffer with overlapping magics.
- `decompress` stops at the end of the first stream of a file of several, and `lbunzip2` does not
  (`MultiStream.OnlyTheFirst`, `MultiStream.StreamsInverse`).
- The main loop drops the data of a chunk it cannot split (`src/bin/lbunzip2.rs:325-332`):
  `ChunkedTheory.UnsplitIsLost` says when, and that the output is that of the file without it.  With one worker no
  chunk but the last is ever split, and `ChunkedTheory.OneWorkerDropsData` shows that only what lies behind the last full
  chunk reaches the output.
- `StreamingBz2Read::read` reports the end of the file too early exactly when everything decoded is served and a
  fill before the end of the source finds fewer than two magics (`ReaderTheory.ReadKeeps`).  `ReaderTheory.StarvesIff` says from
  the positions of the blocks when that is, and `ReaderTheory.FalseEnd` when the first read does so.  No data is lost: later reads go on.
- The comment at `src/huffman.rs:14` puts the symbol in bits 15 to 7; the code, and the model, use 15 to 5.
  `src/bin/design.md:63` and `:96` speak of four slots; the code, and the model, have six.

`dafny verify dfyconfig.toml` checks the whole project.

## Model

| member | source | states |
|---|---|---|
| BitReaders.BitReader.FromBitOffset | src/bitreader.rs:33-45 | a reader at any offset up to the end of the data stands at that offset |
| BitReaders.BitReader.Refill | src/bitreader.rs:61-79 | the cursor stays; afterwards the register holds at least 57 bits or all that are left, although the fast path over-fills it |
| BitReaders.BitReader.ReadBit | src/bitreader.rs:83-98 | the bit at the cursor and one step on, or `None` exactly at the end |
| BitReaders.BitReader.ReadBits | src/bitreader.rs:166-181 | the next n bits as a number; `None`, with the cursor unmoved, exactly when fewer are left |
| BitReaders.BitReader.Peek | src/bitreader.rs:145-154 | the next n bits as a number without moving; `None` exactly when fewer are left |
| BitReaders.BitReader.Consume | src/bitreader.rs:158-163 | moves the cursor over bits that are already in the register |
| BitReaders.BitReader.Skip | src/bitreader.rs:129-141 | moves the cursor by n bits or to the end |
| BitReaders.BitReader.Position | src/bitreader.rs:48-50 | the cursor |
| BitReaders.BitReader.Remaining | src/bitreader.rs:54-56 | the number of bits from the cursor to the end |
| BitReaders.OrMatches | src/bitreader.rs:67-70 | ORing bits in again is harmless when each surplus bit is 0 or the right upcoming bit |
| Bits.BitOfByte | src/bitreader.rs:83-98 | bytes are read most significant bit first |
| BwtTheory.BwtExists | src/bwt.rs:1-14 | every nonempty string has a sorted rotation matrix with a row equal to it, so the theorem below is about every string |
| BwtTheory.TVectorRotates | src/bwt.rs:26-33 | the T vector maps the row of a rotation to the row of the next rotation, ties between equal rotations included |
| BwtTheory.ChaseInvertsBwt | src/bwt.rs:15-42 | following T from T of the row pointer visits exactly the original string, also when it is periodic |
| BwtTheory.TVectorInjective | src/bwt.rs:26-33 | the T vector is a permutation: no entry is written twice |
| Bwt.CumulativeCounts | src/bwt.rs:16-24 | counts become the number of smaller bytes in the column |
| Bwt.InverseBwt | src/bwt.rs:15-34 | in place: each entry keeps its byte and gets its T index above it; the result is T of the row pointer |
| Bwt.NextByte | src/bwt.rs:37-42 | the byte of the next entry, and the step along T, staying in range |
| Bwt.DecodeText | src/bwt.rs:15-42 | n steps from the returned position yield the string whose transform the column is |
| RleTheory.DecodeEncode | src/block.rs:247-353 | expanding the four-plus-count encoding of any text gives the text back |
| RleTheory.LengthBound | src/block.rs:247-353 | n bytes expand to at most 259 * (n / 5) + n % 5 bytes, and some n bytes do expand to that |
| RleTheory.QuarterHeadroom | src/chunk.rs:89-90 | on byte strings: a buffer of m and a quarter holds the expansion of all strings of at most m bytes if and only if m is below 5 |
| Rle.Rle2DecodeAlloc | src/block.rs:247-299 | the fused chase and expansion yields the expansion of the chased text if and only if every write lies inside the vector, for the guaranteed capacity and for one that doubles |
| RleTheory.InsideIff | src/block.rs:247-299 | with the guaranteed capacity that is so exactly when every literal falls into the first n + n / 4 bytes of the output, which is exactly when the expansion of everything but a last count fits there |
| RleTheory.InsideIfFits | src/block.rs:247-250 | in particular when the whole expansion fits there |
| RleTheory.RunAndMoreOverruns | src/block.rs:273-294 | for the run-length form of 255 equal bytes and 100 bytes without runs it is not so, with the capacity doubled neither |
| RleTheory.MoreRoom | src/block.rs:273-276 | writes that stay inside the guaranteed capacity stay inside any larger one |
| RleTheory.OverlongInside | src/block.rs:247-299 | for every size from 5 on a string stays inside and yet expands to more than the size and a quarter, by its last count |
| Rle.Rle2DecodeInto | src/block.rs:304-357 | agrees with the allocating form exactly when the buffer holds the output, else hits the overflow assertion; bytes behind the output stay |
| Mtf.MtfDecoder.Decode | src/mtf.rs:27-43 | the symbol at the index moves to the front, those before it move up by one, and every other entry stays where it is |
| Mtf.ToFrontByRecency | src/mtf.rs:27-43 | a list in the order of the last uses of its elements stays so when an index is decoded |
| Mtf.RecencyIsUnique | src/mtf.rs:27-43 | there is only one such list: an element's index is the number of others used after it |
| Mtf.ToFrontKeepsPrefix | src/mtf.rs:27-43 | moving an index below n to the front keeps the first n symbols a permutation |
| SymbolTheory.StepsEncode | src/block.rs:178-221 | the symbol stage inverts move-to-front and bijective base-2 runs for every byte string within the block size |
| SymbolTheory.StepsRun | src/block.rs:184-195 | the digits of a run of r add r to the pending run, and no counter passes the limit on the way |
| SymbolTheory.StepsKeepFront | src/block.rs:163-221 | the first entries of the list stay a permutation of the bytes in use |
| SymbolTheory.StepsByRecency | src/block.rs:163-221 | over any run of the stage they stay in the order of their last uses in the output, a pending run included |
| SymbolTheory.StepsDigits | src/block.rs:184-195 | run digits add the sum of (digit + 1) times 2^place, and fail exactly when the run passes 900000 |
| SymbolTheory.StepCases | src/block.rs:196-220 | what an index symbol writes and how it moves the list entry by entry, what the end symbol writes, and exactly when either is too much for the block |
| CodeBooks.FindUnique | src/huffman.rs:131-157 | in a prefix-free book the word found for a word is that word |
| CodeBooks.DecodeWord | src/huffman.rs:131-157 | a codeword in the stream decodes to its symbol and exactly its bits are consumed |
| CodeBooks.DecodeNoWord | src/huffman.rs:147-157 | bits that lead away from all words are dropped and decoding begins anew behind them; a stream that ends on the way gives nothing |
| CodeBooks.WalkLocal | src/huffman.rs:147-157 | decoding a symbol depends only on the bits it consumes |
| CanonicalCodes.CanonicalPrefixFree | src/huffman.rs:71-111 | under the Kraft inequality the canonical codes are prefix-free (the rule of section 3.2.2 of RFC 1951) |
| CanonicalCodes.BookFollowsRule | src/huffman.rs:71-111 | read off the lengths, the word of each used symbol is the first code of its length, counted on by the smaller symbols of that length (section 3.2.2 of RFC 1951) |
| CanonicalCodes.EqualLengths | src/huffman.rs:71 | of two symbols with codes of one length the smaller has the smaller code |
| CanonicalCodes.WordInterval | src/huffman.rs:113-124 | a window begins with a symbol's word exactly when its value lies in the symbol's interval |
| CanonicalCodes.CompleteIff | src/huffman.rs:147-157 | every window begins with some word, so that the walk never restarts, if and only if the Kraft sum is 1 |
| CanonicalCodes.KraftOfLengths | src/huffman.rs:57-71 | the Kraft inequality on the lengths is the one on the sorted symbols |
| CanonicalCodes.NextWord | src/huffman.rs:81-111 | the next word differs from the previous one first at a bit where it has 1 and the previous one 0, and how many zero bits it gains |
| CanonicalCodes.NextWordIsFresh | src/huffman.rs:91-108 | no earlier word goes the way of the next word beyond the bits shared with its predecessor |
| Huffman.UnpackPack | src/huffman.rs:16-28 | symbol and length come back from a packed entry, which fits 16 bits |
| Tries.WalkStep | src/huffman.rs:147-157 | the child along a bit tells a finished word, a longer word and no word apart |
| Tries.DescendCases | src/huffman.rs:91-108 | on the way down the code loop never meets a leaf, and meets a missing child exactly where no word goes |
| Huffman.HuffmanTree.DecodeSlow | src/huffman.rs:147-157 | the tree walk decodes exactly one symbol of the plain walk, from every state, or ends at the end of the stream |
| Huffman.HuffmanTree.Decode | src/huffman.rs:131-143 | table and tree together do the same, with the same final position, also near the end of the input |
| Huffman.InsertCode | src/huffman.rs:91-108 | inserting a word keeps the tree right and adds exactly the nodes that its fresh bits need |
| Huffman.BuildTree | src/huffman.rs:73-111 | all codes inserted; the error branch for a tree too large and overwritten leaves do not occur |
| Huffman.BuildTable | src/huffman.rs:114-124 | every table entry is sound, every word of at most 10 bits is covered, and no index leaves the table |
| Huffman.NodeBound | src/huffman.rs:97-103 | at most 20 nodes more than symbols, hence below 512 |
| Huffman.FromLengths | src/huffman.rs:57-127 | under the Kraft inequality a valid tree for the book whose codes follow the rule of RFC 1951, or the error exactly when no length is positive |
| BlockLocal.ColumnLocal | src/block.rs:59-243 | parsing a block depends only on the bits it consumes, errors included when the rest of the stream agrees |
| BlockLocal.SelectorsInRange | src/block.rs:224-231 | selectors stay below the number of tables, so the out-of-range error does not occur |
| BlockRoundTrip.BlockIsLocal | src/block.rs:59-243 | success on the consumed bits gives the same text and end position before any continuation and behind any history |
| BlockRoundTrip.BlockIsHistoryFree | src/parallel.rs:42-56 | the outcome of a block, error or text, depends only on the bits from its start on |
| BlockEncode.ReadSymbolsEncoded | src/block.rs:178-233 | decoding a coded symbol sequence with its selectors drives the symbol stage with that sequence and consumes exactly its bits |
| BlockEncode.ReadAlphabetEncoded | src/block.rs:76-101 | the two-level bitmap of the bytes in use comes back |
| BlockEncode.ReadSelectorsEncoded | src/block.rs:116-127 | the unary move-to-front selectors come back |
| BlockEncode.ReadTablesEncoded | src/block.rs:129-157 | the delta-coded length tables come back |
| BlockRoundTrip.ColumnRoundTrip | src/block.rs:59-243 | the parser inverts the reference compressor for every valid plan: column, row, selectors and tables |
| BlockRoundTrip.BlockInverse | src/block.rs:59-366 | for every nonempty text whose run-length form fits, and every valid choice of tables and selectors, decoding the compressed block gives the text and ends right behind the block; the allocating form does so exactly when the text, a last repetition aside, takes at most a quarter more than its run-length form, and otherwise writes behind its vector |
| BlockRoundTrip.PlanExists | src/block.rs:59-366 | such a choice exists for every text that fits |
| BlockRoundTrip.CodedInverse | src/block.rs:59-366 | the same for every run-length string, made by a compressor or not: the block decodes to its expansion, in the allocating form exactly when all writes stay inside the vector |
| BlockRoundTrip.AllocIsRead | src/block.rs:361-379 | the two forms of decoding a block agree, errors included, wherever the allocating one does not write behind its vector |
| BlockRoundTrip.OverrunningBlock | src/block.rs:247-299 | a block for which it does, that a compressor makes of an ordinary text |
| BlockRoundTrip.OverflowingBlock | src/block.rs:371 | for every block size from 5 on there is a block that decodes to more than the block size and a quarter |
| BlockRoundTrip.BlockHeadroom | src/chunk.rs:89-90 | a buffer of the block size and a quarter holds the text of every block that decodes if and only if the block size is below 5 |
| StreamRoundTrip.StreamInverse | src/stream.rs:33-46 | the walk over a compressed stream, whatever follows it, finds exactly its blocks and the end marker right behind them if all writes stay inside the vectors, and otherwise ends with a write behind one |
| StreamRoundTrip.FileInverse | src/stream.rs:14-49 | a compressed file has the header of its level, decodes to the expansions of what its blocks hold, and has nothing behind its end, under the same exact condition |
| StreamRoundTrip.CompressedFile | src/stream.rs:14-49 | every list of nonempty texts whose run-length forms fit has a file from which `decompress` gets exactly these texts if and only if each, a last repetition aside, takes at most a quarter more than its run-length form |
| StreamRoundTrip.OverrunningFile | src/stream.rs:14-49 | for each of the nine levels a valid file of one ordinary text for which `decompress` writes behind its vector |
| StreamRoundTrip.OverflowingFile | src/chunk.rs:89-90 | for each of the nine levels some file that `decompress` accepts, without writing behind a vector, has a text that overflows the block buffer |
| BlockHeader.DecodeStart | src/block.rs:64-74 | checksum, randomised flag and row pointer, with the errors in order |
| BlockHeader.DecodeAlphabet | src/block.rs:76-101 | the bytes in use |
| BlockHeader.DecodeSelectors | src/block.rs:116-127 | the selectors |
| BlockHeader.DecodeTable | src/block.rs:133-152 | one table of code lengths within 1 to 20 |
| BlockHeader.DecodeTrees | src/block.rs:129-157 | a valid decoding tree for each table |
| Block.ApplySymbol | src/block.rs:183-220 | one turn of the symbol loop is one step of the symbol stage, and the histogram is kept |
| Block.DecodeSymbols | src/block.rs:178-233 | the nested loops compute the symbol stage over the symbols decoded in groups of 50, with the exact histogram, without overflow of the run counters |
| BlockFormat.StartIff | src/block.rs:64-74 | accepted exactly: 32 bits that do not matter, a clear flag, and 24 bits of row index; a set flag is the error for randomised blocks |
| BlockFormat.AlphabetIff | src/block.rs:76-101 | the bytes in use come out ascending and are exactly those whose range bit and own bit are set, only set ranges having a map |
| BlockFormat.AlphabetErrors | src/block.rs:76-101 | when the bitmap is cut short or holds no byte |
| BlockFormat.UnaryErrors | src/block.rs:116-127 | as many ones as there are tables are too many for a selector |
| BlockFormat.SelectorsRead | src/block.rs:116-127 | a selector is read from its rank in unary, the number of tables used after the one it names |
| BlockFormat.SelectorsLaidOut | src/block.rs:116-127 | and from nothing else |
| BlockFormat.LengthIff | src/block.rs:133-152 | a length is accepted exactly after pairs of bits that move it up (10) or down (11) within 1 to 20, and a zero |
| BlockFormat.LengthLeaves | src/block.rs:133-152 | a length that leaves 1 to 20 is an error even if it would come back |
| BlockFormat.CodingLimits | src/block.rs:103-114 | a number of tables outside 2 to 6, and more than 18002 selectors, are errors |
| BlockFormat.HeaderIff | src/block.rs:59-157 | the parser accepts exactly the headers laid out in this way, field by field |
| BlockFormat.EncodeIsCoded | src/block.rs:178-233 | the reference compressor's symbols are, in order, the words of symbol k in the table that selector k / 50 names |
| BlockFormat.BodyIsCoded | src/block.rs:178-233 | so are those of a whole compressed block |
| BlockFormat.CodedBody | src/block.rs:178-237 | bits that are those words decode to what the symbol stage makes of the symbols, and exactly they are consumed; the row index must be below the length of the result |
| BlockFormat.OutOfSelectorsAfter | src/block.rs:223-231 | a block that goes on behind 50 symbols for each selector is rejected |
| BlockFormat.ListByRecency | src/block.rs:163-221 | from its beginning the list of a block is in the order of the last uses in the output |
| Block.DecodeBlockCommon | src/block.rs:59-243 | the parsed column with its chase table, or the parser's error |
| Block.DecodeBlock | src/block.rs:361-366 | the text of the block or the parser's error, unless a write goes behind the guaranteed capacity of the vector |
| Block.DecodeBlockInto | src/block.rs:374-379 | the same into a buffer exactly when the text fits it |
| Magic.OverlapOnlyAt45 | src/block_scan.rs:72-123 | two magics closer than 48 bits are exactly 45 apart |
| Magic.MagicByValue | src/block_scan.rs:10-20 | comparing the 48-bit value with the constant is comparing the bits |
| Magic.FinalBytes | src/lib.rs:31 | the end marker is the bytes 17 72 45 38 50 90 |
| ScanTheory.ScanIsLeast | src/block_scan.rs:37-69 | a find is a magic with none skipped before it; no find means that no magic ends nine bits before the end |
| Scan.FindNextBlock | src/block_scan.rs:37-69 | the least magic from the start bit that some 8-byte window of the scan covers |
| Scan.FindAllBlocks | src/block_scan.rs:72-80 | the finds of the scan repeated behind each find |
| Scan.FindAllBlocksParallel | src/block_scan.rs:86-123 | the sorted distinct finds of the overlapping parts, for every number of threads |
| ScanTheory.SerialScanIsComplete | src/block_scan.rs:72-80 | every magic that ends nine bits before the end, once, in order, when no magic overlaps one of them and none starts in the seventh byte from the end |
| ScanTheory.ParallelScanIsSerial | src/block_scan.rs:86-123 | then the parallel scan finds the same, for every number of threads |
| ScanTheory.ThreadPerByteIsComplete | src/block_scan.rs:86-123 | with a thread for every byte every magic but one that ends the buffer is found, overlapping ones included |
| ScanTheory.ScansAgreeIff | src/parallel.rs:35-38 | for every buffer: the scans agree for all numbers of threads if and only if it is shorter than 16 bytes, or no two magics overlap (the end of the buffer aside) and a magic in the seventh byte from the end is seen by the serial scan and, for every number of threads, by some thread |
| ScanTheory.TailAgreesIff | src/parallel.rs:35-38 | with a magic in that byte and none overlapping, they agree for a given number of threads if and only if the serial scan's last search starts an odd number of bytes before it exactly when some thread's does |
| ScanTheory.PartBits | src/block_scan.rs:86-112 | the part of thread i of n begins at byte i * (len / n) and goes on for 64 bits into the next part |
| ScanTheory.AgreementIsComplete | src/parallel.rs:35-38 | in any buffer from 16 bytes on, scans that agree for all numbers of threads find every magic but one that ends the buffer |
| ScanTheory.ScansCanDiffer | src/parallel.rs:35-38 | a buffer of 19 bytes with a magic that two threads find and one does not |
| Scan.QuickVerifyBlock | src/block_scan.rs:157-191 | true exactly when the 73 bits behind the magic pass the structural check |
| Scan.QuickRejects | src/block_scan.rs:157-191 | what the check rejects: a block cut short, a set randomised flag, a row index not below the block size, an empty bitmap, and nothing else |
| Scan.FindQuickBoundary | src/block_scan.rs:197-216 | the least verified magic, the blind tail notwithstanding |
| Scan.SplitBoundariesParallel | src/block_scan.rs:222-244 | in increasing order exactly the boundaries x such that, for some i from 1 to n - 1, x is the first magic from bit 8 * len * i / n on that passes the check |
| Scan.SplitPointIff | src/block_scan.rs:222-244 | each of the n - 1 searches contributes what it finds, and nothing else is among the split points |
| ChunkedTheory.QuickAcceptsBlocks | src/block_scan.rs:157-191 | the structural check rejects no block that decodes |
| ChunkedTheory.QuickFindsNext | src/block_scan.rs:197-216 | when every magic starts a block that decodes, the search for a verified boundary finds the next magic |
| ParMap.EveryInterleaving | src/par.rs:41-63 | whatever the interleaving of the workers, at the end slot i holds the function's value at i, for every i, and before the end some worker can move |
| ParMap.RunsAreBounded | src/par.rs:47-58 | every complete interleaving has the same length: twice the number of items and one step for each thread |
| StreamTheory.WalkStarts | src/stream.rs:33-46 | the blocks a walk visits start at magics at least 105 bits apart |
| StreamTheory.HeaderIff | src/stream.rs:15-29 | a header is accepted exactly when it is BZh and a digit from 1 to 9, which gives the block size, with the errors in order |
| StreamTheory.SequentialFails | src/stream.rs:33-46 | what ends `decompress` with which error |
| StreamTheory.ScanFindsVisited | src/parallel.rs:34-42 | when a successful walk accounts for every magic, every scan finds exactly the blocks it visits |
| StreamTheory.ParallelIsSequential | src/parallel.rs:42-72 | when the scan finds exactly the blocks that `decompress` visits, decoding them separately gives the sequential result |
| ParallelTheory.EveryRunDecodesAll | src/parallel.rs:49-70 | for every ended interleaving of the `par_map` workers the slots in order are what decoding the blocks one after the other gives, the first error included |
| ParallelTheory.EveryRunIsSequential | src/parallel.rs:42-72 | so whenever `decompress` succeeds and the scan finds exactly the blocks it visits, every interleaving ends with its texts in order |
| Stream.Decompress | src/stream.rs:14-49 | the joined texts of the sequential walk, or its error |
| Stream.DecompressParallel | src/parallel.rs:17-73 | the joined texts of the found blocks, or the first error in block order |
| ChunkTheory.SegmentIsWalk | src/chunk.rs:82-132 | a segment that starts at a magic is the walk over markers from there |
| ChunkTheory.WalkSplit | src/chunk.rs:99-129 | cutting the walk at a position it visits cuts its output |
| ChunkTheory.SegmentsJoin | src/chunk.rs:35-132 | joining the segments between visited starts gives the segment from the first start to the end, across stream ends, padding and headers |
| ChunkTheory.MoveLocal | src/chunk.rs:99-129 | one turn of the loop depends only on the bits it passes, moved by whole bytes |
| ChunkTheory.WalkLocal | src/chunk.rs:99-129 | so does the walk up to a visited position |
| ChunkTheory.WalkSuffix | src/chunk.rs:99-129 | and the walk to the end, whatever it comes to |
| Chunk.SplitChunk | src/chunk.rs:35-71 | the first magic and the distinct split points, how many to decode and how many bytes are used up; or nothing |
| Chunk.NextStream | src/chunk.rs:112-125 | behind an end marker: checksum, padding to a byte, and whether another stream's header follows |
| ChunkTheory.BlockCapIs | src/chunk.rs:89-96 | a text of at most the block size and a quarter is accepted, and one byte more panics |
| ChunkTheory.WalkStops | src/chunk.rs:99-129 | a block that fails, a marker that is none, and the end of the data end a segment without an error |
| MultiStream.AfterFinalIff | src/chunk.rs:112-125 | behind end marker, checksum and padding the segment goes on if and only if the next four bytes begin with BZh |
| MultiStream.TwoMembers | src/chunk.rs:82-132 | two compressed files one behind the other are a file of two streams |
| MultiStream.StreamsInverse | src/chunk.rs:82-132 | a file of any number of streams, whatever stands behind the last unless it begins like a header, decodes as one segment to the texts of all streams joined |
| MultiStream.OnlyTheFirst | src/stream.rs:33-46 | `decompress` returns the text of the first stream of such a file only |
| Chunk.DecodeBlockIntoVec | src/chunk.rs:136-157 | the output grows by exactly the block's text, stays on an error, or the buffer overflows |
| Chunk.DecodeSegment | src/chunk.rs:82-132 | the output of the walk from the segment's start to its end, an overflow included |
| Chunk.DecodeSegments | src/chunk.rs:171-181 | the segments of a split chunk, each up to the next start or the end of the data |
| Chunk.DecodeChunk | src/bin/lbunzip2.rs:310-385 | one turn of the main loop: a panic exactly when the carry is longer than the headroom, else the outcomes of the chunk's segments and the carry, or nothing and the old carry |
| Chunk.DecodeChunks | src/bin/lbunzip2.rs:294-401 | reading, carrying, splitting and decoding computes the outcomes of all chunks of the file, up to a carry that does not fit |
| ChunkedTheory.StartsAreMagics | src/chunk.rs:45-53 | segment starts are strictly increasing magics; all but the first have passed the structural check |
| ChunkedTheory.SplitExists | src/chunk.rs:41-62 | a chunk can be split exactly when a magic is found and it is the last chunk, or for some part but the first the next checked magic from its beginning on is other than the first magic |
| ChunkedTheory.StartsIff | src/chunk.rs:41-53 | the segments of a split chunk begin exactly at the first magic and at what each of the searches finds |
| ChunkedTheory.UnsplitIsLost | src/bin/lbunzip2.rs:325-332 | for every number of workers a full chunk is not split exactly when it has no magic in reach or every search finds nothing but the first magic, and then the output is that of the file without the chunk's bytes |
| ChunkedTheory.OneWorkerDropsData | src/bin/lbunzip2.rs:325-332 | with one worker the output of a file is that of its last bytes, as many as the file's length leaves over full chunks |
| ChunkedTheory.AllFitIff | src/bin/lbunzip2.rs:310-339 | when every chunk but the last is split, no assertion of the main loop fails if and only if the first carry fits and no boundary kept at the end of a chunk lies farther before that end than the headroom is long |
| ChunkedTheory.KeptAreChosen | src/bin/lbunzip2.rs:337-339 | those boundaries are among the starts that the splits choose |
| CarryTheory.LastStart | src/chunk.rs:41-62 | the last start of a split is the verified boundary behind the last nominal position, and there is a split exactly when that is not the first magic |
| CarryTheory.CarryIsTail | src/bin/lbunzip2.rs:312-339 | so the next assertion holds exactly when that boundary is at most the headroom away from the end of the data |
| CarryTheory.CarryLength | src/block_scan.rs:222-244 | the carry of a chunk is at most one n-th of it, rounded up, and at least that less the distance of the boundary from the nominal position |
| CarryTheory.EnoughHeadroom | src/bin/lbunzip2.rs:22-27 | when the search behind the last nominal position succeeds in every full chunk, every chunk is split; and no assertion fails if chunks are at most n - 1 times as long as the headroom |
| CarryTheory.SecondTurnPanics | src/bin/lbunzip2.rs:313 | when boundaries lie at most d bytes apart and the first chunk is longer than n times headroom plus d, the second chunk makes the main thread panic |
| CarryTheory.CarriesGrow | src/bin/lbunzip2.rs:313 | when all carries fit, the number of full chunks times what a chunk has too much is at most n times the headroom: with too long chunks every long enough file fails |
| OrdinaryFiles.OrdinaryIsDense | src/block_scan.rs:197-216 | in a file that `decompress` accepts with block starts at most d bytes apart, any d bytes hold a verified boundary |
| OrdinaryFiles.Headroom | src/bin/lbunzip2.rs:310-339 | for such files, every chunk size, headroom and number of workers: when all carries fit, when the second chunk fails, and how many chunks a file can have at most otherwise |
| OrdinaryFiles.ShippedHeadroom | src/bin/lbunzip2.rs:22-27 | with the shipped sizes and block starts at most 1 MiB apart: 2 to 6 workers fail at the second chunk, 7 within 225 chunks, 8 to 199 never |
| OrdinaryFiles.OrdinaryFileExists | src/stream.rs:14-49 | there are such files of every length, for every level |
| ChunkedTheory.KeptIsFirst | src/bin/lbunzip2.rs:337-339 | within the first byte of the carry no magic stands before the kept boundary |
| ChunkedTheory.ChunkWalk | src/bin/lbunzip2.rs:341-385 | the segments of a chunk whose starts are true block starts decode to the file's walk from the chunk's first marker to the kept one |
| ChunkedTheory.ChunkedIsWhole | src/bin/lbunzip2.rs:294-401 | if every chunk but the last is split, and every start that was chosen is a block start that the walk visits, decoding chunk by chunk comes to decoding the file in one segment exactly when all carries fit, and to no output otherwise, for every chunk size and number of workers; magics that no split chooses may stand anywhere |
| ChunkedTheory.DecodedBefore | src/bin/lbunzip2.rs:313 | a carry that does not fit ends the loop, and what was decoded before it is a beginning of what decoding the file in one segment comes to |
| ChunkedTheory.WalkIsSequential | src/chunk.rs:99-129 | over a stream that `decompress` accepts, with texts that fit the buffer, a segment yields the same bytes and goes on with the stream behind it |
| ChunkedTheory.ChunkedIsDecompress | src/chunk.rs:186-204 | of a file with one stream, and with chosen starts among the blocks that `decompress` visits, decoding chunk by chunk yields what `decompress` yields if all carries fit, and nothing otherwise |
| PipelineSteps.StepKeeps | src/bin/lbunzip2.rs:164-473 | every step of every thread keeps the invariant of the pipeline |
| PipelineSteps.FlushItems | src/bin/lbunzip2.rs:353-385 | no queued or running item refers to a chunk that is being flushed |
| PipelineSteps.HeadResult | src/bin/lbunzip2.rs:431-439 | a result taken from the channel finds its chunk registered and its place empty |
| PipelineTheory.OrderedOutput | src/bin/lbunzip2.rs:441-473 | in every reachable state the bytes written are a prefix of the segments' outputs in chunk and segment order |
| PipelineTheory.CompleteAtEnd | src/bin/lbunzip2.rs:266-291 | at shutdown, if no segment panics, they are all of them, each exactly once |
| PipelineTheory.ResultFindsSlot | src/bin/lbunzip2.rs:431-439 | in every reachable state the next result has a registered slot with an empty place for it, and is the segment's output |
| PipelineTheory.SlotsConserved | src/bin/lbunzip2.rs:180-205 | until the reader exits, the six slots are in the return channel, at the reader, in the filled channel, at the main thread, in flight or at the collector, each exactly once |
| PipelineTheory.SlotsSafe | src/bin/lbunzip2.rs:89-91 | the slot of every queued or running item is in flight and still holds the data of the item's chunk |
| PipelineTheory.NeverStuck | src/bin/lbunzip2.rs:164-414 | with at least one worker, no segment that panics and carries that fit, some thread can move in every reachable state before shutdown |
| PipelineTheory.ReceiversAlive | src/bin/lbunzip2.rs:369-384 | whoever is about to send finds the receiver alive; only the main thread's send of work can fail, when all workers are lost |
| PipelineTheory.StepCosts | src/bin/lbunzip2.rs:164-473 | every step decreases a natural number |
| PipelineTheory.RunsAreBounded | src/bin/lbunzip2.rs:403-414 | no interleaving is longer than a bound that is linear in chunks, segments and workers |
| PipelineTheory.EveryRunEndsWithTheOutput | src/bin/lbunzip2.rs:164-414 | if no segment panics, once no thread can move, the pipeline has shut down with the whole output written if all carries fit, and the main thread has panicked with only output of the chunks before if one does not |
| PipelineTheory.WritesStopAtCarry | src/bin/lbunzip2.rs:313 | nothing is ever written of the chunk in front of which the carry does not fit, or of any later one |
| PipelineHang.WritesStopAtPanic | src/bin/lbunzip2.rs:441-458 | when a segment panics, nothing of its chunk or any later one is ever written |
| PipelineHang.NeverShutsDown | src/bin/lbunzip2.rs:189-205 | when a segment panics and a chunk comes behind six split chunks from that segment's on, the reader waits for a slot for it for good: no reachable state is a shutdown |
| PipelineHang.HangsIff | src/bin/lbunzip2.rs:189-411 | with fewer panicking segments than workers, every interleaving is bounded and ends in a hang if and only if six split chunks from the first panic's on come before the last chunk the main thread can receive; otherwise it ends with the main thread's panic, at a carry or at a join, and in no case is anything written of the first panicking chunk or behind it |
| PipelineHang.SomeoneLeft | src/bin/lbunzip2.rs:214-257 | a panicking segment takes at most one worker with it |
| Collectors.Buffer.ApplyResult | src/bin/lbunzip2.rs:431-439 | the first entry for the chunk gets the result and counts it; without an entry nothing changes |
| Collectors.Buffer.FlushCompleted | src/bin/lbunzip2.rs:441-473 | what is sent and recycled, and what is left, as the flush function says |
| Collectors.FlushInOrder | src/bin/lbunzip2.rs:441-473 | a flush sends the outputs of exactly the complete chunks at the front, in order, returns their slots, and stops at the first incomplete chunk |
| Collectors.FlushTurn | src/bin/lbunzip2.rs:447-472 | one turn of the pipeline's collector is one turn of the flush loop |
| Lbunzip2.JoinedIsExpected | src/bin/lbunzip2.rs:353-385 | the chunks join to bytes exactly when all carries fit and no segment panics, and then to the output that the pipeline is to write |
| Lbunzip2.PipelineDecodesFile | src/bin/lbunzip2.rs:116-427 | whatever the interleaving, chunk size and number of workers, if every chunk but the last is split, at true block starts, and decoding the file in one go meets no overflow: the pipeline ends with exactly those bytes if all carries fit, and the process aborts with a beginning of them if one does not |
| Lbunzip2.PipelineIsDecompress | src/bin/lbunzip2.rs:116-427 | for a file of one stream, split at blocks that `decompress` visits and with texts that fit the block buffer, these are the bytes that `decompress` returns |
| Lbunzip2.PipelineDecodesStreams | src/bin/lbunzip2.rs:116-427 | for a file of several streams, split at true block starts, these are the texts of all streams |
| Lbunzip2.ShippedPipeline | src/bin/lbunzip2.rs:22-27 | as shipped, for such files with block starts at most 1 MiB apart: with 2 to 6 workers every interleaving aborts if the file is longer than a chunk, with 8 to 199 every interleaving ends with what `decompress` returns |
| Lbunzip2.OverflowHangs | src/bin/lbunzip2.rs:116-427 | a file with overflowing segments, but fewer than there are workers, hangs the program in every interleaving if and only if six split chunks from the first such segment's on come before the last one or the one whose carry does not fit, and otherwise makes it abort in every interleaving |
| Readers.Source.ReadUpTo | src/reader.rs:94-103 | however the source cuts its reads, the bytes read are the next n or all that are left |
| Readers.StreamingReader.Open | src/reader.rs:46-76 | the header decides; a good one stays in the buffer |
| Readers.StreamingReader.Fill | src/reader.rs:80-166 | the state after a fill, an error and its partial output included |
| Readers.StreamingReader.Read | src/reader.rs:170-192 | the bytes served into the buffer, their number and the new state; bytes behind them stay |
| ReaderTheory.SequentialLaidOut | src/reader.rs:106-107 | a stream that `decompress` accepts and that has no other magics is a file in which every magic starts a block |
| ReaderTheory.ScanOfPart | src/reader.rs:106-107 | the scan of the buffer finds the file's next block starts in order, and all of them at the end |
| ReaderTheory.PartDecodes | src/reader.rs:122-152 | the blocks of the buffer that are followed by another start decode to the file's texts |
| ReaderTheory.DecodedKeeps | src/reader.rs:106-165 | decoding the buffer moves texts from ahead into the output and loses none |
| ReaderTheory.FirstFailure | src/reader.rs:132-152 | decoding blocks fails with the error of the first that fails, and the texts that are kept are those of all blocks before it |
| ReaderTheory.DecodesAllButLast | src/reader.rs:122-165 | a fill before the end of the source decodes exactly the blocks found but the last and keeps the bytes from that one on; at the end it decodes all |
| ReaderTheory.ReadKeeps | src/reader.rs:170-192 | a read serves the next bytes; with a nonempty buffer it serves none exactly when all is served, or all decoded is served and the fill starves |
| ReaderTheory.StreamServesTexts | src/reader.rs:80-192 | for all buffer lengths the bytes served are a prefix of the texts in order, and all of them when a read serves nothing without starving |
| ReaderTheory.StreamServesDecompress | src/reader.rs:80-192 | they are then what `decompress` returns |
| ReaderTheory.StarvesIff | src/reader.rs:122-130 | a fill starves exactly when the source goes on and the second next block is not seen: it ends less than nine bits before the buffer does, and is not in the seventh byte from the end at an odd distance from the search |
| ReaderTheory.FalseEnd | src/reader.rs:183-185 | exactly when the first fill starves so, the first read reports the end although nothing of a nonempty text is served |
| Readers.BatchReader.Open | src/reader.rs:214-240 | the header decides; the boundaries are all that the serial scan finds |
| Readers.BatchReader.FillBatch | src/reader.rs:246-286 | the next blocks, at most 64; a failing block leaves the state as it was |
| Readers.BatchReader.Read | src/reader.rs:290-303 | the bytes served, their number and the new state |
| ReaderTheory.BatchFills | src/reader.rs:246-286 | a fill decodes the next 64 blocks, or all that are left, and loses none |
| ReaderTheory.BatchKeeps | src/reader.rs:246-303 | when all blocks decode, a read serves the next bytes, and none, for a nonempty buffer, exactly at the end |

## Left out

- Block and stream checksums: the code reads and ignores them.
- Randomised blocks: the model rejects them with the code's error.
- Oversubscribed Huffman lengths: `from_lengths` does not reject them and then overwrites leaves; the parser of the model ends with `Oversubscribed`, and the methods require that this does not happen.
- The 64-bit register is a sequence of 64 booleans with shifts and ORs, and 32-bit table entries are bounded numbers.
- Raw pointers, prefetching, `set_len` and the thread-local buffer pool: outputs are sequences that grow, or arrays of the right size.  The capacity of the one vector that is written unchecked is modelled, and what a write behind it does to the program is not.
- The parallel maps inside the scanner, `decompress_parallel` and the readers are loops; `ParMap` shows that every interleaving gives the results in index order.
- In the pipeline each channel operation, and the lock around a worker's receive, is one atomic step; memory ordering and scheduling are not modelled.
- A panic of a worker ends its thread, and a panic of the main thread the process, as in the program: the joins of the workers (src/bin/lbunzip2.rs:409-411) come before those of the collector and the writer, so output that is still on its way is lost.  What the writer holds in its 4 MiB buffer counts as written in the model, although such a panic loses it.
- HangsIff: is about fewer panicking segments than workers; with more of them all workers can be lost, and the main thread panics when it posts work to none.
- EveryRunEndsWithTheOutput: asks for at least one worker; with none (`LBZIP2_THREADS=0`) the first send of work makes the main thread panic, which the transition system has but no theorem states.
- CodedBody: says which symbols the words of a prefix-free code decode to; what an incomplete code makes of other bits is `DecodeNoWord`.
- ScansAgreeIff: speaks of all numbers of threads; for a given one, on a buffer with overlapping magics, the exact condition is open.
- ShippedHeadroom: leaves out 7 workers on files of fewer than 225 chunks, which `AllFitIff` decides from the kept boundaries.
- Chunk sizes (200 MiB in `lbunzip2`, 100 MB in the streaming reader) and the headroom are parameters; the shipped ones are constants of `CarryTheory`.
- Errors of the operating system's reads and writes, interrupted reads, file names, arguments, environment variables, core detection and timing output.
- The unverified serial `split_boundaries`, `block_count` and the benchmarks, which the decoders do not use, and the `ChunkDecoder`, which only the documentation mentions.
- How likely the structural check accepts a stray magic: the starts that a split chooses are assumed to be block starts that the walk visits, and the streaming and batch readers, which check nothing, to meet block magics only where blocks start.
