/** The block decoder (`src/block.rs`): coded symbols, inverse transform and run-length expansion. */
module Block {
  import opened Wrappers
  import opened Errors
  import opened Bits
  import opened BitReaders
  import opened BwtTheory
  import opened Bwt
  import opened Mtf
  import opened CodeBooks
  import opened CanonicalCodes
  import opened Huffman
  import opened Tries
  import opened SymbolTheory
  import opened BlockSpec
  import opened BlockHeader
  import opened BlockRoundTrip
  import Rle
  import RleTheory

  // ---------------------------------------------------------------------------------------------
  // The histogram
  // ---------------------------------------------------------------------------------------------

  lemma {:induction false} CountRepeat(l: seq<Byte>, b: Byte, n: nat, v: int)
    ensures Count(l + RleTheory.Repeat(b, n), v) == Count(l, v) + (if v == b then n else 0)
  {
    var x := l + RleTheory.Repeat(b, n);
    if n == 0 {
      assert x == l;
    } else {
      CountRepeat(l, b, n - 1, v);
      assert x[..|x| - 1] == l + RleTheory.Repeat(b, n - 1);
    }
  }

  lemma HistogramAdd(c: seq<nat>, l: seq<Byte>, b: Byte, n: nat)
    requires IsHistogram(c, l)
    ensures IsHistogram(c[b := c[b] + n], l + RleTheory.Repeat(b, n))
  {
    forall v | 0 <= v < 256
      ensures Count(l + RleTheory.Repeat(b, n), v) == Count(l, v) + (if v == b then n else 0)
    {
      CountRepeat(l, b, n, v);
    }
  }

  lemma HistogramBound(c: seq<nat>, l: seq<Byte>, b: Byte)
    requires IsHistogram(c, l)
    ensures c[b] <= |l|
  {
  }

  // ---------------------------------------------------------------------------------------------
  // The symbol loop
  // ---------------------------------------------------------------------------------------------

  /** The last column with its byte counts. */
  datatype Decoded = Decoded(tt: seq<Byte>, counts: seq<U32>)

  datatype Progress = Continue | EndOfBlock | Rejected(error: BlockError)

  /** What one symbol does to the move-to-front list, the column, the counts and the pending run: the
      body of the symbol loop after the symbol has been decoded. */
  method ApplySymbol(mtf: MtfDecoder, c: array<U32>, tt: seq<Byte>, repeat: nat, power: nat, sym: nat, eobSymbol: nat, max: nat)
      returns (next: Progress, tt': seq<Byte>, repeat': nat, power': nat)
    requires mtf.symbols.Length == 256 && c.Length == 256 && mtf.symbols as object != c as object
    requires max <= MAX_BLOCKSIZE && sym <= eobSymbol <= 257
    requires Stage(mtf.symbols[..], tt, repeat, power).Valid(max) && IsHistogram(c[..], tt)
    modifies mtf.symbols, c
    ensures match Step(Stage(old(mtf.symbols[..]), tt, repeat, power), sym, eobSymbol, max)
      case More(st) => next == Continue && st == Stage(mtf.symbols[..], tt', repeat', power') && IsHistogram(c[..], tt')
      case Done(out) => next == EndOfBlock && tt' == out && IsHistogram(c[..], out)
      case Fail(e) => next == Rejected(e)
  {
    hide Step, Count, ToFront;
    ghost var st := Stage(mtf.symbols[..], tt, repeat, power);
    tt', repeat', power' := tt, repeat, power;
    if sym < 2 {
      StepRun(st, sym, eobSymbol, max);
      if repeat == 0 {
        power' := 1;
      }
      assert repeat + power' * (sym + 1) < 0x1_0000_0000 && 2 * power' < 0x1_0000_0000;
      repeat' := repeat + power' * (sym + 1);
      power' := 2 * power';
      if repeat' > MAX_BLOCKSIZE {
        return Rejected(RepeatTooLarge), tt', repeat', power';
      }
      return Continue, tt', repeat', power';
    }
    StepFlush(st, sym, eobSymbol, max);
    if repeat > 0 {
      var b := mtf.First();
      if |tt| + repeat > max {
        return Rejected(ExceedsBlock), tt', repeat', power';
      }
      AddCount(c, tt, b, repeat);
      tt' := tt + RleTheory.Repeat(b, repeat);
      repeat' := 0;
    }
    if sym == eobSymbol {
      return EndOfBlock, tt', repeat', power';
    }
    var b := mtf.Decode(sym - 1);
    if |tt'| >= max {
      return Rejected(ExceedsBlock), tt', repeat', power';
    }
    AddCount(c, tt', b, 1);
    assert RleTheory.Repeat(b, 1) == [b];
    tt' := tt' + [b];
    next := Continue;
  }

  /** `c[b] += n`. */
  method AddCount(c: array<U32>, ghost l: seq<Byte>, b: Byte, n: nat)
    requires IsHistogram(c[..], l) && |l| + n <= MAX_BLOCKSIZE
    modifies c
    ensures IsHistogram(c[..], l + RleTheory.Repeat(b, n))
  {
    hide Count;
    HistogramAdd(c[..], l, b, n);
    HistogramBound(c[..], l, b);
    ghost var before := c[..];
    c[b] := c[b] + n;
    assert c[..] == before[b := before[b] + n];
  }

  /** Decodes the symbols of a block with the trees the selectors name, fifty symbols each, and runs
      the symbol stage on them.  The counts are the histogram of what has been written. */
  method DecodeSymbols(reader: BitReader, trees: seq<HuffmanTree>, selectors: seq<Byte>, used: seq<Byte>, max: nat,
                       ghost books: seq<Book>)
      returns (r: Result<Decoded, BlockError>)
    requires reader.Valid() && max <= MAX_BLOCKSIZE && 0 < |used| <= 256
    requires |books| == |trees| && forall i :: 0 <= i < |trees| ==> trees[i].Valid() && trees[i].book == books[i]
    requires FirstTable(selectors) < |trees| && Alphabet(books, |used| + 1)
    modifies reader
    ensures reader.Valid()
    ensures match ReadSymbols(books, selectors, |used| + 1, max, reader.Stream(),
                              old(reader.Pos()), 0, FirstTable(selectors), 50, Stage(StartList(used), [], 0, 0))
      case Ok(out, p) => r.Success? && r.value.tt == out && IsHistogram(r.value.counts, out) && reader.Pos() == p
      case Err(e) => r == Failure(e)
      case Oversubscribed => false
  {
    hide RegisterMatches, BitsOf, CodeBooks.Decode, Step, IsHistogram, Trie, TableSound, PrefixFree, Alphabet, ReadSymbols;
    ghost var s := reader.Stream();
    ghost var whole := ReadSymbols(books, selectors, |used| + 1, max, s, reader.Pos(), 0, FirstTable(selectors), GROUP_SIZE,
                                   Stage(StartList(used), [], 0, 0));
    var eobSymbol := |used| + 1;
    var mtf := new MtfDecoder.WithSymbols(StartList(used));
    var c := new U32[256](_ => 0);
    var tt: seq<Byte> := [];
    EmptyHistogram(c[..]);
    var selIdx: nat := 0;
    var cur: nat := FirstTable(selectors);
    var repeat: nat, power: nat := 0, 0;
    while true
      invariant reader.Valid() && cur < |trees| && forall i :: 0 <= i < |trees| ==> trees[i].Valid()
      invariant fresh(mtf.symbols) && fresh(c) && mtf.symbols.Length == 256 && c.Length == 256
      invariant mtf.symbols as object != c as object
      invariant Stage(mtf.symbols[..], tt, repeat, power).Valid(max) && IsHistogram(c[..], tt)
      invariant ReadSymbols(books, selectors, eobSymbol, max, s, reader.Pos(), selIdx, cur, GROUP_SIZE,
                            Stage(mtf.symbols[..], tt, repeat, power)) == whole
      decreases |s| - reader.Pos()
    {
      ghost var groupStart := reader.Pos();
      for k := 0 to GROUP_SIZE
        invariant reader.Valid() && groupStart + k <= reader.Pos() && forall i :: 0 <= i < |trees| ==> trees[i].Valid()
        invariant Stage(mtf.symbols[..], tt, repeat, power).Valid(max) && IsHistogram(c[..], tt)
        invariant ReadSymbols(books, selectors, eobSymbol, max, s, reader.Pos(), selIdx, cur, GROUP_SIZE - k,
                              Stage(mtf.symbols[..], tt, repeat, power)) == whole
      {
        SymbolStep(books, selectors, eobSymbol, max, s, reader.Pos(), selIdx, cur, GROUP_SIZE - k,
                   Stage(mtf.symbols[..], tt, repeat, power));
        var sym := trees[cur].Decode(reader);
        if sym == None {
          return Failure(BitstreamTruncated);
        }
        var next;
        next, tt, repeat, power := ApplySymbol(mtf, c, tt, repeat, power, sym.value, eobSymbol, max);
        match next {
          case Rejected(e) => return Failure(e);
          case EndOfBlock => return Success(Decoded(tt, c[..]));
          case Continue =>
        }
      }
      SelectStep(books, selectors, eobSymbol, max, s, reader.Pos(), selIdx, cur, Stage(mtf.symbols[..], tt, repeat, power));
      selIdx := selIdx + 1;
      if selIdx >= |selectors| {
        return Failure(OutOfSelectors);
      }
      var sel := selectors[selIdx];
      if sel >= |trees| {
        return Failure(SelectorOutOfRange);
      }
      cur := sel;
    }
  }

  lemma EmptyHistogram(c: seq<nat>)
    requires |c| == 256 && forall b :: 0 <= b < 256 ==> c[b] == 0
    ensures IsHistogram(c, [])
  {
  }

  /** One symbol of the parser, in terms of the symbol stage. */
  lemma SymbolStep(books: seq<Book>, selectors: seq<Byte>, eob: nat, max: nat, s: Bitstring,
                   p: nat, selIdx: nat, cur: nat, left: nat, st: Stage)
    requires p <= |s| && cur < |books| && 0 < left <= GROUP_SIZE && eob <= 257
    requires Alphabet(books, eob) && st.Valid(max)
    ensures match CodeBooks.Decode(books[cur], s, p)
      case None => ReadSymbols(books, selectors, eob, max, s, p, selIdx, cur, left, st) == Err(BitstreamTruncated)
      case Some(d) =>
        && d.0 <= eob && p < d.1 <= |s|
        && ReadSymbols(books, selectors, eob, max, s, p, selIdx, cur, left, st) ==
           match Step(st, d.0, eob, max)
           case Fail(e) => Err(e)
           case Done(out) => Ok(out, d.1)
           case More(next) => ReadSymbols(books, selectors, eob, max, s, d.1, selIdx, cur, left - 1, next)
  {
    hide Step, CodeBooks.Decode;
  }

  lemma SelectStep(books: seq<Book>, selectors: seq<Byte>, eob: nat, max: nat, s: Bitstring,
                   p: nat, selIdx: nat, cur: nat, st: Stage)
    requires p <= |s| && cur < |books| && eob <= 257 && Alphabet(books, eob) && st.Valid(max)
    ensures ReadSymbols(books, selectors, eob, max, s, p, selIdx, cur, 0, st) ==
      if selIdx + 1 >= |selectors| then Err(OutOfSelectors)
      else if selectors[selIdx + 1] >= |books| then Err(SelectorOutOfRange)
      else ReadSymbols(books, selectors, eob, max, s, p, selIdx + 1, selectors[selIdx + 1], GROUP_SIZE, st)
  {
  }

  lemma StepRun(st: Stage, sym: nat, eob: nat, max: nat)
    requires st.Valid(max) && sym <= eob <= 257 && sym < 2
    ensures var w := if st.repeat == 0 then 1 else st.power;
      && Step(st, sym, eob, max) ==
         (if st.repeat + w * (sym + 1) > MAX_BLOCKSIZE then Fail(RepeatTooLarge)
          else More(st.(repeat := st.repeat + w * (sym + 1), power := 2 * w)))
      && st.repeat + w * (sym + 1) <= st.repeat + 2 * w <= 3 * MAX_BLOCKSIZE + 2
  {
    if sym == 0 {
      assert st.Weight() * 1 == st.Weight();
    } else {
      assert st.Weight() * 2 == 2 * st.Weight();
    }
  }

  lemma StepFlush(st: Stage, sym: nat, eob: nat, max: nat)
    requires st.Valid(max) && 2 <= sym <= eob <= 257
    ensures Step(st, sym, eob, max) ==
      if st.repeat > 0 && |st.out| + st.repeat > max then Fail(ExceedsBlock)
      else
        var out := if st.repeat > 0 then st.out + RleTheory.Repeat(st.mtf[0], st.repeat) else st.out;
        if sym == eob then Done(out)
        else if |out| >= max then Fail(ExceedsBlock)
        else More(Stage(ToFront(st.mtf, sym - 1), out + [st.mtf[sym - 1]], 0, st.power))
  {
    hide ToFront;
    if st.repeat == 0 { assert st.Flushed() == st.out; }
  }

  // ---------------------------------------------------------------------------------------------
  // The block
  // ---------------------------------------------------------------------------------------------

  /** The chase table of a block and where to start in it. */
  datatype Table = Table(tt: array<U32>, tPos: U32)

  /** `table` holds the packed T-vector of the column `c` and the entry point of its row. */
  ghost predicate TableOf(table: Table, c: Column)
    reads table.tt
  {
    && c.origPtr < |c.bytes| == table.tt.Length
    && Rle.ChaseTable(table.tt[..], c.bytes, TVector(c.bytes))
    && table.tPos == TVector(c.bytes)[c.origPtr]
  }

  /** The number of tables, the selectors and the trees. */
  method DecodeCoding(reader: BitReader, n: nat)
      returns (r: Result<seq<HuffmanTree>, BlockError>, selectors: seq<Byte>, ghost tables: seq<seq<nat>>)
    requires reader.Valid() && 0 < n <= MAX_SYMBOLS && !ReadCoding(reader.Stream(), reader.Pos(), n).Oversubscribed?
    modifies reader
    ensures reader.Valid()
    ensures r.Success? ==>
      && GoodTables(tables, n) && TreesFor(r.value, tables, n)
      && ReadCoding(reader.Stream(), old(reader.Pos()), n) == Ok(Coding(selectors, tables), reader.Pos())
    ensures r.Failure? ==> ReadCoding(reader.Stream(), old(reader.Pos()), n) == Err(r.error)
  {
    hide RegisterMatches, BitsOf, ReadSelectors, ReadTables, SelectorList, Trie, TableSound, PrefixFree;
    tables, selectors := [], [];
    var groups := reader.ReadBits(3);
    if groups == None {
      return Failure(GroupsTruncated), selectors, tables;
    }
    if groups.value < 2 || groups.value > 6 {
      return Failure(BadGroups), selectors, tables;
    }
    var nSelectors := reader.ReadBits(15);
    if nSelectors == None {
      return Failure(SelectorsUsedTruncated), selectors, tables;
    }
    if nSelectors.value > MAX_SELECTORS {
      return Failure(TooManySelectors), selectors, tables;
    }
    IdentityList(groups.value);
    var sels := DecodeSelectors(reader, nSelectors.value, groups.value);
    if sels.Failure? {
      return Failure(sels.error), selectors, tables;
    }
    selectors := sels.value;
    r, tables := DecodeTrees(reader, groups.value, n);
  }

  lemma IdentityList(groups: nat)
    requires 0 < groups <= 256
    ensures SelectorList(Identity(), groups)
  {
  }

  /** The header of the block and the trees of its codes. */
  method DecodeHeader(reader: BitReader)
      returns (r: Result<(nat, seq<Byte>, seq<Byte>), BlockError>, trees: seq<HuffmanTree>, ghost tables: seq<seq<nat>>)
    requires reader.Valid() && !ReadHeader(reader.Stream(), reader.Pos()).Oversubscribed?
    modifies reader
    ensures reader.Valid()
    ensures r.Success? ==>
      var (origPtr, used, selectors) := r.value;
      && GoodHeader(Header(origPtr, used, selectors, tables)) && TreesFor(trees, tables, |used| + 2)
      && ReadHeader(reader.Stream(), old(reader.Pos())) == Ok(Header(origPtr, used, selectors, tables), reader.Pos())
    ensures r.Failure? ==> ReadHeader(reader.Stream(), old(reader.Pos())) == Err(r.error)
  {
    hide RegisterMatches, BitsOf, ReadStart, ReadAlphabet, ReadCoding, GoodTables, Trie, TableSound, PrefixFree;
    trees, tables := [], [];
    var origPtr := DecodeStart(reader);
    if origPtr.Failure? {
      return Failure(origPtr.error), trees, tables;
    }
    var used := DecodeAlphabet(reader);
    if used.Failure? {
      return Failure(used.error), trees, tables;
    }
    var built, selectors;
    built, selectors, tables := DecodeCoding(reader, |used.value| + 2);
    if built.Failure? {
      return Failure(built.error), trees, tables;
    }
    trees := built.value;
    r := Success((origPtr.value, used.value, selectors));
  }

  /** `decode_block_common`: everything up to the inverse transform. */
  method DecodeBlockCommon(reader: BitReader, max: nat) returns (r: Result<Table, BlockError>, ghost column: Column)
    requires reader.Valid() && max <= MAX_BLOCKSIZE && !ReadColumn(reader.Stream(), reader.Pos(), max).Oversubscribed?
    modifies reader
    ensures reader.Valid()
    ensures r.Success? ==>
      && ReadColumn(reader.Stream(), old(reader.Pos()), max) == Ok(column, reader.Pos())
      && TableOf(r.value, column) && fresh(r.value.tt)
    ensures r.Failure? ==> ReadColumn(reader.Stream(), old(reader.Pos()), max) == Err(r.error)
  {
    hide RegisterMatches, BitsOf, ReadHeader, ReadSymbols, GoodTables, Alphabet, Trie, TableSound, PrefixFree, TableOf;
    column := Column([], 0);
    var header, trees;
    ghost var tables;
    header, trees, tables := DecodeHeader(reader);
    if header.Failure? {
      return Failure(header.error), column;
    }
    var (origPtr, used, selectors) := header.value;
    BooksAlphabet(tables, |used| + 2);
    var decoded := DecodeSymbols(reader, trees, selectors, used, max, BooksOf(tables, |used| + 2));
    if decoded.Failure? {
      return Failure(decoded.error), column;
    }
    var bytes := decoded.value.tt;
    if origPtr >= |bytes| {
      return Failure(OrigPtrOutOfBounds), column;
    }
    column := Column(bytes, origPtr);
    var table := InvertColumn(bytes, origPtr, decoded.value.counts);
    r := Success(table);
  }

  /** The column as `u32` entries, turned into the chase table in place. */
  method InvertColumn(bytes: seq<Byte>, origPtr: nat, counts: seq<U32>) returns (table: Table)
    requires origPtr < |bytes| <= MAX_BLOCKSIZE && IsHistogram(counts, bytes)
    ensures TableOf(table, Column(bytes, origPtr)) && fresh(table.tt)
  {
    hide IsHistogram, Packed, IsTVector;
    var tt := new U32[|bytes|](i requires 0 <= i < |bytes| => bytes[i]);
    assert Bwt.Column(tt[..]) == bytes;
    var tPos := InverseBwt(tt, origPtr, counts);
    TVectorRange(bytes);
    table := Table(tt, tPos);
  }

  lemma TVectorRange(l: seq<Byte>)
    ensures |TVector(l)| == |l| && forall j :: 0 <= j < |l| ==> TVector(l)[j] < |l|
  {
    hide Target;
  }

  /** `decode_block`: the text, if every write of the expansion lies inside the capacity that the vector
      is guaranteed to have. */
  method DecodeBlock(reader: BitReader, max: nat) returns (r: Result<seq<Byte>, BlockError>)
    requires reader.Valid() && max <= MAX_BLOCKSIZE && !AllocBlock(reader.Stream(), reader.Pos(), max).Oversubscribed?
    modifies reader
    ensures reader.Valid() && Agrees(AllocBlock(reader.Stream(), old(reader.Pos()), max), r, reader)
  {
    hide RegisterMatches, BitsOf, ReadColumn, RleTheory.Decode, RleTheory.Inside, Chase, Rle.ChaseTable;
    var table;
    ghost var column;
    table, column := DecodeBlockCommon(reader, max);
    if table.Failure? {
      return Failure(table.error);
    }
    ghost var t := TVector(column.bytes);
    InRange(table.value, column);
    var output := Rle.Rle2DecodeAlloc(table.value.tt, table.value.tPos, RleTheory.Guaranteed, column.bytes, t);
    r := if output.Some? then Success(output.value) else Failure(WriteBehindVector);
  }

  lemma InRange(table: Table, c: Column)
    requires TableOf(table, c)
    ensures table.tPos < table.tt.Length
  {
  }

  /** Decoding into a buffer: the bytes written, an error, or the overflow assertion. */
  datatype IntoResult = Written(n: nat) | Rejection(error: BlockError) | Aborted

  /** `decode_block_into`: agrees with `decode_block` whenever the block's text fits the buffer. */
  method DecodeBlockInto(reader: BitReader, max: nat, out: array<Byte>) returns (r: IntoResult)
    requires reader.Valid() && max <= MAX_BLOCKSIZE && !ReadBlock(reader.Stream(), reader.Pos(), max).Oversubscribed?
    modifies reader, out
    ensures reader.Valid()
    ensures match ReadBlock(reader.Stream(), old(reader.Pos()), max)
      case Ok(d, p) =>
        && reader.Pos() == p
        && (if |d| <= out.Length then r == Written(|d|) && out[..|d|] == d else r == Aborted)
      case Err(e) => r == Rejection(e)
      case Oversubscribed => false
  {
    hide RegisterMatches, BitsOf, ReadColumn, RleTheory.Decode, Chase, Rle.ChaseTable;
    var table;
    ghost var column;
    table, column := DecodeBlockCommon(reader, max);
    if table.Failure? {
      return Rejection(table.error);
    }
    ghost var t := TVector(column.bytes);
    InRange(table.value, column);
    var written := Rle.Rle2DecodeInto(table.value.tt, table.value.tPos, out, column.bytes, t);
    r := if written.Some? then Written(written.value) else Aborted;
  }
}
