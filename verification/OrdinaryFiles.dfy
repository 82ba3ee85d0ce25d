/** Files as compressors make them, with block starts not far apart, and what the headroom of `lbunzip2`
    means for them. */
module OrdinaryFiles {
  import opened Wrappers
  import opened Bits
  import opened Magic
  import opened Mtf
  import opened CodeBooks
  import opened CanonicalCodes
  import opened BwtTheory
  import opened SymbolTheory
  import opened BlockSpec
  import opened BlockEncode
  import opened BlockRoundTrip
  import opened ScanTheory
  import opened Scan
  import opened StreamTheory
  import opened ChunkTheory
  import opened ChunkedTheory
  import opened CarryTheory
  import opened StreamRoundTrip
  import RleTheory

  // ---------------------------------------------------------------------------------------------
  // Files with close block starts
  // ---------------------------------------------------------------------------------------------

  /** From each start to the next, and from the last to `end`, it is at most `d` bytes. */
  predicate Spaced(starts: seq<nat>, end: nat, d: nat)
  {
    && starts != [] && end <= starts[|starts| - 1] + 8 * d
    && (forall i :: 0 <= i < |starts| - 1 ==> starts[i + 1] <= starts[i] + 8 * d)
  }

  /** A file that `decompress` accepts, with block starts at most `d` bytes apart. */
  ghost predicate Ordinary(whole: seq<Byte>, max: nat, d: nat)
  {
    && |whole| >= 4 && Sequential(BitsOf(whole), 32, max).Blocks?
    && Spaced(Sequential(BitsOf(whole), 32, max).starts, |BitsOf(whole)|, d)
  }

  /** Of spaced starts some lies in the next `d` bytes. */
  lemma {:induction false} NextStart(starts: seq<nat>, end: nat, d: nat, x: nat) returns (q: nat)
    requires Spaced(starts, end, d) && starts[0] <= x && x + 8 * d <= end && d >= 1
    ensures q in starts && x <= q < x + 8 * d
    decreases |starts|
  {
    if starts[0] == x {
      q := x;
    } else if starts[1] <= x {
      var later := starts[1..];
      forall i | 0 <= i < |later| - 1
        ensures later[i + 1] <= later[i] + 8 * d
      {
        assert starts[(i + 1) + 1] <= starts[i + 1] + 8 * d;
      }
      q := NextStart(later, end, d, x);
    } else {
      q := starts[1];
    }
  }

  /** The block at each start of an accepted stream decodes. */
  lemma {:induction false} StartDecodes(bits: Bitstring, p: nat, x: nat, max: nat)
    requires p <= |bits| && Sequential(bits, p, max).Blocks? && x in Sequential(bits, p, max).starts
    ensures x + 48 <= |bits| && ReadBlock(bits, x + 48, max).Ok?
    decreases |bits| - p
  {
    hide Value, AllocBlock, ReadBlock;
    AllocIsRead(bits, p + 48, max);
    if x != p {
      var b := AllocBlock(bits, p + 48, max);
      assert Sequential(bits, p, max).starts == [p] + Sequential(bits, b.pos, max).starts;
      StartDecodes(bits, b.pos, x, max);
    }
  }

  /** So the search for verified boundaries never has far to go. */
  lemma OrdinaryIsDense(whole: seq<Byte>, max: nat, d: nat)
    requires Ordinary(whole, max, d) && d >= 1
    ensures Dense(BitsOf(whole), d, max)
  {
    hide BitsOf, MagicAt, QuickOk, Sequential, ReadBlock;
    var bits := BitsOf(whole);
    var starts := Sequential(bits, 32, max).starts;
    WalkStarts(bits, 32, max);
    FirstStart(bits, 32, max);
    forall x: nat | 32 <= x && x + 8 * d <= |bits|
      ensures BoundaryWithin(bits, x, d, max)
    {
      var q := NextStart(starts, |bits|, d, x);
      StartDecodes(bits, 32, q, max);
      QuickAcceptsBlocks(bits, q, max);
    }
  }

  // ---------------------------------------------------------------------------------------------
  // What the headroom means for them
  // ---------------------------------------------------------------------------------------------

  /** The turns of the main loop over a whole file. */
  ghost function Turns(whole: seq<Byte>, size: nat, n: nat, max: nat, headroom: nat): (cs: seq<Turn>)
    requires |whole| >= 4 && size >= 1
  {
    Chunks(whole[..4], whole[4..], size, n, max, headroom)
  }

  /** Every chunk is split.  In terms of one number, the distance `d` of block starts: a headroom of one `n - 1`-th of the chunk
      size is always enough; at `d` bytes less than one `n`-th of it the second chunk stops the program;
      and in between it is stopped by some later chunk of a file that is long enough. */
  lemma Headroom(whole: seq<Byte>, size: nat, n: nat, max: nat, headroom: nat, d: nat)
    requires Ordinary(whole, max, d) && d >= 1 && n >= 2 && LongEnough(size, n, d) && headroom >= 4
    ensures var cs := Turns(whole, size, n, max, headroom);
      && AllSplit(cs)
      && (size <= (n - 1) * headroom ==> AllFit(cs))
      && (n * (headroom + d) < size + 4 && size + 4 <= |whole| ==> |cs| == 2 && cs[0].Worked? && cs[1].CarryTooLong?)
      && (forall m: nat :: 4 + m * size <= |whole| && AllFit(cs) ==> m * (size - n * d - (n - 1) * headroom) <= n * headroom)
  {
    hide BitsOf, Sequential, Spaced, Dense, Chunks, AllSplit, AllFit, CarriesFit, KeptStarts, AllFound, SplitAt, Found, QuickOk, MagicAt;
    OrdinaryIsDense(whole, max, d);
    AtStart(whole, max, d);
    StreamPosition(whole, max);
    PositionInside(whole, 0, 4, 32);
    assert whole[0..4] == whole[..4];
    DenseFindsAll(whole, 0, 4, size, n, max, d);
    EnoughHeadroom(whole, 0, 4, 32, size, n, max, headroom);
    if n * (headroom + d) < size + 4 && size + 4 <= |whole| {
      SecondTurnPanics(whole, 0, 4, 32, size, n, max, headroom, d);
    }
    forall m: nat | 4 + m * size <= |whole| && AllFit(Turns(whole, size, n, max, headroom))
      ensures m * (size - n * d - (n - 1) * headroom) <= n * headroom
    {
      CarriesGrow(whole, 0, 4, 32, size, n, max, headroom, d, m);
    }
  }

  lemma AtStart(whole: seq<Byte>, max: nat, d: nat)
    requires Ordinary(whole, max, d)
    ensures Sequential(BitsOf(whole), 32, max).starts != []
  {
    hide BitsOf, Sequential;
  }

  /** The program as it is shipped, on files whose blocks are at most 1 MiB apart: with 2 to 6 workers
      every file longer than a chunk stops it at the second chunk; with 7 workers every file of 225
      chunks or more does at some chunk; with 8 to 199 workers no file does. */
  lemma ShippedHeadroom(whole: seq<Byte>, n: nat, max: nat, d: nat)
    requires Ordinary(whole, max, d) && 1 <= d <= MIB && 2 <= n <= 199
    ensures CHUNK_SIZE == 209_715_200 && CARRY_HEADROOM == 33_554_432 && MIB == 1_048_576
    ensures var cs := Turns(whole, CHUNK_SIZE, n, max, CARRY_HEADROOM);
      && AllSplit(cs)
      && (n <= 6 && 4 + CHUNK_SIZE <= |whole| ==> |cs| == 2 && cs[0].Worked? && cs[1].CarryTooLong?)
      && (n == 7 && 4 + 225 * CHUNK_SIZE <= |whole| ==> !AllFit(cs))
      && (n >= 8 ==> AllFit(cs))
  {
    hide Ordinary, Turns, AllSplit, AllFit;
    Scale(n, d + 16, MIB + 16);
    Headroom(whole, CHUNK_SIZE, n, max, CARRY_HEADROOM, d);
    if n >= 8 {
      Scale(CARRY_HEADROOM, 7, n - 1);
    } else if n <= 6 {
      Scale(CARRY_HEADROOM + d, n, 6);
    }
  }

  // ---------------------------------------------------------------------------------------------
  // How long a compressed block is
  // ---------------------------------------------------------------------------------------------

  lemma {:induction false} GroupsLength(flags: seq<bool>, k: nat)
    requires |flags| == 256 && k <= 16
    ensures |EncodeGroups(flags, k)| <= 16 * (16 - k)
    decreases 16 - k
  {
    if k < 16 { GroupsLength(flags, k + 1); }
  }

  lemma {:induction false} SelectorsLength(list: seq<Byte>, groups: nat, sels: seq<Byte>)
    requires FullList(list, groups) && forall i :: 0 <= i < |sels| ==> sels[i] < groups
    ensures |EncodeSelectors(list, groups, sels)| <= groups * |sels|
    decreases |sels|
  {
    if sels != [] {
      var k := IndexInPrefix(list, groups, sels[0]);
      FullListKept(list, groups, k);
      SelectorsLength(ToFront(list, k), groups, sels[1..]);
      CarryTheory.Distribute(groups, |sels|, 1);
    }
  }

  lemma {:induction false} LengthLength(from: nat, len: nat)
    requires from <= 20 && len <= 20
    ensures |EncodeLength(from, len)| <= 41
    ensures |EncodeLength(from, len)| == 1 + 2 * (if from < len then len - from else from - len)
    decreases if from < len then len - from else from - len
  {
    if from < len { LengthLength(from + 1, len); }
    else if from > len { LengthLength(from - 1, len); }
  }

  lemma {:induction false} LengthsLength(from: nat, t: seq<nat>)
    requires from <= 20 && LengthTable(t)
    ensures |EncodeLengths(from, t)| <= 41 * |t|
    decreases |t|
  {
    if t != [] {
      LengthLength(from, t[0]);
      LengthsLength(t[0], t[1..]);
    }
  }

  lemma {:induction false} TablesLength(tables: seq<seq<nat>>, n: nat)
    requires GoodTables(tables, n) && 0 < n <= 258
    requires forall i :: 0 <= i < |tables| ==> tables[i] != []
    ensures |EncodeTables(tables)| <= 10583 * |tables|
    decreases |tables|
  {
    hide GoodTable, ToBits;
    if tables != [] {
      TableLength(tables[0], n);
      TablesLength(tables[1..], n);
    }
  }

  lemma TableLength(t: seq<nat>, n: nat)
    requires GoodTable(t, n) && 0 < n <= 258
    ensures |EncodeTable(t)| <= 10583
  {
    hide KraftSum, ToBits;
    LengthsLength(t[0], t);
  }

  lemma WordLength(t: seq<nat>, n: nat, sym: nat)
    requires GoodTable(t, n) && ValidLengths(t) && HasSymbol(BookOfTable(t), sym)
    ensures |WordFor(BookOfTable(t), sym)| <= 20
  {
    hide KraftSum, Used, SortByLength, ToBits, CodeNum;
    var i := WordForIndex(BookOfTable(t), sym);
    assert |BookOfTable(t)[i].word| == OrderOf(t)[i].len;
  }

  /** No word of any book is longer than 20 bits. */
  ghost predicate ShortWords(books: seq<Book>, eob: nat)
  {
    forall k, s: nat :: 0 <= k < |books| && s <= eob && HasSymbol(books[k], s) ==> |WordFor(books[k], s)| <= 20
  }

  lemma BooksShort(tables: seq<seq<nat>>, n: nat)
    requires GoodTables(tables, n) && n > 0
    ensures ShortWords(BooksOf(tables, n), n - 1)
  {
    hide HasSymbol, GoodTable;
    var books := BooksOf(tables, n);
    forall k, s: nat | 0 <= k < |books| && s <= n - 1 && HasSymbol(books[k], s)
      ensures |WordFor(books[k], s)| <= 20
    {
      WordLength(tables[k], n, s);
    }
  }

  lemma {:induction false} SymbolsLength(books: seq<Book>, selectors: seq<Byte>, eob: nat, selIdx: nat, cur: nat, left: nat, syms: seq<nat>)
    requires CodesAll(books, eob) && cur < |books| && left <= GROUP_SIZE && ShortWords(books, eob)
    requires EnoughSelectors(selectors, books, selIdx, left, |syms|)
    requires forall i :: 0 <= i < |syms| ==> syms[i] <= eob
    ensures |EncodeSymbols(books, selectors, eob, selIdx, cur, left, syms)| <= 20 * |syms|
    decreases |syms|, if left == 0 then 1 else 0
  {
    hide PrefixFree, HasSymbol, WordFor;
    if syms == [] {
    } else if left == 0 {
      SymbolsLength(books, selectors, eob, selIdx + 1, selectors[selIdx + 1], GROUP_SIZE, syms);
    } else {
      SymbolsLength(books, selectors, eob, selIdx, cur, left - 1, syms[1..]);
    }
  }

  /** A compressed block is limited by the number of its selectors and symbols. */
  lemma BlockLength(plan: Plan, max: nat)
    requires ValidPlan(plan, max)
    ensures |EncodeBlock(plan, max)| <= 64_000 + 6 * |plan.selectors| + 20 * |plan.column.bytes|
  {
    hide EncodeStart, EncodeAlphabet, EncodeCoding, EncodeBody, GoodTables;
    var n := |UsedOf(plan.column.bytes)| + 2;
    TablesNonempty(plan.tables, n);
    GroupsLength(FlagsOf(plan.column.bytes), 0);
    AlphabetLength(FlagsOf(plan.column.bytes));
    CodingLength(plan, n);
    BodyLength(plan, max);
  }

  lemma AlphabetLength(flags: seq<bool>)
    requires |flags| == 256
    ensures |EncodeAlphabet(flags)| <= 272
  {
    GroupsLength(flags, 0);
  }

  lemma CodingLength(plan: Plan, n: nat)
    requires 2 <= |plan.tables| <= 6 && GoodTables(plan.tables, n) && 0 < n <= 258
    requires forall i :: 0 <= i < |plan.selectors| ==> plan.selectors[i] < |plan.tables|
    requires forall i :: 0 <= i < |plan.tables| ==> plan.tables[i] != []
    ensures |EncodeCoding(plan)| <= 18 + 6 * |plan.selectors| + 63_498
  {
    hide GoodTables, ToBits, EncodeSelectors, EncodeTables, FullList;
    IdentityFull(|plan.tables|);
    SelectorsLength(Identity(), |plan.tables|, plan.selectors);
    Scale(|plan.selectors|, |plan.tables|, 6);
    TablesLength(plan.tables, n);
  }

  lemma BodyLength(plan: Plan, max: nat)
    requires ValidPlan(plan, max)
    ensures |EncodeBody(plan, max)| <= 20 * |plan.column.bytes| + 20
  {
    hide EncodeSymbols, GoodTables, CodesAll, SymbolsOf, ShortWords;
    var n := |UsedOf(plan.column.bytes)| + 2;
    GoodTablesCode(plan.tables, n);
    BooksShort(plan.tables, n);
    SymbolsLength(BooksOf(plan.tables, n), plan.selectors, n - 1, 0, plan.selectors[0], GROUP_SIZE, SymbolsOf(plan.column.bytes));
  }

  // ---------------------------------------------------------------------------------------------
  // Compressed files are ordinary
  // ---------------------------------------------------------------------------------------------

  /** Every block, its magic and what may follow the last one take at most `d` bytes. */
  predicate BlocksWithin(plans: seq<Plan>, max: nat, d: nat)
  {
    ValidPlans(plans, max) && forall i :: 0 <= i < |plans| ==> 136 + |EncodeBlock(plans[i], max)| <= 8 * d
  }

  lemma {:induction false} StreamSpaced(bits: Bitstring, p: nat, plans: seq<Plan>, xs: seq<seq<Byte>>, max: nat, d: nat)
    requires p <= |bits| && PlansFor(plans, xs, max) && AllInside(xs) && plans != [] && BlocksWithin(plans, max, d)
    requires At(bits, p, EncodeBlocks(plans, max) + FinalBits())
    ensures Sequential(bits, p, max).Blocks? && Sequential(bits, p, max).starts != [] && Sequential(bits, p, max).starts[0] == p
    ensures Spaced(Sequential(bits, p, max).starts, p + |EncodeBlocks(plans, max)| + 88, d)
    decreases |plans|
  {
    hide At, MagicBits, FinalBits, Value, AllocBlock, ReadBlock, EncodeBlock, PlansFor, AllInside, Sequential, EndMarker, RleTheory.Decode, RleTheory.Inside, ValidPlan;
    NoPlans(plans, xs, max);
    PlansTail(plans, xs, max);
    var magic, block, rest, final := MagicBits(), EncodeBlock(plans[0], max), EncodeBlocks(plans[1..], max), FinalBits();
    Regroup(magic, block, rest, final);
    AtSplit(bits, p, magic, block + (rest + final));
    BlockMarker(bits, p);
    AtSplit(bits, p + 48, block, rest + final);
    CodedInverse(bits, p + 48, xs[0], plans[0], max);
    var next := p + 48 + |block|;
    AtEnds(bits, next, rest + final);
    StreamInverse(bits, next, plans[1..], xs[1..], max);
    SequentialBlock(bits, p, max, RleTheory.Decode(xs[0]), next);
    var later := Sequential(bits, next, max).starts;
    if |plans| > 1 {
      StreamSpaced(bits, next, plans[1..], xs[1..], max, d);
      SpacedCons(p, later, next + |rest| + 88, d);
    } else {
      NoMoreStarts(bits, next, max, plans[1..], xs[1..]);
      assert [p] + later == [p];
    }
  }

  lemma NoMoreStarts(bits: Bitstring, p: nat, max: nat, plans: seq<Plan>, xs: seq<seq<Byte>>)
    requires p <= |bits| && plans == [] && PlansFor(plans, xs, max) && At(bits, p, EncodeBlocks(plans, max) + FinalBits())
    ensures EncodeBlocks(plans, max) == [] && Sequential(bits, p, max) == Blocks([], [])
  {
    hide At, FinalBits, Sequential;
    assert EncodeBlocks(plans, max) + FinalBits() == FinalBits();
    FinalMarker(bits, p);
    SequentialEnds(bits, p, max);
  }

  lemma SpacedCons(p: nat, starts: seq<nat>, end: nat, d: nat)
    requires Spaced(starts, end, d) && starts[0] <= p + 8 * d
    ensures Spaced([p] + starts, end, d)
  {
    var all := [p] + starts;
    forall i | 0 <= i < |all| - 1
      ensures all[i + 1] <= all[i] + 8 * d
    {
      if i > 0 { assert starts[(i - 1) + 1] <= starts[i - 1] + 8 * d; }
    }
  }

  /** So is every compressed file with blocks of at most `d` bytes. */
  lemma CompressedIsOrdinary(level: nat, plans: seq<Plan>, xs: seq<seq<Byte>>, crc: nat, d: nat)
    requires 1 <= level <= 9 && PlansFor(plans, xs, 100_000 * level) && AllInside(xs)
    requires plans != [] && BlocksWithin(plans, 100_000 * level, d)
    ensures var whole := EncodeFile(level, plans, crc);
      && HeaderSize(whole) == Success(100_000 * level) && Ordinary(whole, 100_000 * level, d) && |whole| >= 6 * |plans|
  {
    hide BitsOf, EncodeFile, EncodeStream, EncodeBlocks, PlansFor, BlocksWithin, AllInside, At, FinalBits, Sequential, Spaced;
    var max := 100_000 * level;
    NoPlans(plans, xs, max);
    FileBits(level, plans, crc);
    var whole := EncodeFile(level, plans, crc);
    StreamStart(BitsOf(whole), plans, max, crc);
    StreamSpaced(BitsOf(whole), 32, plans, xs, max, d);
    StreamSize(plans, max, crc);
    CloserEnd(Sequential(BitsOf(whole), 32, max).starts, 32 + |EncodeBlocks(plans, max)| + 88, |BitsOf(whole)|, d);
    DataLength(whole);
  }

  lemma CloserEnd(starts: seq<nat>, end: nat, end': nat, d: nat)
    requires Spaced(starts, end, d) && end' <= end
    ensures Spaced(starts, end', d)
  {
  }

  lemma StreamSize(plans: seq<Plan>, max: nat, crc: nat)
    requires ValidPlans(plans, max)
    ensures 48 * |plans| <= |EncodeStream(plans, max, crc)| <= |EncodeBlocks(plans, max)| + 88
  {
    hide EncodeBlocks, FinalBits, Trailer, ValidPlan;
    BlocksSize(plans, max);
  }

  lemma {:induction false} BlocksSize(plans: seq<Plan>, max: nat)
    requires ValidPlans(plans, max)
    ensures |EncodeBlocks(plans, max)| >= 48 * |plans|
    decreases |plans|
  {
    hide EncodeBlock, ValidPlan;
    if plans != [] { BlocksSize(plans[1..], max); }
  }

  /** There are such files of any length, with blocks as close as 24 KiB. */
  lemma OrdinaryFileExists(level: nat, length: nat) returns (whole: seq<Byte>)
    requires 1 <= level <= 9
    ensures HeaderSize(whole) == Success(100_000 * level) && Ordinary(whole, 100_000 * level, 24 * 1024) && |whole| >= length
  {
    hide BitsOf, EncodeFile, PlansFor, BlocksWithin, AllInside, Ordinary;
    var max, m := 100_000 * level, length + 1;
    var x: seq<Byte> := [65];
    var plan := CodedPlanExists(x, max);
    var plans, xs := seq(m, _ => plan), seq(m, _ => x);
    Copies(plan, x, m, max);
    whole := EncodeFile(level, plans, 0);
    CompressedIsOrdinary(level, plans, xs, 0, 24 * 1024);
  }

  lemma Copies(plan: Plan, x: seq<Byte>, m: nat, max: nat)
    requires ValidPlan(plan, max) && IsBwt(x, plan.column.bytes, plan.column.origPtr) && x == [65]
    ensures var plans, xs := seq(m, _ => plan), seq(m, _ => x);
      PlansFor(plans, xs, max) && AllInside(xs) && BlocksWithin(plans, max, 24 * 1024)
  {
    hide ValidPlan, IsBwt, EncodeBlock;
    PlanLimits(plan, x, max);
    BlockLength(plan, max);
    OneByteInside();
  }

  lemma PlanLimits(plan: Plan, x: seq<Byte>, max: nat)
    requires ValidPlan(plan, max) && IsBwt(x, plan.column.bytes, plan.column.origPtr) && x == [65]
    ensures |plan.selectors| <= MAX_SELECTORS && |plan.column.bytes| == 1
  {
    hide SymbolsOf, UsedOf, GoodTables;
  }

  lemma OneByteInside()
    ensures RleTheory.Inside(RleTheory.Guaranteed, [65])
  {
    RleTheory.InsideIfFits([65]);
  }
}
