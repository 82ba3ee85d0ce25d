/** The header half of the block decoder (`decode_block_common` in `src/block.rs`, up to the trees),
    reading from the buffered reader and proved against the parser of the format. */
module BlockHeader {
  import opened Wrappers
  import opened Errors
  import opened Bits
  import opened BitReaders
  import opened Mtf
  import opened CodeBooks
  import opened CanonicalCodes
  import opened Huffman
  import opened Tries
  import opened BlockSpec

  /** The outcome of a method is what the parser says: same value and position, or same error. */
  ghost predicate Agrees<T>(spec: Parse<T>, r: Result<T, BlockError>, reader: BitReader)
    requires reader.Valid()
    reads reader
  {
    match spec
    case Ok(v, p) => r == Success(v) && reader.Pos() == p
    case Err(e) => r == Failure(e)
    case Oversubscribed => false
  }

  lemma OneBitField(bits: Bitstring, p: nat, e: BlockError)
    requires p <= |bits|
    ensures ReadField(bits, p, 1, e) == if p < |bits| then Ok(Bit(bits[p]), p + 1) else Err(e)
  {
    if p < |bits| {
      assert bits[p..p + 1] == [] + [bits[p]];
      ValueAppend([], bits[p]);
    }
  }

  /** The checksum, the randomised flag and the row index. */
  method DecodeStart(reader: BitReader) returns (r: Result<nat, BlockError>)
    requires reader.Valid()
    modifies reader
    ensures reader.Valid() && Agrees(ReadStart(reader.Stream(), old(reader.Pos())), r, reader)
  {
    hide RegisterMatches, Value;
    OneBitFieldAfter(reader.Stream(), reader.Pos());
    var crc := reader.ReadBits(32);
    if crc == None {
      return Failure(CrcTruncated);
    }
    var randomised := reader.ReadBit();
    if randomised == None {
      return Failure(RandomisedFlagTruncated);
    }
    if randomised.value {
      return Failure(RandomisedUnsupported);
    }
    var origPtr := reader.ReadBits(24);
    if origPtr == None {
      return Failure(OrigPtrTruncated);
    }
    r := Success(origPtr.value);
  }

  lemma OneBitFieldAfter(bits: Bitstring, p: nat)
    ensures p + 32 <= |bits| ==>
      ReadField(bits, p + 32, 1, RandomisedFlagTruncated)
      == if p + 32 < |bits| then Ok(Bit(bits[p + 32]), p + 33) else Err(RandomisedFlagTruncated)
  {
    if p + 32 <= |bits| { OneBitField(bits, p + 32, RandomisedFlagTruncated); }
  }

  /** Sixteen flags, bit by bit. */
  method DecodeFlags(reader: BitReader, e: BlockError) returns (r: Result<seq<bool>, BlockError>)
    requires reader.Valid()
    modifies reader
    ensures reader.Valid() && Agrees(ReadFlags(reader.Stream(), old(reader.Pos()), 16, e), r, reader)
  {
    hide RegisterMatches, BitsOf;
    ghost var s, p := reader.Stream(), reader.Pos();
    var flags: seq<bool> := [];
    for i := 0 to 16
      invariant reader.Valid() && reader.Pos() == p + i <= |s|
      invariant flags == s[p..p + i]
    {
      var bit := reader.ReadBit();
      if bit == None {
        return Failure(e);
      }
      flags := flags + [bit.value];
    }
    r := Success(flags);
  }

  /** The symbol bitmap: which bytes appear in the block. */
  method DecodeAlphabet(reader: BitReader) returns (r: Result<seq<Byte>, BlockError>)
    requires reader.Valid()
    modifies reader
    ensures reader.Valid() && Agrees(ReadAlphabet(reader.Stream(), old(reader.Pos())), r, reader)
  {
    hide RegisterMatches, BitsOf, ReadFlags;
    ghost var s := reader.Stream();
    var ranges := DecodeFlags(reader, SymbolRangeTruncated);
    if ranges.Failure? {
      return Failure(ranges.error);
    }
    ghost var p1 := reader.Pos();
    var used: seq<Byte> := [];
    for k := 0 to 16
      invariant reader.Valid() && |used| <= 16 * k
      invariant ReadUsed(s, reader.Pos(), ranges.value, k, used) == ReadUsed(s, p1, ranges.value, 0, [])
    {
      if ranges.value[k] {
        var flags := DecodeFlags(reader, SymbolBitmapTruncated);
        if flags.Failure? {
          return Failure(flags.error);
        }
        var group := CollectUsed(16 * k, flags.value);
        used := used + group;
      }
    }
    if |used| == 0 {
      return Failure(NoSymbols);
    }
    r := Success(used);
  }

  /** The bytes whose flags are set, in order. */
  method CollectUsed(base: nat, flags: seq<bool>) returns (used: seq<Byte>)
    requires base + |flags| <= 256
    ensures used == Flagged(base, flags)
  {
    used := [];
    for j := 0 to |flags|
      invariant used == Flagged(base, flags[..j])
    {
      assert flags[..j + 1][..j] == flags[..j];
      if flags[j] {
        used := used + [base + j];
      }
    }
    assert flags[..|flags|] == flags;
  }

  /** One selector's index in unary. */
  method DecodeUnary(reader: BitReader, groups: nat) returns (r: Result<nat, BlockError>)
    requires reader.Valid() && 0 < groups
    modifies reader
    ensures reader.Valid() && Agrees(ReadUnary(reader.Stream(), old(reader.Pos()), groups, 0), r, reader)
    ensures r.Success? ==> r.value < groups
  {
    hide RegisterMatches, BitsOf;
    ghost var s, p := reader.Stream(), reader.Pos();
    var trees: nat := 0;
    while true
      invariant reader.Valid() && trees < groups
      invariant ReadUnary(s, reader.Pos(), groups, trees) == ReadUnary(s, p, groups, 0)
      decreases |s| - reader.Pos()
    {
      var bit := reader.ReadBit();
      if bit == None {
        return Failure(SelectorBitTruncated);
      }
      if !bit.value {
        return Success(trees);
      }
      trees := trees + 1;
      if trees >= groups {
        return Failure(SelectorTooLarge);
      }
    }
  }

  /** The table selectors, each through the move-to-front list of table numbers. */
  method DecodeSelectors(reader: BitReader, n: nat, groups: nat) returns (r: Result<seq<Byte>, BlockError>)
    requires reader.Valid() && SelectorList(Identity(), groups)
    modifies reader
    ensures reader.Valid() && Agrees(ReadSelectors(reader.Stream(), old(reader.Pos()), n, groups, Identity(), []), r, reader)
  {
    hide RegisterMatches, BitsOf, ReadUnary, ToFront;
    ghost var s, p := reader.Stream(), reader.Pos();
    var selectors: seq<Byte> := [];
    var mtf := new MtfDecoder.WithSymbols(Identity());
    for i := 0 to n
      invariant reader.Valid() && |selectors| == i && fresh(mtf.symbols)
      invariant mtf.symbols.Length == 256 && SelectorList(mtf.symbols[..], groups)
      invariant forall j :: 0 <= j < i ==> selectors[j] < groups
      invariant ReadSelectors(s, reader.Pos(), n, groups, mtf.symbols[..], selectors)
             == ReadSelectors(s, p, n, groups, Identity(), [])
    {
      var trees := DecodeUnary(reader, groups);
      if trees.Failure? {
        return Failure(trees.error);
      }
      SelectorListKept(mtf.symbols[..], groups, trees.value);
      var sel := mtf.Decode(trees.value);
      selectors := selectors + [sel];
    }
    r := Success(selectors);
  }

  /** One code length, adjusted bit by bit from the previous one. */
  method DecodeLength(reader: BitReader, start: int) returns (r: Result<nat, BlockError>)
    requires reader.Valid()
    modifies reader
    ensures reader.Valid() && Agrees(ReadLength(reader.Stream(), old(reader.Pos()), start), r, reader)
    ensures r.Success? ==> 1 <= r.value <= MAX_LEN
  {
    hide RegisterMatches, BitsOf;
    ghost var s, p := reader.Stream(), reader.Pos();
    var length := start;
    while true
      invariant reader.Valid()
      invariant ReadLength(s, reader.Pos(), length) == ReadLength(s, p, start)
      decreases |s| - reader.Pos()
    {
      if length < 1 || length > 20 {
        return Failure(LengthOutOfRange);
      }
      var more := reader.ReadBit();
      if more == None {
        return Failure(AdjustBit1Truncated);
      }
      if !more.value {
        return Success(length);
      }
      var down := reader.ReadBit();
      if down == None {
        return Failure(AdjustBit2Truncated);
      }
      if down.value {
        length := length - 1;
      } else {
        length := length + 1;
      }
    }
  }

  /** The lengths of one table. */
  method DecodeTable(reader: BitReader, n: nat, start: int) returns (r: Result<seq<nat>, BlockError>)
    requires reader.Valid()
    modifies reader
    ensures reader.Valid() && Agrees(ReadTable(reader.Stream(), old(reader.Pos()), n, start, []), r, reader)
  {
    hide RegisterMatches, BitsOf, ReadLength;
    ghost var s, p := reader.Stream(), reader.Pos();
    var length := start;
    var lengths: seq<nat> := [];
    for j := 0 to n
      invariant reader.Valid() && |lengths| == j && LengthTable(lengths)
      invariant ReadTable(s, reader.Pos(), n, length, lengths) == ReadTable(s, p, n, start, [])
    {
      var len := DecodeLength(reader, length);
      if len.Failure? {
        return Failure(len.error);
      }
      length := len.value;
      lengths := lengths + [len.value];
    }
    r := Success(lengths);
  }

  // ---------------------------------------------------------------------------------------------
  // Trees
  // ---------------------------------------------------------------------------------------------

  /** `trees` decode exactly the codes of the length tables. */
  ghost predicate TreesFor(trees: seq<HuffmanTree>, tables: seq<seq<nat>>, n: nat)
    requires GoodTables(tables, n)
    reads set i | 0 <= i < |trees| :: trees[i].fastTable, set i | 0 <= i < |trees| :: trees[i].nodes
  {
    |trees| == |tables| &&
    forall i :: 0 <= i < |trees| ==> trees[i].Valid() && trees[i].book == BooksOf(tables, n)[i]
  }

  /** The code lengths of every group and the trees built from them. */
  method DecodeTrees(reader: BitReader, groups: nat, n: nat)
      returns (r: Result<seq<HuffmanTree>, BlockError>, ghost tables: seq<seq<nat>>)
    requires reader.Valid() && 0 < n <= MAX_SYMBOLS
    requires !ReadTables(reader.Stream(), reader.Pos(), groups, n, []).Oversubscribed?
    modifies reader
    ensures reader.Valid()
    ensures r.Success? ==>
      && GoodTables(tables, n) && TreesFor(r.value, tables, n)
      && ReadTables(reader.Stream(), old(reader.Pos()), groups, n, []) == Ok(tables, reader.Pos())
    ensures r.Failure? ==> ReadTables(reader.Stream(), old(reader.Pos()), groups, n, []) == Err(r.error)
  {
    hide RegisterMatches, BitsOf, ReadTable, KraftSum, Pow2, Trie, TableSound, PrefixFree, TableCovers, NodeCount, Used, SortByLength, FollowsRule;
    ghost var s, p := reader.Stream(), reader.Pos();
    var trees: seq<HuffmanTree> := [];
    tables := [];
    for g := 0 to groups
      invariant reader.Valid() && |tables| == g && GoodTables(tables, n) && TreesFor(trees, tables, n)
      invariant ReadTables(s, reader.Pos(), groups, n, tables) == ReadTables(s, p, groups, n, [])
    {
      ghost var q := reader.Pos();
      var length := reader.ReadBits(5);
      if length == None {
        return Failure(StartLengthTruncated), tables;
      }
      var lengths := DecodeTable(reader, n, length.value);
      if lengths.Failure? {
        return Failure(lengths.error), tables;
      }
      TableAccepted(s, q, groups, n, tables, length.value, lengths.value, reader.Pos());
      var built := FromLengths(lengths.value);
      SomeSymbol(lengths.value, n);
      trees := trees + [built.tree];
      tables := tables + [lengths.value];
    }
    r := Success(trees);
  }

  lemma TableAccepted(s: Bitstring, q: nat, groups: nat, n: nat, tables: seq<seq<nat>>, start: nat, t: seq<nat>, p2: nat)
    requires q + 5 <= |s| && |tables| < groups && GoodTables(tables, n)
    requires ReadField(s, q, 5, StartLengthTruncated) == Ok(start, q + 5)
    requires ReadTable(s, q + 5, n, start, []) == Ok(t, p2)
    requires !ReadTables(s, q, groups, n, tables).Oversubscribed?
    ensures p2 <= |s| && GoodTable(t, n) && GoodTables(tables + [t], n) && ValidLengths(t)
    ensures ReadTables(s, q, groups, n, tables) == ReadTables(s, p2, groups, n, tables + [t])
  {
    hide ReadTable, KraftSum;
  }

  lemma SomeSymbol(t: seq<nat>, n: nat)
    requires GoodTable(t, n) && n > 0
    ensures !(forall i :: 0 <= i < |t| ==> t[i] == 0)
  {
    assert t[0] >= 1;
  }
}
