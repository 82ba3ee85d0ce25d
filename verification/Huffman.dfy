/** The Huffman decoder: a 10-bit lookup table with a node tree behind it (`src/huffman.rs`). */
module Huffman {
  import opened Wrappers
  import opened Bits
  import opened BitReaders
  import opened CodeBooks
  import opened CanonicalCodes
  import opened Tries

  const FAST_BITS: nat := 10
  const FAST_TABLE_SIZE: nat := 1024
  const MAX_TREE_NODES: nat := 512
  const MAX_SYMBOLS: nat := 258

  // ---------------------------------------------------------------------------------------------
  // Table entries
  // ---------------------------------------------------------------------------------------------

  /** `pack_entry`: symbol above, length in the low five bits. */
  function PackEntry(symbol: nat, len: nat): (e: nat)
    requires symbol < 0x800 && len < 32
    ensures e < 0x1_0000
  {
    PackIsSum(symbol, len);
    BitOr(symbol * 32, len)
  }

  function UnpackSymbol(entry: nat): nat
  {
    entry / 32
  }

  function UnpackLen(entry: nat): nat
  {
    entry % 32
  }

  lemma PackIsSum(symbol: nat, len: nat)
    requires len < 32
    ensures BitOr(symbol * 32, len) == symbol * 32 + len
  {
    hide BitOr;
    assert Pow2(5) == 32;
    BitOrDisjoint(len, symbol, 5);
    BitOrCommutes(symbol * 32, len);
  }

  lemma UnpackPack(symbol: nat, len: nat)
    requires symbol < 0x800 && len < 32
    ensures UnpackSymbol(PackEntry(symbol, len)) == symbol && UnpackLen(PackEntry(symbol, len)) == len
  {
    hide BitOr;
    PackIsSum(symbol, len);
  }

  /** Entry `v` names a word that the ten bits of `v` begin with, or has length 0. */
  ghost predicate EntrySound(e: nat, v: nat, book: Book)
  {
    UnpackLen(e) > 0 ==>
      exists i :: 0 <= i < |book| && book[i].word <= ToBits(v, FAST_BITS)
               && UnpackSymbol(e) == book[i].sym && UnpackLen(e) == |book[i].word|
  }

  ghost predicate TableSound(table: seq<nat>, book: Book)
  {
    |table| == FAST_TABLE_SIZE && forall v :: 0 <= v < FAST_TABLE_SIZE ==> EntrySound(table[v], v, book)
  }

  /** Every word of at most ten bits is found in the table, whatever bits follow it. */
  ghost predicate TableCovers(table: seq<nat>, book: Book)
    requires |table| == FAST_TABLE_SIZE
  {
    forall v, i :: 0 <= v < FAST_TABLE_SIZE && 0 <= i < |book| && book[i].word <= ToBits(v, FAST_BITS) ==> UnpackLen(table[v]) > 0
  }

  class HuffmanTree {
    const fastTable: array<nat>
    const nodes: array<Node>
    ghost const book: Book
    ghost const paths: seq<Bitstring>

    constructor (fastTable: array<nat>, nodes: array<Node>, ghost book: Book, ghost paths: seq<Bitstring>)
      ensures this.fastTable == fastTable && this.nodes == nodes && this.book == book && this.paths == paths
    {
      this.fastTable := fastTable;
      this.nodes := nodes;
      this.book := book;
      this.paths := paths;
    }

    ghost predicate Valid()
      reads fastTable, nodes
    {
      && PrefixFree(book)
      && TableSound(fastTable[..], book)
      && Trie(nodes[..], paths, book, [])
    }

    /** `decode_slow`: walk the tree bit by bit. */
    method DecodeSlow(reader: BitReader) returns (r: Option<nat>)
      requires Valid() && reader.Valid()
      modifies reader
      ensures reader.Valid()
      ensures DecodesAs(r, reader, old(reader.Pos()), book)
    {
      hide Trie, TableSound, PrefixFree, RegisterMatches, BitsOf, IsWord, Extends, Find;
      ghost var s, start := reader.Stream(), reader.Pos();
      var node: nat := 0;
      ghost var p: nat := start;
      RootPath(nodes[..], paths, book);
      while true
        invariant reader.Valid() && Valid()
        invariant p <= reader.Pos() && 0 <= node < |paths| <= nodes.Length
        invariant paths[node] == s[p..reader.Pos()]
        invariant Walk(book, s, p, reader.Pos()) == CodeBooks.Decode(book, s, start)
        decreases |s| - reader.Pos()
      {
        ghost var q := reader.Pos();
        var bit := reader.ReadBit();
        if bit == None {
          return None;
        }
        assert s[p..q + 1] == paths[node] + [bit.value];
        WalkStep(nodes[..], paths, book, node, bit.value);
        assert nodes[..][node] == nodes[node];
        var child := nodes[node].Child(bit.value);
        if child < 0 {
          return Some(-child - 1);
        }
        if child == 0 {
          p := q + 1;
        }
        node := child;
      }
    }

    /** `decode`: the table answers for short words, the tree for the rest and near the end of the
        stream; either way the answer and the bits consumed are those of the plain walk. */
    method Decode(reader: BitReader) returns (r: Option<nat>)
      requires Valid() && reader.Valid()
      modifies reader
      ensures reader.Valid()
      ensures DecodesAs(r, reader, old(reader.Pos()), book)
    {
      hide Trie, PrefixFree, RegisterMatches, BitsOf;
      var bits := reader.Peek(FAST_BITS);
      if bits.Some? {
        ghost var s, p := reader.Stream(), reader.Pos();
        WindowBound(s[p..p + FAST_BITS]);
        var entry := fastTable[bits.value];
        assert fastTable[..][bits.value] == entry;
        var len := UnpackLen(entry);
        if len > 0 {
          FastHit(entry, s, p, book);
          reader.Consume(len);
          return Some(UnpackSymbol(entry));
        }
      }
      r := DecodeSlow(reader);
    }
  }

  /** The reader has moved from `p` over exactly one decoded symbol, or to the end without one. */
  ghost predicate DecodesAs(r: Option<nat>, reader: BitReader, p: nat, book: Book)
    requires reader.Valid() && p <= |reader.Stream()|
    reads reader
  {
    match CodeBooks.Decode(book, reader.Stream(), p)
    case Some(v) => r == Some(v.0) && reader.Pos() == v.1
    case None => r == None && reader.Pos() == |reader.Stream()|
  }

  lemma RootPath(ns: seq<Node>, paths: seq<Bitstring>, book: Book)
    requires Trie(ns, paths, book, [])
    ensures |paths| <= |ns| && 0 < |paths| && paths[0] == []
  {
  }

  lemma WindowBound(w: Bitstring)
    requires |w| == FAST_BITS
    ensures Value(w) < FAST_TABLE_SIZE
  {
    Pow2Values();
  }

  lemma FastHit(entry: nat, s: Bitstring, p: nat, book: Book)
    requires PrefixFree(book) && p + FAST_BITS <= |s|
    requires EntrySound(entry, Value(s[p..p + FAST_BITS]), book) && UnpackLen(entry) > 0
    ensures UnpackLen(entry) <= FAST_BITS
    ensures CodeBooks.Decode(book, s, p) == Some((UnpackSymbol(entry), p + UnpackLen(entry)))
  {
    hide CodeBooks.Decode, PrefixFree, ToBits, Value;
    var w := s[p..p + FAST_BITS];
    ToBitsOfValue(w);
    var i :| 0 <= i < |book| && book[i].word <= w && UnpackSymbol(entry) == book[i].sym && UnpackLen(entry) == |book[i].word|;
    assert s[p..p + |book[i].word|] == w[..|book[i].word|];
    DecodeWord(book, s, p, i);
  }

  // ---------------------------------------------------------------------------------------------
  // Building
  // ---------------------------------------------------------------------------------------------

  datatype Built = Tree(tree: HuffmanTree) | NoSymbolsInTable

  /** Which prefixes of the new word already have nodes: those of at most `d` bits. */
  ghost predicate SharedDepth(book: Book, c: Bitstring, d: nat)
  {
    d < |c| && forall k :: 1 <= k <= |c| ==> (Extends(book, c[..k]) <==> k <= d)
  }

  /** Walks down the bits of one code, adding the missing nodes and the leaf. */
  method InsertCode(ns: array<Node>, nNodes: nat, code: nat, len: nat, sym: nat,
                    ghost paths: seq<Bitstring>, ghost book: Book, ghost d: nat)
      returns (n: nat, ghost paths': seq<Bitstring>)
    requires ns.Length == MAX_TREE_NODES && nNodes == |paths| && len >= 1
    requires Trie(ns[..], paths, book, []) && Apart(book, ToBits(code, len))
    requires SharedDepth(book, ToBits(code, len), d)
    requires nNodes + len - 1 - d < MAX_TREE_NODES
    modifies ns
    ensures n == |paths'| == nNodes + len - 1 - d
    ensures Trie(ns[..], paths', book + [Code(sym, ToBits(code, len))], [])
  {
    hide Trie, Apart, ToBits, Extends;
    ghost var c := ToBits(code, len);
    n, paths' := nNodes, paths;
    var node: nat := 0;
    var bitPos := len;
    RootPath(ns[..], paths, book);
    assert c[..0] == [];
    while bitPos > 0
      invariant 0 <= bitPos <= len
      invariant bitPos > 0 ==>
        && Trie(ns[..], paths', book, c[..len - bitPos])
        && 0 <= node < |paths'| <= ns.Length && paths'[node] == c[..len - bitPos]
        && n == |paths'| == nNodes + (if len - bitPos > d then len - bitPos - d else 0)
      invariant bitPos == 0 ==>
        && Trie(ns[..], paths', book + [Code(sym, c)], [])
        && n == |paths'| == nNodes + len - 1 - d
    {
      bitPos := bitPos - 1;
      ghost var k, before := len - 1 - bitPos, ns[..];
      ToBitsIndex(code, len, bitPos);
      var bit := (code / Pow2(bitPos)) % 2 == 1;
      assert bit == c[k];
      DescendCases(ns[..], paths', book, c, k, node);
      assert ns[..][node] == ns[node];
      var child := ns[node].Child(bit);
      if child > 0 {
        Descend(ns[..], paths', book, c, k, child);
        node := child;
      } else if bitPos > 0 {
        var newIdx := n;
        assert newIdx < MAX_TREE_NODES;
        AddNode(ns[..], paths', book, c, k, node);
        ns[node] := ns[node].With(bit, newIdx);
        assert ns[..] == before[node := before[node].With(bit, newIdx)];
        n := newIdx + 1;
        paths' := paths' + [c[..k + 1]];
        node := newIdx;
      } else {
        assert k == len - 1;
        AddLeaf(ns[..], paths', book, c, node, sym);
        ns[node] := ns[node].With(bit, -(sym + 1));
        assert ns[..] == before[node := before[node].With(bit, -(sym + 1))];
      }
    }
  }

  /** The code number the program holds before it shifts for symbol `idx`. */
  function NextCode(order: Order, idx: nat): nat
    requires Canonical(order) && idx <= |order|
  {
    if idx == 0 then 0 else CodeNum(order, idx - 1) + 1
  }

  function PreviousLength(order: Order, idx: nat): nat
    requires Canonical(order) && order != [] && idx <= |order|
  {
    order[if idx == 0 then 0 else idx - 1].len
  }

  lemma ShiftCode(order: Order, idx: nat)
    requires Canonical(order) && idx < |order|
    ensures PreviousLength(order, idx) <= order[idx].len
    ensures NextCode(order, idx) * Pow2(order[idx].len - PreviousLength(order, idx)) == CodeNum(order, idx)
  {
    if idx > 0 { assert Before(order[idx - 1], order[idx]); }
    hide Pow2;
  }

  /** Exactly how many nodes the first `idx` words need: a complete tree's, and one for each 0 on the
      way to the last word, where the right subtree is still missing. */
  function NodeCount(order: Order, idx: nat): nat
    requires Canonical(order) && idx <= |order|
  {
    if idx == 0 then 1 else idx - 1 + ZeroCount(Word(order, idx - 1))
  }

  lemma NodeBound(order: Order, idx: nat)
    requires Canonical(order) && idx <= |order|
    ensures NodeCount(order, idx) <= idx + 20
  {
  }

  /** What inserting word `idx` finds in the tree. */
  lemma PrepareInsert(order: Order, idx: nat) returns (d: nat)
    requires Canonical(order) && Kraft(order) && idx < |order|
    ensures Apart(BookTo(order, idx), Word(order, idx))
    ensures SharedDepth(BookTo(order, idx), Word(order, idx), d)
    ensures NodeCount(order, idx) + order[idx].len - 1 - d == NodeCount(order, idx + 1)
  {
    hide Word, ZeroCount, Kraft;
    BookToPrefixFree(order, idx);
    var c := Word(order, idx);
    if idx == 0 {
      d := 0;
      FirstWordZeros(order);
    } else {
      var prev := Word(order, idx - 1);
      d := NextWord(order, idx);
      NextWordIsFresh(order, idx, d);
      var book := BookTo(order, idx);
      forall k | 1 <= k <= |c|
        ensures Extends(book, c[..k]) <==> k <= d
      {
        if k <= d {
          assert c[..k] == c[..d][..k] == prev[..k];
          assert c[..k] <= book[idx - 1].word;
        } else {
          assert c[..d + 1] <= c[..k];
          ExtendsShorter(book, c[..d + 1], c[..k]);
        }
      }
    }
  }

  lemma FirstWordZeros(order: Order)
    requires Canonical(order) && order != []
    ensures ZeroCount(Word(order, 0)) == order[0].len
  {
    ToBitsZeros(order[0].len);
    ZeroCountZeros([], order[0].len);
    assert [] + Zeros(order[0].len) == Zeros(order[0].len);
  }

  /** The first loop of `from_lengths`: which symbols are used. */
  method CollectSymbols(lengths: seq<nat>) returns (symbols: seq<Entry>)
    requires ValidLengths(lengths)
    ensures symbols == Used(lengths)
  {
    symbols := [];
    for i := 0 to |lengths|
      invariant symbols == Used(lengths[..i])
    {
      assert lengths[..i + 1][..i] == lengths[..i];
      if lengths[i] > 0 {
        symbols := symbols + [Entry(i, lengths[i])];
      }
    }
    assert lengths[..|lengths|] == lengths;
  }

  /** One assigned code. */
  datatype CodeEntry = CodeEntry(code: nat, len: nat, sym: nat)

  ghost predicate EntriesMatch(entries: seq<CodeEntry>, order: Order)
    requires Canonical(order)
  {
    |entries| <= |order| &&
    forall j :: 0 <= j < |entries| ==> entries[j] == CodeEntry(CodeNum(order, j), order[j].len, order[j].sym)
  }

  /** The second loop of `from_lengths`: assigns the codes and grows the tree. */
  method BuildTree(ns: array<Node>, order: Order) returns (entries: seq<CodeEntry>, ghost paths: seq<Bitstring>)
    requires ns.Length == MAX_TREE_NODES && forall k :: 0 <= k < ns.Length ==> ns[k] == EMPTY
    requires Canonical(order) && Kraft(order) && 0 < |order| <= MAX_SYMBOLS
    modifies ns
    ensures Trie(ns[..], paths, BookOf(order), []) && |paths| == NodeCount(order, |order|)
    ensures |entries| == |order| && EntriesMatch(entries, order)
  {
    hide Trie, Word, CodeNum, Kraft, SharedDepth, Apart, ZeroCount, Extends;
    TrieStart(ns[..]);
    paths := [[]];
    entries := [];
    var nNodes: nat := 1;
    var code: nat := 0;
    var prevLen := order[0].len;
    assert BookTo(order, 0) == [];
    for idx := 0 to |order|
      invariant |entries| == idx && EntriesMatch(entries, order)
      invariant code == NextCode(order, idx) && prevLen == PreviousLength(order, idx)
      invariant nNodes == |paths| == NodeCount(order, idx)
      invariant Trie(ns[..], paths, BookTo(order, idx), [])
    {
      var sym, len := order[idx].sym, order[idx].len;
      ShiftCode(order, idx);
      code := code * Pow2(len - prevLen);
      prevLen := len;
      entries := entries + [CodeEntry(code, len, sym)];
      ghost var d := PrepareInsert(order, idx);
      NodeBound(order, idx + 1);
      WordOfCode(order, idx);
      nNodes, paths := InsertCode(ns, nNodes, code, len, sym, paths, BookTo(order, idx), d);
      assert BookTo(order, idx + 1) == BookTo(order, idx) + [Code(sym, ToBits(code, len))];
      code := code + 1;
    }
  }

  lemma WordOfCode(order: Order, idx: nat)
    requires Canonical(order) && idx < |order|
    ensures Word(order, idx) == ToBits(CodeNum(order, idx), order[idx].len)
  {
  }

  // ---------------------------------------------------------------------------------------------
  // The lookup table
  // ---------------------------------------------------------------------------------------------

  /** Every short word among the first `n` is in the table. */
  ghost predicate CoversTo(table: seq<nat>, book: Book, n: nat)
    requires |table| == FAST_TABLE_SIZE && n <= |book|
  {
    forall v, i :: 0 <= v < FAST_TABLE_SIZE && 0 <= i < n && book[i].word <= ToBits(v, FAST_BITS) ==> UnpackLen(table[v]) > 0
  }

  /** The windows that begin with a short word are consecutive and lie inside the table. */
  lemma FastRange(order: Order, i: nat, v: nat)
    requires Canonical(order) && Kraft(order) && i < |order| && order[i].len <= FAST_BITS && v < FAST_TABLE_SIZE
    ensures var pad, base := FAST_BITS - order[i].len, CodeNum(order, i) * Pow2(FAST_BITS - order[i].len);
      && base + Pow2(pad) <= FAST_TABLE_SIZE
      && (Word(order, i) <= ToBits(v, FAST_BITS) <==> base <= v < base + Pow2(pad))
  {
    hide CodeNum, Word, Kraft, ToBits, Value, Pow2;
    var len := order[i].len;
    CodeFits(order, i);
    Pow2Values();
    Pow2Add(len, FAST_BITS - len);
    MulMono(CodeNum(order, i) + 1, Pow2(len), Pow2(FAST_BITS - len));
    Distributes(CodeNum(order, i), Pow2(FAST_BITS - len));
    ValueOfToBits(v, FAST_BITS);
    PrefixInterval(Word(order, i), ToBits(v, FAST_BITS));
  }

  lemma FastRangeInside(order: Order, i: nat)
    requires Canonical(order) && Kraft(order) && i < |order| && order[i].len <= FAST_BITS
    ensures CodeNum(order, i) * Pow2(FAST_BITS - order[i].len) + Pow2(FAST_BITS - order[i].len) <= FAST_TABLE_SIZE
  {
    FastRange(order, i, 0);
  }

  /** `base | suffix` adds, because `base` has zeros where `suffix` has bits. */
  lemma BaseOrSuffix(code: nat, pad: nat, suffix: nat)
    requires suffix < Pow2(pad)
    ensures BitOr(code * Pow2(pad), suffix) == code * Pow2(pad) + suffix
  {
    hide BitOr, Pow2;
    BitOrCommutes(code * Pow2(pad), suffix);
    BitOrDisjoint(suffix, code, pad);
  }

  lemma StoreSound(table: seq<nat>, book: Book, n: nat, v: nat, e: nat)
    requires TableSound(table, book) && n <= |book| && CoversTo(table, book, n)
    requires v < FAST_TABLE_SIZE && EntrySound(e, v, book) && UnpackLen(e) > 0
    ensures TableSound(table[v := e], book) && CoversTo(table[v := e], book, n)
  {
    hide EntrySound, ToBits;
  }

  lemma EntryOfWord(book: Book, i: nat, v: nat)
    requires i < |book| && book[i].word <= ToBits(v, FAST_BITS) && book[i].sym < 0x800 && |book[i].word| < 32
    ensures EntrySound(PackEntry(book[i].sym, |book[i].word|), v, book)
    ensures UnpackLen(PackEntry(book[i].sym, |book[i].word|)) == |book[i].word|
  {
    hide PackEntry, ToBits, UnpackSymbol, UnpackLen;
    UnpackPack(book[i].sym, |book[i].word|);
  }

  /** Stores one short code under all its windows. */
  method StoreCode(table: array<nat>, order: Order, idx: nat, code: nat)
    requires Canonical(order) && Kraft(order) && idx < |order| <= MAX_SYMBOLS
    requires order[idx].sym < MAX_SYMBOLS && order[idx].len <= FAST_BITS && code == CodeNum(order, idx)
    requires TableSound(table[..], BookOf(order)) && CoversTo(table[..], BookOf(order), idx)
    modifies table
    ensures TableSound(table[..], BookOf(order)) && CoversTo(table[..], BookOf(order), idx + 1)
  {
    hide TableSound, CoversTo, Kraft, CodeNum, Word, EntrySound, ToBits, Pow2, BitOr;
    ghost var book := BookOf(order);
    var len, sym := order[idx].len, order[idx].sym;
    var pad := FAST_BITS - len;
    var base := code * Pow2(pad);
    var entry := PackEntry(sym, len);
    UnpackPack(sym, len);
    FastRangeInside(order, idx);
    TableSize(table[..], book);
    for suffix := 0 to Pow2(pad)
      invariant TableSound(table[..], book) && table.Length == FAST_TABLE_SIZE && CoversTo(table[..], book, idx)
      invariant forall v :: base <= v < base + suffix ==> table[v] == entry
    {
      BaseOrSuffix(code, pad, suffix);
      var at := BitOr(base, suffix);
      FastRange(order, idx, at);
      assert book[idx] == Code(sym, Word(order, idx));
      EntryOfWord(book, idx, at);
      StoreSound(table[..], book, idx, at, entry);
      ghost var before := table[..];
      table[at] := entry;
      assert table[..] == before[at := entry];
    }
    TableSize(table[..], book);
    CoverNext(table[..], order, idx, entry, base, pad);
  }

  lemma TableSize(table: seq<nat>, book: Book)
    requires TableSound(table, book)
    ensures |table| == FAST_TABLE_SIZE
  {
  }

  lemma CoverNext(table: seq<nat>, order: Order, idx: nat, entry: nat, base: nat, pad: nat)
    requires Canonical(order) && Kraft(order) && idx < |order| && order[idx].len + pad == FAST_BITS
    requires |table| == FAST_TABLE_SIZE && CoversTo(table, BookOf(order), idx)
    requires base == CodeNum(order, idx) * Pow2(pad) && base + Pow2(pad) <= FAST_TABLE_SIZE
    requires UnpackLen(entry) > 0
    requires forall v :: base <= v < base + Pow2(pad) ==> table[v] == entry
    ensures CoversTo(table, BookOf(order), idx + 1)
  {
    hide CodeNum, Kraft, Word, ToBits, Pow2;
    var book := BookOf(order);
    forall v, i | 0 <= v < FAST_TABLE_SIZE && 0 <= i < idx + 1 && book[i].word <= ToBits(v, FAST_BITS)
      ensures UnpackLen(table[v]) > 0
    {
      if i == idx { FastRange(order, idx, v); }
    }
  }

  /** The last loop of `from_lengths`: the short codes go into the table. */
  method BuildTable(table: array<nat>, order: Order, entries: seq<CodeEntry>)
    requires table.Length == FAST_TABLE_SIZE && forall v :: 0 <= v < table.Length ==> table[v] == 0
    requires Canonical(order) && Kraft(order) && |order| <= MAX_SYMBOLS
    requires forall i :: 0 <= i < |order| ==> order[i].sym < MAX_SYMBOLS
    requires |entries| == |order| && EntriesMatch(entries, order)
    modifies table
    ensures TableSound(table[..], BookOf(order)) && TableCovers(table[..], BookOf(order))
  {
    hide Kraft, CodeNum, Word, ToBits, EntrySound;
    ghost var book := BookOf(order);
    EmptyTable(table[..], book);
    for idx := 0 to |entries|
      invariant TableSound(table[..], book) && CoversTo(table[..], book, idx)
    {
      var entry := entries[idx];
      if entry.len <= FAST_BITS {
        StoreCode(table, order, idx, entry.code);
      } else {
        LongWord(table[..], book, idx);
      }
    }
  }

  lemma EmptyTable(table: seq<nat>, book: Book)
    requires |table| == FAST_TABLE_SIZE && forall v :: 0 <= v < |table| ==> table[v] == 0
    ensures TableSound(table, book) && CoversTo(table, book, 0)
  {
  }

  lemma LongWord(table: seq<nat>, book: Book, idx: nat)
    requires |table| == FAST_TABLE_SIZE && idx < |book| && CoversTo(table, book, idx) && |book[idx].word| > FAST_BITS
    ensures CoversTo(table, book, idx + 1)
  {
  }

  /** `from_lengths`: for lengths that satisfy the Kraft inequality the result is a tree for exactly
      the canonical book, whose codes are those of the rule of RFC 1951; the node array never overflows, and only a table without symbols fails. */
  method FromLengths(lengths: seq<nat>) returns (r: Built)
    requires |lengths| <= MAX_SYMBOLS && ValidLengths(lengths) && KraftSum(lengths) <= Pow2(MAX_LEN)
    ensures r.NoSymbolsInTable? <==> forall i :: 0 <= i < |lengths| ==> lengths[i] == 0
    ensures r.Tree? ==>
      && r.tree.Valid() && r.tree.book == BookOf(OrderOf(lengths)) && FollowsRule(lengths, r.tree.book)
      && TableCovers(r.tree.fastTable[..], r.tree.book)
      && |r.tree.paths| == NodeCount(OrderOf(lengths), |OrderOf(lengths)|) <= |OrderOf(lengths)| + 20
      && fresh(r.tree) && fresh(r.tree.fastTable) && fresh(r.tree.nodes)
  {
    hide Kraft, KraftSum, Trie, TableSound, TableCovers, PrefixFree, Used, SortByLength, BookTo, NodeCount, Pow2, FollowsRule;
    KraftOfLengths(lengths);
    var symbols := CollectSymbols(lengths);
    if |symbols| == 0 {
      NothingUsed(lengths);
      return NoSymbolsInTable;
    }
    symbols := SortByLength(symbols);
    assert symbols == OrderOf(lengths) && symbols[0] in symbols;
    assert forall i :: 0 <= i < |symbols| ==> symbols[i] in symbols;
    var nodes := new Node[MAX_TREE_NODES](_ => EMPTY);
    var table := new nat[FAST_TABLE_SIZE](_ => 0);
    ghost var paths;
    var entries;
    entries, paths := BuildTree(nodes, symbols);
    BuildTable(table, symbols, entries);
    CanonicalPrefixFree(symbols);
    NodeBound(symbols, |symbols|);
    var tree := new HuffmanTree(table, nodes, BookOf(symbols), paths);
    BookFollowsRule(lengths);
    r := Tree(tree);
  }

  lemma NothingUsed(lengths: seq<nat>)
    requires ValidLengths(lengths) && |Used(lengths)| == 0
    ensures forall i :: 0 <= i < |lengths| ==> lengths[i] == 0
  {
    forall i | 0 <= i < |lengths|
      ensures lengths[i] == 0
    {
      if lengths[i] > 0 { UsedMember(lengths, i); }
    }
  }

  lemma UsedMember(lengths: seq<nat>, i: nat)
    requires ValidLengths(lengths) && i < |lengths| && lengths[i] > 0
    ensures Used(lengths) != []
  {
    assert Entry(i, lengths[i]) in Used(lengths);
  }
}
