/** The block format as a parser on plain bit strings.

    Every parser takes the stream and a position and gives a value with the position after it, or
    the error the decoder reports.  `Oversubscribed` marks code lengths that break the Kraft
    inequality: the decoder builds a meaningless tree from these without noticing, and what it does
    then is not part of this model. */
module BlockSpec {
  import opened Wrappers
  import opened Errors
  import opened Bits
  import opened Mtf
  import opened CodeBooks
  import opened CanonicalCodes
  import opened SymbolTheory

  const MAX_SELECTORS: nat := 18002
  const GROUP_SIZE: nat := 50

  datatype Parse<+T> = Ok(value: T, pos: nat) | Err(error: BlockError) | Oversubscribed
  {
    predicate IsFailure()
    {
      !Ok?
    }

    function PropagateFailure<U>(): Parse<U>
      requires IsFailure()
    {
      match this
      case Err(e) => Err(e)
      case Oversubscribed => Oversubscribed
    }

    function Extract(): (T, nat)
      requires !IsFailure()
    {
      (value, pos)
    }
  }

  // ---------------------------------------------------------------------------------------------
  // Fields
  // ---------------------------------------------------------------------------------------------

  function ReadField(bits: Bitstring, p: nat, n: nat, e: BlockError): (r: Parse<nat>)
    requires p <= |bits|
    ensures r.Ok? ==> r.pos == p + n <= |bits|
  {
    if p + n <= |bits| then Ok(Value(bits[p..p + n]), p + n) else Err(e)
  }

  function ReadFlags(bits: Bitstring, p: nat, n: nat, e: BlockError): (r: Parse<seq<bool>>)
    requires p <= |bits|
    ensures r.Ok? ==> r.pos == p + n <= |bits| && |r.value| == n
  {
    if p + n <= |bits| then Ok(bits[p..p + n], p + n) else Err(e)
  }

  // ---------------------------------------------------------------------------------------------
  // The bytes in use
  // ---------------------------------------------------------------------------------------------

  /** The bytes `base + j` whose flag `j` is set. */
  function Flagged(base: nat, flags: seq<bool>): (r: seq<Byte>)
    requires base + |flags| <= 256
    ensures |r| <= |flags|
  {
    if flags == [] then []
    else
      var n := |flags| - 1;
      if flags[n] then Flagged(base, flags[..n]) + [base + n] else Flagged(base, flags[..n])
  }

  /** The per-byte flags of the ranges from `k` on that are present. */
  function ReadUsed(bits: Bitstring, p: nat, ranges: seq<bool>, k: nat, acc: seq<Byte>): (r: Parse<seq<Byte>>)
    requires p <= |bits| && |ranges| == 16 && k <= 16 && |acc| <= 16 * k
    ensures r.Ok? ==> p <= r.pos <= |bits| && |r.value| <= 256
    decreases 16 - k
  {
    if k == 16 then Ok(acc, p)
    else if !ranges[k] then ReadUsed(bits, p, ranges, k + 1, acc)
    else
      var (flags, p1) :- ReadFlags(bits, p, 16, SymbolBitmapTruncated);
      ReadUsed(bits, p1, ranges, k + 1, acc + Flagged(16 * k, flags))
  }

  // ---------------------------------------------------------------------------------------------
  // Selectors
  // ---------------------------------------------------------------------------------------------

  /** A number below `groups` in unary. */
  function ReadUnary(bits: Bitstring, p: nat, groups: nat, count: nat): (r: Parse<nat>)
    requires p <= |bits| && count < groups
    ensures r.Ok? ==> p < r.pos <= |bits| && r.value < groups
    decreases |bits| - p
  {
    if p == |bits| then Err(SelectorBitTruncated)
    else if !bits[p] then Ok(count, p + 1)
    else if count + 1 >= groups then Err(SelectorTooLarge)
    else ReadUnary(bits, p + 1, groups, count + 1)
  }

  /** The move-to-front list of the selectors: its first `groups` entries stay table numbers. */
  predicate SelectorList(list: seq<Byte>, groups: nat)
  {
    |list| == 256 && 0 < groups <= 256 && forall i :: 0 <= i < groups ==> list[i] < groups
  }

  lemma SelectorListKept(list: seq<Byte>, groups: nat, k: nat)
    requires SelectorList(list, groups) && k < groups
    ensures SelectorList(ToFront(list, k), groups)
  {
  }

  function ReadSelectors(bits: Bitstring, p: nat, n: nat, groups: nat, list: seq<Byte>, acc: seq<Byte>): (r: Parse<seq<Byte>>)
    requires p <= |bits| && SelectorList(list, groups) && |acc| <= n
    requires forall i :: 0 <= i < |acc| ==> acc[i] < groups
    ensures r.Ok? ==> p <= r.pos <= |bits| && |r.value| == n && forall i :: 0 <= i < n ==> r.value[i] < groups
    decreases n - |acc|
  {
    if |acc| == n then Ok(acc, p)
    else
      var (t, p1) :- ReadUnary(bits, p, groups, 0);
      SelectorListKept(list, groups, t);
      ReadSelectors(bits, p1, n, groups, ToFront(list, t), acc + [list[t]])
  }

  // ---------------------------------------------------------------------------------------------
  // Code lengths
  // ---------------------------------------------------------------------------------------------

  /** Adjusts `length` up or down one at a time until a 0 bit accepts it. */
  function ReadLength(bits: Bitstring, p: nat, length: int): (r: Parse<nat>)
    requires p <= |bits|
    ensures r.Ok? ==> p < r.pos <= |bits| && 1 <= r.value <= MAX_LEN
    decreases |bits| - p
  {
    if length < 1 || length > 20 then Err(LengthOutOfRange)
    else if p == |bits| then Err(AdjustBit1Truncated)
    else if !bits[p] then Ok(length, p + 1)
    else if p + 1 == |bits| then Err(AdjustBit2Truncated)
    else ReadLength(bits, p + 2, if bits[p + 1] then length - 1 else length + 1)
  }

  /** The length table of one group is complete: every symbol has an allowed length. */
  predicate LengthTable(t: seq<nat>)
  {
    forall i :: 0 <= i < |t| ==> 1 <= t[i] <= MAX_LEN
  }

  function ReadTable(bits: Bitstring, p: nat, n: nat, length: int, acc: seq<nat>): (r: Parse<seq<nat>>)
    requires p <= |bits| && |acc| <= n && LengthTable(acc)
    ensures r.Ok? ==> p <= r.pos <= |bits| && |r.value| == n && LengthTable(r.value)
    decreases n - |acc|
  {
    if |acc| == n then Ok(acc, p)
    else
      var (len, p1) :- ReadLength(bits, p, length);
      ReadTable(bits, p1, n, len, acc + [len])
  }

  /** Tables for `n` symbols each that no decoder could misread. */
  predicate GoodTables(tables: seq<seq<nat>>, n: nat)
  {
    forall i :: 0 <= i < |tables| ==> GoodTable(tables[i], n)
  }

  predicate GoodTable(t: seq<nat>, n: nat)
  {
    |t| == n && LengthTable(t) && KraftSum(t) <= Pow2(MAX_LEN)
  }

  function ReadTables(bits: Bitstring, p: nat, groups: nat, n: nat, acc: seq<seq<nat>>): (r: Parse<seq<seq<nat>>>)
    requires p <= |bits| && |acc| <= groups && GoodTables(acc, n)
    ensures r.Ok? ==> p <= r.pos <= |bits| && |r.value| == groups && GoodTables(r.value, n)
    decreases groups - |acc|
  {
    if |acc| == groups then Ok(acc, p)
    else
      var (start, p1) :- ReadField(bits, p, 5, StartLengthTruncated);
      var (t, p2) :- ReadTable(bits, p1, n, start, []);
      if KraftSum(t) > Pow2(MAX_LEN) then Oversubscribed
      else ReadTables(bits, p2, groups, n, acc + [t])
  }

  // ---------------------------------------------------------------------------------------------
  // The header
  // ---------------------------------------------------------------------------------------------

  datatype Header = Header(origPtr: nat, used: seq<Byte>, selectors: seq<Byte>, tables: seq<seq<nat>>)

  predicate GoodHeader(h: Header)
  {
    && 0 < |h.used| <= 256
    && 2 <= |h.tables| <= 6 && GoodTables(h.tables, |h.used| + 2)
    && |h.selectors| <= MAX_SELECTORS
    && (forall i :: 0 <= i < |h.selectors| ==> h.selectors[i] < |h.tables|)
  }

  /** The list `MtfDecoder::new` starts with. */
  function Identity(): (list: seq<Byte>)
    ensures |list| == 256 && forall i :: 0 <= i < 256 ==> list[i] == i
  {
    seq(256, i requires 0 <= i < 256 => i)
  }

  function ReadStart(bits: Bitstring, p: nat): (r: Parse<nat>)
    requires p <= |bits|
    ensures r.Ok? ==> r.pos == p + 57 <= |bits|
  {
    var (_, p1) :- ReadField(bits, p, 32, CrcTruncated);
    var (flag, p2) :- ReadField(bits, p1, 1, RandomisedFlagTruncated);
    if flag != 0 then Err(RandomisedUnsupported) else ReadField(bits, p2, 24, OrigPtrTruncated)
  }

  function ReadAlphabet(bits: Bitstring, p: nat): (r: Parse<seq<Byte>>)
    requires p <= |bits|
    ensures r.Ok? ==> p <= r.pos <= |bits| && 0 < |r.value| <= 256
  {
    var (ranges, p1) :- ReadFlags(bits, p, 16, SymbolRangeTruncated);
    var (used, p2) :- ReadUsed(bits, p1, ranges, 0, []);
    if |used| == 0 then Err(NoSymbols) else Ok(used, p2)
  }

  datatype Coding = Coding(selectors: seq<Byte>, tables: seq<seq<nat>>)

  function ReadCoding(bits: Bitstring, p: nat, n: nat): (r: Parse<Coding>)
    requires p <= |bits|
    ensures r.Ok? ==>
      && p <= r.pos <= |bits|
      && 2 <= |r.value.tables| <= 6 && GoodTables(r.value.tables, n)
      && |r.value.selectors| <= MAX_SELECTORS
      && forall i :: 0 <= i < |r.value.selectors| ==> r.value.selectors[i] < |r.value.tables|
  {
    var (groups, p1) :- ReadField(bits, p, 3, GroupsTruncated);
    if groups < 2 || groups > 6 then Err(BadGroups)
    else
      var (nSelectors, p2) :- ReadField(bits, p1, 15, SelectorsUsedTruncated);
      if nSelectors > MAX_SELECTORS then Err(TooManySelectors)
      else
        var (selectors, p3) :- ReadSelectors(bits, p2, nSelectors, groups, Identity(), []);
        var (tables, p4) :- ReadTables(bits, p3, groups, n, []);
        Ok(Coding(selectors, tables), p4)
  }

  function ReadHeader(bits: Bitstring, p: nat): (r: Parse<Header>)
    requires p <= |bits|
    ensures r.Ok? ==> p + 57 <= r.pos <= |bits| && GoodHeader(r.value)
  {
    var (origPtr, p1) :- ReadStart(bits, p);
    var (used, p2) :- ReadAlphabet(bits, p1);
    var (coding, p3) :- ReadCoding(bits, p2, |used| + 2);
    Ok(Header(origPtr, used, coding.selectors, coding.tables), p3)
  }

  // ---------------------------------------------------------------------------------------------
  // The coded symbols
  // ---------------------------------------------------------------------------------------------

  /** The code of a length table. */
  function BookOfTable(t: seq<nat>): (book: Book)
    requires ValidLengths(t)
    ensures forall i :: 0 <= i < |book| ==> book[i].sym < |t|
  {
    var order := OrderOf(t);
    assert forall i :: 0 <= i < |order| ==> order[i] in order;
    BookOf(order)
  }

  function BooksOf(tables: seq<seq<nat>>, n: nat): (books: seq<Book>)
    requires GoodTables(tables, n)
    ensures |books| == |tables|
    ensures forall k :: 0 <= k < |books| ==> ValidLengths(tables[k]) && books[k] == BookOfTable(tables[k])
  {
    seq(|tables|, k requires 0 <= k < |tables| => assert GoodTable(tables[k], n); BookOfTable(tables[k]))
  }

  /** Symbols of every book lie in the alphabet `0..eob`. */
  predicate Alphabet(books: seq<Book>, eob: nat)
  {
    forall k, i :: 0 <= k < |books| && 0 <= i < |books[k]| ==> books[k][i].sym <= eob
  }

  lemma BooksAlphabet(tables: seq<seq<nat>>, n: nat)
    requires GoodTables(tables, n) && n > 0
    ensures Alphabet(BooksOf(tables, n), n - 1)
  {
    var books: seq<Book> := BooksOf(tables, n);
    forall k: int | 0 <= k < |books|
      ensures forall i :: 0 <= i < |books[k]| ==> books[k][i].sym <= n - 1
    {
      assert GoodTable(tables[k], n);
    }
  }

  /** Decodes symbols with the table `cur`, `left` of them before the next selector is due, until the
      symbol stage ends or fails. */
  function ReadSymbols(books: seq<Book>, selectors: seq<Byte>, eob: nat, max: nat, bits: Bitstring,
                       p: nat, selIdx: nat, cur: nat, left: nat, st: Stage): (r: Parse<seq<Byte>>)
    requires p <= |bits| && cur < |books| && left <= GROUP_SIZE && eob <= 257
    requires Alphabet(books, eob) && st.Valid(max)
    ensures r.Ok? ==> p < r.pos <= |bits| && |r.value| <= max
    decreases |bits| - p, if left == 0 then 1 else 0
  {
    if left == 0 then
      if selIdx + 1 >= |selectors| then Err(OutOfSelectors)
      else if selectors[selIdx + 1] >= |books| then Err(SelectorOutOfRange)
      else ReadSymbols(books, selectors, eob, max, bits, p, selIdx + 1, selectors[selIdx + 1], GROUP_SIZE, st)
    else
      match Decode(books[cur], bits, p)
      case None => Err(BitstreamTruncated)
      case Some(d) =>
        match Step(st, d.0, eob, max)
        case Fail(e) => Err(e)
        case Done(out) => Ok(out, d.1)
        case More(next) => ReadSymbols(books, selectors, eob, max, bits, d.1, selIdx, cur, left - 1, next)
  }

  /** The move-to-front list a block starts with: the bytes in use, then zeros. */
  function StartList(used: seq<Byte>): (list: seq<Byte>)
    requires |used| <= 256
    ensures |list| == 256 && list[..|used|] == used
  {
    used + seq(256 - |used|, _ => 0)
  }

  function FirstTable(selectors: seq<Byte>): nat
  {
    if selectors == [] then 0 else selectors[0]
  }

  /** The last column and the row index of a block. */
  datatype Column = Column(bytes: seq<Byte>, origPtr: nat)

  function ReadBody(bits: Bitstring, p: nat, h: Header, max: nat): (r: Parse<Column>)
    requires p <= |bits| && GoodHeader(h)
    ensures r.Ok? ==> p < r.pos <= |bits| && r.value.origPtr < |r.value.bytes| <= max
  {
    var n := |h.used| + 2;
    BooksAlphabet(h.tables, n);
    var (out, p1) :- ReadSymbols(BooksOf(h.tables, n), h.selectors, n - 1, max, bits,
                            p, 0, FirstTable(h.selectors), GROUP_SIZE, Stage(StartList(h.used), [], 0, 0));
    if h.origPtr >= |out| then Err(OrigPtrOutOfBounds) else Ok(Column(out, h.origPtr), p1)
  }

  /** Everything before the inverse transform. */
  function ReadColumn(bits: Bitstring, p: nat, max: nat): (r: Parse<Column>)
    requires p <= |bits|
    ensures r.Ok? ==> p + 57 < r.pos <= |bits| && r.value.origPtr < |r.value.bytes| <= max
  {
    var (h, p1) :- ReadHeader(bits, p);
    ReadBody(bits, p1, h, max)
  }
}
