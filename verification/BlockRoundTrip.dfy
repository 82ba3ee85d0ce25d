/** A whole block: what the decoder makes of it, and that it inverts the reference compressor. */
module BlockRoundTrip {
  import opened Wrappers
  import opened Errors
  import opened Bits
  import opened BwtTheory
  import opened Mtf
  import opened CodeBooks
  import opened CanonicalCodes
  import opened SymbolTheory
  import opened BlockSpec
  import opened BlockEncode
  import opened BlockLocal
  import RleTheory

  // ---------------------------------------------------------------------------------------------
  // Decoding
  // ---------------------------------------------------------------------------------------------

  /** The run-length string a column stands for: what the inverse transform gives. */
  ghost function StringOf(c: Column): (x: seq<Byte>)
    requires c.origPtr < |c.bytes|
    ensures |x| == |c.bytes|
  {
    var t := TVector(c.bytes);
    Chase(c.bytes, t, t[c.origPtr], |c.bytes|)
  }

  /** Its text: the expansion. */
  ghost function TextOf(c: Column): (d: seq<Byte>)
    requires c.origPtr < |c.bytes|
    ensures d != []
  {
    hide Chase;
    RleTheory.DecodeNonempty(StringOf(c));
    RleTheory.Decode(StringOf(c))
  }

  /** Decoding the block behind a block magic: its bytes and the position after it. */
  ghost function ReadBlock(bits: Bitstring, p: nat, max: nat): (r: Parse<seq<Byte>>)
    requires p <= |bits|
    ensures r.Ok? ==> p + 57 < r.pos <= |bits| && r.value != []
  {
    match ReadColumn(bits, p, max)
    case Ok(c, p1) => Ok(TextOf(c), p1)
    case Err(e) => Err(e)
    case Oversubscribed => Oversubscribed
  }

  /** The same with the allocating expansion, whose memory is safe only for some blocks: what becomes of
      the others is not the decoder's to say, and stands here as `WriteBehindVector`. */
  ghost function AllocBlock(bits: Bitstring, p: nat, max: nat): (r: Parse<seq<Byte>>)
    requires p <= |bits|
    ensures r.Ok? ==> p + 57 < r.pos <= |bits| && r.value != []
  {
    match ReadColumn(bits, p, max)
    case Ok(c, p1) => if RleTheory.Inside(RleTheory.Guaranteed, StringOf(c)) then Ok(TextOf(c), p1) else Err(WriteBehindVector)
    case Err(e) => Err(e)
    case Oversubscribed => Oversubscribed
  }

  /** Where the memory is safe, the allocating form and the form with a buffer agree. */
  lemma AllocIsRead(bits: Bitstring, p: nat, max: nat)
    requires p <= |bits|
    ensures AllocBlock(bits, p, max) == ReadBlock(bits, p, max) ||
            (AllocBlock(bits, p, max) == Err(WriteBehindVector) && ReadBlock(bits, p, max).Ok?)
    ensures AllocBlock(bits, p, max).Oversubscribed? <==> ReadBlock(bits, p, max).Oversubscribed?
  {
    hide ReadColumn, TextOf, StringOf, RleTheory.Inside;
  }

  /** Decoding a block is history-free and prefix-stable: its bits decode to the same bytes wherever
      they stand, whatever comes before and after them. */
  lemma BlockIsLocal(bits: Bitstring, p: nat, max: nat, other: Bitstring, d: int)
    requires p <= |bits| && ReadBlock(bits, p, max).Ok? && Agree(bits, other, d, p, ReadBlock(bits, p, max).pos)
    ensures ReadBlock(other, p + d, max) == Ok(ReadBlock(bits, p, max).value, ReadBlock(bits, p, max).pos + d)
  {
    hide ReadColumn;
    ColumnLocal(bits, p, max, other, d, ReadBlock(bits, p, max).pos);
  }

  lemma AllocIsLocal(bits: Bitstring, p: nat, max: nat, other: Bitstring, d: int)
    requires p <= |bits| && AllocBlock(bits, p, max).Ok? && Agree(bits, other, d, p, AllocBlock(bits, p, max).pos)
    ensures AllocBlock(other, p + d, max) == Ok(AllocBlock(bits, p, max).value, AllocBlock(bits, p, max).pos + d)
  {
    hide ReadColumn, TextOf, StringOf, RleTheory.Inside;
    ColumnLocal(bits, p, max, other, d, AllocBlock(bits, p, max).pos);
  }

  /** Decoding a block depends only on the bits from its start on: behind any other beginning it has
      the same outcome, errors included. */
  lemma BlockIsHistoryFree(bits: Bitstring, p: nat, max: nat, other: Bitstring, d: int)
    requires Agree(bits, other, d, p, |bits|) && |other| == |bits| + d
    ensures var r, r' := ReadBlock(bits, p, max), ReadBlock(other, p + d, max);
      if r.Ok? then r' == Ok(r.value, r.pos + d) else r' == r
  {
    hide ReadColumn;
    ColumnLocal(bits, p, max, other, d, |bits|);
  }

  // ---------------------------------------------------------------------------------------------
  // Encoding
  // ---------------------------------------------------------------------------------------------

  /** A column with everything the format leaves to the compressor. */
  datatype Plan = Plan(crc: nat, column: Column, selectors: seq<Byte>, tables: seq<seq<nat>>)

  function UsedOf(l: seq<Byte>): (used: seq<Byte>)
    ensures |used| <= 256
  {
    Flagged(0, FlagsOf(l))
  }

  lemma {:induction false} UsedCovers(l: seq<Byte>)
    ensures forall b :: b in l ==> b in UsedOf(l)
    ensures l != [] ==> UsedOf(l) != []
    ensures Drawn(l, StartList(UsedOf(l)), |UsedOf(l)|)
  {
    forall b | b in l
      ensures b in UsedOf(l)
    {
      FlaggedMember(0, FlagsOf(l), b);
    }
    if l != [] { assert l[0] in UsedOf(l); }
  }

  function SymbolsOf(l: seq<Byte>): (syms: seq<nat>)
    requires l != []
    ensures |syms| <= |l| + 1
    ensures forall i :: 0 <= i < |syms| ==> syms[i] <= |UsedOf(l)| + 1
  {
    UsedCovers(l);
    Encode(StartList(UsedOf(l)), |UsedOf(l)|, l)
  }

  /** The choices the format allows. */
  predicate ValidPlan(plan: Plan, max: nat)
  {
    var l := plan.column.bytes;
    && 0 < |l| <= max <= MAX_BLOCKSIZE && plan.column.origPtr < |l|
    && plan.crc < 0x1_0000_0000
    && 2 <= |plan.tables| <= 6 && GoodTables(plan.tables, |UsedOf(l)| + 2)
    && 1 <= |plan.selectors| <= MAX_SELECTORS
    && (forall i :: 0 <= i < |plan.selectors| ==> plan.selectors[i] < |plan.tables|)
    && |SymbolsOf(l)| <= GROUP_SIZE * |plan.selectors|
  }

  lemma TablesNonempty(tables: seq<seq<nat>>, n: nat)
    requires GoodTables(tables, n) && n > 0
    ensures forall i :: 0 <= i < |tables| ==> tables[i] != []
  {
    forall i | 0 <= i < |tables|
      ensures tables[i] != []
    {
      assert GoodTable(tables[i], n);
    }
  }

  /** Good tables give prefix-free codes for the whole alphabet. */
  lemma GoodTablesCode(tables: seq<seq<nat>>, n: nat)
    requires GoodTables(tables, n) && n > 0
    ensures CodesAll(BooksOf(tables, n), n - 1)
  {
    var books := BooksOf(tables, n);
    forall k: int | 0 <= k < |books|
      ensures PrefixFree(books[k]) && forall s: nat :: s <= n - 1 ==> HasSymbol(books[k], s)
    {
      assert GoodTable(tables[k], n);
      GoodTableCodes(tables[k], n);
    }
  }

  lemma GoodTableCodes(t: seq<nat>, n: nat)
    requires GoodTable(t, n)
    ensures ValidLengths(t) && PrefixFree(BookOfTable(t))
    ensures forall s: nat :: s < n ==> HasSymbol(BookOfTable(t), s)
  {
    hide Used, SortByLength, PrefixFree, KraftSum, Kraft, OrderOf, BookOf, HasSymbol;
    KraftOfLengths(t);
    CanonicalPrefixFree(OrderOf(t));
    forall s: nat | s < n
      ensures HasSymbol(BookOfTable(t), s)
    {
      SymbolCoded(t, s);
    }
  }

  lemma SymbolCoded(t: seq<nat>, s: nat)
    requires ValidLengths(t) && s < |t| && t[s] > 0
    ensures HasSymbol(BookOfTable(t), s)
  {
    hide Used, SortByLength, KraftSum, Kraft;
    var order := OrderOf(t);
    assert Entry(s, t[s]) in order;
    var i :| 0 <= i < |order| && order[i] == Entry(s, t[s]);
    assert BookOfTable(t)[i].sym == s;
  }

  function EncodeStart(plan: Plan): (b: Bitstring)
    ensures |b| == 57
  {
    ToBits(plan.crc, 32) + (ToBits(0, 1) + ToBits(plan.column.origPtr, 24))
  }

  function EncodeCoding(plan: Plan): (b: Bitstring)
    requires 0 < |plan.tables| <= 256
    requires forall i :: 0 <= i < |plan.selectors| ==> plan.selectors[i] < |plan.tables|
    requires forall i :: 0 <= i < |plan.tables| ==> plan.tables[i] != []
  {
    IdentityFull(|plan.tables|);
    ToBits(|plan.tables|, 3) +
    (ToBits(|plan.selectors|, 15) + (EncodeSelectors(Identity(), |plan.tables|, plan.selectors) + EncodeTables(plan.tables)))
  }

  function EncodeBody(plan: Plan, max: nat): (b: Bitstring)
    requires ValidPlan(plan, max)
  {
    var n := |UsedOf(plan.column.bytes)| + 2;
    GoodTablesCode(plan.tables, n);
    EncodeSymbols(BooksOf(plan.tables, n), plan.selectors, n - 1, 0, plan.selectors[0], GROUP_SIZE, SymbolsOf(plan.column.bytes))
  }

  /** The bits of the block behind its magic. */
  function EncodeBlock(plan: Plan, max: nat): (b: Bitstring)
    requires ValidPlan(plan, max)
  {
    TablesNonempty(plan.tables, |UsedOf(plan.column.bytes)| + 2);
    EncodeStart(plan) + (EncodeAlphabet(FlagsOf(plan.column.bytes)) + (EncodeCoding(plan) + EncodeBody(plan, max)))
  }

  // ---------------------------------------------------------------------------------------------
  // The round trip, part by part
  // ---------------------------------------------------------------------------------------------

  lemma StartRoundTrip(bits: Bitstring, p: nat, plan: Plan)
    requires p <= |bits| && plan.crc < 0x1_0000_0000 && plan.column.origPtr < 0x100_0000 && At(bits, p, EncodeStart(plan))
    ensures ReadStart(bits, p) == Ok(plan.column.origPtr, p + 57)
  {
    hide ReadField, ToBits, At;
    Pow2Values();
    var crc, flag, ptr := ToBits(plan.crc, 32), ToBits(0, 1), ToBits(plan.column.origPtr, 24);
    AtSplit(bits, p, crc, flag + ptr);
    AtSplit(bits, p + 32, flag, ptr);
    AtInside(bits, p, crc);
    AtInside(bits, p + 32, flag);
    FieldEncoded(bits, p, plan.crc, 32, CrcTruncated);
    FieldEncoded(bits, p + 32, 0, 1, RandomisedFlagTruncated);
    FieldEncoded(bits, p + 33, plan.column.origPtr, 24, OrigPtrTruncated);
  }

  lemma AtInside(bits: Bitstring, p: nat, w: Bitstring)
    requires At(bits, p, w)
    ensures p + |w| <= |bits|
  {
  }

  lemma CodingRoundTrip(bits: Bitstring, p: nat, plan: Plan, n: nat)
    requires p <= |bits| && n > 0 && 2 <= |plan.tables| <= 6 && GoodTables(plan.tables, n)
    requires |plan.selectors| <= MAX_SELECTORS
    requires forall i :: 0 <= i < |plan.selectors| ==> plan.selectors[i] < |plan.tables|
    requires (forall i :: 0 <= i < |plan.tables| ==> plan.tables[i] != []) && At(bits, p, EncodeCoding(plan))
    ensures ReadCoding(bits, p, n) == Ok(Coding(plan.selectors, plan.tables), p + |EncodeCoding(plan)|)
  {
    hide ReadField, ReadSelectors, ReadTables, ToBits, At, EncodeSelectors, EncodeTables, GoodTables;
    var groups, count := |plan.tables|, |plan.selectors|;
    IdentityFull(groups);
    var a, b := ToBits(groups, 3), ToBits(count, 15);
    var c, e := EncodeSelectors(Identity(), groups, plan.selectors), EncodeTables(plan.tables);
    AtSplit(bits, p, a, b + (c + e));
    AtSplit(bits, p + 3, b, c + e);
    AtSplit(bits, p + 18, c, e);
    AtInside(bits, p, a);
    AtInside(bits, p + 3, b);
    AtInside(bits, p + 18, c);
    assert Pow2(3) == 8;
    assert Pow2(15) == 0x8000 by { Pow2Add(7, 8); Pow2Values(); assert Pow2(7) == 128; }
    FieldEncoded(bits, p, groups, 3, GroupsTruncated);
    FieldEncoded(bits, p + 3, count, 15, SelectorsUsedTruncated);
    ReadSelectorsEncoded(bits, p + 18, groups, Identity(), [], plan.selectors);
    NoTables(n);
    ReadTablesEncoded(bits, p + 18 + |c|, n, [], plan.tables);
    assert [] + plan.selectors == plan.selectors && [] + plan.tables == plan.tables;
  }

  lemma NoTables(n: nat)
    ensures GoodTables([], n)
  {
  }

  lemma BodyRoundTrip(bits: Bitstring, p: nat, plan: Plan, max: nat)
    requires p <= |bits| && ValidPlan(plan, max) && At(bits, p, EncodeBody(plan, max))
    requires UsedOf(plan.column.bytes) != []
    ensures ReadBody(bits, p, Header(plan.column.origPtr, UsedOf(plan.column.bytes), plan.selectors, plan.tables), max)
         == Ok(plan.column, p + |EncodeBody(plan, max)|)
  {
    hide ReadSymbols, EncodeSymbols, Steps, CodesAll, Alphabet, GoodTables, At, Drawn, Encode, EndsOnce;
    var l := plan.column.bytes;
    var used := UsedOf(l);
    var n := |used| + 2;
    var books, syms, st := BooksOf(plan.tables, n), SymbolsOf(l), Stage(StartList(used), [], 0, 0);
    BooksAlphabet(plan.tables, n);
    GoodTablesCode(plan.tables, n);
    UsedCovers(l);
    StepsEncode(st, |used|, l, max);
    assert [] + l == l;
    EncodeEndsOnce(StartList(used), |used|, l);
    ReadSymbolsEncoded(books, plan.selectors, n - 1, max, bits, p, 0, plan.selectors[0], GROUP_SIZE, st, syms);
  }

  /** Parsing inverts the compressor's bits, and ends exactly behind them. */
  lemma ColumnRoundTrip(bits: Bitstring, p: nat, plan: Plan, max: nat)
    requires p <= |bits| && ValidPlan(plan, max) && At(bits, p, EncodeBlock(plan, max))
    ensures ReadColumn(bits, p, max) == Ok(plan.column, p + |EncodeBlock(plan, max)|)
  {
    hide ReadStart, ReadAlphabet, ReadCoding, ReadBody, EncodeStart, EncodeAlphabet, EncodeCoding, EncodeBody, At, GoodTables, FlagsOf;
    var l := plan.column.bytes;
    var n := |UsedOf(l)| + 2;
    TablesNonempty(plan.tables, n);
    UsedCovers(l);
    var a, b, c, e := EncodeStart(plan), EncodeAlphabet(FlagsOf(l)), EncodeCoding(plan), EncodeBody(plan, max);
    AtSplit(bits, p, a, b + (c + e));
    AtSplit(bits, p + |a|, b, c + e);
    AtSplit(bits, p + |a| + |b|, c, e);
    AtInside(bits, p, a);
    AtInside(bits, p + |a|, b);
    AtInside(bits, p + |a| + |b|, c);
    StartRoundTrip(bits, p, plan);
    FlagsNonempty(l);
    ReadAlphabetEncoded(bits, p + |a|, FlagsOf(l));
    CodingRoundTrip(bits, p + |a| + |b|, plan, n);
    BodyRoundTrip(bits, p + |a| + |b| + |c|, plan, max);
  }

  lemma FlagsNonempty(l: seq<Byte>)
    requires l != []
    ensures true in FlagsOf(l)
  {
    assert FlagsOf(l)[l[0]];
  }

  /** Whatever run-length string a valid plan holds the transform of, decoding its bits expands that
      string and ends exactly behind them; the allocating form does if and only if its vector is long
      enough for the string. */
  lemma CodedInverse(bits: Bitstring, p: nat, x: seq<Byte>, plan: Plan, max: nat)
    requires p <= |bits| && ValidPlan(plan, max) && IsBwt(x, plan.column.bytes, plan.column.origPtr)
    requires At(bits, p, EncodeBlock(plan, max))
    ensures ReadBlock(bits, p, max) == Ok(RleTheory.Decode(x), p + |EncodeBlock(plan, max)|)
    ensures AllocBlock(bits, p, max) ==
      if RleTheory.Inside(RleTheory.Guaranteed, x) then Ok(RleTheory.Decode(x), p + |EncodeBlock(plan, max)|)
      else Err(WriteBehindVector)
  {
    hide ReadColumn, EncodeBlock, At, IsBwt, RleTheory.Decode, RleTheory.Inside, Chase;
    ColumnRoundTrip(bits, p, plan, max);
    ChaseInvertsBwt(x, plan.column.bytes, plan.column.origPtr, TVector(plan.column.bytes));
  }

  /** The end-to-end round trip: whatever valid plan the compressor chose for the transform of the
      run-length form of `d`, decoding its bits gives `d` back and ends exactly behind them; the
      allocating form does if and only if all of `d` but a last repetition fits into a quarter more than
      its run-length form. */
  lemma BlockInverse(bits: Bitstring, p: nat, d: seq<Byte>, plan: Plan, max: nat)
    requires p <= |bits| && ValidPlan(plan, max)
    requires IsBwt(RleTheory.Encode(d), plan.column.bytes, plan.column.origPtr)
    requires At(bits, p, EncodeBlock(plan, max))
    ensures ReadBlock(bits, p, max) == Ok(d, p + |EncodeBlock(plan, max)|)
    ensures var x := RleTheory.Encode(d);
      AllocBlock(bits, p, max) ==
      if |RleTheory.Decode(RleTheory.WithoutLastCount(x))| <= |x| + |x| / 4 then Ok(d, p + |EncodeBlock(plan, max)|)
      else Err(WriteBehindVector)
  {
    hide ReadBlock, AllocBlock, EncodeBlock, At, IsBwt, RleTheory.Decode, RleTheory.Encode, RleTheory.WithoutLastCount, RleTheory.Inside, ValidPlan;
    CodedInverse(bits, p, RleTheory.Encode(d), plan, max);
    RleTheory.DecodeEncode(d);
    RleTheory.InsideIff(RleTheory.Encode(d));
  }

  // ---------------------------------------------------------------------------------------------
  // Every text that fits has a plan
  // ---------------------------------------------------------------------------------------------

  function UniformTable(n: nat): (t: seq<nat>)
    ensures |t| == n && LengthTable(t)
  {
    seq(n, _ => 9)
  }

  lemma {:induction false} UniformKraft(n: nat)
    ensures ValidLengths(UniformTable(n)) && KraftSum(UniformTable(n)) == n * 2048
  {
    if n > 0 {
      UniformKraft(n - 1);
      assert UniformTable(n)[..n - 1] == UniformTable(n - 1);
      assert Pow2(11) == 2048;
    }
  }

  /** The format has room for every nonempty run-length string within the block size: selectors suffice
      within their limit and some code tables satisfy the Kraft inequality. */
  lemma CodedPlanExists(x: seq<Byte>, max: nat) returns (plan: Plan)
    requires 0 < |x| <= max <= MAX_BLOCKSIZE
    ensures ValidPlan(plan, max) && IsBwt(x, plan.column.bytes, plan.column.origPtr)
  {
    hide SymbolsOf, UsedOf, IsBwt, KraftSum, FlagsOf;
    var last, origPtr := BwtExists(x);
    ChaseInvertsBwt(x, last, origPtr, TVector(last));
    var n := |UsedOf(last)| + 2;
    var t := UniformTable(n);
    UniformKraft(n);
    Pow2Values();
    assert GoodTable(t, n);
    var m := |SymbolsOf(last)| / GROUP_SIZE + 1;
    plan := Plan(0, Column(last, origPtr), seq(m, _ => 0), [t, t]);
  }

  /** So every nonempty text whose run-length form fits can be compressed. */
  lemma PlanExists(d: seq<Byte>, max: nat) returns (plan: Plan)
    requires d != [] && |RleTheory.Encode(d)| <= max <= MAX_BLOCKSIZE
    ensures ValidPlan(plan, max) && IsBwt(RleTheory.Encode(d), plan.column.bytes, plan.column.origPtr)
  {
    hide IsBwt, RleTheory.Encode, ValidPlan;
    RleTheory.EncodeNonempty(d);
    plan := CodedPlanExists(RleTheory.Encode(d), max);
  }

  // ---------------------------------------------------------------------------------------------
  // The block buffer
  // ---------------------------------------------------------------------------------------------

  /** A block that the decoder accepts and whose text is longer than the block size and a quarter: the
      code of the run-length string with the longest expansion. */
  lemma OverflowingBlock(max: nat) returns (bits: Bitstring)
    requires 5 <= max <= MAX_BLOCKSIZE
    ensures ReadBlock(bits, 0, max).Ok? && |ReadBlock(bits, 0, max).value| > max + max / 4
    ensures ReadBlock(bits, 0, max).pos == |bits|
  {
    hide ReadBlock, EncodeBlock, IsBwt, RleTheory.Decode, ValidPlan, RleTheory.Worst;
    var x := RleTheory.Worst(max);
    var plan := CodedPlanExists(x, max);
    bits := EncodeBlock(plan, max);
    assert bits[0..0 + |bits|] == bits;
    CodedInverse(bits, 0, x, plan, max);
    RleTheory.LengthBound(x);
  }

  /** A block that a compressor makes from an ordinary text and for which the vector of the allocating form
      is too short, whether it gets the capacity it is guaranteed or the double of the old one. */
  lemma OverrunningBlock(max: nat, growth: RleTheory.Growth) returns (bits: Bitstring, x: seq<Byte>)
    requires 105 <= max <= MAX_BLOCKSIZE
    ensures x == RleTheory.Encode(RleTheory.RunAndMore()) && !RleTheory.Inside(growth, x)
    ensures ReadBlock(bits, 0, max) == Ok(RleTheory.RunAndMore(), |bits|)
    ensures AllocBlock(bits, 0, max) == Err(WriteBehindVector)
  {
    hide ReadBlock, AllocBlock, EncodeBlock, IsBwt, RleTheory.Decode, RleTheory.Encode, RleTheory.Inside, RleTheory.RunAndMore, ValidPlan;
    var d := RleTheory.RunAndMore();
    x := RleTheory.Encode(d);
    RleTheory.RunAndMoreOverruns(growth);
    RleTheory.RunAndMoreOverruns(RleTheory.Guaranteed);
    RleTheory.DecodeEncode(d);
    var plan := CodedPlanExists(x, max);
    bits := EncodeBlock(plan, max);
    assert bits[0..0 + |bits|] == bits;
    CodedInverse(bits, 0, x, plan, max);
  }

  /** Exactly when a buffer of the block size and a quarter holds the text of every block that the decoder
      accepts: for block sizes below 5, which no bzip2 stream has. */
  lemma BlockHeadroom(max: nat)
    requires max <= MAX_BLOCKSIZE
    ensures (forall bits: Bitstring, p: nat :: p <= |bits| && ReadBlock(bits, p, max).Ok? ==> |ReadBlock(bits, p, max).value| <= max + max / 4)
            <==> max < 5
  {
    hide ReadBlock;
    if max < 5 {
      forall bits: Bitstring, p: nat | p <= |bits| && ReadBlock(bits, p, max).Ok?
        ensures |ReadBlock(bits, p, max).value| <= max + max / 4
      {
        TextBound(bits, p, max);
      }
    } else {
      var bits := OverflowingBlock(max);
      assert ReadBlock(bits, 0, max).Ok? && |ReadBlock(bits, 0, max).value| > max + max / 4;
    }
  }

  /** The text of a block is at most as long as the longest expansion of a string of the block size. */
  lemma TextBound(bits: Bitstring, p: nat, max: nat)
    requires p <= |bits| && ReadBlock(bits, p, max).Ok?
    ensures exists n: nat :: n <= max && |ReadBlock(bits, p, max).value| <= RleTheory.MaxLength(n)
  {
    hide ReadColumn, RleTheory.Decode, Chase;
    var c := ReadColumn(bits, p, max).value;
    var t := TVector(c.bytes);
    RleTheory.LengthBound(Chase(c.bytes, t, t[c.origPtr], |c.bytes|));
  }
}
