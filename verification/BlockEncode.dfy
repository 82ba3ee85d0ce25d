/** A reference compressor for one block, and the proof that decoding inverts it.

    The compressor is free in what the format leaves open: the checksum, the row the transform points
    at when rows are equal, the number of tables, their lengths, and the table chosen for each group
    of symbols. */
module BlockEncode {
  import opened Wrappers
  import opened Errors
  import opened Bits
  import opened BwtTheory
  import opened Mtf
  import opened CodeBooks
  import opened CanonicalCodes
  import opened SymbolTheory
  import opened BlockSpec
  import RleTheory

  // ---------------------------------------------------------------------------------------------
  // The bytes in use
  // ---------------------------------------------------------------------------------------------

  /** Which of the 256 byte values occur in `l`. */
  function FlagsOf(l: seq<Byte>): (flags: seq<bool>)
    ensures |flags| == 256
  {
    seq(256, i requires 0 <= i < 256 => i in l)
  }

  function Group(flags: seq<bool>, k: nat): (g: seq<bool>)
    requires |flags| == 256 && k < 16
    ensures |g| == 16
  {
    flags[16 * k..16 * k + 16]
  }

  function RangesOf(flags: seq<bool>): (ranges: seq<bool>)
    requires |flags| == 256
    ensures |ranges| == 16
  {
    seq(16, k requires 0 <= k < 16 => true in Group(flags, k))
  }

  function EncodeGroups(flags: seq<bool>, k: nat): (b: Bitstring)
    requires |flags| == 256 && k <= 16
    decreases 16 - k
  {
    if k == 16 then []
    else if RangesOf(flags)[k] then Group(flags, k) + EncodeGroups(flags, k + 1)
    else EncodeGroups(flags, k + 1)
  }

  function EncodeAlphabet(flags: seq<bool>): (b: Bitstring)
    requires |flags| == 256
  {
    RangesOf(flags) + EncodeGroups(flags, 0)
  }

  lemma {:induction false} FlaggedConcat(base: nat, a: seq<bool>, b: seq<bool>)
    requires base + |a| + |b| <= 256
    ensures Flagged(base, a + b) == Flagged(base, a) + Flagged(base + |a|, b)
  {
    if b == [] {
      assert a + b == a;
    } else {
      var m := |b| - 1;
      FlaggedConcat(base, a, b[..m]);
      assert (a + b)[..|a| + m] == a + b[..m];
    }
  }

  lemma {:induction false} FlaggedNone(base: nat, flags: seq<bool>)
    requires base + |flags| <= 256 && true !in flags
    ensures Flagged(base, flags) == []
  {
    if flags != [] { FlaggedNone(base, flags[..|flags| - 1]); }
  }

  lemma {:induction false} FlaggedMember(base: nat, flags: seq<bool>, j: nat)
    requires base + |flags| <= 256 && j < |flags| && flags[j]
    ensures base + j in Flagged(base, flags)
  {
    if j < |flags| - 1 { FlaggedMember(base, flags[..|flags| - 1], j); }
  }

  lemma {:induction false} ReadUsedEncoded(bits: Bitstring, p: nat, flags: seq<bool>, k: nat)
    requires p <= |bits| && |flags| == 256 && k <= 16 && At(bits, p, EncodeGroups(flags, k))
    requires |Flagged(0, flags[..16 * k])| <= 16 * k
    ensures ReadUsed(bits, p, RangesOf(flags), k, Flagged(0, flags[..16 * k]))
         == Ok(Flagged(0, flags), p + |EncodeGroups(flags, k)|)
    decreases 16 - k
  {
    if k == 16 {
      assert flags[..256] == flags;
    } else {
      var g := Group(flags, k);
      assert flags[..16 * (k + 1)] == flags[..16 * k] + g;
      FlaggedConcat(0, flags[..16 * k], g);
      if RangesOf(flags)[k] {
        AtSplit(bits, p, g, EncodeGroups(flags, k + 1));
        ReadUsedEncoded(bits, p + 16, flags, k + 1);
      } else {
        FlaggedNone(16 * k, g);
        assert Flagged(0, flags[..16 * k]) + [] == Flagged(0, flags[..16 * k]);
        ReadUsedEncoded(bits, p, flags, k + 1);
      }
    }
  }

  lemma ReadAlphabetEncoded(bits: Bitstring, p: nat, flags: seq<bool>)
    requires p <= |bits| && |flags| == 256 && true in flags && At(bits, p, EncodeAlphabet(flags))
    ensures ReadAlphabet(bits, p) == Ok(Flagged(0, flags), p + |EncodeAlphabet(flags)|)
  {
    AtSplit(bits, p, RangesOf(flags), EncodeGroups(flags, 0));
    assert flags[..0] == [];
    ReadUsedEncoded(bits, p + 16, flags, 0);
    var j :| 0 <= j < |flags| && flags[j];
    FlaggedMember(0, flags, j);
    assert |Flagged(0, flags)| != 0;
  }

  // ---------------------------------------------------------------------------------------------
  // Selectors
  // ---------------------------------------------------------------------------------------------

  function Unary(k: nat): (b: Bitstring)
    ensures |b| == k + 1
  {
    seq(k, _ => true) + [false]
  }

  /** Every table number is among the first `groups` entries. */
  predicate FullList(list: seq<Byte>, groups: nat)
  {
    SelectorList(list, groups) && forall v: Byte :: v < groups ==> v in list[..groups]
  }

  lemma FullListKept(list: seq<Byte>, groups: nat, k: nat)
    requires FullList(list, groups) && k < groups
    ensures FullList(ToFront(list, k), groups)
  {
    SelectorListKept(list, groups, k);
    ToFrontKeepsPrefix(list, k, groups);
    forall v: Byte | v < groups
      ensures v in ToFront(list, k)[..groups]
    {
      assert v in list[..groups];
      assert v in multiset(list[..groups]);
    }
  }

  function EncodeSelectors(list: seq<Byte>, groups: nat, sels: seq<Byte>): (b: Bitstring)
    requires FullList(list, groups) && forall i :: 0 <= i < |sels| ==> sels[i] < groups
    decreases |sels|
  {
    if sels == [] then []
    else
      var k := IndexInPrefix(list, groups, sels[0]);
      FullListKept(list, groups, k);
      Unary(k) + EncodeSelectors(ToFront(list, k), groups, sels[1..])
  }

  lemma {:induction false} ReadUnaryEncoded(bits: Bitstring, p: nat, groups: nat, count: nat, k: nat)
    requires p <= |bits| && count + k < groups && At(bits, p, Unary(k))
    ensures ReadUnary(bits, p, groups, count) == Ok(count + k, p + k + 1)
    decreases k
  {
    assert bits[p] == bits[p..p + k + 1][0] == Unary(k)[0];
    if k > 0 {
      assert Unary(k) == [true] + Unary(k - 1);
      AtSplit(bits, p, [true], Unary(k - 1));
      ReadUnaryEncoded(bits, p + 1, groups, count + 1, k - 1);
    }
  }

  lemma SelectorsStep(bits: Bitstring, p: nat, n: nat, groups: nat, list: seq<Byte>, acc: seq<Byte>, k: nat, p1: nat)
    requires p <= |bits| && SelectorList(list, groups) && |acc| < n && k < groups
    requires forall i :: 0 <= i < |acc| ==> acc[i] < groups
    requires ReadUnary(bits, p, groups, 0) == Ok(k, p1)
    ensures SelectorList(ToFront(list, k), groups) && p1 <= |bits|
    ensures ReadSelectors(bits, p, n, groups, list, acc) == ReadSelectors(bits, p1, n, groups, ToFront(list, k), acc + [list[k]])
  {
    hide ToFront, ReadUnary;
    SelectorListKept(list, groups, k);
  }

  lemma {:induction false} ReadSelectorsEncoded(bits: Bitstring, p: nat, groups: nat, list: seq<Byte>, acc: seq<Byte>, sels: seq<Byte>)
    requires p <= |bits| && FullList(list, groups)
    requires forall i :: 0 <= i < |acc| ==> acc[i] < groups
    requires forall i :: 0 <= i < |sels| ==> sels[i] < groups
    requires At(bits, p, EncodeSelectors(list, groups, sels))
    ensures ReadSelectors(bits, p, |acc| + |sels|, groups, list, acc) == Ok(acc + sels, p + |EncodeSelectors(list, groups, sels)|)
    decreases |sels|
  {
    hide ReadSelectors, ReadUnary, ToFront, At, Unary;
    if sels == [] {
      SelectorsDone(bits, p, groups, list, acc);
      assert acc + sels == acc;
    } else {
      var k := IndexInPrefix(list, groups, sels[0]);
      FullListKept(list, groups, k);
      AtSplit(bits, p, Unary(k), EncodeSelectors(ToFront(list, k), groups, sels[1..]));
      ReadUnaryEncoded(bits, p, groups, 0, k);
      SelectorsStep(bits, p, |acc| + |sels|, groups, list, acc, k, p + k + 1);
      ReadSelectorsEncoded(bits, p + k + 1, groups, ToFront(list, k), acc + [sels[0]], sels[1..]);
      assert acc + [sels[0]] + sels[1..] == acc + sels;
    }
  }

  lemma SelectorsDone(bits: Bitstring, p: nat, groups: nat, list: seq<Byte>, acc: seq<Byte>)
    requires p <= |bits| && SelectorList(list, groups) && forall i :: 0 <= i < |acc| ==> acc[i] < groups
    ensures ReadSelectors(bits, p, |acc|, groups, list, acc) == Ok(acc, p)
  {
  }

  lemma IdentityFull(groups: nat)
    requires 0 < groups <= 256
    ensures FullList(Identity(), groups)
  {
    forall v: Byte | v < groups
      ensures v in Identity()[..groups]
    {
      assert Identity()[..groups][v] == v;
    }
  }

  // ---------------------------------------------------------------------------------------------
  // Code lengths
  // ---------------------------------------------------------------------------------------------

  function EncodeLength(from: nat, len: nat): (b: Bitstring)
    decreases if from < len then len - from else from - len
  {
    if from < len then [true, false] + EncodeLength(from + 1, len)
    else if from > len then [true, true] + EncodeLength(from - 1, len)
    else [false]
  }

  function EncodeLengths(from: nat, t: seq<nat>): (b: Bitstring)
    decreases |t|
  {
    if t == [] then [] else EncodeLength(from, t[0]) + EncodeLengths(t[0], t[1..])
  }

  function EncodeTable(t: seq<nat>): (b: Bitstring)
    requires t != []
  {
    ToBits(t[0], 5) + EncodeLengths(t[0], t)
  }

  function EncodeTables(tables: seq<seq<nat>>): (b: Bitstring)
    requires forall i :: 0 <= i < |tables| ==> tables[i] != []
    decreases |tables|
  {
    if tables == [] then [] else EncodeTable(tables[0]) + EncodeTables(tables[1..])
  }

  lemma {:induction false} ReadLengthEncoded(bits: Bitstring, p: nat, from: nat, len: nat)
    requires p <= |bits| && 1 <= from <= 20 && 1 <= len <= 20 && At(bits, p, EncodeLength(from, len))
    ensures ReadLength(bits, p, from) == Ok(len, p + |EncodeLength(from, len)|)
    decreases if from < len then len - from else from - len
  {
    var enc := EncodeLength(from, len);
    assert bits[p] == bits[p..p + |enc|][0] == enc[0];
    if from != len {
      assert bits[p + 1] == bits[p..p + |enc|][1] == enc[1];
      var next := if from < len then from + 1 else from - 1;
      AtSplit(bits, p, enc[..2], EncodeLength(next, len));
      assert enc == enc[..2] + EncodeLength(next, len);
      ReadLengthEncoded(bits, p + 2, next, len);
    }
  }

  lemma {:induction false} ReadTableEncoded(bits: Bitstring, p: nat, from: nat, acc: seq<nat>, t: seq<nat>)
    requires p <= |bits| && 1 <= from <= 20 && LengthTable(acc) && LengthTable(t)
    requires At(bits, p, EncodeLengths(from, t))
    ensures ReadTable(bits, p, |acc| + |t|, from, acc) == Ok(acc + t, p + |EncodeLengths(from, t)|)
    decreases |t|
  {
    hide ReadTable, ReadLength, EncodeLength, At;
    if t == [] {
      TableDone(bits, p, from, acc);
      assert acc + t == acc;
    } else {
      AtSplit(bits, p, EncodeLength(from, t[0]), EncodeLengths(t[0], t[1..]));
      ReadLengthEncoded(bits, p, from, t[0]);
      TableStep(bits, p, |acc| + |t|, from, acc, t[0], p + |EncodeLength(from, t[0])|);
      ReadTableEncoded(bits, p + |EncodeLength(from, t[0])|, t[0], acc + [t[0]], t[1..]);
      assert acc + [t[0]] + t[1..] == acc + t;
    }
  }

  lemma TableDone(bits: Bitstring, p: nat, length: int, acc: seq<nat>)
    requires p <= |bits| && LengthTable(acc)
    ensures ReadTable(bits, p, |acc|, length, acc) == Ok(acc, p)
  {
  }

  lemma TableStep(bits: Bitstring, p: nat, n: nat, length: int, acc: seq<nat>, len: nat, p1: nat)
    requires p <= |bits| && LengthTable(acc) && |acc| < n && ReadLength(bits, p, length) == Ok(len, p1)
    ensures p1 <= |bits| && LengthTable(acc + [len])
    ensures ReadTable(bits, p, n, length, acc) == ReadTable(bits, p1, n, len, acc + [len])
  {
    hide ReadLength;
  }

  lemma {:induction false} ReadTablesEncoded(bits: Bitstring, p: nat, n: nat, acc: seq<seq<nat>>, tables: seq<seq<nat>>)
    requires p <= |bits| && n > 0 && GoodTables(acc, n) && GoodTables(tables, n)
    requires (forall i :: 0 <= i < |tables| ==> tables[i] != []) && At(bits, p, EncodeTables(tables))
    ensures ReadTables(bits, p, |acc| + |tables|, n, acc) == Ok(acc + tables, p + |EncodeTables(tables)|)
    decreases |tables|
  {
    hide ReadTables, ReadTable, EncodeTable, At;
    if tables == [] {
      TablesDone(bits, p, n, acc);
      assert acc + tables == acc;
    } else {
      var t := tables[0];
      assert GoodTable(t, n);
      AtSplit(bits, p, EncodeTable(t), EncodeTables(tables[1..]));
      ReadOneTable(bits, p, n, t);
      TablesStep(bits, p, |acc| + |tables|, n, acc, t[0], t, p + |EncodeTable(t)|);
      ReadTablesEncoded(bits, p + |EncodeTable(t)|, n, acc + [t], tables[1..]);
      assert acc + [t] + tables[1..] == acc + tables;
    }
  }

  lemma TablesDone(bits: Bitstring, p: nat, n: nat, acc: seq<seq<nat>>)
    requires p <= |bits| && GoodTables(acc, n)
    ensures ReadTables(bits, p, |acc|, n, acc) == Ok(acc, p)
  {
  }

  lemma ReadOneTable(bits: Bitstring, p: nat, n: nat, t: seq<nat>)
    requires p <= |bits| && n > 0 && GoodTable(t, n) && At(bits, p, EncodeTable(t))
    ensures ReadField(bits, p, 5, StartLengthTruncated) == Ok(t[0], p + 5) && p + 5 <= |bits|
    ensures ReadTable(bits, p + 5, n, t[0], []) == Ok(t, p + |EncodeTable(t)|)
  {
    AtSplit(bits, p, ToBits(t[0], 5), EncodeLengths(t[0], t));
    FieldEncoded(bits, p, t[0], 5, StartLengthTruncated);
    ReadTableEncoded(bits, p + 5, t[0], [], t);
    assert [] + t == t;
  }

  lemma TablesStep(bits: Bitstring, p: nat, groups: nat, n: nat, acc: seq<seq<nat>>, start: nat, t: seq<nat>, p2: nat)
    requires p <= |bits| && GoodTables(acc, n) && |acc| < groups && GoodTable(t, n)
    requires ReadField(bits, p, 5, StartLengthTruncated) == Ok(start, p + 5)
    requires p + 5 <= |bits| && ReadTable(bits, p + 5, n, start, []) == Ok(t, p2)
    ensures p2 <= |bits| && GoodTables(acc + [t], n)
    ensures ReadTables(bits, p, groups, n, acc) == ReadTables(bits, p2, groups, n, acc + [t])
  {
    hide ReadField, ReadTable, GoodTable;
    assert GoodTable(t, n) ==> KraftSum(t) <= Pow2(MAX_LEN) by { KraftOfGoodTable(t, n); }
  }

  lemma KraftOfGoodTable(t: seq<nat>, n: nat)
    requires GoodTable(t, n)
    ensures KraftSum(t) <= Pow2(MAX_LEN)
  {
  }

  lemma FieldEncoded(bits: Bitstring, p: nat, v: nat, n: nat, e: BlockError)
    requires p <= |bits| && v < Pow2(n) && At(bits, p, ToBits(v, n))
    ensures ReadField(bits, p, n, e) == Ok(v, p + n)
  {
    ReadNumAt(bits, p, v, n);
  }

  // ---------------------------------------------------------------------------------------------
  // Coded symbols
  // ---------------------------------------------------------------------------------------------

  function WordFor(book: Book, sym: nat): (w: Bitstring)
    requires HasSymbol(book, sym)
  {
    if book[0].sym == sym then book[0].word
    else
      assert exists i :: 0 <= i < |book[1..]| && book[1..][i].sym == sym by {
        var i :| 0 <= i < |book| && book[i].sym == sym;
        assert book[1..][i - 1].sym == sym;
      }
      WordFor(book[1..], sym)
  }

  lemma {:induction false} WordForIndex(book: Book, sym: nat) returns (i: nat)
    requires HasSymbol(book, sym)
    ensures i < |book| && book[i] == Code(sym, WordFor(book, sym))
  {
    if book[0].sym == sym {
      i := 0;
    } else {
      var k :| 0 <= k < |book| && book[k].sym == sym;
      assert book[1..][k - 1].sym == sym;
      var j := WordForIndex(book[1..], sym);
      i := j + 1;
    }
  }

  /** Every book has a word for every symbol of the alphabet, and is prefix-free. */
  predicate CodesAll(books: seq<Book>, eob: nat)
  {
    forall k :: 0 <= k < |books| ==> PrefixFree(books[k]) && forall s: nat :: s <= eob ==> HasSymbol(books[k], s)
  }

  /** The selectors reach far enough for `n` more symbols. */
  predicate EnoughSelectors(selectors: seq<Byte>, books: seq<Book>, selIdx: nat, left: nat, n: nat)
  {
    && n <= left + GROUP_SIZE * (if |selectors| > selIdx then |selectors| - selIdx - 1 else 0)
    && forall i :: 0 <= i < |selectors| ==> selectors[i] < |books|
  }

  function EncodeSymbols(books: seq<Book>, selectors: seq<Byte>, eob: nat, selIdx: nat, cur: nat, left: nat, syms: seq<nat>): (b: Bitstring)
    requires CodesAll(books, eob) && cur < |books| && left <= GROUP_SIZE
    requires EnoughSelectors(selectors, books, selIdx, left, |syms|)
    requires forall i :: 0 <= i < |syms| ==> syms[i] <= eob
    decreases |syms|, if left == 0 then 1 else 0
  {
    if syms == [] then []
    else if left == 0 then EncodeSymbols(books, selectors, eob, selIdx + 1, selectors[selIdx + 1], GROUP_SIZE, syms)
    else WordFor(books[cur], syms[0]) + EncodeSymbols(books, selectors, eob, selIdx, cur, left - 1, syms[1..])
  }

  /** The end symbol stands at the end and nowhere else. */
  predicate EndsOnce(syms: seq<nat>, eob: nat)
  {
    && syms != [] && syms[|syms| - 1] == eob
    && (forall i :: 0 <= i < |syms| - 1 ==> syms[i] < eob)
  }

  lemma {:induction false} EncodeEndsOnce(list: seq<Byte>, n: nat, l: seq<Byte>)
    requires 0 < n <= |list| <= 256 && Drawn(l, list, n)
    ensures EndsOnce(Encode(list, n, l), n + 1)
    decreases |l|
  {
    var r := LeadRun(l, list[0]);
    if r < |l| {
      var k := IndexInPrefix(list, n, l[r]);
      DrawnAfter(l, list, n, r, k);
      EncodeEndsOnce(ToFront(list, k), n, l[r + 1..]);
      EndsOnceAfter(RunDigits(r) + [k + 1], Encode(ToFront(list, k), n, l[r + 1..]), n + 1);
    } else {
      EndsOnceAfter(RunDigits(r), [n + 1], n + 1);
    }
  }

  lemma EndsOnceAfter(a: seq<nat>, b: seq<nat>, eob: nat)
    requires EndsOnce(b, eob) && forall i :: 0 <= i < |a| ==> a[i] < eob
    ensures EndsOnce(a + b, eob)
  {
  }

  /** Huffman decoding of a coded symbol sequence drives the symbol stage with that sequence. */
  lemma {:induction false} ReadSymbolsEncoded(books: seq<Book>, selectors: seq<Byte>, eob: nat, max: nat, bits: Bitstring,
                                              p: nat, selIdx: nat, cur: nat, left: nat, st: Stage, syms: seq<nat>)
    requires p <= |bits| && cur < |books| && left <= GROUP_SIZE && eob <= 257
    requires Alphabet(books, eob) && CodesAll(books, eob) && st.Valid(max)
    requires EnoughSelectors(selectors, books, selIdx, left, |syms|)
    requires EndsOnce(syms, eob) && (forall i :: 0 <= i < |syms| ==> syms[i] <= eob)
    requires Steps(st, syms, eob, max).Done?
    requires At(bits, p, EncodeSymbols(books, selectors, eob, selIdx, cur, left, syms))
    ensures ReadSymbols(books, selectors, eob, max, bits, p, selIdx, cur, left, st)
         == Ok(Steps(st, syms, eob, max).out, p + |EncodeSymbols(books, selectors, eob, selIdx, cur, left, syms)|)
    decreases |syms|, if left == 0 then 1 else 0
  {
    hide ReadSymbols, Step, Decode, PrefixFree, WordFor, Alphabet, At;
    if left == 0 {
      SelectorStep(books, selectors, eob, max, bits, p, selIdx, cur, st);
      ReadSymbolsEncoded(books, selectors, eob, max, bits, p, selIdx + 1, selectors[selIdx + 1], GROUP_SIZE, st, syms);
    } else {
      var w := WordFor(books[cur], syms[0]);
      var rest := EncodeSymbols(books, selectors, eob, selIdx, cur, left - 1, syms[1..]);
      AtSplit(bits, p, w, rest);
      DecodeCoded(books[cur], bits, p, syms[0]);
      StepEnds(st, syms[0], eob, max);
      SymbolsStep(books, selectors, eob, max, bits, p, selIdx, cur, left, st, syms[0], p + |w|);
      var r := Step(st, syms[0], eob, max);
      if |syms| > 1 {
        ReadSymbolsEncoded(books, selectors, eob, max, bits, p + |w|, selIdx, cur, left - 1, r.stage, syms[1..]);
      }
    }
  }

  lemma SelectorStep(books: seq<Book>, selectors: seq<Byte>, eob: nat, max: nat, bits: Bitstring,
                     p: nat, selIdx: nat, cur: nat, st: Stage)
    requires p <= |bits| && cur < |books| && eob <= 257
    requires Alphabet(books, eob) && st.Valid(max)
    requires selIdx + 1 < |selectors| && selectors[selIdx + 1] < |books|
    ensures ReadSymbols(books, selectors, eob, max, bits, p, selIdx, cur, 0, st)
         == ReadSymbols(books, selectors, eob, max, bits, p, selIdx + 1, selectors[selIdx + 1], GROUP_SIZE, st)
  {
    hide Step, Decode;
  }

  lemma DecodeCoded(book: Book, bits: Bitstring, p: nat, sym: nat)
    requires PrefixFree(book) && HasSymbol(book, sym) && At(bits, p, WordFor(book, sym))
    ensures Decode(book, bits, p) == Some((sym, p + |WordFor(book, sym)|))
  {
    hide PrefixFree, Decode, At;
    var i := WordForIndex(book, sym);
    DecodeWord(book, bits, p, i);
  }

  lemma SymbolsStep(books: seq<Book>, selectors: seq<Byte>, eob: nat, max: nat, bits: Bitstring,
                    p: nat, selIdx: nat, cur: nat, left: nat, st: Stage, sym: nat, p1: nat)
    requires p <= |bits| && cur < |books| && 0 < left <= GROUP_SIZE && eob <= 257
    requires Alphabet(books, eob) && st.Valid(max) && sym <= eob
    requires Decode(books[cur], bits, p) == Some((sym, p1))
    ensures p1 <= |bits|
    ensures Step(st, sym, eob, max).Done? ==>
      ReadSymbols(books, selectors, eob, max, bits, p, selIdx, cur, left, st) == Ok(Step(st, sym, eob, max).out, p1)
    ensures Step(st, sym, eob, max).More? ==>
      ReadSymbols(books, selectors, eob, max, bits, p, selIdx, cur, left, st)
      == ReadSymbols(books, selectors, eob, max, bits, p1, selIdx, cur, left - 1, Step(st, sym, eob, max).stage)
  {
    hide Step, Decode;
  }

  lemma StepEnds(st: Stage, sym: nat, eob: nat, max: nat)
    requires st.Valid(max) && sym <= eob <= 257
    ensures Step(st, sym, eob, max).Done? ==> sym == eob
    ensures Step(st, sym, eob, max).More? && eob >= 2 ==> sym != eob
  {
  }
}
