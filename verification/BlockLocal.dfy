/** Parsing a block is local: its outcome depends only on the bits it reads.

    Wherever the bits a successful parse consumed stand again, in a longer stream, in a stream cut off
    behind them, or shifted by any distance, the parse succeeds with the same value and ends in the
    corresponding place.  Wherever the whole rest of the stream stands again, failures correspond too.
    This is what lets blocks be decoded apart from each other. */
module BlockLocal {
  import opened Errors
  import opened Bits
  import opened Mtf
  import opened CodeBooks
  import opened CanonicalCodes
  import opened SymbolTheory
  import opened BlockSpec

  /** `r'`, parsed in `other`, corresponds to `r`, parsed in `bits`, when the bits up to `hi` agree. */
  predicate Corr<T(==)>(bits: Bitstring, other: Bitstring, d: int, hi: nat, r: Parse<T>, r': Parse<T>)
  {
    && (r.Ok? && r.pos <= hi ==> 0 <= r.pos + d && r' == Ok(r.value, r.pos + d))
    && (!r.Ok? && hi == |bits| && |other| == |bits| + d ==> r' == r)
  }

  lemma FieldLocal(bits: Bitstring, p: nat, n: nat, e: BlockError, other: Bitstring, d: int, hi: nat)
    requires Agree(bits, other, d, p, hi)
    ensures Corr(bits, other, d, hi, ReadField(bits, p, n, e), ReadField(other, p + d, n, e))
  {
    if p + n <= hi { AgreeSlice(bits, other, d, p, hi, p, p + n); }
  }

  lemma FlagsLocal(bits: Bitstring, p: nat, n: nat, e: BlockError, other: Bitstring, d: int, hi: nat)
    requires Agree(bits, other, d, p, hi)
    ensures Corr(bits, other, d, hi, ReadFlags(bits, p, n, e), ReadFlags(other, p + d, n, e))
  {
    if p + n <= hi { AgreeSlice(bits, other, d, p, hi, p, p + n); }
  }

  lemma {:induction false} UsedLocal(bits: Bitstring, p: nat, ranges: seq<bool>, k: nat, acc: seq<Byte>,
                                     other: Bitstring, d: int, hi: nat)
    requires Agree(bits, other, d, p, hi) && |ranges| == 16 && k <= 16 && |acc| <= 16 * k
    ensures Corr(bits, other, d, hi, ReadUsed(bits, p, ranges, k, acc), ReadUsed(other, p + d, ranges, k, acc))
    decreases 16 - k
  {
    if k < 16 {
      if ranges[k] {
        FlagsLocal(bits, p, 16, SymbolBitmapTruncated, other, d, hi);
        if p + 16 <= hi {
          UsedLocal(bits, p + 16, ranges, k + 1, acc + Flagged(16 * k, bits[p..p + 16]), other, d, hi);
        }
      } else {
        UsedLocal(bits, p, ranges, k + 1, acc, other, d, hi);
      }
    }
  }

  lemma {:induction false} UnaryLocal(bits: Bitstring, p: nat, groups: nat, count: nat, other: Bitstring, d: int, hi: nat)
    requires Agree(bits, other, d, p, hi) && count < groups
    ensures Corr(bits, other, d, hi, ReadUnary(bits, p, groups, count), ReadUnary(other, p + d, groups, count))
    decreases |bits| - p
  {
    if p < hi {
      assert other[p + d] == bits[p];
      if bits[p] && count + 1 < groups { UnaryLocal(bits, p + 1, groups, count + 1, other, d, hi); }
    }
  }

  lemma {:induction false} SelectorsLocal(bits: Bitstring, p: nat, n: nat, groups: nat, list: seq<Byte>, acc: seq<Byte>,
                                          other: Bitstring, d: int, hi: nat)
    requires Agree(bits, other, d, p, hi) && SelectorList(list, groups) && |acc| <= n
    requires forall i :: 0 <= i < |acc| ==> acc[i] < groups
    ensures Corr(bits, other, d, hi, ReadSelectors(bits, p, n, groups, list, acc),
                 ReadSelectors(other, p + d, n, groups, list, acc))
    decreases n - |acc|
  {
    hide ReadUnary, ToFront;
    if |acc| < n {
      var u := ReadUnary(bits, p, groups, 0);
      UnaryLocal(bits, p, groups, 0, other, d, hi);
      if u.Ok? && u.pos <= hi {
        SelectorListKept(list, groups, u.value);
        SelectorsLocal(bits, u.pos, n, groups, ToFront(list, u.value), acc + [list[u.value]], other, d, hi);
      }
    }
  }

  lemma {:induction false} LengthLocal(bits: Bitstring, p: nat, length: int, other: Bitstring, d: int, hi: nat)
    requires Agree(bits, other, d, p, hi)
    ensures Corr(bits, other, d, hi, ReadLength(bits, p, length), ReadLength(other, p + d, length))
    decreases |bits| - p
  {
    if p < hi {
      assert other[p + d] == bits[p];
      if bits[p] && p + 1 < hi {
        assert other[p + 1 + d] == bits[p + 1];
        LengthLocal(bits, p + 2, if bits[p + 1] then length - 1 else length + 1, other, d, hi);
      }
    }
  }

  lemma {:induction false} TableLocal(bits: Bitstring, p: nat, n: nat, length: int, acc: seq<nat>,
                                      other: Bitstring, d: int, hi: nat)
    requires Agree(bits, other, d, p, hi) && |acc| <= n && LengthTable(acc)
    ensures Corr(bits, other, d, hi, ReadTable(bits, p, n, length, acc), ReadTable(other, p + d, n, length, acc))
    decreases n - |acc|
  {
    hide ReadLength;
    if |acc| < n {
      var l := ReadLength(bits, p, length);
      LengthLocal(bits, p, length, other, d, hi);
      if l.Ok? && l.pos <= hi { TableLocal(bits, l.pos, n, l.value, acc + [l.value], other, d, hi); }
    }
  }

  lemma {:induction false} TablesLocal(bits: Bitstring, p: nat, groups: nat, n: nat, acc: seq<seq<nat>>,
                                       other: Bitstring, d: int, hi: nat)
    requires Agree(bits, other, d, p, hi) && |acc| <= groups && GoodTables(acc, n)
    ensures Corr(bits, other, d, hi, ReadTables(bits, p, groups, n, acc), ReadTables(other, p + d, groups, n, acc))
    decreases groups - |acc|
  {
    hide ReadTable, ReadField, KraftSum, Pow2;
    if |acc| < groups {
      var start := ReadField(bits, p, 5, StartLengthTruncated);
      FieldLocal(bits, p, 5, StartLengthTruncated, other, d, hi);
      if start.Ok? && start.pos <= hi {
        var t := ReadTable(bits, start.pos, n, start.value, []);
        TableLocal(bits, start.pos, n, start.value, [], other, d, hi);
        if t.Ok? && t.pos <= hi && KraftSum(t.value) <= Pow2(MAX_LEN) {
          TablesLocal(bits, t.pos, groups, n, acc + [t.value], other, d, hi);
        }
      }
    }
  }

  lemma StartLocal(bits: Bitstring, p: nat, other: Bitstring, d: int, hi: nat)
    requires Agree(bits, other, d, p, hi)
    ensures Corr(bits, other, d, hi, ReadStart(bits, p), ReadStart(other, p + d))
  {
    hide ReadField;
    FieldLocal(bits, p, 32, CrcTruncated, other, d, hi);
    if p + 32 <= hi {
      FieldLocal(bits, p + 32, 1, RandomisedFlagTruncated, other, d, hi);
      if p + 33 <= hi { FieldLocal(bits, p + 33, 24, OrigPtrTruncated, other, d, hi); }
    }
  }

  lemma AlphabetLocal(bits: Bitstring, p: nat, other: Bitstring, d: int, hi: nat)
    requires Agree(bits, other, d, p, hi)
    ensures Corr(bits, other, d, hi, ReadAlphabet(bits, p), ReadAlphabet(other, p + d))
  {
    hide ReadFlags, ReadUsed;
    var ranges := ReadFlags(bits, p, 16, SymbolRangeTruncated);
    FlagsLocal(bits, p, 16, SymbolRangeTruncated, other, d, hi);
    if ranges.Ok? && ranges.pos <= hi { UsedLocal(bits, ranges.pos, ranges.value, 0, [], other, d, hi); }
  }

  lemma CodingLocal(bits: Bitstring, p: nat, n: nat, other: Bitstring, d: int, hi: nat)
    requires Agree(bits, other, d, p, hi)
    ensures Corr(bits, other, d, hi, ReadCoding(bits, p, n), ReadCoding(other, p + d, n))
  {
    hide ReadField, ReadSelectors, ReadTables;
    var groups := ReadField(bits, p, 3, GroupsTruncated);
    FieldLocal(bits, p, 3, GroupsTruncated, other, d, hi);
    if groups.Ok? && groups.pos <= hi && 2 <= groups.value <= 6 {
      var count := ReadField(bits, groups.pos, 15, SelectorsUsedTruncated);
      FieldLocal(bits, groups.pos, 15, SelectorsUsedTruncated, other, d, hi);
      if count.Ok? && count.pos <= hi && count.value <= MAX_SELECTORS {
        var sels := ReadSelectors(bits, count.pos, count.value, groups.value, Identity(), []);
        SelectorsLocal(bits, count.pos, count.value, groups.value, Identity(), [], other, d, hi);
        if sels.Ok? && sels.pos <= hi { TablesLocal(bits, sels.pos, groups.value, n, [], other, d, hi); }
      }
    }
  }

  lemma HeaderLocal(bits: Bitstring, p: nat, other: Bitstring, d: int, hi: nat)
    requires Agree(bits, other, d, p, hi)
    ensures Corr(bits, other, d, hi, ReadHeader(bits, p), ReadHeader(other, p + d))
  {
    hide ReadStart, ReadAlphabet, ReadCoding;
    var start := ReadStart(bits, p);
    StartLocal(bits, p, other, d, hi);
    if start.Ok? && start.pos <= hi {
      var used := ReadAlphabet(bits, start.pos);
      AlphabetLocal(bits, start.pos, other, d, hi);
      if used.Ok? && used.pos <= hi { CodingLocal(bits, used.pos, |used.value| + 2, other, d, hi); }
    }
  }

  lemma {:induction false} SymbolsLocal(books: seq<Book>, selectors: seq<Byte>, eob: nat, max: nat, bits: Bitstring,
                                        p: nat, selIdx: nat, cur: nat, left: nat, st: Stage, other: Bitstring, d: int, hi: nat)
    requires Agree(bits, other, d, p, hi) && cur < |books| && left <= GROUP_SIZE && eob <= 257
    requires Alphabet(books, eob) && st.Valid(max)
    ensures Corr(bits, other, d, hi, ReadSymbols(books, selectors, eob, max, bits, p, selIdx, cur, left, st),
                 ReadSymbols(books, selectors, eob, max, other, p + d, selIdx, cur, left, st))
    decreases |bits| - p, if left == 0 then 1 else 0
  {
    hide Step, Decode;
    if left == 0 {
      if selIdx + 1 < |selectors| && selectors[selIdx + 1] < |books| {
        SymbolsLocal(books, selectors, eob, max, bits, p, selIdx + 1, selectors[selIdx + 1], GROUP_SIZE, st, other, d, hi);
      }
    } else {
      var s := Decode(books[cur], bits, p);
      DecodeLocal(books[cur], bits, p, other, d, hi);
      if s.Some? && s.value.1 <= hi {
        var r := Step(st, s.value.0, eob, max);
        if r.More? {
          SymbolsLocal(books, selectors, eob, max, bits, s.value.1, selIdx, cur, left - 1, r.stage, other, d, hi);
        }
      }
    }
  }

  lemma DecodeLocal(book: Book, bits: Bitstring, p: nat, other: Bitstring, d: int, hi: nat)
    requires Agree(bits, other, d, p, hi)
    ensures var r, r' := Decode(book, bits, p), Decode(book, other, p + d);
      && (r.Some? && r.value.1 <= hi ==> r'.Some? && r'.value.0 == r.value.0 && r'.value.1 == r.value.1 + d)
      && (r.None? && hi == |bits| && |other| == |bits| + d ==> r'.None?)
  {
    WalkLocal(book, bits, p, p, other, d, hi);
  }

  lemma BodyLocal(bits: Bitstring, p: nat, h: Header, max: nat, other: Bitstring, d: int, hi: nat)
    requires Agree(bits, other, d, p, hi) && GoodHeader(h)
    ensures Corr(bits, other, d, hi, ReadBody(bits, p, h, max), ReadBody(other, p + d, h, max))
  {
    hide ReadSymbols, GoodTables;
    var n := |h.used| + 2;
    BooksAlphabet(h.tables, n);
    SymbolsLocal(BooksOf(h.tables, n), h.selectors, n - 1, max, bits,
                 p, 0, FirstTable(h.selectors), GROUP_SIZE, Stage(StartList(h.used), [], 0, 0), other, d, hi);
  }

  /** A block parses the same wherever its bits stand. */
  lemma ColumnLocal(bits: Bitstring, p: nat, max: nat, other: Bitstring, d: int, hi: nat)
    requires Agree(bits, other, d, p, hi)
    ensures Corr(bits, other, d, hi, ReadColumn(bits, p, max), ReadColumn(other, p + d, max))
  {
    hide ReadHeader, ReadBody, GoodHeader;
    var h := ReadHeader(bits, p);
    HeaderLocal(bits, p, other, d, hi);
    if h.Ok? && h.pos <= hi { BodyLocal(bits, h.pos, h.value, max, other, d, hi); }
  }

  /** The selectors a header can carry never point outside its tables, so the decoder's check of a
      later selector never fires. */
  lemma {:induction false} SelectorsInRange(books: seq<Book>, selectors: seq<Byte>, eob: nat, max: nat, bits: Bitstring,
                                            p: nat, selIdx: nat, cur: nat, left: nat, st: Stage)
    requires p <= |bits| && cur < |books| && left <= GROUP_SIZE && eob <= 257
    requires Alphabet(books, eob) && st.Valid(max)
    requires forall i :: 0 <= i < |selectors| ==> selectors[i] < |books|
    ensures ReadSymbols(books, selectors, eob, max, bits, p, selIdx, cur, left, st) != Err(SelectorOutOfRange)
    decreases |bits| - p, if left == 0 then 1 else 0
  {
    if left == 0 {
      if selIdx + 1 < |selectors| {
        SelectorsInRange(books, selectors, eob, max, bits, p, selIdx + 1, selectors[selIdx + 1], GROUP_SIZE, st);
      }
    } else {
      var d := Decode(books[cur], bits, p);
      if d.Some? {
        var r := Step(st, d.value.0, eob, max);
        if r.More? {
          SelectorsInRange(books, selectors, eob, max, bits, d.value.1, selIdx, cur, left - 1, r.stage);
        }
      }
    }
  }
}
