/** The block format without a parser: which bits stand for which header, and which for which symbols.  The
    parser accepts a header if and only if its bits are laid out as is said here. */
module BlockFormat {
  import opened Wrappers
  import opened Errors
  import opened Bits
  import opened Mtf
  import opened CodeBooks
  import opened CanonicalCodes
  import opened SymbolTheory
  import opened BlockSpec
  import opened BlockEncode
  import opened BlockRoundTrip

  // ---------------------------------------------------------------------------------------------
  // Checksum, flag and row index
  // ---------------------------------------------------------------------------------------------

  /** 32 bits that are not looked at, a clear flag, and 24 bits of row index. */
  predicate StartAt(bits: Bitstring, p: nat, origPtr: nat)
  {
    p + 57 <= |bits| && !bits[p + 32] && Value(bits[p + 33..p + 57]) == origPtr
  }

  lemma StartIff(bits: Bitstring, p: nat, origPtr: nat, q: nat)
    requires p <= |bits|
    ensures ReadStart(bits, p) == Ok(origPtr, q) <==> q == p + 57 && StartAt(bits, p, origPtr)
    ensures p + 33 <= |bits| && bits[p + 32] ==> ReadStart(bits, p) == Err(RandomisedUnsupported)
  {
    hide Value;
    if p + 33 <= |bits| { ValueOfOne(bits[p + 32..p + 33]); }
  }

  // ---------------------------------------------------------------------------------------------
  // The bytes in use
  // ---------------------------------------------------------------------------------------------

  /** How many of the `k` bits from `p` on are set. */
  function SetBits(bits: Bitstring, p: nat, k: nat): (n: nat)
    requires p + k <= |bits|
    ensures n <= k
  {
    if k == 0 then 0 else SetBits(bits, p, k - 1) + if bits[p + k - 1] then 1 else 0
  }

  /** Byte `b` is in use: the bit of its range of 16 is set, and so is its own bit in the map of that
      range; only ranges whose bit is set have a map. */
  predicate InUse(bits: Bitstring, p: nat, b: Byte)
    requires p + 16 <= |bits|
  {
    && bits[p + b / 16]
    && var own := p + 16 + 16 * SetBits(bits, p, b / 16);
       own + b % 16 < |bits| && bits[own + b % 16]
  }

  predicate Ascending(s: seq<Byte>)
  {
    forall i, j :: 0 <= i < j < |s| ==> s[i] < s[j]
  }

  /** The 16 bits of the ranges and the maps of those that are set, for these bytes in use. */
  predicate AlphabetAt(bits: Bitstring, p: nat, used: seq<Byte>, q: nat)
  {
    && p + 16 <= |bits| && q == p + 16 + 16 * SetBits(bits, p, 16) <= |bits|
    && used != [] && Ascending(used) && forall b: Byte :: b in used <==> InUse(bits, p, b)
  }

  lemma AscendingPush(s: seq<Byte>, x: Byte)
    requires Ascending(s) && forall y :: y in s ==> y < x
    ensures Ascending(s + [x]) && forall y: Byte :: y in s + [x] <==> y in s || y == x
  {
    assert forall i :: 0 <= i < |s| ==> s[i] in s;
  }

  /** The bytes of flagged places, one place more. */
  lemma FlaggedLast(base: nat, flags: seq<bool>, before: seq<Byte>)
    requires flags != [] && base + |flags| <= 256 && Ascending(before)
    requires forall b: Byte :: b in before <==> base <= b < base + |flags| - 1 && flags[b - base]
    ensures var n := |flags| - 1;
      var all := if flags[n] then before + [base + n] else before;
      Ascending(all) && forall b: Byte :: b in all <==> base <= b < base + |flags| && flags[b - base]
  {
    hide Ascending;
    var x := base + |flags| - 1;
    AscendingPush(before, x);
    var all := if flags[|flags| - 1] then before + [x] else before;
    forall b: Byte
      ensures b in all <==> base <= b < base + |flags| && flags[b - base]
    {
      assert b in before <==> base <= b < x && flags[b - base];
    }
  }

  lemma NoneFlagged(base: nat)
    requires base <= 256
    ensures Flagged(base, []) == [] && Ascending([])
  {
  }

  lemma {:induction false} FlaggedMembers(base: nat, flags: seq<bool>)
    requires base + |flags| <= 256
    ensures Ascending(Flagged(base, flags))
    ensures forall b: Byte :: b in Flagged(base, flags) <==> base <= b < base + |flags| && flags[b - base]
  {
    hide Ascending;
    NoneFlagged(base);
    if flags != [] {
      var n := |flags| - 1;
      FlaggedMembers(base, flags[..n]);
      var before := Flagged(base, flags[..n]);
      forall b: Byte
        ensures b in before <==> base <= b < base + |flags| - 1 && flags[b - base]
      {
        if base <= b < base + n { assert flags[..n][b - base] == flags[b - base]; }
      }
      FlaggedLast(base, flags, before);
    }
  }

  /** The bytes in use of the ranges before `k`. */
  predicate UsedBelow(bits: Bitstring, p: nat, k: nat, acc: seq<Byte>)
    requires p + 16 <= |bits|
  {
    Ascending(acc) && forall b: Byte :: b in acc <==> b < 16 * k && InUse(bits, p, b)
  }

  lemma UsedRange(bits: Bitstring, p: nat, k: nat, acc: seq<Byte>)
    requires p + 16 <= |bits| && k < 16 && UsedBelow(bits, p, k, acc)
    ensures !bits[p + k] ==> UsedBelow(bits, p, k + 1, acc)
    ensures var own := p + 16 + 16 * SetBits(bits, p, k);
      bits[p + k] && own + 16 <= |bits| ==> UsedBelow(bits, p, k + 1, acc + Flagged(16 * k, bits[own..own + 16]))
  {
    hide InUse, Flagged;
    var own := p + 16 + 16 * SetBits(bits, p, k);
    forall b: Byte | 16 * k <= b < 16 * k + 16
      ensures !bits[p + k] ==> !InUse(bits, p, b)
      ensures bits[p + k] && own + 16 <= |bits| ==> (InUse(bits, p, b) <==> bits[own..own + 16][b - 16 * k])
    {
      UseOfRange(bits, p, k, b);
    }
    if bits[p + k] && own + 16 <= |bits| {
      FlaggedMembers(16 * k, bits[own..own + 16]);
      var more := Flagged(16 * k, bits[own..own + 16]);
      AscendingJoin(acc, more, 16 * k);
    }
  }

  lemma UseOfRange(bits: Bitstring, p: nat, k: nat, b: Byte)
    requires p + 16 <= |bits| && k < 16 && 16 * k <= b < 16 * k + 16
    ensures b / 16 == k && b % 16 == b - 16 * k
    ensures var own := p + 16 + 16 * SetBits(bits, p, k);
      && (!bits[p + k] ==> !InUse(bits, p, b))
      && (bits[p + k] && own + 16 <= |bits| ==> (InUse(bits, p, b) <==> bits[own + (b - 16 * k)]))
  {
  }

  lemma AscendingJoin(a: seq<Byte>, b: seq<Byte>, m: nat)
    requires Ascending(a) && Ascending(b) && (forall x :: x in a ==> x < m) && (forall x :: x in b ==> x >= m)
    ensures Ascending(a + b)
  {
    assert forall i :: 0 <= i < |a| ==> a[i] in a;
    assert forall i :: 0 <= i < |b| ==> b[i] in b;
  }

  lemma SetBitsStep(bits: Bitstring, p: nat, k: nat, m: nat)
    requires k < m && p + m <= |bits|
    ensures SetBits(bits, p, k + 1) == SetBits(bits, p, k) + if bits[p + k] then 1 else 0
    ensures SetBits(bits, p, k + 1) <= SetBits(bits, p, m)
    decreases m
  {
    if k + 1 < m { SetBitsStep(bits, p, k, m - 1); }
  }

  lemma {:induction false} UsedRead(bits: Bitstring, p: nat, k: nat, acc: seq<Byte>)
    requires p + 16 <= |bits| && k <= 16 && |acc| <= 16 * k && UsedBelow(bits, p, k, acc)
    requires p + 16 + 16 * SetBits(bits, p, k) <= |bits|
    ensures var r, q := ReadUsed(bits, p + 16 + 16 * SetBits(bits, p, k), bits[p..p + 16], k, acc), p + 16 + 16 * SetBits(bits, p, 16);
      if q <= |bits| then r.Ok? && r.pos == q && UsedBelow(bits, p, 16, r.value) else r == Err(SymbolBitmapTruncated)
    decreases 16 - k
  {
    hide UsedBelow, Flagged, SetBits;
    if k < 16 {
      var ranges, own := bits[p..p + 16], p + 16 + 16 * SetBits(bits, p, k);
      UsedRange(bits, p, k, acc);
      SetBitsStep(bits, p, k, 16);
      assert ranges[k] == bits[p + k];
      if !bits[p + k] {
        UsedRead(bits, p, k + 1, acc);
      } else if own + 16 <= |bits| {
        UsedRead(bits, p, k + 1, acc + Flagged(16 * k, bits[own..own + 16]));
      }
    }
  }

  lemma HasMember(s: seq<Byte>)
    ensures s != [] ==> exists x: Byte :: x in s
  {
    if s != [] { assert s[0] in s; }
  }

  /** Ascending lists with the same members are the same. */
  lemma {:induction false} AscendingUnique(a: seq<Byte>, b: seq<Byte>)
    requires Ascending(a) && Ascending(b) && forall x: Byte :: x in a <==> x in b
    ensures a == b
    decreases |a|
  {
    HasMember(b);
    if a != [] {
      assert a[0] in b;
      assert b[0] in a;
      assert a[0] == b[0];
      assert a == [a[0]] + a[1..] && b == [b[0]] + b[1..];
      forall x: Byte
        ensures x in a[1..] <==> x in b[1..]
      {
        assert x in a <==> x in b;
      }
      AscendingUnique(a[1..], b[1..]);
    }
  }

  lemma NothingBelow(bits: Bitstring, p: nat)
    requires p + 16 <= |bits|
    ensures UsedBelow(bits, p, 0, []) && SetBits(bits, p, 0) == 0
  {
  }

  lemma AllBelow(bits: Bitstring, p: nat, used: seq<Byte>)
    requires p + 16 <= |bits|
    ensures UsedBelow(bits, p, 16, used) <==> Ascending(used) && forall b: Byte :: b in used <==> InUse(bits, p, b)
  {
    hide InUse;
  }

  /** The parser finds exactly these bytes in use, in ascending order. */
  lemma AlphabetIff(bits: Bitstring, p: nat, used: seq<Byte>, q: nat)
    requires p <= |bits|
    ensures ReadAlphabet(bits, p) == Ok(used, q) <==> AlphabetAt(bits, p, used, q)
  {
    hide InUse, SetBits, ReadUsed, UsedBelow, Ascending;
    if p + 16 <= |bits| {
      NothingBelow(bits, p);
      UsedRead(bits, p, 0, []);
      AllBelow(bits, p, used);
      var r := ReadUsed(bits, p + 16, bits[p..p + 16], 0, []);
      if r.Ok? {
        AllBelow(bits, p, r.value);
        if AlphabetAt(bits, p, used, q) { AscendingUnique(used, r.value); }
      }
    }
  }

  /** Why there may be no bytes in use. */
  lemma AlphabetErrors(bits: Bitstring, p: nat)
    requires p <= |bits|
    ensures p + 16 > |bits| ==> ReadAlphabet(bits, p) == Err(SymbolRangeTruncated)
    ensures p + 16 <= |bits| && p + 16 + 16 * SetBits(bits, p, 16) > |bits| ==> ReadAlphabet(bits, p) == Err(SymbolBitmapTruncated)
    ensures p + 16 <= |bits| && p + 16 + 16 * SetBits(bits, p, 16) <= |bits| && (forall b: Byte :: !InUse(bits, p, b)) ==>
      ReadAlphabet(bits, p) == Err(NoSymbols)
  {
    hide InUse, SetBits, ReadUsed, UsedBelow, Ascending;
    if p + 16 <= |bits| {
      NothingBelow(bits, p);
      UsedRead(bits, p, 0, []);
      var r := ReadUsed(bits, p + 16, bits[p..p + 16], 0, []);
      if r.Ok? {
        AllBelow(bits, p, r.value);
        HasMember(r.value);
      }
    }
  }

  // ---------------------------------------------------------------------------------------------
  // Selectors
  // ---------------------------------------------------------------------------------------------

  /** `k` ones and a zero. */
  predicate UnaryAt(bits: Bitstring, p: nat, k: nat)
  {
    p + k < |bits| && !bits[p + k] && forall j :: p <= j < p + k ==> bits[j]
  }

  lemma {:induction false} UnaryIff(bits: Bitstring, p: nat, groups: nat, count: nat, v: nat, q: nat)
    requires p <= |bits| && count < groups
    ensures ReadUnary(bits, p, groups, count) == Ok(v, q) <==> count <= v < groups && q == p + (v - count) + 1 && UnaryAt(bits, p, v - count)
    decreases |bits| - p
  {
    if p < |bits| && bits[p] && count + 1 < groups { UnaryIff(bits, p + 1, groups, count + 1, v, q); }
  }

  /** As many ones as there are tables are too many, and a stream may end before the zero. */
  lemma {:induction false} UnaryErrors(bits: Bitstring, p: nat, groups: nat, count: nat)
    requires p <= |bits| && count < groups
    ensures p + (groups - count) <= |bits| && (forall j :: p <= j < p + (groups - count) ==> bits[j]) ==>
      ReadUnary(bits, p, groups, count) == Err(SelectorTooLarge)
    ensures |bits| < p + (groups - count) && (forall j :: p <= j < |bits| ==> bits[j]) ==>
      ReadUnary(bits, p, groups, count) == Err(SelectorBitTruncated)
    decreases |bits| - p
  {
    if p < |bits| && bits[p] && count + 1 < groups { UnaryErrors(bits, p + 1, groups, count + 1); }
  }

  /** The tables in their order at the beginning. */
  function TableNumbers(groups: nat): (first: seq<Byte>)
    requires groups <= 256
    ensures |first| == groups && forall i :: 0 <= i < groups ==> first[i] == i
  {
    seq(groups, i requires 0 <= i < groups => i)
  }

  /** Of the elements of `first`, exactly `k` have been used after `b`, those never used counting in the
      order of `first`. */
  ghost predicate HasRank(first: seq<Byte>, uses: seq<Byte>, b: Byte, k: nat)
  {
    exists list :: ByRecency(first, uses, list) && k < |list| && list[k] == b
  }

  /** Each selector in unary: how many tables have been used after the one it selects. */
  ghost predicate SelectorsAt(bits: Bitstring, p: nat, groups: nat, uses: seq<Byte>, ranks: seq<nat>, sels: seq<Byte>, q: nat)
    requires groups <= 256
    decreases |ranks|
  {
    |ranks| == |sels| &&
    if ranks == [] then p == q
    else
      && UnaryAt(bits, p, ranks[0]) && HasRank(TableNumbers(groups), uses, sels[0], ranks[0])
      && SelectorsAt(bits, p + ranks[0] + 1, groups, uses + [sels[0]], ranks[1..], sels[1..], q)
  }

  lemma RankIs(first: seq<Byte>, uses: seq<Byte>, list: seq<Byte>, b: Byte, k: nat)
    requires ByRecency(first, uses, list)
    ensures HasRank(first, uses, b, k) <==> k < |list| && list[k] == b
  {
    hide ByRecency;
    if HasRank(first, uses, b, k) {
      var other :| ByRecency(first, uses, other) && k < |other| && other[k] == b;
      RecencyIsUnique(first, uses, list, other);
    }
  }

  lemma ListAfter(groups: nat, uses: seq<Byte>, list: seq<Byte>, k: nat)
    requires SelectorList(list, groups) && k < groups && ByRecency(TableNumbers(groups), uses, list[..groups])
    ensures SelectorList(ToFront(list, k), groups)
    ensures ByRecency(TableNumbers(groups), uses + [list[k]], ToFront(list, k)[..groups])
  {
    hide ByRecency;
    SelectorListKept(list, groups, k);
    ToFrontByRecency(TableNumbers(groups), uses, list[..groups], k);
    assert ToFront(list, k)[..groups] == ToFront(list[..groups], k);
  }

  /** Selectors laid out so are read. */
  lemma {:induction false} SelectorsRead(bits: Bitstring, p: nat, groups: nat, list: seq<Byte>, uses: seq<Byte>, ranks: seq<nat>, sels: seq<Byte>, q: nat)
    requires p <= |bits| && SelectorList(list, groups) && ByRecency(TableNumbers(groups), uses, list[..groups])
    requires (forall i :: 0 <= i < |uses| ==> uses[i] < groups) && SelectorsAt(bits, p, groups, uses, ranks, sels, q)
    ensures ReadSelectors(bits, p, |uses| + |sels|, groups, list, uses) == Ok(uses + sels, q)
    decreases |ranks|
  {
    hide ReadSelectors, ReadUnary, ToFront, ByRecency, HasRank;
    if ranks == [] {
      SelectorsDone(bits, p, groups, list, uses);
      assert uses + sels == uses;
    } else {
      var k := ranks[0];
      RankIs(TableNumbers(groups), uses, list[..groups], sels[0], k);
      UnaryIff(bits, p, groups, 0, k, p + k + 1);
      ListAfter(groups, uses, list, k);
      SelectorsStep(bits, p, |uses| + |sels|, groups, list, uses, k, p + k + 1);
      SelectorsRead(bits, p + k + 1, groups, ToFront(list, k), uses + [sels[0]], ranks[1..], sels[1..], q);
      assert uses + [sels[0]] + sels[1..] == uses + sels;
    }
  }

  /** And nothing else is. */
  lemma {:induction false} SelectorsLaidOut(bits: Bitstring, p: nat, n: nat, groups: nat, list: seq<Byte>, uses: seq<Byte>) returns (ranks: seq<nat>)
    requires p <= |bits| && SelectorList(list, groups) && ByRecency(TableNumbers(groups), uses, list[..groups])
    requires |uses| <= n && (forall i :: 0 <= i < |uses| ==> uses[i] < groups) && ReadSelectors(bits, p, n, groups, list, uses).Ok?
    ensures var r := ReadSelectors(bits, p, n, groups, list, uses);
      |r.value| == n && r.value[..|uses|] == uses && SelectorsAt(bits, p, groups, uses, ranks, r.value[|uses|..], r.pos)
    decreases n - |uses|
  {
    hide ReadUnary, ToFront, ByRecency, HasRank;
    var r := ReadSelectors(bits, p, n, groups, list, uses);
    if |uses| == n {
      ranks := [];
    } else {
      var u := ReadUnary(bits, p, groups, 0);
      var k := u.value;
      UnaryIff(bits, p, groups, 0, k, u.pos);
      ListAfter(groups, uses, list, k);
      RankIs(TableNumbers(groups), uses, list[..groups], list[k], k);
      SelectorsStep(bits, p, n, groups, list, uses, k, u.pos);
      var later := SelectorsLaidOut(bits, u.pos, n, groups, ToFront(list, k), uses + [list[k]]);
      ranks := [k] + later;
      var sels := r.value[|uses|..];
      assert r.value[..|uses| + 1] == uses + [list[k]];
      assert r.value[|uses|] == list[k] && sels[1..] == r.value[|uses| + 1..];
      assert r.value[..|uses|] == r.value[..|uses| + 1][..|uses|];
    }
  }

  lemma AtTheBeginning(groups: nat)
    requires 0 < groups <= 256
    ensures SelectorList(Identity(), groups) && ByRecency(TableNumbers(groups), [], Identity()[..groups])
  {
    NothingUsedYet(TableNumbers(groups));
    assert Identity()[..groups] == TableNumbers(groups);
  }

  // ---------------------------------------------------------------------------------------------
  // Code lengths
  // ---------------------------------------------------------------------------------------------

  /** A length after `m` adjustments of two bits: the second bit of each says down or up. */
  function Level(bits: Bitstring, p: nat, from: int, m: nat): (v: int)
    requires p + 2 * m <= |bits|
  {
    if m == 0 then from else Level(bits, p, from, m - 1) + if bits[p + 2 * m - 1] then -1 else 1
  }

  /** `m` adjustments, each announced by a one, and a zero; no length on the way leaves 1 to 20. */
  predicate LengthAt(bits: Bitstring, p: nat, from: int, len: nat, m: nat)
  {
    && p + 2 * m < |bits| && !bits[p + 2 * m]
    && (forall j :: 0 <= j < m ==> bits[p + 2 * j])
    && (forall j :: 0 <= j <= m ==> 1 <= Level(bits, p, from, j) <= 20)
    && Level(bits, p, from, m) == len
  }

  lemma {:induction false} LevelShift(bits: Bitstring, p: nat, from: int, m: nat)
    requires p + 2 * (m + 1) <= |bits|
    ensures Level(bits, p, from, m + 1) == Level(bits, p + 2, from + (if bits[p + 1] then -1 else 1), m)
  {
    if m > 0 { LevelShift(bits, p, from, m - 1); } else { assert Level(bits, p, from, 0) == from; }
  }

  /** A length takes its adjustments one at a time. */
  lemma LengthCons(bits: Bitstring, p: nat, from: int, len: nat, m: nat)
    requires p + 2 <= |bits|
    ensures LengthAt(bits, p, from, len, m + 1) <==>
      1 <= from <= 20 && bits[p] && LengthAt(bits, p + 2, from + (if bits[p + 1] then -1 else 1), len, m)
  {
    var next := from + if bits[p + 1] then -1 else 1;
    if p + 2 * (m + 1) < |bits| {
      forall j: nat | j <= m
        ensures SameLevel(bits, p, from, next, j)
      {
        LevelShift(bits, p, from, j);
      }
      LengthConsWith(bits, p, from, len, m, next, p + 2);
    }
  }

  /** Counted from two bits later there is one adjustment less. */
  predicate SameLevel(bits: Bitstring, p: nat, from: int, next: int, j: nat)
    requires p + 2 * (j + 1) <= |bits|
  {
    Level(bits, p, from, j + 1) == Level(bits, p + 2, next, j)
  }

  lemma LengthConsWith(bits: Bitstring, p: nat, from: int, len: nat, m: nat, next: int, p2: nat)
    requires p2 == p + 2 && p2 + 2 * m < |bits| && forall j: nat :: j <= m ==> SameLevel(bits, p, from, next, j)
    ensures LengthAt(bits, p, from, len, m + 1) <==> 1 <= from <= 20 && bits[p] && LengthAt(bits, p2, next, len, m)
  {
    if LengthAt(bits, p, from, len, m + 1) {
      assert Level(bits, p, from, 0) == from && bits[p + 2 * 0];
      forall j: nat | j < m
        ensures bits[p2 + 2 * j]
      {
        assert bits[p + 2 * (j + 1)];
      }
      forall j: nat | j <= m
        ensures 1 <= Level(bits, p2, next, j) <= 20
      {
        assert SameLevel(bits, p, from, next, j);
      }
      assert SameLevel(bits, p, from, next, m);
    }
    if 1 <= from <= 20 && bits[p] && LengthAt(bits, p2, next, len, m) {
      forall j: nat | j < m + 1
        ensures bits[p + 2 * j]
      {
        if j > 0 { assert bits[p2 + 2 * (j - 1)]; }
      }
      forall j: nat | j <= m + 1
        ensures 1 <= Level(bits, p, from, j) <= 20
      {
        if j > 0 { assert SameLevel(bits, p, from, next, j - 1); }
      }
    }
  }

  lemma {:induction false} LengthIff(bits: Bitstring, p: nat, from: int, len: nat, q: nat)
    requires p <= |bits|
    ensures ReadLength(bits, p, from) == Ok(len, q) <==> exists m: nat :: q == p + 2 * m + 1 && LengthAt(bits, p, from, len, m)
    decreases |bits| - p
  {
    hide LengthAt;
    LengthZero(bits, p, from, len);
    if 1 <= from <= 20 && p < |bits| && bits[p] && p + 2 <= |bits| {
      var next := from + if bits[p + 1] then -1 else 1;
      LengthIff(bits, p + 2, next, len, q);
      if exists m: nat :: q == p + 2 * m + 1 && LengthAt(bits, p, from, len, m) {
        var m: nat :| q == p + 2 * m + 1 && LengthAt(bits, p, from, len, m);
        LengthCons(bits, p, from, len, m - 1);
        assert q == p + 2 + 2 * (m - 1) + 1 && LengthAt(bits, p + 2, next, len, m - 1);
      }
      if exists m: nat :: q == p + 2 + 2 * m + 1 && LengthAt(bits, p + 2, next, len, m) {
        var m: nat :| q == p + 2 + 2 * m + 1 && LengthAt(bits, p + 2, next, len, m);
        LengthCons(bits, p, from, len, m);
        assert q == p + 2 * (m + 1) + 1 && LengthAt(bits, p, from, len, m + 1);
      }
    }
  }

  /** A length that is accepted at once, and when there can be none. */
  lemma LengthZero(bits: Bitstring, p: nat, from: int, len: nat)
    requires p <= |bits|
    ensures LengthAt(bits, p, from, len, 0) <==> p < |bits| && !bits[p] && 1 <= from <= 20 && from == len
    ensures forall m: nat :: LengthAt(bits, p, from, len, m) ==>
      p < |bits| && 1 <= from <= 20 && (bits[p] <==> m > 0) && (m > 0 ==> p + 2 <= |bits|)
  {
    forall m: nat | LengthAt(bits, p, from, len, m)
      ensures p < |bits| && 1 <= from <= 20 && (bits[p] <==> m > 0) && (m > 0 ==> p + 2 <= |bits|)
    {
      assert Level(bits, p, from, 0) == from;
      if m > 0 { assert bits[p + 2 * 0]; }
    }
  }

  /** A length that leaves 1 to 20 is an error at once, even if it would come back. */
  lemma {:induction false} LengthLeaves(bits: Bitstring, p: nat, from: int, m: nat)
    requires p + 2 * m <= |bits| && (forall j :: 0 <= j < m ==> bits[p + 2 * j])
    requires (forall j :: 0 <= j < m ==> 1 <= Level(bits, p, from, j) <= 20) && !(1 <= Level(bits, p, from, m) <= 20)
    ensures ReadLength(bits, p, from) == Err(LengthOutOfRange)
    decreases m
  {
    if m > 0 {
      assert Level(bits, p, from, 0) == from && bits[p + 2 * 0];
      var next, p2 := from + (if bits[p + 1] then -1 else 1), p + 2;
      forall j: nat | j < m
        ensures Level(bits, p2, next, j) == Level(bits, p, from, j + 1)
      {
        LevelShift(bits, p, from, j);
      }
      forall j: nat | j < m - 1
        ensures bits[p2 + 2 * j]
      {
        assert bits[p + 2 * (j + 1)];
      }
      LengthLeaves(bits, p2, next, m - 1);
    }
  }

  /** The lengths of one table, each from the one before. */
  ghost predicate TableAt(bits: Bitstring, p: nat, from: int, t: seq<nat>, q: nat)
    decreases |t|
  {
    if t == [] then p == q
    else exists m: nat :: LengthAt(bits, p, from, t[0], m) && TableAt(bits, p + 2 * m + 1, t[0], t[1..], q)
  }

  lemma {:induction false} TableIff(bits: Bitstring, p: nat, n: nat, from: int, acc: seq<nat>, t: seq<nat>, q: nat)
    requires p <= |bits| && |acc| + |t| == n && LengthTable(acc)
    ensures ReadTable(bits, p, n, from, acc) == Ok(acc + t, q) <==> TableAt(bits, p, from, t, q)
    decreases |t|
  {
    hide ReadLength, LengthAt, LengthTable;
    if t == [] {
      assert acc + t == acc;
    } else {
      var r := ReadLength(bits, p, from);
      if r.Ok? { FromLength(bits, p, n, from, acc, t, q); }
      if TableAt(bits, p, from, t, q) {
        var m: nat :| LengthAt(bits, p, from, t[0], m) && TableAt(bits, p + 2 * m + 1, t[0], t[1..], q);
        LengthIff(bits, p, from, t[0], p + 2 * m + 1);
      }
    }
  }

  /** A table behind its first length. */
  lemma {:induction false} FromLength(bits: Bitstring, p: nat, n: nat, from: int, acc: seq<nat>, t: seq<nat>, q: nat)
    requires p <= |bits| && |acc| + |t| == n && LengthTable(acc) && t != [] && ReadLength(bits, p, from).Ok?
    ensures ReadTable(bits, p, n, from, acc) == Ok(acc + t, q) <==> TableAt(bits, p, from, t, q)
    decreases |t|, 0
  {
    hide ReadLength, LengthAt, ReadTable;
    var r := ReadLength(bits, p, from);
    TableStep(bits, p, n, from, acc, r.value, r.pos);
    LengthIff(bits, p, from, r.value, r.pos);
    var m: nat :| r.pos == p + 2 * m + 1 && LengthAt(bits, p, from, r.value, m);
    if r.value == t[0] {
      assert acc + [t[0]] + t[1..] == acc + t;
      TableIff(bits, r.pos, n, t[0], acc + [t[0]], t[1..], q);
      forall m': nat | LengthAt(bits, p, from, t[0], m')
        ensures m' == m
      {
        LengthIff(bits, p, from, t[0], p + 2 * m' + 1);
      }
    } else {
      forall m': nat
        ensures !LengthAt(bits, p, from, t[0], m')
      {
        LengthIff(bits, p, from, t[0], p + 2 * m' + 1);
      }
      TableStarts(bits, r.pos, n, r.value, acc + [r.value]);
      assert (acc + t)[|acc|] == t[0];
    }
  }

  /** The lengths read so far stay in front. */
  lemma {:induction false} TableStarts(bits: Bitstring, p: nat, n: nat, from: int, acc: seq<nat>)
    requires p <= |bits| && |acc| <= n && LengthTable(acc)
    ensures var r := ReadTable(bits, p, n, from, acc); r.Ok? ==> |r.value| == n && r.value[..|acc|] == acc
    ensures var r := ReadTable(bits, p, n, from, acc); r.Ok? && acc != [] ==> r.value[|acc| - 1] == acc[|acc| - 1]
    decreases n - |acc|
  {
    hide ReadLength;
    if |acc| < n {
      var r := ReadLength(bits, p, from);
      if r.Ok? {
        TableStarts(bits, r.pos, n, r.value, acc + [r.value]);
        var v := ReadTable(bits, p, n, from, acc);
        if v.Ok? { assert v.value[..|acc|] == v.value[..|acc| + 1][..|acc|]; }
      }
    }
  }

  /** The tables: 5 bits for the first length of each, which is then adjusted like the others. */
  ghost predicate TablesAt(bits: Bitstring, p: nat, n: nat, tables: seq<seq<nat>>, q: nat)
    decreases |tables|
  {
    if tables == [] then p == q
    else
      && p + 5 <= |bits| && |tables[0]| == n && LengthTable(tables[0]) && KraftSum(tables[0]) <= 0x10_0000
      && exists q1: nat :: q1 <= |bits| && TableAt(bits, p + 5, Value(bits[p..p + 5]), tables[0], q1) && TablesAt(bits, q1, n, tables[1..], q)
  }

  lemma {:induction false} TablesRead(bits: Bitstring, p: nat, groups: nat, n: nat, acc: seq<seq<nat>>, tables: seq<seq<nat>>, q: nat)
    requires p <= |bits| && GoodTables(acc, n) && |acc| + |tables| == groups && TablesAt(bits, p, n, tables, q)
    ensures ReadTables(bits, p, groups, n, acc) == Ok(acc + tables, q)
    decreases |tables|
  {
    hide ReadTable, ReadTables, KraftSum, TableAt, Value, GoodTables;
    KraftLimit();
    if tables == [] {
      TablesDone(bits, p, n, acc);
      assert acc + tables == acc;
    } else {
      var t := tables[0];
      var q1: nat :| q1 <= |bits| && TableAt(bits, p + 5, Value(bits[p..p + 5]), t, q1) && TablesAt(bits, q1, n, tables[1..], q);
      TableIff(bits, p + 5, n, Value(bits[p..p + 5]), [], t, q1);
      assert [] + t == t;
      TablesStep(bits, p, groups, n, acc, Value(bits[p..p + 5]), t, q1);
      TablesRead(bits, q1, groups, n, acc + [t], tables[1..], q);
      assert acc + [t] + tables[1..] == acc + tables;
    }
  }

  lemma {:induction false} TablesLaidOut(bits: Bitstring, p: nat, groups: nat, n: nat, acc: seq<seq<nat>>)
    requires p <= |bits| && GoodTables(acc, n) && |acc| <= groups && ReadTables(bits, p, groups, n, acc).Ok?
    ensures var r := ReadTables(bits, p, groups, n, acc);
      |r.value| == groups && r.value[..|acc|] == acc && TablesAt(bits, p, n, r.value[|acc|..], r.pos)
    decreases groups - |acc|
  {
    hide ReadTable, KraftSum, TableAt, Value;
    KraftLimit();
    var r := ReadTables(bits, p, groups, n, acc);
    if |acc| < groups {
      var start := Value(bits[p..p + 5]);
      var t := ReadTable(bits, p + 5, n, start, []);
      TableIff(bits, p + 5, n, start, [], t.value, t.pos);
      assert [] + t.value == t.value;
      TablesLaidOut(bits, t.pos, groups, n, acc + [t.value]);
      var rest := r.value[|acc|..];
      assert r.value[..|acc| + 1] == acc + [t.value];
      assert rest[0] == t.value && rest[1..] == r.value[|acc| + 1..];
      assert r.value[..|acc|] == r.value[..|acc| + 1][..|acc|];
    }
  }

  lemma KraftLimit()
    ensures Pow2(MAX_LEN) == 0x10_0000
  {
    Pow2Values();
  }

  // ---------------------------------------------------------------------------------------------
  // The header
  // ---------------------------------------------------------------------------------------------

  /** The number of tables in 3 bits, from 2 to 6; the number of selectors in 15 bits, at most 18002; the
      selectors; the tables. */
  ghost predicate CodingAt(bits: Bitstring, p: nat, n: nat, selectors: seq<Byte>, tables: seq<seq<nat>>, q: nat)
  {
    && p + 18 <= |bits|
    && Value(bits[p..p + 3]) == |tables| && 2 <= |tables| <= 6
    && Value(bits[p + 3..p + 18]) == |selectors| <= 18002
    && exists ranks, q1: nat :: SelectorsAndTables(bits, p, n, selectors, tables, ranks, q1, q)
  }

  ghost predicate SelectorsAndTables(bits: Bitstring, p: nat, n: nat, selectors: seq<Byte>, tables: seq<seq<nat>>, ranks: seq<nat>, q1: nat, q: nat)
    requires |tables| <= 256
  {
    q1 <= |bits| && SelectorsAt(bits, p + 18, |tables|, [], ranks, selectors, q1) && TablesAt(bits, q1, n, tables, q)
  }

  lemma CodingRead(bits: Bitstring, p: nat, n: nat, selectors: seq<Byte>, tables: seq<seq<nat>>, q: nat)
    requires p <= |bits| && CodingAt(bits, p, n, selectors, tables, q)
    ensures ReadCoding(bits, p, n) == Ok(Coding(selectors, tables), q)
  {
    hide Value, SelectorsAt, TablesAt, ReadSelectors, ReadTables, ByRecency;
    var groups := |tables|;
    var ranks, q1: nat :| SelectorsAndTables(bits, p, n, selectors, tables, ranks, q1, q);
    AtTheBeginning(groups);
    SelectorsRead(bits, p + 18, groups, Identity(), [], ranks, selectors, q1);
    NoTables(n);
    TablesRead(bits, q1, groups, n, [], tables, q);
    assert [] + selectors == selectors && [] + tables == tables;
  }

  lemma CodingLaidOut(bits: Bitstring, p: nat, n: nat)
    requires p <= |bits| && ReadCoding(bits, p, n).Ok?
    ensures var r := ReadCoding(bits, p, n); CodingAt(bits, p, n, r.value.selectors, r.value.tables, r.pos)
  {
    hide Value, SelectorsAt, TablesAt, ReadSelectors, ReadTables, ByRecency, GoodTables;
    var r := ReadCoding(bits, p, n);
    var groups, m := Value(bits[p..p + 3]), Value(bits[p + 3..p + 18]);
    AtTheBeginning(groups);
    var s := ReadSelectors(bits, p + 18, m, groups, Identity(), []);
    var ranks := SelectorsLaidOut(bits, p + 18, m, groups, Identity(), []);
    NoTables(n);
    TablesLaidOut(bits, s.pos, groups, n, []);
    assert s.value[0..] == s.value && r.value.tables[0..] == r.value.tables;
    assert SelectorsAndTables(bits, p, n, r.value.selectors, r.value.tables, ranks, s.pos, r.pos);
  }

  /** What is wrong with the numbers of tables and selectors. */
  lemma CodingLimits(bits: Bitstring, p: nat, n: nat)
    requires p <= |bits|
    ensures p + 3 <= |bits| && !(2 <= Value(bits[p..p + 3]) <= 6) ==> ReadCoding(bits, p, n) == Err(BadGroups)
    ensures p + 18 <= |bits| && 2 <= Value(bits[p..p + 3]) <= 6 && Value(bits[p + 3..p + 18]) > 18002 ==>
      ReadCoding(bits, p, n) == Err(TooManySelectors)
  {
    hide Value, ReadSelectors, ReadTables;
  }

  /** A whole header. */
  ghost predicate HeaderAt(bits: Bitstring, p: nat, h: Header, q: nat)
  {
    && StartAt(bits, p, h.origPtr)
    && exists q1: nat :: AlphabetAndCoding(bits, p, h, q1, q)
  }

  ghost predicate AlphabetAndCoding(bits: Bitstring, p: nat, h: Header, q1: nat, q: nat)
  {
    q1 <= |bits| && AlphabetAt(bits, p + 57, h.used, q1) && CodingAt(bits, q1, |h.used| + 2, h.selectors, h.tables, q)
  }

  /** The parser accepts exactly the headers laid out so. */
  lemma HeaderIff(bits: Bitstring, p: nat, h: Header, q: nat)
    requires p <= |bits|
    ensures ReadHeader(bits, p) == Ok(h, q) <==> HeaderAt(bits, p, h, q)
  {
    hide ReadStart, ReadAlphabet, ReadCoding, StartAt, AlphabetAt, CodingAt, GoodHeader;
    StartIff(bits, p, h.origPtr, p + 57);
    if HeaderAt(bits, p, h, q) {
      var q1: nat :| AlphabetAndCoding(bits, p, h, q1, q);
      AlphabetIff(bits, p + 57, h.used, q1);
      CodingRead(bits, q1, |h.used| + 2, h.selectors, h.tables, q);
    }
    if ReadHeader(bits, p) == Ok(h, q) {
      var q1 := ReadAlphabet(bits, p + 57).pos;
      AlphabetIff(bits, p + 57, h.used, q1);
      CodingLaidOut(bits, q1, |h.used| + 2);
      assert AlphabetAndCoding(bits, p, h, q1, q);
    }
  }

  // ---------------------------------------------------------------------------------------------
  // The coded symbols
  // ---------------------------------------------------------------------------------------------

  /** Every table has a word for every one of these symbols. */
  predicate CodesOf(books: seq<Book>, syms: seq<nat>)
  {
    forall i, s: nat :: 0 <= i < |books| && s in syms ==> HasSymbol(books[i], s)
  }

  /** The words of the symbols from the `k`-th on, each in the table that the selector of its group of 50
      names. */
  function Coded(books: seq<Book>, selectors: seq<Byte>, k: nat, syms: seq<nat>): (b: Bitstring)
    requires k + |syms| <= 50 * |selectors| && forall i :: 0 <= i < |selectors| ==> selectors[i] < |books|
    requires CodesOf(books, syms)
    decreases |syms|
  {
    if syms == [] then []
    else
      assert syms[0] in syms && forall s :: s in syms[1..] ==> s in syms;
      WordFor(books[selectors[k / 50]], syms[0]) + Coded(books, selectors, k + 1, syms[1..])
  }

  /** The compressor's bits are these. */
  lemma {:induction false} EncodeIsCoded(books: seq<Book>, selectors: seq<Byte>, eob: nat, selIdx: nat, cur: nat, left: nat, syms: seq<nat>, k: nat)
    requires CodesAll(books, eob) && left <= 50 && selIdx < |selectors| && EnoughSelectors(selectors, books, selIdx, left, |syms|)
    requires cur == selectors[selIdx] && k + left == 50 * (selIdx + 1) && forall i :: 0 <= i < |syms| ==> syms[i] <= eob
    ensures k + |syms| <= 50 * |selectors| && CodesOf(books, syms)
    ensures EncodeSymbols(books, selectors, eob, selIdx, cur, left, syms) == Coded(books, selectors, k, syms)
    decreases |syms|, if left == 0 then 1 else 0
  {
    hide PrefixFree, HasSymbol, WordFor;
    forall i, s: nat | 0 <= i < |books| && s in syms
      ensures HasSymbol(books[i], s)
    {
      assert s <= eob;
    }
    if syms == [] {
    } else if left == 0 {
      EncodeIsCoded(books, selectors, eob, selIdx + 1, selectors[selIdx + 1], 50, syms, k);
    } else {
      assert k / 50 == selIdx;
      EncodeIsCoded(books, selectors, eob, selIdx, cur, left - 1, syms[1..], k + 1);
    }
  }

  /** So are those of a whole block behind its header. */
  lemma BodyIsCoded(plan: Plan, max: nat)
    requires ValidPlan(plan, max)
    ensures var l, books := plan.column.bytes, BooksOf(plan.tables, |UsedOf(plan.column.bytes)| + 2);
      && |SymbolsOf(l)| <= 50 * |plan.selectors|
      && CodesOf(books, SymbolsOf(l))
      && EncodeBody(plan, max) == Coded(books, plan.selectors, 0, SymbolsOf(l))
  {
    hide SymbolsOf, GoodTables, CodesAll, HasSymbol, EncodeSymbols, Coded;
    var n := |UsedOf(plan.column.bytes)| + 2;
    GoodTablesCode(plan.tables, n);
    EncodeIsCoded(BooksOf(plan.tables, n), plan.selectors, n - 1, 0, plan.selectors[0], 50, SymbolsOf(plan.column.bytes), 0);
  }

  lemma TableHasAll(h: Header, syms: seq<nat>)
    requires GoodHeader(h) && forall i :: 0 <= i < |syms| ==> syms[i] <= |h.used| + 1
    ensures var books := BooksOf(h.tables, |h.used| + 2);
      && CodesAll(books, |h.used| + 1)
      && CodesOf(books, syms)
  {
    hide GoodTables, HasSymbol, PrefixFree;
    var n := |h.used| + 2;
    GoodTablesCode(h.tables, n);
    var books := BooksOf(h.tables, n);
    forall i, s: nat | 0 <= i < |books| && s in syms
      ensures HasSymbol(books[i], s)
    {
      assert s <= n - 1;
    }
  }

  /** What the symbols of a block come to, from the beginning of the symbol stage. */
  function Outcome(h: Header, syms: seq<nat>, max: nat): SymbolTheory.Outcome
    requires GoodHeader(h) && forall i :: 0 <= i < |syms| ==> syms[i] <= |h.used| + 1
  {
    Steps(Stage(StartList(h.used), [], 0, 0), syms, |h.used| + 1, max)
  }

  /** Decoding the words of symbols that end the block, each word in the table of its group of 50, gives
      what the symbol stage makes of the symbols, and consumes exactly the words. */
  lemma CodedBody(bits: Bitstring, p: nat, h: Header, max: nat, syms: seq<nat>)
    requires p <= |bits| && GoodHeader(h) && |syms| <= 50 * |h.selectors| && EndsOnce(syms, |h.used| + 1)
    requires Outcome(h, syms, max).Done?
    requires CodesOf(BooksOf(h.tables, |h.used| + 2), syms)
    requires At(bits, p, Coded(BooksOf(h.tables, |h.used| + 2), h.selectors, 0, syms))
    ensures var out := Outcome(h, syms, max).out;
      ReadBody(bits, p, h, max) ==
      if h.origPtr < |out| then Ok(Column(out, h.origPtr), p + |Coded(BooksOf(h.tables, |h.used| + 2), h.selectors, 0, syms)|)
      else Err(OrigPtrOutOfBounds)
  {
    hide GoodTables, ReadSymbols, EncodeSymbols, Steps, Coded, At, CodesAll, Alphabet, HasSymbol;
    var n := |h.used| + 2;
    var books := BooksOf(h.tables, n);
    BooksAlphabet(h.tables, n);
    TableHasAll(h, syms);
    var st := Stage(StartList(h.used), [], 0, 0);
    EncodeIsCoded(books, h.selectors, n - 1, 0, h.selectors[0], 50, syms, 0);
    ReadSymbolsEncoded(books, h.selectors, n - 1, max, bits, p, 0, h.selectors[0], 50, st, syms);
  }

  lemma {:induction false} SymbolsRunOut(books: seq<Book>, selectors: seq<Byte>, eob: nat, max: nat, bits: Bitstring,
                                         p: nat, selIdx: nat, cur: nat, left: nat, st: Stage, syms: seq<nat>)
    requires p <= |bits| && cur < |books| && left <= 50 && eob <= 257 && selIdx < |selectors|
    requires Alphabet(books, eob) && CodesAll(books, eob) && st.Valid(max)
    requires EnoughSelectors(selectors, books, selIdx, left, |syms|) && |syms| == left + 50 * (|selectors| - selIdx - 1)
    requires (forall i :: 0 <= i < |syms| ==> syms[i] <= eob) && Steps(st, syms, eob, max).More?
    requires At(bits, p, EncodeSymbols(books, selectors, eob, selIdx, cur, left, syms))
    ensures ReadSymbols(books, selectors, eob, max, bits, p, selIdx, cur, left, st) == Err(OutOfSelectors)
    decreases |syms|, if left == 0 then 1 else 0
  {
    hide ReadSymbols, Step, Decode, PrefixFree, WordFor, Alphabet, At;
    if syms == [] {
      NoSelectorLeft(books, selectors, eob, max, bits, p, selIdx, cur, st);
    } else if left == 0 {
      SelectorStep(books, selectors, eob, max, bits, p, selIdx, cur, st);
      SymbolsRunOut(books, selectors, eob, max, bits, p, selIdx + 1, selectors[selIdx + 1], 50, st, syms);
    } else {
      var w := WordFor(books[cur], syms[0]);
      var rest := EncodeSymbols(books, selectors, eob, selIdx, cur, left - 1, syms[1..]);
      AtSplit(bits, p, w, rest);
      DecodeCoded(books[cur], bits, p, syms[0]);
      SymbolsStep(books, selectors, eob, max, bits, p, selIdx, cur, left, st, syms[0], p + |w|);
      SymbolsRunOut(books, selectors, eob, max, bits, p + |w|, selIdx, cur, left - 1, Step(st, syms[0], eob, max).stage, syms[1..]);
    }
  }

  lemma NoSelectorLeft(books: seq<Book>, selectors: seq<Byte>, eob: nat, max: nat, bits: Bitstring, p: nat, selIdx: nat, cur: nat, st: Stage)
    requires p <= |bits| && cur < |books| && eob <= 257 && Alphabet(books, eob) && st.Valid(max) && selIdx + 1 == |selectors|
    ensures ReadSymbols(books, selectors, eob, max, bits, p, selIdx, cur, 0, st) == Err(OutOfSelectors)
  {
    hide Decode, Step;
  }

  /** A block whose selectors are used up, 50 symbols each, before it ends is rejected. */
  lemma OutOfSelectorsAfter(bits: Bitstring, p: nat, h: Header, max: nat, syms: seq<nat>)
    requires p <= |bits| && GoodHeader(h) && h.selectors != [] && |syms| == 50 * |h.selectors|
    requires (forall i :: 0 <= i < |syms| ==> syms[i] <= |h.used| + 1) && Outcome(h, syms, max).More?
    requires CodesOf(BooksOf(h.tables, |h.used| + 2), syms)
    requires At(bits, p, Coded(BooksOf(h.tables, |h.used| + 2), h.selectors, 0, syms))
    ensures ReadBody(bits, p, h, max) == Err(OutOfSelectors)
  {
    hide GoodTables, ReadSymbols, EncodeSymbols, Steps, Coded, At, CodesAll, Alphabet, HasSymbol;
    var n := |h.used| + 2;
    var books := BooksOf(h.tables, n);
    BooksAlphabet(h.tables, n);
    TableHasAll(h, syms);
    var st := Stage(StartList(h.used), [], 0, 0);
    EncodeIsCoded(books, h.selectors, n - 1, 0, h.selectors[0], 50, syms, 0);
    SymbolsRunOut(books, h.selectors, n - 1, max, bits, p, 0, h.selectors[0], 50, st, syms);
  }

  /** The list of the symbol stage begins with the bytes in use in ascending order, and stays in the order of
      their last uses in the output. */
  lemma ListByRecency(h: Header, syms: seq<nat>, max: nat)
    requires GoodHeader(h) && Ascending(h.used) && forall i :: 0 <= i < |syms| ==> syms[i] <= |h.used| + 1
    ensures var r := Outcome(h, syms, max);
      r.More? ==> ByRecency(h.used, r.stage.Flushed(), r.stage.mtf[..|h.used|])
  {
    hide Steps, ByRecency, GoodTables;
    var n := |h.used|;
    NothingUsedYet(h.used);
    StepsByRecency(Stage(StartList(h.used), [], 0, 0), syms, n, h.used, max);
  }
}
