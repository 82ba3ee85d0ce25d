/** The block-boundary scanner (`src/block_scan.rs`).

    The `par_map` calls of the program are loops here: module `ParMap` shows that every interleaving
    of its workers gives the results in index order. */
module Scan {
  import opened Wrappers
  import opened Bits
  import opened Lists
  import opened BitReaders
  import opened Magic
  import opened ScanTheory

  /** `x & 0xFFFF_FFFF_FFFF`. */
  function Low48(w: Word64): (r: Word64)
  {
    Zeros(16) + w[16..]
  }

  /** The candidate for bit `shift` of a window is the window's 48 bits from there. */
  lemma CandidateValue(window: Word64, shift: nat)
    requires shift < 16
    ensures Value(Low48(Shr(window, 16 - shift))) == Value(window[shift..shift + 48])
  {
    var w := Shr(window, 16 - shift);
    assert w[16..] == window[shift..shift + 48];
    LeadingZeros(16, w[16..]);
  }

  lemma WindowBits(buf: seq<Byte>, k: nat, shift: nat)
    requires k + 8 <= |buf| && shift < 16
    ensures LoadBigEndian(buf, k)[shift..shift + 48] == BitsOf(buf)[8 * k + shift..8 * k + shift + 48]
  {
    hide BitsOf;
    BitsOfSlice(buf, k, k + 8);
    SliceOfSlice(BitsOf(buf), 8 * k, 8 * k + 64, shift, shift + 48);
  }

  lemma SliceOfSlice(s: Bitstring, a: nat, b: nat, c: nat, d: nat)
    requires a <= b <= |s| && c <= d <= b - a
    ensures s[a..b][c..d] == s[a + c..a + d]
  {
    var x, y := s[a..b][c..d], s[a + c..a + d];
    assert |x| == |y| == d - c;
    forall i | 0 <= i < d - c
      ensures x[i] == y[i]
    {
      assert x[i] == s[a..b][c + i] == s[a + (c + i)];
    }
  }

  /** The test of the scanner is `MagicAt`. */
  lemma CandidateIsMagic(buf: seq<Byte>, k: nat, shift: nat)
    requires k + 8 <= |buf| && shift < 16
    ensures Value(Low48(Shr(LoadBigEndian(buf, k), 16 - shift))) == BLOCK_MAGIC <==> MagicAt(BitsOf(buf), 8 * k + shift)
  {
    hide BitsOf, Value, Shr, Low48, MagicBits;
    CandidateValue(LoadBigEndian(buf, k), shift);
    WindowBits(buf, k, shift);
    MagicByValue(LoadBigEndian(buf, k)[shift..shift + 48]);
  }

  /** `find_next_block`. */
  method FindNextBlock(buf: seq<Byte>, startBit: nat) returns (r: Option<nat>)
    ensures r == Scan(BitsOf(buf), |buf|, startBit)
  {
    hide BitsOf, MagicAt, Value, Shr, Low48, LoadBigEndian, ScanFrom;
    ghost var bits := BitsOf(buf);
    var startByte := startBit / 8;
    if |buf| < startByte + 8 {
      return None;
    }
    var byteIdx := 0;
    while startByte + byteIdx + 8 <= |buf|
      invariant 0 <= byteIdx && byteIdx % 2 == 0
      invariant forall q :: startBit <= q < 8 * (startByte + byteIdx) ==> !MagicAt(bits, q)
      decreases |buf| - byteIdx
    {
      var k := startByte + byteIdx;
      var window := LoadBigEndian(buf, k);
      for shift := 0 to 16
        invariant forall q :: startBit <= q < 8 * k + shift ==> !MagicAt(bits, q)
      {
        CandidateIsMagic(buf, k, shift);
        var candidate := Value(Low48(Shr(window, 16 - shift)));
        if candidate == BLOCK_MAGIC {
          var absBit := k * 8 + shift;
          if absBit >= startBit {
            ScanFound(bits, |buf|, startBit, absBit, byteIdx);
            return Some(absBit);
          }
        }
      }
      byteIdx := byteIdx + 2;
    }
    ScanMissed(bits, |buf|, startBit, byteIdx);
    r := None;
  }

  lemma ScanFound(bits: Bitstring, len: nat, start: nat, p: nat, byteIdx: nat)
    requires |bits| == 8 * len && byteIdx % 2 == 0 && start / 8 + byteIdx + 8 <= len
    requires 8 * (start / 8 + byteIdx) <= p < 8 * (start / 8 + byteIdx) + 16 && start <= p
    requires MagicAt(bits, p) && forall q :: start <= q < p ==> !MagicAt(bits, q)
    ensures Scan(bits, len, start) == Some(p)
  {
    hide MagicAt;
    assert Covered(len, start / 8, p);
  }

  lemma ScanMissed(bits: Bitstring, len: nat, start: nat, byteIdx: nat)
    requires |bits| == 8 * len && byteIdx % 2 == 0 && start / 8 + byteIdx + 8 > len
    requires forall q :: start <= q < 8 * (start / 8 + byteIdx) ==> !MagicAt(bits, q)
    ensures Scan(bits, len, start) == None
  {
    hide MagicAt;
  }

  /** `find_all_blocks`. */
  method FindAllBlocks(buf: seq<Byte>) returns (result: seq<nat>)
    ensures result == ScanAll(BitsOf(buf), |buf|, 0)
  {
    hide BitsOf, MagicAt, ScanTheory.Scan;
    ghost var bits := BitsOf(buf);
    result := [];
    var bit := 0;
    var next := FindNextBlock(buf, bit);
    while next.Some?
      invariant next == ScanTheory.Scan(bits, |buf|, bit) && 0 <= bit
      invariant result + ScanAll(bits, |buf|, bit) == ScanAll(bits, |buf|, 0)
      decreases if bit < |bits| then |bits| - bit else 0
    {
      var p := next.value;
      assert result + ([p] + ScanAll(bits, |buf|, p + 48)) == (result + [p]) + ScanAll(bits, |buf|, p + 48);
      result := result + [p];
      bit := p + 48;
      next := FindNextBlock(buf, bit);
    }
    assert ScanAll(bits, |buf|, bit) == [];
  }

  /** One thread's part of the parallel scan. */
  method FindBlocksIn(buf: seq<Byte>, startBit: nat, endBit: nat) returns (result: seq<nat>)
    ensures result == ScanRange(BitsOf(buf), |buf|, startBit, endBit)
  {
    hide BitsOf, MagicAt, ScanTheory.Scan;
    ghost var bits := BitsOf(buf);
    result := [];
    var bit := startBit;
    while bit < endBit
      invariant 0 <= bit
      invariant result + ScanRange(bits, |buf|, bit, endBit) == ScanRange(bits, |buf|, startBit, endBit)
      decreases if bit < |bits| then |bits| - bit else 0, if bit < endBit then 1 else 0
    {
      var next := FindNextBlock(buf, bit);
      if next.Some? && next.value < endBit {
        var p := next.value;
        assert result + ([p] + ScanRange(bits, |buf|, p + 48, endBit)) == (result + [p]) + ScanRange(bits, |buf|, p + 48, endBit);
        result := result + [p];
        bit := p + 48;
      } else {
        assert ScanRange(bits, |buf|, bit, endBit) == [];
        return;
      }
    }
    assert ScanRange(bits, |buf|, bit, endBit) == [];
  }

  /** `find_all_blocks_parallel`. */
  method FindAllBlocksParallel(buf: seq<Byte>, nThreads: nat) returns (all: seq<nat>)
    ensures all == ScanParallel(BitsOf(buf), |buf|, nThreads)
  {
    hide BitsOf, ScanRange, ScanAll, PartStart, PartEnd;
    var n: nat := if nThreads == 0 then 1 else nThreads;
    if |buf| < 16 || n == 1 {
      all := FindAllBlocks(buf);
      return;
    }
    var chunkSize := |buf| / n;
    var perThread: seq<seq<nat>> := [];
    for i := 0 to n
      invariant |perThread| == i
      invariant forall j :: 0 <= j < i ==> perThread[j] == Parts(BitsOf(buf), |buf|, n)[j]
    {
      var startByte := i * chunkSize;
      var endByte := if i + 1 < n then (i + 1) * chunkSize + 8 else |buf|;
      PartOfThread(|buf|, n, i);
      var part := FindBlocksIn(buf, startByte * 8, endByte * 8);
      perThread := perThread + [part];
    }
    assert perThread == Parts(BitsOf(buf), |buf|, n);
    all := SortDedup(Flatten(perThread));
  }

  lemma PartOfThread(len: nat, n: nat, i: nat)
    requires n > 0 && i < n
    ensures 0 <= i * (len / n) && 0 <= (i + 1) * (len / n)
    ensures i * (len / n) * 8 == PartStart(len, n, i)
    ensures (if i + 1 < n then (i + 1) * (len / n) + 8 else len) * 8 == PartEnd(len, n, i)
  {
  }

  // ---------------------------------------------------------------------------------------------
  // Verified boundaries
  // ---------------------------------------------------------------------------------------------

  /** The structural check of the 73 bits behind a magic: the block is not randomised, its row index
      is below the block size, and some byte range is in use. */
  predicate QuickOk(bits: Bitstring, p: nat, max: nat)
  {
    && p + 121 <= |bits|
    && !bits[p + 80]
    && Value(bits[p + 81..p + 105]) < max
    && Value(bits[p + 105..p + 121]) != 0
  }

  /** Exactly what the check rejects: a block cut short, a set randomised flag, a row index not below the
      block size, and an empty bitmap. */
  lemma QuickRejects(bits: Bitstring, p: nat, max: nat)
    ensures |bits| < p + 121 ==> !QuickOk(bits, p, max)
    ensures |bits| >= p + 121 ==>
      (!QuickOk(bits, p, max) <==>
         bits[p + 80] || Value(bits[p + 81..p + 105]) >= max || forall j :: p + 105 <= j < p + 121 ==> !bits[j])
  {
    hide Value;
    if |bits| >= p + 121 { ClearMeansZero(bits, p + 105, p + 121); }
  }

  lemma ClearMeansZero(bits: Bitstring, a: nat, b: nat)
    requires a <= b <= |bits|
    ensures Value(bits[a..b]) == 0 <==> forall j :: a <= j < b ==> !bits[j]
  {
    var w := bits[a..b];
    ValueIsZero(w);
    if forall j :: a <= j < b ==> !bits[j] {
      assert forall i :: 0 <= i < |w| ==> w[i] == bits[a + i];
    } else {
      var j :| a <= j < b && bits[j];
      assert w[j - a];
    }
  }

  lemma {:induction false} ValueIsZero(w: Bitstring)
    ensures Value(w) == 0 <==> forall i :: 0 <= i < |w| ==> !w[i]
  {
    if w != [] {
      ValueIsZero(w[..|w| - 1]);
      assert w == w[..|w| - 1] + [w[|w| - 1]];
    }
  }

  /** `quick_verify_block`. */
  method QuickVerifyBlock(buf: seq<Byte>, magicBit: nat, max: nat) returns (ok: bool)
    ensures ok == QuickOk(BitsOf(buf), magicBit, max)
  {
    hide BitsOf, RegisterMatches, Value;
    var totalBits := |buf| * 8;
    var afterMagic := magicBit + 48;
    if afterMagic + 73 > totalBits {
      return false;
    }
    var reader := new BitReader.FromBitOffset(buf, afterMagic);
    var crc := reader.ReadBits(32);
    if crc == None {
      return false;
    }
    var randomised := reader.ReadBit();
    if randomised != Some(false) {
      return false;
    }
    var origPtr := reader.ReadBits(24);
    if origPtr == None || origPtr.value >= max {
      return false;
    }
    var bitmap := reader.ReadBits(16);
    ok := bitmap.Some? && bitmap.value != 0;
  }

  /** The least verified magic at or after `start`. */
  ghost predicate IsFirstQuick(r: Option<nat>, bits: Bitstring, start: nat, max: nat)
  {
    match r
    case Some(p) =>
      && start <= p && MagicAt(bits, p) && QuickOk(bits, p, max)
      && (forall q :: start <= q < p ==> !(MagicAt(bits, q) && QuickOk(bits, q, max)))
    case None => forall q :: start <= q ==> !(MagicAt(bits, q) && QuickOk(bits, q, max))
  }

  function FirstQuick(bits: Bitstring, p: nat, max: nat): (r: Option<nat>)
    ensures IsFirstQuick(r, bits, p, max)
    decreases if p < |bits| then |bits| - p else 0
  {
    hide MagicAt, Value;
    if p >= |bits| then None
    else if MagicAt(bits, p) && QuickOk(bits, p, max) then Some(p)
    else FirstQuick(bits, p + 1, max)
  }

  lemma FirstQuickUnique(r: Option<nat>, bits: Bitstring, start: nat, max: nat)
    requires IsFirstQuick(r, bits, start, max)
    ensures r == FirstQuick(bits, start, max)
  {
    hide MagicAt, QuickOk;
  }

  /** `find_quick_boundary`: exactly the least verified magic, the scanner's blind tail
      notwithstanding. */
  method FindQuickBoundary(buf: seq<Byte>, startBit: nat, max: nat) returns (r: Option<nat>)
    ensures r == FirstQuick(BitsOf(buf), startBit, max)
  {
    hide BitsOf, MagicAt, ScanTheory.Scan, FirstQuick, Value;
    ghost var bits := BitsOf(buf);
    var totalBits := |buf| * 8;
    var searchBit := startBit;
    while true
      invariant startBit <= searchBit
      invariant forall q :: startBit <= q < searchBit ==> !(MagicAt(bits, q) && QuickOk(bits, q, max))
      decreases if searchBit < |bits| then |bits| - searchBit else 0
    {
      ScanIsLeast(bits, |buf|, searchBit);
      var candidate := FindNextBlock(buf, searchBit);
      if candidate == None || candidate.value + 48 + 73 > totalBits {
        assert IsFirstQuick(None, bits, startBit, max);
        FirstQuickUnique(None, bits, startBit, max);
        return None;
      }
      var ok := QuickVerifyBlock(buf, candidate.value, max);
      if ok {
        assert IsFirstQuick(candidate, bits, startBit, max);
        FirstQuickUnique(candidate, bits, startBit, max);
        return candidate;
      }
      searchBit := candidate.value + 1;
    }
  }

  function Somes(s: seq<Option<nat>>): (r: seq<nat>)
    ensures forall x: nat :: x in r <==> Some(x) in s
  {
    if s == [] then []
    else
      assert s == s[..|s| - 1] + [s[|s| - 1]];
      var last := s[|s| - 1];
      Somes(s[..|s| - 1]) + if last.Some? then [last.value] else []
  }

  /** Where split `i` would ideally lie. */
  function Nominal(len: nat, n: nat, i: nat): nat
    requires n >= 1
  {
    8 * len * (i + 1) / n
  }

  /** The first verified boundary behind each of the `n - 1` nominal split positions. */
  function NominalPoints(bits: Bitstring, len: nat, n: nat, max: nat): (s: seq<Option<nat>>)
    requires n >= 1
    ensures |s| == n - 1
    ensures forall i :: 0 <= i < n - 1 ==> s[i] == FirstQuick(bits, Nominal(len, n, i), max)
  {
    hide Nominal, FirstQuick;
    seq(n - 1, i requires 0 <= i < n - 1 => FirstQuick(bits, Nominal(len, n, i), max))
  }

  function SplitPoints(bits: Bitstring, len: nat, n: nat, max: nat): (s: seq<nat>)
    ensures Increasing(s)
  {
    if n <= 1 || len == 0 then [] else SortDedup(Somes(NominalPoints(bits, len, n, max)))
  }

  /** Where part `i` of `n` begins. */
  function PartBegin(len: nat, n: nat, i: nat): (b: nat)
    requires n > 0
  {
    8 * len * i / n
  }

  /** The magic at `x` passes the check, and none between the beginning of part `i` of `n` and `x` does. */
  ghost predicate FirstInPart(bits: Bitstring, len: nat, n: nat, i: nat, x: nat, max: nat)
    requires n > 0
  {
    && PartBegin(len, n, i) <= x && MagicAt(bits, x) && QuickOk(bits, x, max)
    && forall q: nat :: PartBegin(len, n, i) <= q < x ==> !(MagicAt(bits, q) && QuickOk(bits, q, max))
  }

  lemma NominalIsBegin(len: nat, n: nat, i: nat)
    requires n > 0
    ensures Nominal(len, n, i) == PartBegin(len, n, i + 1)
  {
  }

  /** The split points are what all the `n - 1` searches find, and nothing else. */
  lemma SplitPointIff(bits: Bitstring, len: nat, n: nat, max: nat, x: nat)
    requires |bits| == 8 * len
    ensures x in SplitPoints(bits, len, n, max) <==> exists i :: 1 <= i < n && FirstInPart(bits, len, n, i, x, max)
  {
    hide MagicAt, QuickOk, FirstQuick, SortDedup, NominalPoints, Somes, SplitPoints, FirstInPart, Nominal, PartBegin;
    NoSplits(bits, len, n, max);
    if exists i :: 1 <= i < n && FirstInPart(bits, len, n, i, x, max) {
      var i :| 1 <= i < n && FirstInPart(bits, len, n, i, x, max);
      PartIsSearch(bits, len, n, i - 1, x, max);
      var s := NominalPoints(bits, len, n, max);
      assert s[i - 1] == FirstQuick(bits, Nominal(len, n, i - 1), max);
      assert Some(x) in s;
    }
    if x in SplitPoints(bits, len, n, max) {
      var s := NominalPoints(bits, len, n, max);
      assert Some(x) in s;
      var j :| 0 <= j < |s| && s[j] == Some(x);
      PartIsSearch(bits, len, n, j, x, max);
      assert FirstInPart(bits, len, n, j + 1, x, max);
    }
  }

  lemma PartIsSearch(bits: Bitstring, len: nat, n: nat, j: nat, x: nat, max: nat)
    requires n > 0
    ensures FirstInPart(bits, len, n, j + 1, x, max) <==> FirstQuick(bits, Nominal(len, n, j), max) == Some(x)
    ensures |bits| == 8 * len && FirstInPart(bits, len, n, j + 1, x, max) ==> len > 0
  {
    hide MagicAt, QuickOk, FirstQuick, Nominal, PartBegin;
    NominalIsBegin(len, n, j);
    if FirstInPart(bits, len, n, j + 1, x, max) {
      NoMagicIn(bits, x);
      FirstQuickUnique(Some(x), bits, Nominal(len, n, j), max);
    }
    assert IsFirstQuick(FirstQuick(bits, Nominal(len, n, j), max), bits, Nominal(len, n, j), max);
  }

  lemma NoMagicIn(bits: Bitstring, x: nat)
    requires MagicAt(bits, x)
    ensures bits != []
  {
  }

  /** `split_boundaries_parallel`: in increasing order, the first magic behind each of the `n - 1` inner
      part boundaries that passes the check. */
  method SplitBoundariesParallel(buf: seq<Byte>, nSplits: nat, max: nat) returns (result: seq<nat>)
    ensures result == SplitPoints(BitsOf(buf), |buf|, nSplits, max)
    ensures Increasing(result)
    ensures forall x: nat :: x in result <==> exists i :: 1 <= i < nSplits && FirstInPart(BitsOf(buf), |buf|, nSplits, i, x, max)
  {
    hide BitsOf, FirstQuick, SortDedup, NominalPoints, Somes, Nominal, SplitPoints, FirstInPart, Increasing;
    NoSplits(BitsOf(buf), |buf|, nSplits, max);
    forall x: nat
      ensures x in SplitPoints(BitsOf(buf), |buf|, nSplits, max) <==>
        exists i :: 1 <= i < nSplits && FirstInPart(BitsOf(buf), |buf|, nSplits, i, x, max)
    {
      SplitPointIff(BitsOf(buf), |buf|, nSplits, max, x);
    }
    if nSplits <= 1 || |buf| == 0 {
      return [];
    }
    var totalBits := |buf| * 8;
    var boundaries: seq<Option<nat>> := [];
    for idx := 0 to nSplits - 1
      invariant |boundaries| == idx
      invariant forall j :: 0 <= j < idx ==> boundaries[j] == NominalPoints(BitsOf(buf), |buf|, nSplits, max)[j]
    {
      var nominalBit := totalBits * (idx + 1) / nSplits;
      NominalBit(totalBits, |buf|, nSplits, idx);
      var b := FindQuickBoundary(buf, nominalBit, max);
      boundaries := boundaries + [b];
    }
    assert boundaries == NominalPoints(BitsOf(buf), |buf|, nSplits, max);
    result := SortDedup(Somes(boundaries));
  }

  lemma NoSplits(bits: Bitstring, len: nat, n: nat, max: nat)
    ensures SplitPoints(bits, len, n, max) == if n <= 1 || len == 0 then [] else SortDedup(Somes(NominalPoints(bits, len, n, max)))
  {
    hide SortDedup, Somes, NominalPoints;
  }

  lemma NominalBit(totalBits: nat, len: nat, n: nat, i: nat)
    requires n >= 1 && totalBits == len * 8
    ensures 0 <= totalBits * (i + 1) / n == Nominal(len, n, i)
  {
  }

  /** Every split point is a verified magic. */
  lemma SplitPointsVerified(bits: Bitstring, len: nat, n: nat, max: nat)
    ensures forall p :: p in SplitPoints(bits, len, n, max) ==> MagicAt(bits, p) && QuickOk(bits, p, max)
  {
    hide MagicAt, QuickOk, FirstQuick, SortDedup, Nominal;
    if n > 1 && len > 0 {
      var s := NominalPoints(bits, len, n, max);
      forall p | p in SplitPoints(bits, len, n, max)
        ensures MagicAt(bits, p) && QuickOk(bits, p, max)
      {
        assert Some(p) in s;
        var i :| 0 <= i < |s| && s[i] == Some(p);
        assert s[i] == FirstQuick(bits, Nominal(len, n, i), max);
        assert IsFirstQuick(s[i], bits, Nominal(len, n, i), max);
      }
    }
  }
}
