/** Which block magics the scanner sees (`src/block_scan.rs`).

    The scan looks at 8-byte windows every second byte, starting at the byte of the start bit.  Near
    the end of the buffer a magic can lie in no window; whether it does depends on the parity of its
    byte against the start byte. */
module ScanTheory {
  import opened Wrappers
  import opened Bits
  import opened Lists
  import opened Magic

  /** Some window of a scan that starts at byte `startByte` holds the 48 bits at `p`. */
  predicate Covered(len: nat, startByte: nat, p: nat)
  {
    startByte <= p / 8 && startByte + 2 * ((p / 8 - startByte) / 2) + 8 <= len
  }

  /** A magic whose last bit is at least nine bits before the end is covered from everywhere. */
  lemma CoveredInside(len: nat, startByte: nat, p: nat)
    requires startByte <= p / 8 && p + 57 <= 8 * len
    ensures Covered(len, startByte, p)
  {
  }

  /** The least covered magic at or after `p`. */
  function ScanFrom(bits: Bitstring, len: nat, startByte: nat, p: nat): (r: Option<nat>)
    requires |bits| == 8 * len
    ensures r.Some? ==>
      && p <= r.value < |bits| && MagicAt(bits, r.value) && Covered(len, startByte, r.value)
      && (forall q :: p <= q < r.value && MagicAt(bits, q) ==> !Covered(len, startByte, q))
    ensures r.None? ==> forall q :: p <= q && MagicAt(bits, q) ==> !Covered(len, startByte, q)
    decreases if p < |bits| then |bits| - p else 0
  {
    hide Covered;
    if p >= |bits| then None
    else if MagicAt(bits, p) && Covered(len, startByte, p) then Some(p)
    else ScanFrom(bits, len, startByte, p + 1)
  }

  /** What `find_next_block` finds from `start`. */
  function Scan(bits: Bitstring, len: nat, start: nat): (r: Option<nat>)
    requires |bits| == 8 * len
    ensures r.Some? ==> start <= r.value < |bits| && MagicAt(bits, r.value)
  {
    ScanFrom(bits, len, start / 8, start)
  }

  /** What is covered is an initial part: a magic before a covered one is covered. */
  lemma CoveredBefore(len: nat, startByte: nat, q: nat, p: nat)
    requires Covered(len, startByte, p) && startByte <= q / 8 && q <= p
    ensures Covered(len, startByte, q)
  {
  }

  /** The scan is sound and least: its result is a magic, nothing at or after the start is skipped
      before it, and nothing that ends nine bits before the end of the buffer is ever missed. */
  lemma ScanIsLeast(bits: Bitstring, len: nat, start: nat)
    requires |bits| == 8 * len
    ensures match Scan(bits, len, start)
      case Some(p) => start <= p && MagicAt(bits, p) && forall q :: start <= q < p ==> !MagicAt(bits, q)
      case None => forall q :: start <= q && MagicAt(bits, q) ==> q + 57 > |bits|
  {
    hide MagicAt;
    var r := Scan(bits, len, start);
    if r.Some? {
      forall q | start <= q < r.value
        ensures !MagicAt(bits, q)
      {
        CoveredBefore(len, start / 8, q, r.value);
      }
    } else {
      forall q | start <= q && MagicAt(bits, q)
        ensures q + 57 > |bits|
      {
        if q + 57 <= |bits| { CoveredInside(len, start / 8, q); }
      }
    }
  }

  // ---------------------------------------------------------------------------------------------
  // All magics
  // ---------------------------------------------------------------------------------------------

  predicate Increasing(s: seq<nat>)
  {
    forall i, j :: 0 <= i < j < |s| ==> s[i] < s[j]
  }

  /** Every magic in `[lo, hi)`, in order. */
  function Occurrences(bits: Bitstring, lo: nat, hi: nat): (s: seq<nat>)
    ensures Increasing(s)
    ensures forall x: nat :: x in s <==> lo <= x < hi && MagicAt(bits, x)
    decreases if lo < hi then hi - lo else 0
  {
    hide MagicAt;
    if lo >= hi then []
    else if MagicAt(bits, lo) then
      var rest := Occurrences(bits, lo + 1, hi);
      assert forall i :: 0 <= i < |rest| ==> rest[i] in rest;
      [lo] + rest
    else Occurrences(bits, lo + 1, hi)
  }

  lemma HeadIn(s: seq<nat>)
    ensures s != [] ==> s[0] in s
  {
  }

  /** Strictly increasing sequences with the same elements are equal. */
  lemma {:induction false} IncreasingUnique(a: seq<nat>, b: seq<nat>)
    requires Increasing(a) && Increasing(b) && forall x: nat :: x in a <==> x in b
    ensures a == b
    decreases |a|
  {
    if a == [] {
      HeadIn(b);
    } else {
      assert a[0] in b;
      assert b[0] in a;
      assert a[0] == b[0];
      var a', b' := a[1..], b[1..];
      forall x: nat
        ensures x in a' <==> x in b'
      {
        if x in a' {
          assert x in a && x != a[0];
        }
        if x in b' {
          assert x in b && x != b[0];
        }
      }
      IncreasingUnique(a', b');
      assert a == [a[0]] + a' && b == [b[0]] + b';
    }
  }

  /** The loop of a scan for all magics in `[bit, end)`: each search starts 48 bits behind the last
      find. */
  function ScanRange(bits: Bitstring, len: nat, bit: nat, end: nat): (s: seq<nat>)
    requires |bits| == 8 * len
    decreases if bit < |bits| then |bits| - bit else 0
  {
    if bit >= end then []
    else
      match Scan(bits, len, bit)
      case None => []
      case Some(p) => if p < end then [p] + ScanRange(bits, len, p + 48, end) else []
  }

  /** `find_all_blocks`. */
  function ScanAll(bits: Bitstring, len: nat, bit: nat): (s: seq<nat>)
    requires |bits| == 8 * len
    decreases if bit < |bits| then |bits| - bit else 0
  {
    match Scan(bits, len, bit)
    case None => []
    case Some(p) => [p] + ScanAll(bits, len, p + 48)
  }

  /** The magics in front of this bit are covered from everywhere. */
  function Reach(bits: Bitstring): nat
  {
    if |bits| >= 56 then |bits| - 56 else 0
  }

  /** No magic starts in the seventh byte from the end, where the scan's parity decides. */
  predicate NoTailMagic(bits: Bitstring)
  {
    forall p :: 0 <= p < |bits| && MagicAt(bits, p) ==> p + 57 <= |bits| || p + 48 == |bits|
  }

  /** No two magics overlap, unless the second is the very end of the buffer, which no scan covers. */
  predicate NoPair(bits: Bitstring)
  {
    forall p :: 0 <= p < |bits| && MagicAt(bits, p) && p + 93 != |bits| ==> !MagicAt(bits, p + 45)
  }

  predicate Plain(bits: Bitstring)
  {
    NoTailMagic(bits) && NoPair(bits)
  }

  /** Skipping 48 bits skips no magic in reach. */
  lemma NothingSkipped(bits: Bitstring, p: nat, q: nat)
    requires NoPair(bits) && MagicAt(bits, p) && MagicAt(bits, q) && p < q && q + 57 <= |bits|
    ensures p + 48 <= q
  {
    hide MagicBits;
    if q < p + 48 { OverlapOnlyAt45(bits, p, q); }
  }

  /** The magics in reach from `bit` on are the first one and those behind its 48 bits. */
  lemma OccurrencesHit(bits: Bitstring, bit: nat, end: nat, p: nat)
    requires NoPair(bits) && bit <= p < end <= Reach(bits) && MagicAt(bits, p) && forall q :: bit <= q < p ==> !MagicAt(bits, q)
    ensures Occurrences(bits, bit, end) == [p] + Occurrences(bits, p + 48, end)
  {
    hide MagicAt, Occurrences, NoPair;
    var rest := Occurrences(bits, p + 48, end);
    var s := [p] + rest;
    assert forall i :: 0 <= i < |rest| ==> rest[i] in rest;
    forall x: nat
      ensures x in s <==> x in Occurrences(bits, bit, end)
    {
      if MagicAt(bits, x) && p < x < end { NothingSkipped(bits, p, x); }
    }
    IncreasingUnique(s, Occurrences(bits, bit, end));
  }

  lemma OccurrencesMiss(bits: Bitstring, bit: nat, end: nat)
    requires forall q :: bit <= q < end ==> !MagicAt(bits, q)
    ensures Occurrences(bits, bit, end) == []
  {
    hide MagicAt, Occurrences;
    HeadIn(Occurrences(bits, bit, end));
  }

  /** What a scan finds is in reach, or in the seventh byte from the end. */
  lemma ScanInside(bits: Bitstring, len: nat, start: nat)
    requires |bits| == 8 * len && Scan(bits, len, start).Some?
    ensures Scan(bits, len, start).value + 48 < |bits|
    ensures NoTailMagic(bits) ==> Scan(bits, len, start).value < Reach(bits)
  {
    hide MagicAt;
  }

  /** The scan of a range finds exactly the magics of the range that are in reach. */
  lemma {:induction false} ScanRangeIsComplete(bits: Bitstring, len: nat, bit: nat, end: nat)
    requires |bits| == 8 * len && Plain(bits)
    ensures ScanRange(bits, len, bit, end) == Occurrences(bits, bit, if end < Reach(bits) then end else Reach(bits))
    decreases if bit < |bits| then |bits| - bit else 0
  {
    hide MagicAt, Scan, Occurrences, NoPair, NoTailMagic;
    ScanIsLeast(bits, len, bit);
    var r, hi := Scan(bits, len, bit), if end < Reach(bits) then end else Reach(bits);
    if r.Some? { ScanInside(bits, len, bit); }
    if bit < end && r.Some? && r.value < end {
      ScanRangeIsComplete(bits, len, r.value + 48, end);
      OccurrencesHit(bits, bit, hi, r.value);
    } else {
      OccurrencesMiss(bits, bit, hi);
    }
  }

  lemma MagicIsInside(bits: Bitstring, p: nat)
    requires MagicAt(bits, p)
    ensures p + 48 <= |bits|
  {
  }

  lemma {:induction false} ScanAllIsRange(bits: Bitstring, len: nat, bit: nat)
    requires |bits| == 8 * len
    ensures ScanAll(bits, len, bit) == ScanRange(bits, len, bit, |bits|)
    decreases if bit < |bits| then |bits| - bit else 0
  {
    hide MagicAt, Scan;
    var r := Scan(bits, len, bit);
    if r.Some? { ScanAllIsRange(bits, len, r.value + 48); }
  }

  /** In a plain buffer the serial scan returns every magic in reach once, in order. */
  lemma SerialScanIsComplete(bits: Bitstring, len: nat)
    requires |bits| == 8 * len && Plain(bits)
    ensures ScanAll(bits, len, 0) == Occurrences(bits, 0, Reach(bits))
  {
    hide Plain, Occurrences;
    ScanAllIsRange(bits, len, 0);
    ScanRangeIsComplete(bits, len, 0, |bits|);
  }

  // ---------------------------------------------------------------------------------------------
  // Sorting and removing duplicates
  // ---------------------------------------------------------------------------------------------

  predicate SortedNats(s: seq<nat>)
  {
    forall i, j :: 0 <= i < j < |s| ==> s[i] <= s[j]
  }

  function InsertNat(x: nat, s: seq<nat>): (r: seq<nat>)
    requires SortedNats(s)
    ensures SortedNats(r) && forall y :: y in r <==> y == x || y in s
  {
    if s == [] then [x]
    else if x <= s[0] then [x] + s
    else
      assert s == [s[0]] + s[1..];
      var rest := InsertNat(x, s[1..]);
      assert forall i :: 0 <= i < |rest| ==> rest[i] in rest;
      [s[0]] + rest
  }

  /** `sort_by_key`. */
  function SortNats(s: seq<nat>): (r: seq<nat>)
    ensures SortedNats(r) && forall y :: y in r <==> y in s
  {
    if s == [] then []
    else
      assert s == [s[0]] + s[1..];
      InsertNat(s[0], SortNats(s[1..]))
  }

  /** `dedup_by_key`: of neighbours that are equal the first stays. */
  function Dedup(s: seq<nat>): (r: seq<nat>)
    requires SortedNats(s)
    ensures Increasing(r) && forall y :: y in r <==> y in s
    ensures s != [] ==> r != [] && r[0] == s[0]
    decreases |s|
  {
    if |s| <= 1 then s
    else
      SortedTail(s);
      var rest := Dedup(s[1..]);
      if s[0] == s[1] then rest
      else
        AboveAll(s[0], s[1], rest);
        [s[0]] + rest
  }

  lemma SortedTail(s: seq<nat>)
    requires SortedNats(s) && |s| > 1
    ensures SortedNats(s[1..]) && s[0] <= s[1] && s[1..][0] == s[1]
    ensures forall y :: y in s <==> y == s[0] || y in s[1..]
  {
    assert s == [s[0]] + s[1..];
  }

  lemma AboveAll(x: nat, y: nat, rest: seq<nat>)
    requires x < y && Increasing(rest) && rest != [] && rest[0] == y
    ensures Increasing([x] + rest)
  {
  }

  function SortDedup(s: seq<nat>): (r: seq<nat>)
    ensures Increasing(r) && forall y :: y in r <==> y in s
  {
    Dedup(SortNats(s))
  }

  // ---------------------------------------------------------------------------------------------
  // The parallel scan
  // ---------------------------------------------------------------------------------------------

  /** Where thread `i` of `n` starts, and where it stops: eight bytes into the next thread's part. */
  function PartStart(len: nat, n: nat, i: nat): (b: nat)
    requires n > 0
  {
    i * (len / n) * 8
  }

  function PartEnd(len: nat, n: nat, i: nat): (b: nat)
    requires n > 0 && i < n
  {
    if i + 1 < n then ((i + 1) * (len / n) + 8) * 8 else len * 8
  }

  function Parts(bits: Bitstring, len: nat, n: nat): (ss: seq<seq<nat>>)
    requires |bits| == 8 * len && n > 0
    ensures |ss| == n
    ensures forall i :: 0 <= i < n ==> ss[i] == ScanRange(bits, len, PartStart(len, n, i), PartEnd(len, n, i))
  {
    seq(n, i requires 0 <= i < n => ScanRange(bits, len, PartStart(len, n, i), PartEnd(len, n, i)))
  }

  /** What `find_all_blocks_parallel` returns. */
  function ScanParallel(bits: Bitstring, len: nat, threads: nat): (s: seq<nat>)
    requires |bits| == 8 * len
  {
    var n := if threads == 0 then 1 else threads;
    if len < 16 || n == 1 then ScanAll(bits, len, 0)
    else SortDedup(Flatten(Parts(bits, len, n)))
  }

  /** Every bit belongs to some thread's part. */
  lemma PartOf(len: nat, n: nat, p: nat) returns (i: nat)
    requires n > 0 && p < 8 * len
    ensures i < n && PartStart(len, n, i) <= p < PartEnd(len, n, i)
  {
    i := FindPart(len, n, p, n - 1);
  }

  lemma {:induction false} FindPart(len: nat, n: nat, p: nat, k: nat) returns (i: nat)
    requires n > 0 && k < n && p < PartEnd(len, n, k)
    ensures i < n && PartStart(len, n, i) <= p < PartEnd(len, n, i)
    decreases k
  {
    if PartStart(len, n, k) <= p {
      i := k;
    } else {
      assert k > 0 by { assert PartStart(len, n, 0) == 0; }
      i := FindPart(len, n, p, k - 1);
    }
  }

  /** In a plain buffer the parallel scan returns the serial result for every number of threads. */
  lemma ParallelScanIsSerial(bits: Bitstring, len: nat, threads: nat)
    requires |bits| == 8 * len && Plain(bits)
    ensures ScanParallel(bits, len, threads) == ScanAll(bits, len, 0) == Occurrences(bits, 0, Reach(bits))
  {
    hide MagicAt, ScanRange, PartStart, PartEnd, Occurrences, Plain;
    SerialScanIsComplete(bits, len);
    var n := if threads == 0 then 1 else threads;
    if len >= 16 && n > 1 {
      var parts := Parts(bits, len, n);
      var all := Occurrences(bits, 0, Reach(bits));
      FlattenMember(parts);
      forall x: nat
        ensures x in Flatten(parts) <==> x in all
      {
        if x in Flatten(parts) {
          var i :| 0 <= i < n && x in parts[i];
          ScanRangeIsComplete(bits, len, PartStart(len, n, i), PartEnd(len, n, i));
        }
        if x in all {
          var i := PartOf(len, n, x);
          ScanRangeIsComplete(bits, len, PartStart(len, n, i), PartEnd(len, n, i));
          assert x in parts[i];
        }
      }
      IncreasingUnique(ScanParallel(bits, len, threads), all);
    }
  }

  // ---------------------------------------------------------------------------------------------
  // When the scans agree
  // ---------------------------------------------------------------------------------------------

  /** The finds of a scan are at least 48 bits apart. */
  lemma {:induction false} FindsApart(bits: Bitstring, len: nat, bit: nat)
    requires |bits| == 8 * len
    ensures forall x :: x in ScanAll(bits, len, bit) ==> bit <= x && x + 48 < |bits| && MagicAt(bits, x)
    ensures forall x, y :: x in ScanAll(bits, len, bit) && y in ScanAll(bits, len, bit) && x < y ==> x + 48 <= y
    decreases if bit < |bits| then |bits| - bit else 0
  {
    hide MagicAt, Scan;
    var r := Scan(bits, len, bit);
    if r.Some? {
      ScanInside(bits, len, bit);
      FindsApart(bits, len, r.value + 48);
    }
  }

  lemma {:induction false} RangeFinds(bits: Bitstring, len: nat, bit: nat, end: nat)
    requires |bits| == 8 * len
    ensures forall x :: x in ScanRange(bits, len, bit, end) ==> x + 48 < |bits| && MagicAt(bits, x)
    decreases if bit < |bits| then |bits| - bit else 0
  {
    hide MagicAt, Scan;
    var r := Scan(bits, len, bit);
    if bit < end && r.Some? && r.value < end {
      ScanInside(bits, len, bit);
      RangeFinds(bits, len, r.value + 48, end);
    }
  }

  /** A scan that starts in the byte of a magic finds it, and so does one from the byte before. */
  lemma NearScanFinds(bits: Bitstring, len: nat, p: nat, startByte: nat)
    requires |bits| == 8 * len && MagicAt(bits, p) && p + 48 < |bits|
    requires startByte == if p / 8 + 8 <= len then p / 8 else p / 8 - 1
    ensures Scan(bits, len, 8 * startByte) == Some(p)
  {
    hide MagicAt;
    assert Covered(len, startByte, p);
    var r := Scan(bits, len, 8 * startByte);
    if r.Some? && r.value < p { OverlapOnlyAt45(bits, r.value, p); }
  }

  /** With a thread for every byte no magic is missed, overlapping or close to the end, except one that
      ends the buffer. */
  lemma ThreadPerByteIsComplete(bits: Bitstring, len: nat)
    requires |bits| == 8 * len && len >= 16
    ensures ScanParallel(bits, len, len) == Occurrences(bits, 0, |bits| - 48)
  {
    hide MagicAt, ScanRange, Scan, Occurrences;
    var parts, all := Parts(bits, len, len), Occurrences(bits, 0, |bits| - 48);
    FlattenMember(parts);
    forall x: nat
      ensures x in Flatten(parts) <==> x in all
    {
      if x in Flatten(parts) {
        var i :| 0 <= i < len && x in parts[i];
        RangeFinds(bits, len, PartStart(len, len, i), PartEnd(len, len, i));
      }
      if x in all {
        var i := if x / 8 + 8 <= len then x / 8 else x / 8 - 1;
        NearScanFinds(bits, len, x, i);
        PartOfByte(len, i);
        FirstOfRange(bits, len, 8 * i, PartEnd(len, len, i));
        assert x in parts[i];
      }
    }
    IncreasingUnique(ScanParallel(bits, len, len), all);
  }

  lemma PartOfByte(len: nat, i: nat)
    requires i < len
    ensures len / len == 1 && PartStart(len, len, i) == 8 * i && (PartEnd(len, len, i) >= 8 * i + 72 || PartEnd(len, len, i) == 8 * len)
  {
  }

  lemma FirstOfRange(bits: Bitstring, len: nat, bit: nat, end: nat)
    requires |bits| == 8 * len
    ensures bit < end && Scan(bits, len, bit).Some? && Scan(bits, len, bit).value < end ==>
      Scan(bits, len, bit).value in ScanRange(bits, len, bit, end)
  {
    hide Scan;
  }

  /** Two overlapping magics in reach: a thread for every byte finds both, the serial scan does not. */
  lemma PairsDiffer(bits: Bitstring, len: nat)
    requires |bits| == 8 * len && len >= 16 && !NoPair(bits)
    ensures ScanParallel(bits, len, len) != ScanAll(bits, len, 0)
  {
    hide MagicAt, ScanAll, Occurrences, ScanParallel;
    var p: nat :| p < |bits| && MagicAt(bits, p) && p + 93 != |bits| && MagicAt(bits, p + 45);
    MagicIsInside(bits, p + 45);
    ThreadPerByteIsComplete(bits, len);
    FindsApart(bits, len, 0);
    assert p in Occurrences(bits, 0, |bits| - 48) && p + 45 in Occurrences(bits, 0, |bits| - 48);
  }

  // ---------------------------------------------------------------------------------------------
  // A magic in the seventh byte from the end
  // ---------------------------------------------------------------------------------------------

  predicate TailMagic(bits: Bitstring, m: nat)
  {
    MagicAt(bits, m) && m + 57 > |bits| && m + 48 < |bits|
  }

  /** The byte where the last search of a scan from `start` begins: behind the last magic in reach, or
      where the scan begins. */
  function LastSearch(bits: Bitstring, start: nat): nat
  {
    var before := Occurrences(bits, start, Reach(bits));
    if before == [] then start / 8 else (before[|before| - 1] + 48) / 8
  }

  /** Whether a scan from `start` has a window for the tail magic: the last search must begin an odd
      number of bytes before it. */
  predicate TailSeen(bits: Bitstring, len: nat, start: nat)
  {
    (len - 7 - LastSearch(bits, start)) % 2 == 1
  }

  /** The tail magic has all others 48 bits before it. */
  lemma TailAlone(bits: Bitstring, len: nat, m: nat, p: nat)
    requires |bits| == 8 * len && NoPair(bits) && TailMagic(bits, m) && MagicAt(bits, p) && p + 48 < |bits|
    ensures m / 8 == len - 7 && Reach(bits) <= m
    ensures p != m ==> p < Reach(bits) && p + 48 <= m
  {
    hide MagicAt, NoPair;
    if p < m && m < p + 48 { PairAt45(bits, p, m); }
    if m < p && p < m + 48 { OverlapOnlyAt45(bits, m, p); }
  }

  lemma PairAt45(bits: Bitstring, p: nat, q: nat)
    requires NoPair(bits) && MagicAt(bits, p) && p < q < p + 48 && q + 48 < |bits|
    ensures !MagicAt(bits, q)
  {
    hide MagicBits;
    if MagicAt(bits, q) { OverlapOnlyAt45(bits, p, q); }
  }

  /** The first find of a scan: the first magic in reach, or the tail magic, if it is seen. */
  lemma TailSearch(bits: Bitstring, len: nat, bit: nat, m: nat)
    requires |bits| == 8 * len && NoPair(bits) && TailMagic(bits, m) && bit <= m
    ensures var r := Scan(bits, len, bit);
      && (r.Some? ==> r.value <= m)
      && (r.Some? && r.value < m ==> r.value < Reach(bits) && r.value + 48 <= m)
      && (r.Some? && r.value < m ==> Occurrences(bits, bit, Reach(bits)) == [r.value] + Occurrences(bits, r.value + 48, Reach(bits)))
      && (r.None? || r.value == m ==> Occurrences(bits, bit, Reach(bits)) == [])
      && (r.None? ==> (len - 7 - bit / 8) % 2 != 1)
      && (r.Some? && r.value == m ==> (len - 7 - bit / 8) % 2 == 1)
  {
    hide MagicAt, NoPair, Occurrences;
    var r := Scan(bits, len, bit);
    ScanIsLeast(bits, len, bit);
    TailAlone(bits, len, m, m);
    if r.Some? {
      ScanInside(bits, len, bit);
      TailAlone(bits, len, m, r.value);
      TailCovered(bits, len, bit, m);
    } else {
      TailCovered(bits, len, bit, m);
    }
    if r.Some? && r.value < m {
      OccurrencesHit(bits, bit, Reach(bits), r.value);
    } else {
      OccurrencesMiss(bits, bit, Reach(bits));
    }
  }

  lemma TailCovered(bits: Bitstring, len: nat, bit: nat, m: nat)
    requires |bits| == 8 * len && MagicAt(bits, m) && m / 8 == len - 7 && bit <= m
    ensures var r := Scan(bits, len, bit);
      && (r.None? ==> (len - 7 - bit / 8) % 2 != 1)
      && (r.Some? && r.value == m ==> (len - 7 - bit / 8) % 2 == 1)
      && (r.Some? ==> r.value / 8 <= len - 7)
  {
    hide MagicAt;
    assert Covered(len, bit / 8, m) <==> (len - 7 - bit / 8) % 2 == 1;
  }

  /** A scan finds the tail magic exactly when it is seen from where the scan starts, and every magic in
      reach in any case. */
  lemma {:induction false} TailFound(bits: Bitstring, len: nat, bit: nat, end: nat, m: nat)
    requires |bits| == 8 * len && NoPair(bits) && TailMagic(bits, m) && bit <= m
    ensures forall x :: x in ScanRange(bits, len, bit, end) <==>
      bit <= x < end && MagicAt(bits, x) && (x < Reach(bits) || (x == m && TailSeen(bits, len, bit)))
    decreases if bit < |bits| then |bits| - bit else 0
  {
    hide MagicAt, NoPair, Occurrences, Scan, TailMagic, TailSeen;
    TailSearch(bits, len, bit, m);
    TailBounds(bits, len, m);
    var r := Scan(bits, len, bit);
    ScanIsLeast(bits, len, bit);
    if bit < end && r.Some? && r.value < end && r.value < m {
      var p := r.value;
      TailFound(bits, len, p + 48, end, m);
      SeenBehind(bits, len, bit, p);
      forall x
        ensures x in ScanRange(bits, len, bit, end) <==>
          bit <= x < end && MagicAt(bits, x) && (x < Reach(bits) || (x == m && TailSeen(bits, len, bit)))
      {
        if p < x && MagicAt(bits, x) && x < Reach(bits) { NothingSkipped(bits, p, x); }
      }
    } else {
      if r.None? || r.value == m { SeenAtOnce(bits, len, bit); }
      if r.Some? && r.value == m && m < end { LateStart(bits, len, m + 48, end, m); }
    }
  }

  lemma SeenAtOnce(bits: Bitstring, len: nat, start: nat)
    requires Occurrences(bits, start, Reach(bits)) == []
    ensures TailSeen(bits, len, start) <==> (len - 7 - start / 8) % 2 == 1
  {
    hide Occurrences;
  }

  lemma TailBounds(bits: Bitstring, len: nat, m: nat)
    requires |bits| == 8 * len && TailMagic(bits, m)
    ensures Reach(bits) <= m < |bits| && MagicAt(bits, m) && m / 8 == len - 7
    ensures Occurrences(bits, m, Reach(bits)) == []
  {
    hide MagicAt;
  }

  /** Behind the first find the last search is the same. */
  lemma SeenBehind(bits: Bitstring, len: nat, bit: nat, p: nat)
    requires Occurrences(bits, bit, Reach(bits)) == [p] + Occurrences(bits, p + 48, Reach(bits))
    ensures TailSeen(bits, len, bit) == TailSeen(bits, len, p + 48)
  {
    hide Occurrences;
  }

  /** Where the part of thread `i` of `n` begins. */
  function FromBit(len: nat, n: nat, i: nat): (b: nat)
    requires n > 0
  {
    8 * (len / n * i)
  }

  /** The part of a thread goes on for 64 bits into the next, and that of the last to the end. */
  predicate InPart(len: nat, n: nat, i: nat, m: nat)
    requires n > 0
  {
    FromBit(len, n, i) <= m && (i + 1 == n || m < FromBit(len, n, i + 1) + 64)
  }

  lemma PartBits(len: nat, n: nat, i: nat, m: nat)
    requires n > 0 && i < n && m < 8 * len
    ensures PartStart(len, n, i) == FromBit(len, n, i)
    ensures PartStart(len, n, i) <= m < PartEnd(len, n, i) <==> InPart(len, n, i, m)
  {
  }

  /** Some thread's part holds the tail magic and sees it. */
  predicate SeenInPart(bits: Bitstring, len: nat, n: nat, m: nat)
    requires n > 0
  {
    exists i :: 0 <= i < n && InPart(len, n, i, m) && TailSeen(bits, len, FromBit(len, n, i))
  }

  /** Exactly when the scans agree for a given number of threads, for a buffer without overlapping magics
      but with one in the seventh byte from the end: when the serial scan sees it if and only if some
      thread does. */
  lemma TailAgreesIff(bits: Bitstring, len: nat, threads: nat, m: nat)
    requires |bits| == 8 * len && len >= 16 && threads > 1 && NoPair(bits) && TailMagic(bits, m)
    ensures ScanParallel(bits, len, threads) == ScanAll(bits, len, 0) <==> (TailSeen(bits, len, 0) <==> SeenInPart(bits, len, threads, m))
  {
    hide MagicAt, NoPair, Occurrences, Scan, ScanRange, ScanAll, TailSeen, PartStart, PartEnd, TailMagic, Parts;
    TailBounds(bits, len, m);
    ScanAllIsRange(bits, len, 0);
    TailFound(bits, len, 0, |bits|, m);
    SerialIncreasing(bits, len);
    ParallelTail(bits, len, threads, m);
    var serial, parallel := ScanAll(bits, len, 0), ScanParallel(bits, len, threads);
    if TailSeen(bits, len, 0) <==> SeenInPart(bits, len, threads, m) {
      IncreasingUnique(parallel, serial);
    } else {
      assert m in serial <==> m !in parallel;
    }
  }

  lemma SerialIncreasing(bits: Bitstring, len: nat)
    requires |bits| == 8 * len
    ensures Increasing(ScanAll(bits, len, 0))
  {
    FindsIncrease(bits, len, 0);
  }

  lemma {:induction false} FindsIncrease(bits: Bitstring, len: nat, bit: nat)
    requires |bits| == 8 * len
    ensures Increasing(ScanAll(bits, len, bit))
    decreases if bit < |bits| then |bits| - bit else 0
  {
    hide MagicAt, Scan;
    var r := Scan(bits, len, bit);
    if r.Some? {
      FindsIncrease(bits, len, r.value + 48);
      FindsApart(bits, len, r.value + 48);
      var rest := ScanAll(bits, len, r.value + 48);
      assert forall i :: 0 <= i < |rest| ==> rest[i] in rest;
    }
  }

  /** What the parallel scan finds in such a buffer. */
  lemma ParallelTail(bits: Bitstring, len: nat, threads: nat, m: nat)
    requires |bits| == 8 * len && len >= 16 && threads > 1 && NoPair(bits) && TailMagic(bits, m)
    ensures Increasing(ScanParallel(bits, len, threads))
    ensures forall x: nat :: x in ScanParallel(bits, len, threads) <==>
      x < |bits| && MagicAt(bits, x) && (x < Reach(bits) || (x == m && SeenInPart(bits, len, threads, m)))
  {
    hide MagicAt, NoPair, Occurrences, Scan, ScanRange, TailSeen, PartStart, PartEnd, TailMagic, FromBit, InPart;
    TailBounds(bits, len, m);
    var parts := Parts(bits, len, threads);
    FlattenMember(parts);
    forall x: nat
      ensures x in Flatten(parts) <==> x < |bits| && MagicAt(bits, x) && (x < Reach(bits) || (x == m && SeenInPart(bits, len, threads, m)))
    {
      if x in Flatten(parts) {
        var i :| 0 <= i < threads && x in parts[i];
        PartTail(bits, len, threads, i, m, x);
        PartBits(len, threads, i, m);
      }
      if x < Reach(bits) && MagicAt(bits, x) {
        var i := PartOf(len, threads, x);
        PartTail(bits, len, threads, i, m, x);
        assert x in parts[i];
      }
      if x == m && SeenInPart(bits, len, threads, m) {
        var i :| 0 <= i < threads && InPart(len, threads, i, m) && TailSeen(bits, len, FromBit(len, threads, i));
        PartBits(len, threads, i, m);
        PartTail(bits, len, threads, i, m, x);
        assert x in parts[i];
      }
    }
  }

  lemma PartTail(bits: Bitstring, len: nat, n: nat, i: nat, m: nat, x: nat)
    requires |bits| == 8 * len && i < n && NoPair(bits) && TailMagic(bits, m)
    ensures var start, end := PartStart(len, n, i), PartEnd(len, n, i);
      x in ScanRange(bits, len, start, end) <==>
      start <= x < end && MagicAt(bits, x) && (x < Reach(bits) || (x == m && TailSeen(bits, len, start)))
    ensures x in ScanRange(bits, len, PartStart(len, n, i), PartEnd(len, n, i)) ==> x < |bits|
  {
    hide MagicAt, NoPair, Occurrences, Scan, TailSeen, PartStart, PartEnd, TailMagic, ScanRange;
    var start, end := PartStart(len, n, i), PartEnd(len, n, i);
    TailBounds(bits, len, m);
    if start <= m {
      TailFound(bits, len, start, end, m);
    } else {
      LateStart(bits, len, start, end, m);
    }
  }

  /** Behind the tail magic there is nothing to find. */
  lemma LateStart(bits: Bitstring, len: nat, start: nat, end: nat, m: nat)
    requires |bits| == 8 * len && TailMagic(bits, m) && m < start
    ensures ScanRange(bits, len, start, end) == []
  {
    hide MagicAt;
    var r := Scan(bits, len, start);
    if r.Some? {
      ScanInside(bits, len, start);
      OverlapOnlyAt45(bits, m, r.value);
    }
  }

  /** The serial scan sees the tail magic, and so does some thread whatever the number of threads. */
  ghost predicate SeenByAll(bits: Bitstring, len: nat, m: nat)
  {
    TailSeen(bits, len, 0) && forall threads: nat :: threads > 1 ==> SeenInPart(bits, len, threads, m)
  }

  /** The scans agree for every number of threads. */
  ghost predicate ScansAgree(bits: Bitstring, len: nat)
    requires |bits| == 8 * len
  {
    forall threads: nat :: ScanParallel(bits, len, threads) == ScanAll(bits, len, 0)
  }

  lemma TailAgreement(bits: Bitstring, len: nat, m: nat)
    requires |bits| == 8 * len && len >= 16 && NoPair(bits) && TailMagic(bits, m)
    ensures ScansAgree(bits, len) <==> SeenByAll(bits, len, m)
  {
    hide MagicAt, NoPair, ScanAll, ScanParallel, TailSeen, SeenInPart, TailMagic, Occurrences;
    if ScansAgree(bits, len) {
      EveryThreadSees(bits, len, m);
      forall threads: nat | threads > 1
        ensures SeenInPart(bits, len, threads, m)
      {
        assert ScanParallel(bits, len, threads) == ScanAll(bits, len, 0);
        TailAgreesIff(bits, len, threads, m);
      }
    }
    if SeenByAll(bits, len, m) {
      forall threads: nat
        ensures ScanParallel(bits, len, threads) == ScanAll(bits, len, 0)
      {
        if threads > 1 { TailAgreesIff(bits, len, threads, m); } else { FewThreads(bits, len, threads); }
      }
    }
  }

  lemma FewThreads(bits: Bitstring, len: nat, threads: nat)
    requires |bits| == 8 * len && (threads <= 1 || len < 16)
    ensures ScanParallel(bits, len, threads) == ScanAll(bits, len, 0)
  {
    hide ScanAll, Parts, SortDedup, Flatten;
  }

  /** With a thread for every byte the tail magic is found, so the serial scan must see it. */
  lemma EveryThreadSees(bits: Bitstring, len: nat, m: nat)
    requires |bits| == 8 * len && len >= 16 && NoPair(bits) && TailMagic(bits, m)
    requires ScansAgree(bits, len)
    ensures TailSeen(bits, len, 0)
  {
    hide MagicAt, NoPair, ScanAll, ScanParallel, TailSeen, SeenInPart, Occurrences;
    ThreadPerByteIsComplete(bits, len);
    TailBounds(bits, len, m);
    assert m in Occurrences(bits, 0, |bits| - 48);
    ParallelTail(bits, len, len, m);
    assert ScanParallel(bits, len, len) == ScanAll(bits, len, 0);
    TailAgreesIff(bits, len, len, m);
  }

  /** Exactly when the scans agree for every number of threads, for every buffer: when it is too short to be
      scanned in parallel, or no two magics overlap (the second not being the very end) and a magic in the
      seventh byte from the end, if there is one, is seen by the serial scan and for every number of threads
      by some thread.  (The comment at src/parallel.rs:35-38 claims it without a condition.) */
  lemma ScansAgreeIff(bits: Bitstring, len: nat)
    requires |bits| == 8 * len
    ensures ScansAgree(bits, len) <==>
      len < 16 || (NoPair(bits) && forall m: nat :: TailMagic(bits, m) ==> SeenByAll(bits, len, m))
  {
    hide MagicAt, ScanAll, ScanParallel, NoTailMagic, NoPair, Occurrences, SeenByAll, TailMagic, ScansAgree;
    if len < 16 {
      ShortAgrees(bits, len);
    } else if !NoPair(bits) {
      PairsDiffer(bits, len);
      OneDiffers(bits, len, len);
    } else if NoTailMagic(bits) {
      PlainAgrees(bits, len);
      NoTail(bits);
    } else {
      forall m: nat | TailMagic(bits, m)
        ensures ScansAgree(bits, len) <==> SeenByAll(bits, len, m)
      {
        TailAgreement(bits, len, m);
      }
      NoTail(bits);
    }
  }

  lemma NoTail(bits: Bitstring)
    ensures NoTailMagic(bits) <==> forall m: nat :: !TailMagic(bits, m)
  {
    hide MagicAt;
    forall m: nat | MagicAt(bits, m)
      ensures m + 48 <= |bits|
    {
      MagicIsInside(bits, m);
    }
    if !NoTailMagic(bits) {
      var p :| 0 <= p < |bits| && MagicAt(bits, p) && p + 57 > |bits| && p + 48 != |bits|;
      assert TailMagic(bits, p);
    }
  }

  lemma ShortAgrees(bits: Bitstring, len: nat)
    requires |bits| == 8 * len && len < 16
    ensures ScansAgree(bits, len)
  {
    hide ScanAll, ScanParallel;
    forall threads: nat
      ensures ScanParallel(bits, len, threads) == ScanAll(bits, len, 0)
    {
      FewThreads(bits, len, threads);
    }
  }

  lemma OneDiffers(bits: Bitstring, len: nat, threads: nat)
    requires |bits| == 8 * len && ScanParallel(bits, len, threads) != ScanAll(bits, len, 0)
    ensures !ScansAgree(bits, len)
  {
    hide ScanAll, ScanParallel;
  }

  lemma PlainAgrees(bits: Bitstring, len: nat)
    requires |bits| == 8 * len && Plain(bits)
    ensures ScansAgree(bits, len)
  {
    hide ScanAll, ScanParallel, NoPair, NoTailMagic;
    forall threads: nat
      ensures ScanParallel(bits, len, threads) == ScanAll(bits, len, 0)
    {
      ParallelScanIsSerial(bits, len, threads);
    }
  }

  /** A necessary condition for all buffers, magics in the seventh byte from the end included: if the
      scans agree for every number of threads, the serial scan finds every magic but one that ends the
      buffer. */
  lemma AgreementIsComplete(bits: Bitstring, len: nat)
    requires |bits| == 8 * len && len >= 16
    requires ScansAgree(bits, len)
    ensures ScanAll(bits, len, 0) == Occurrences(bits, 0, |bits| - 48)
  {
    hide MagicAt, ScanAll, Occurrences, ScanParallel;
    assert ScanParallel(bits, len, len) == ScanAll(bits, len, 0);
    ThreadPerByteIsComplete(bits, len);
  }

  // ---------------------------------------------------------------------------------------------
  // Where the two scans differ
  // ---------------------------------------------------------------------------------------------

  /** Twelve zero bytes, a magic, and one more zero byte. */
  function TailBuffer(): (buf: seq<Byte>)
    ensures |buf| == 19
  {
    seq(12, _ => 0) + [0x31, 0x41, 0x59, 0x26, 0x53, 0x59] + [0]
  }

  lemma TailBufferBits(bits: Bitstring)
    requires bits == BitsOf(TailBuffer())
    ensures |bits| == 152 && MagicAt(bits, 96) && forall i :: 0 <= i < 96 ==> !bits[i]
  {
    hide ToBits;
    var zeros, magic, last: seq<Byte> := seq(12, _ => 0), [0x31, 0x41, 0x59, 0x26, 0x53, 0x59], [0];
    BitsOfConcat(zeros + magic, last);
    BitsOfConcat(zeros, magic);
    MagicOfBytes();
    forall i | 0 <= i < 96
      ensures !bits[i]
    {
      BitsOfIndex(zeros, i / 8, i % 8);
      ZeroByte(i % 8);
    }
    assert bits[96..144] == BitsOf(magic);
  }

  lemma ZeroByte(j: nat)
    requires j < 8
    ensures !ByteBit(0, j)
  {
    ToBitsZeros(8);
  }

  lemma MagicOfBytes()
    ensures BitsOf([0x31, 0x41, 0x59, 0x26, 0x53, 0x59]) == MagicBits()
  {
    hide ToBits, BitsOf;
    MagicBytes();
    OneMore([], 0x31);
    OneMore([0x31], 0x41);
    OneMore([0x31, 0x41], 0x59);
    OneMore([0x31, 0x41, 0x59], 0x26);
    OneMore([0x31, 0x41, 0x59, 0x26], 0x53);
    OneMore([0x31, 0x41, 0x59, 0x26, 0x53], 0x59);
    NoBytes();
    assert [] + ToBits(0x31, 8) == ToBits(0x31, 8);
    SixBytes();
  }

  lemma NoBytes()
    ensures BitsOf([]) == []
  {
    assert |BitsOf([])| == 0;
  }

  lemma SixBytes()
    ensures [] + [0x31 as Byte] == [0x31] && [0x31 as Byte] + [0x41] == [0x31, 0x41] && [0x31 as Byte, 0x41] + [0x59] == [0x31, 0x41, 0x59]
    ensures [0x31 as Byte, 0x41, 0x59] + [0x26] == [0x31, 0x41, 0x59, 0x26]
    ensures [0x31 as Byte, 0x41, 0x59, 0x26] + [0x53] == [0x31, 0x41, 0x59, 0x26, 0x53]
    ensures [0x31 as Byte, 0x41, 0x59, 0x26, 0x53] + [0x59] == [0x31, 0x41, 0x59, 0x26, 0x53, 0x59]
  {
  }

  lemma OneMore(bytes: seq<Byte>, b: Byte)
    ensures BitsOf(bytes + [b]) == BitsOf(bytes) + ToBits(b, 8)
  {
    assert (bytes + [b])[..|bytes|] == bytes;
  }

  /** With a magic in the seventh byte from the end the results can differ too: here the serial scan has
      no window for it, while the second of two threads, which starts at an odd byte, has one. */
  lemma ScansCanDiffer()
    ensures var bits := BitsOf(TailBuffer());
      96 in ScanParallel(bits, 19, 2) && 96 !in ScanAll(bits, 19, 0)
  {
    hide MagicAt, MagicBits, TailBuffer, BitsOf, SortDedup, Flatten;
    var bits := BitsOf(TailBuffer());
    TailBufferBits(bits);
    forall q | 0 <= q < 96
      ensures !MagicAt(bits, q)
    {
      if q + 2 < 96 { EarlyMagic(bits, q); } else { LateMagic(bits, q); }
    }
    OddStart(bits);
    EvenStart(bits);
    ScanAllFrom(bits, 19, 0, 97);
    assert PartStart(19, 2, 1) == 72 && PartEnd(19, 2, 1) == 152;
    assert ScanRange(bits, 19, 72, 152) == [96] + ScanRange(bits, 19, 144, 152);
    FlattenMember(Parts(bits, 19, 2));
    assert 96 in Parts(bits, 19, 2)[1];
  }

  /** The magic cannot start one or two bits before another copy of itself. */
  lemma LateMagic(bits: Bitstring, q: nat)
    requires MagicAt(bits, 96) && 94 <= q < 96
    ensures !MagicAt(bits, q)
  {
    hide MagicAt;
    if MagicAt(bits, q) { OverlapOnlyAt45(bits, q, 96); }
  }

  /** A magic has its third bit set. */
  lemma EarlyMagic(bits: Bitstring, q: nat)
    requires q + 2 < |bits| && !bits[q + 2]
    ensures !MagicAt(bits, q)
  {
    hide MagicAt, MagicBits;
    if MagicAt(bits, q) {
      MagicIndex(bits, q, 2);
      MagicBit(2);
    }
  }

  lemma OddStart(bits: Bitstring)
    requires |bits| == 152 && MagicAt(bits, 96) && forall q :: 0 <= q < 96 ==> !MagicAt(bits, q)
    ensures Scan(bits, 19, 72) == Some(96)
  {
    hide MagicAt;
  }

  lemma EvenStart(bits: Bitstring)
    requires |bits| == 152 && MagicAt(bits, 96) && forall q :: 0 <= q < 96 ==> !MagicAt(bits, q)
    ensures Scan(bits, 19, 0).Some? ==> Scan(bits, 19, 0).value > 96
  {
    hide MagicAt;
  }

  /** The serial scan returns nothing below its first find. */
  lemma {:induction false} ScanAllFrom(bits: Bitstring, len: nat, bit: nat, bound: nat)
    requires |bits| == 8 * len
    requires Scan(bits, len, bit).Some? ==> Scan(bits, len, bit).value >= bound
    ensures forall x :: x in ScanAll(bits, len, bit) ==> x >= bound
    decreases if bit < |bits| then |bits| - bit else 0
  {
    hide Scan, MagicAt;
    var r := Scan(bits, len, bit);
    if r.Some? { ScanAllFrom(bits, len, r.value + 48, bound); }
  }
}
