/** When the carry fits: the assertion of the main loop in `src/bin/lbunzip2.rs` against the split of
    `src/chunk.rs`, which keeps everything behind the last split point for the next chunk. */
module CarryTheory {
  import opened Wrappers
  import opened Bits
  import opened Lists
  import opened Magic
  import opened ScanTheory
  import opened Scan
  import opened BlockSpec
  import opened BlockRoundTrip
  import opened StreamTheory
  import opened ChunkTheory
  import opened ChunkedTheory

  const CHUNK_SIZE: nat := 200 * 1024 * 1024
  const CARRY_HEADROOM: nat := 32 * 1024 * 1024
  const MIB: nat := 1024 * 1024

  // ---------------------------------------------------------------------------------------------
  // One chunk
  // ---------------------------------------------------------------------------------------------

  lemma Quotient(x: nat, n: nat)
    requires n >= 1
    ensures n * (x / n) <= x < n * (x / n) + n
  {
    assert x == n * (x / n) + x % n;
  }

  lemma QuotientMonotone(x: nat, y: nat, n: nat)
    requires n >= 1 && x <= y
    ensures x / n <= y / n
  {
    Quotient(x, n);
    Quotient(y, n);
    if x / n > y / n { Scale(n, y / n + 1, x / n); }
  }

  lemma QuotientAtLeast(k: nat, x: nat, n: nat)
    requires n >= 1 && n * k <= x
    ensures k <= x / n
  {
    Quotient(x, n);
    if x / n + 1 <= k { Scale(n, x / n + 1, k); }
  }

  lemma Scale(n: nat, x: int, y: int)
    requires x <= y
    ensures n * x <= n * y
  {
  }

  lemma Distribute(n: nat, x: int, y: int)
    ensures n * (x - y) == n * x - n * y && n * (x + y) == n * x + n * y
  {
  }

  /** The last of the nominal split positions lies one `n`-th of the chunk before its end. */
  lemma LastNominal(len: nat, n: nat)
    requires n >= 2
    ensures n * Nominal(len, n, n - 2) <= 8 * (n * len - len) < n * Nominal(len, n, n - 2) + n
    ensures 4 * len <= Nominal(len, n, n - 2)
  {
    Distribute(8 * len, n, 1);
    var x := 8 * len * (n - 1);
    assert x == 8 * (n * len - len);
    Scale(len, 2, n);
    assert n * (4 * len) == 4 * (n * len);
    QuotientAtLeast(4 * len, x, n);
    Quotient(x, n);
  }

  lemma NominalMonotone(len: nat, n: nat, i: nat, j: nat)
    requires n >= 1 && i <= j
    ensures Nominal(len, n, i) <= Nominal(len, n, j)
  {
    Scale(8 * len, i + 1, j + 1);
    QuotientMonotone(8 * len * (i + 1), 8 * len * (j + 1), n);
  }

  /** A later search finds no earlier boundary. */
  lemma LaterSearch(bits: Bitstring, x: nat, y: nat, max: nat)
    requires x <= y && FirstQuick(bits, x, max).Some? && FirstQuick(bits, y, max).Some?
    ensures FirstQuick(bits, x, max).value <= FirstQuick(bits, y, max).value
  {
    hide MagicAt, QuickOk;
  }

  /** No split point lies behind what the last search finds, and that is one of them. */
  lemma LastSplitPoint(bits: Bitstring, len: nat, n: nat, max: nat, p: nat)
    requires n >= 2 && len > 0 && FirstQuick(bits, Nominal(len, n, n - 2), max) == Some(p)
    ensures p in SplitPoints(bits, len, n, max)
    ensures forall x :: x in SplitPoints(bits, len, n, max) ==> x <= p
  {
    hide MagicAt, QuickOk, FirstQuick, SortDedup, Nominal;
    var s := NominalPoints(bits, len, n, max);
    assert s[n - 2] == Some(p);
    assert Some(p) in s;
    forall x | x in SplitPoints(bits, len, n, max)
      ensures x <= p
    {
      assert Some(x) in s;
      var i :| 0 <= i < |s| && s[i] == Some(x);
      NominalMonotone(len, n, i, n - 2);
      LaterSearch(bits, Nominal(len, n, i), Nominal(len, n, n - 2), max);
    }
  }

  /** A chunk is split if the last search finds a boundary other than the first magic, and then it is the
      last start. */
  lemma LastStart(bits: Bitstring, len: nat, n: nat, max: nat, p: nat)
    requires n >= 2 && len > 0 && |bits| == 8 * len && FirstQuick(bits, Nominal(len, n, n - 2), max) == Some(p)
    ensures ScanTheory.Scan(bits, len, 0).Some? && ScanTheory.Scan(bits, len, 0).value <= p
    ensures SplitOf(bits, len, n, max, false).Some? <==> ScanTheory.Scan(bits, len, 0).value != p
    ensures SplitOf(bits, len, n, max, false).Some? ==>
      var sp := SplitOf(bits, len, n, max, false).value;
      sp.count + 1 == |sp.starts| && sp.starts[sp.count] == p && sp.consumed == p / 8
  {
    hide MagicAt, QuickOk, FirstQuick, Nominal, SplitPoints, ScanTheory.Scan, SplitOf, StartsOf, StartsInside, FirstInPart;
    LastSplitPoint(bits, len, n, max, p);
    SplitPointsVerified(bits, len, n, max);
    ScanIsLeast(bits, len, 0);
    QuickReach(bits, p, max);
    SplitExists(bits, len, n, max, false);
    var first := ScanTheory.Scan(bits, len, 0).value;
    SplitPointIff(bits, len, n, max, p);
    if p == first {
      forall x, i | 1 <= i < n && FirstInPart(bits, len, n, i, x, max)
        ensures x == first
      {
        SplitPointIff(bits, len, n, max, x);
        assert MagicAt(bits, x);
      }
    }
    if SplitOf(bits, len, n, max, false).Some? {
      SplitIsSound(bits, len, n, max, false);
      SplitOfStarts(bits, len, n, max);
      SplitMembers(bits, len, first, n, max);
      LastIsGreatest(StartsOf(bits, len, first, n, max), p);
    }
  }

  lemma SplitOfStarts(bits: Bitstring, len: nat, n: nat, max: nat)
    requires |bits| == 8 * len && SplitOf(bits, len, n, max, false).Some?
    ensures ScanTheory.Scan(bits, len, 0).Some?
    ensures SplitOf(bits, len, n, max, false).value.starts == StartsOf(bits, len, ScanTheory.Scan(bits, len, 0).value, n, max)
  {
    hide ScanTheory.Scan, StartsOf;
  }

  lemma LastIsGreatest(s: seq<nat>, p: nat)
    requires Increasing(s) && p in s && forall x :: x in s ==> x <= p
    ensures s[|s| - 1] == p
  {
    var i :| 0 <= i < |s| && s[i] == p;
    assert s[|s| - 1] in s;
  }

  /** The carry is everything from the last split point on, so the assertion in front of the next chunk
      holds exactly when that split point is at most the headroom away from the chunk's end. */
  lemma CarryIsTail(carry: seq<Byte>, data: seq<Byte>, n: nat, max: nat, headroom: nat, p: nat)
    requires n >= 2 && data != [] && FirstQuick(BitsOf(data), Nominal(|data|, n, n - 2), max) == Some(p)
    requires |BitsOf(data)| == 8 * |data| && SplitOf(BitsOf(data), |data|, n, max, false).Some?
    ensures |CarryOf(carry, data, false, n, max)| <= headroom <==> |data| <= p / 8 + headroom
  {
    hide BitsOf, SplitOf, FirstQuick, Nominal, QuickOk;
    LastStart(BitsOf(data), |data|, n, max, p);
    SplitIsSound(BitsOf(data), |data|, n, max, false);
  }

  /** That is about one `n`-th of the chunk: not more, and less only by the distance of the boundary from
      the nominal position. */
  lemma CarryLength(len: nat, n: nat, p: nat, d: nat)
    requires n >= 2 && Nominal(len, n, n - 2) <= p <= 8 * len
    ensures n * (len - p / 8) <= len + n - 1
    ensures p <= Nominal(len, n, n - 2) + 8 * d ==> len <= n * (len - p / 8 + d)
  {
    hide Nominal;
    LastNominal(len, n);
    Quotient(p, 8);
    QuotientMonotone(p, 8 * len, 8);
    CarryBounds(len, n, Nominal(len, n, n - 2), p / 8, d);
  }

  lemma CarryBounds(len: nat, n: nat, x: nat, q: nat, d: nat)
    requires n >= 2 && n * x <= 8 * (n * len - len) < n * x + n && q <= len && x <= 8 * q + 7
    ensures n * (len - q) <= len + n - 1
    ensures 8 * q <= x + 8 * d ==> len <= n * (len - q + d)
  {
    Distribute(n, len, q);
    Scale(n, x, 8 * q + 7);
    Distribute(n, 8 * q, 7);
    EightTimes(n, q);
    if 8 * q <= x + 8 * d {
      Scale(n, 8 * q, x + 8 * d);
      Distribute(n, x, 8 * d);
      EightTimes(n, d);
      Distribute(n, len - q, d);
    }
  }

  lemma EightTimes(n: nat, x: nat)
    ensures n * (8 * x) == 8 * (n * x)
  {
  }

  // ---------------------------------------------------------------------------------------------
  // Chunk after chunk
  // ---------------------------------------------------------------------------------------------

  /** Behind the last nominal split position of the chunk `whole[a..end]` there is a verified boundary. */
  predicate Found(whole: seq<Byte>, a: nat, end: nat, n: nat, max: nat)
    requires n >= 2 && a <= end <= |whole|
  {
    FirstQuick(BitsOf(whole[a..end]), Nominal(end - a, n, n - 2), max).Some?
  }

  /** So there is in every full chunk. */
  predicate AllFound(whole: seq<Byte>, a: nat, b: nat, size: nat, n: nat, max: nat)
    requires size >= 1 && n >= 2 && a <= b <= |whole|
    decreases |whole| - b
  {
    hide Found, SplitAt;
    |whole| - b < size ||
    (Found(whole, a, b + size, n, max) &&
     var split := SplitAt(whole, a, b + size, n, max, false);
     split.Some? ==> AllFound(whole, a + split.value.consumed, b + size, size, n, max))
  }

  /** Such a chunk is split, and keeps the boundary. */
  lemma FoundSplits(whole: seq<Byte>, a: nat, b: nat, s: nat, end: nat, n: nat, max: nat) returns (p: nat)
    requires n >= 2 && Position(whole, a, b, s) && s < 8 * a + 40 && b <= end <= |whole| && end - a >= 10
    requires Found(whole, a, end, n, max)
    ensures SplitAt(whole, a, end, n, max, false).Some?
    ensures KeptAt(whole, a, end, n, max, false) == p + 8 * a && Nominal(end - a, n, n - 2) <= p <= 8 * (end - a)
    ensures FirstQuick(BitsOf(whole[a..end]), Nominal(end - a, n, n - 2), max) == Some(p)
  {
    hide BitsOf, MagicAt, QuickOk, FirstQuick, Nominal, ScanTheory.Scan, SplitOf, SplitAt, StartsInside;
    var bits, data, len := BitsOf(whole), BitsOf(whole[a..end]), end - a;
    ChunkBits(whole, a, end);
    p := FirstQuick(data, Nominal(len, n, n - 2), max).value;
    assert IsFirstQuick(Some(p), data, Nominal(len, n, n - 2), max);
    QuickReach(data, p, max);
    LastNominal(len, n);
    LastStart(data, len, n, max, p);
    FirstOfChunk(bits, data, a, end, s, ScanTheory.Scan(data, len, 0).value, len);
    SplitAtData(whole, a, end, n, max, false);
  }

  /** A chunk that is split leaves its next carry: from the kept boundary to its end. */
  lemma FoundCarry(whole: seq<Byte>, a: nat, b: nat, s: nat, end: nat, n: nat, max: nat) returns (a': nat)
    requires n >= 2 && Position(whole, a, b, s) && s < 8 * a + 40 && b <= end <= |whole| && end - a >= 10
    requires Found(whole, a, end, n, max)
    ensures SplitAt(whole, a, end, n, max, false).Some?
    ensures a <= a' <= end && a' == a + SplitAt(whole, a, end, n, max, false).value.consumed
    ensures a' == KeptAt(whole, a, end, n, max, false) / 8
    ensures CarryOf(whole[a..b], whole[a..end], false, n, max) == whole[a'..end]
    ensures Position(whole, a', end, KeptAt(whole, a, end, n, max, false)) && KeptAt(whole, a, end, n, max, false) < 8 * a' + 40
    ensures n * (end - a') <= end - a + n - 1
    ensures forall d: nat :: NearNominal(whole, a, end, n, max, d) ==> end - a <= n * (end - a' + d)
  {
    hide BitsOf, MagicAt, QuickOk, FirstQuick, Nominal, SplitOf, SplitAt, KeptAt, CarryOf, Position, Found;
    var p := FoundSplits(whole, a, b, s, end, n, max);
    PositionInside(whole, a, b, s);
    a' := NextPosition(whole, a, b, s, end, n, max);
    CarryLength(end - a, n, p, 0);
    forall d: nat | NearNominal(whole, a, end, n, max, d)
      ensures end - a <= n * (end - a' + d)
    {
      CarryLength(end - a, n, p, d);
    }
  }

  /** The boundary behind the last nominal position of the chunk is within `d` bytes of it. */
  predicate NearNominal(whole: seq<Byte>, a: nat, end: nat, n: nat, max: nat, d: nat)
    requires n >= 2 && a <= end <= |whole|
  {
    var r := FirstQuick(BitsOf(whole[a..end]), Nominal(end - a, n, n - 2), max);
    r.Some? && r.value <= Nominal(end - a, n, n - 2) + 8 * d
  }

  /** Enough headroom: when the search behind the last nominal position succeeds in each full chunk, all
      chunks are split, and if the chunks are at most `n - 1` times as long as the headroom, no assertion
      fails. */
  lemma {:induction false} EnoughHeadroom(whole: seq<Byte>, a: nat, b: nat, s: nat, size: nat, n: nat, max: nat, headroom: nat)
    requires size >= 10 && n >= 2 && Position(whole, a, b, s) && s < 8 * a + 40
    requires b - a <= headroom && AllFound(whole, a, b, size, n, max)
    ensures var cs := Chunks(whole[a..b], whole[b..], size, n, max, headroom);
      && AllSplit(cs)
      && (size <= (n - 1) * headroom ==> AllFit(cs) && CarriesFit(KeptStarts(whole, a, b, size, n, max), b, size, headroom))
    decreases |whole| - b
  {
    hide BitsOf, Position, Chunks, ChunkOf, CarryOf, KeptAt, AllSplit, AllFit, SplitAt, SegmentAt, QuickOk, CarriesFit, KeptStarts, Found, NearNominal;
    PositionInside(whole, a, b, s);
    PositionRoom(whole, a, b, s);
    var isLast := |whole| - b < size;
    var end := if isLast then |whole| else b + size;
    ChunksStep(whole, a, b, end, isLast, size, n, max, headroom);
    var chunk := ChunkOf(whole[a..end], isLast, n, max);
    if isLast {
      OneTurn(chunk);
      assert [chunk] + [] == [chunk];
    } else {
      var a' := FoundCarry(whole, a, b, s, end, n, max);
      ChunkOfSplit(whole, a, end, n, max, false);
      if size <= (n - 1) * headroom { FitsAgain(n, end - a, end - a', headroom); }
      if end - a' <= headroom {
        EnoughHeadroom(whole, a', end, KeptAt(whole, a, end, n, max, false), size, n, max, headroom);
      } else {
        TooLongNext(whole, a', end, KeptAt(whole, a, end, n, max, false), size, n, max, headroom);
      }
      AllFitTail(chunk, Chunks(whole[a'..end], whole[end..], size, n, max, headroom));
      AllSplitCons(chunk, Chunks(whole[a'..end], whole[end..], size, n, max, headroom));
    }
    AllFitIff(whole, a, b, s, size, n, max, headroom);
  }

  lemma TooLongNext(whole: seq<Byte>, a: nat, b: nat, s: nat, size: nat, n: nat, max: nat, headroom: nat)
    requires size >= 1 && Position(whole, a, b, s) && b - a > headroom
    ensures Chunks(whole[a..b], whole[b..], size, n, max, headroom) == [CarryTooLong] && AllSplit([CarryTooLong])
  {
    hide Position, Chunks;
    PositionInside(whole, a, b, s);
    PositionRoom(whole, a, b, s);
    ChunksStep(whole, a, b, if |whole| - b < size then |whole| else b + size, |whole| - b < size, size, n, max, headroom);
  }

  lemma FitsAgain(n: nat, len: nat, c: nat, headroom: nat)
    requires n >= 2 && n * c <= len + n - 1 && len <= headroom + (n - 1) * headroom
    ensures c <= headroom
  {
    assert headroom + (n - 1) * headroom == n * headroom;
    if c > headroom { Scale(n, headroom + 1, c); }
  }

  lemma OneTurn(c: Turn)
    requires !c.CarryTooLong?
    ensures AllSplit([c]) && AllFit([c])
  {
  }

  lemma AllSplitCons(c: Turn, cs: seq<Turn>)
    requires c.Worked? && AllSplit(cs)
    ensures AllSplit([c] + cs)
  {
  }

  // ---------------------------------------------------------------------------------------------
  // Carries that grow
  // ---------------------------------------------------------------------------------------------

  /** `whole` has a verified boundary in the `8 * d` bits from `x` on. */
  ghost predicate BoundaryWithin(bits: Bitstring, x: nat, d: nat, max: nat)
  {
    exists q :: x <= q < x + 8 * d && MagicAt(bits, q) && QuickOk(bits, q, max)
  }

  /** Any `d` bytes of the file, from its first block on, hold a verified boundary. */
  ghost predicate Dense(bits: Bitstring, d: nat, max: nat)
  {
    forall x: nat :: 32 <= x && x + 8 * d <= |bits| ==> BoundaryWithin(bits, x, d, max)
  }

  /** A chunk so long that the last of its `n` parts holds a boundary with the bits of its check. */
  predicate LongEnough(len: nat, n: nat, d: nat)
  {
    len >= 10 && len >= n * (d + 16)
  }

  lemma QuickInChunk(bits: Bitstring, data: Bitstring, a: nat, b: nat, q: nat, max: nat)
    requires 8 * a <= 8 * b <= |bits| && data == bits[8 * a..8 * b] && q + 121 <= |data|
    ensures QuickOk(data, q, max) <==> QuickOk(bits, q + 8 * a, max)
  {
    hide Value;
    var o := q + 8 * a;
    assert data[q + 81..q + 105] == bits[o + 81..o + 105];
    assert data[q + 105..q + 121] == bits[o + 105..o + 121];
  }

  /** In such a file the search behind the last nominal position of a long enough chunk succeeds nearby. */
  lemma DenseFinds(whole: seq<Byte>, a: nat, end: nat, n: nat, max: nat, d: nat)
    requires n >= 2 && a <= end <= |whole| && Dense(BitsOf(whole), d, max) && LongEnough(end - a, n, d)
    ensures Found(whole, a, end, n, max) && NearNominal(whole, a, end, n, max, d)
  {
    hide BitsOf, MagicAt, QuickOk, FirstQuick, Nominal, Dense, LongEnough;
    var bits, data, len := BitsOf(whole), BitsOf(whole[a..end]), end - a;
    ChunkIsPart(whole, a, end);
    ChunkBits(whole, a, end);
    var x := Nominal(len, n, n - 2);
    NominalRoom(len, n, d);
    LastNominal(len, n);
    BoundaryInChunk(bits, data, a, end, x, max, d);
  }

  lemma BoundaryInChunk(bits: Bitstring, data: Bitstring, a: nat, end: nat, x: nat, max: nat, d: nat)
    requires 8 * a <= 8 * end <= |bits| && data == bits[8 * a..8 * end] && Dense(bits, d, max)
    requires 32 <= x && x + 8 * d + 128 <= |data|
    ensures FirstQuick(data, x, max).Some? && FirstQuick(data, x, max).value <= x + 8 * d
  {
    hide MagicAt, QuickOk, FirstQuick;
    assert BoundaryWithin(bits, x + 8 * a, d, max);
    var q :| x + 8 * a <= q < x + 8 * a + 8 * d && MagicAt(bits, q) && QuickOk(bits, q, max);
    MagicInChunk(bits, data, a, end, q - 8 * a);
    QuickInChunk(bits, data, a, end, q - 8 * a, max);
    assert IsFirstQuick(FirstQuick(data, x, max), data, x, max);
  }

  lemma NominalRoom(len: nat, n: nat, d: nat)
    requires n >= 2 && LongEnough(len, n, d)
    ensures len >= 10 && Nominal(len, n, n - 2) + 8 * (d + 16) <= 8 * len
  {
    hide Nominal;
    LastNominal(len, n);
    var x := Nominal(len, n, n - 2);
    Distribute(n, x, 8 * (d + 16));
    EightTimes(n, d + 16);
    EightTimes(n, len);
    if 8 * len + 1 <= x + 8 * (d + 16) {
      Scale(n, 8 * len + 1, x + 8 * (d + 16));
      Distribute(n, 8 * len, 1);
    }
  }

  lemma LongerToo(len: nat, more: nat, n: nat, d: nat)
    requires LongEnough(len, n, d) && len <= more
    ensures LongEnough(more, n, d) && more >= 10 && len >= 1
  {
  }

  lemma {:induction false} DenseFindsAll(whole: seq<Byte>, a: nat, b: nat, size: nat, n: nat, max: nat, d: nat)
    requires n >= 2 && LongEnough(size, n, d) && a <= b <= |whole| && Dense(BitsOf(whole), d, max)
    ensures AllFound(whole, a, b, size, n, max)
    decreases |whole| - b
  {
    hide BitsOf, Dense, Found, NearNominal, SplitAt;
    if |whole| - b >= size {
      LongerToo(size, b + size - a, n, d);
      DenseFinds(whole, a, b + size, n, max, d);
      var split := SplitAt(whole, a, b + size, n, max, false);
      if split.Some? { DenseFindsAll(whole, a + split.value.consumed, b + size, size, n, max, d); }
    }
  }

  /** Too little headroom at once: when the first chunk with its carry is longer than `n` times the
      headroom and the distance of boundaries, the second turn of the main loop panics. */
  lemma SecondTurnPanics(whole: seq<Byte>, a: nat, b: nat, s: nat, size: nat, n: nat, max: nat, headroom: nat, d: nat)
    requires n >= 2 && LongEnough(size, n, d) && Dense(BitsOf(whole), d, max)
    requires Position(whole, a, b, s) && s < 8 * a + 40 && b - a <= headroom && |whole| - b >= size
    requires b - a + size > n * (headroom + d)
    ensures |Chunks(whole[a..b], whole[b..], size, n, max, headroom)| == 2
    ensures Chunks(whole[a..b], whole[b..], size, n, max, headroom)[0].Worked?
    ensures Chunks(whole[a..b], whole[b..], size, n, max, headroom)[1].CarryTooLong?
  {
    hide BitsOf, Dense, Position, Chunks, ChunkOf, CarryOf, KeptAt, SplitAt, SegmentAt, QuickOk, Found, NearNominal;
    PositionInside(whole, a, b, s);
    PositionRoom(whole, a, b, s);
    var end := b + size;
    ChunksStep(whole, a, b, end, false, size, n, max, headroom);
    LongerToo(size, end - a, n, d);
    DenseFinds(whole, a, end, n, max, d);
    var a' := FoundCarry(whole, a, b, s, end, n, max);
    ChunkOfSplit(whole, a, end, n, max, false);
    var next, s' := if |whole| - end < size then |whole| else end + size, KeptAt(whole, a, end, n, max, false);
    PositionInside(whole, a', end, s');
    PositionRoom(whole, a', end, s');
    ChunksStep(whole, a', end, next, |whole| - end < size, size, n, max, headroom);
    if end - a' <= headroom { Scale(n, end - a' + d, headroom + d); }
  }

  /** Too little headroom in the long run: each full chunk makes the carry longer, until it does not fit.
      When all carries fit, the number of full chunks is limited. */
  lemma {:induction false} CarriesGrow(whole: seq<Byte>, a: nat, b: nat, s: nat, size: nat, n: nat, max: nat, headroom: nat, d: nat, m: nat)
    requires n >= 2 && LongEnough(size, n, d) && Dense(BitsOf(whole), d, max)
    requires Position(whole, a, b, s) && s < 8 * a + 40 && b + m * size <= |whole|
    requires AllFit(Chunks(whole[a..b], whole[b..], size, n, max, headroom))
    ensures n * (b - a) + m * (size - n * d - (n - 1) * headroom) <= n * headroom
    decreases m
  {
    hide BitsOf, Dense, Position, Chunks, ChunkOf, CarryOf, KeptAt, AllFit, SplitAt, SegmentAt, QuickOk, Found, NearNominal;
    PositionInside(whole, a, b, s);
    PositionRoom(whole, a, b, s);
    NothingTooLong();
    var isLast := |whole| - b < size;
    var end := if isLast then |whole| else b + size;
    ChunksStep(whole, a, b, end, isLast, size, n, max, headroom);
    assert b - a <= headroom;
    Scale(n, b - a, headroom);
    if m > 0 {
      MoreThanOne(m, size);
      LongerToo(size, end - a, n, d);
      DenseFinds(whole, a, end, n, max, d);
      var a' := FoundCarry(whole, a, b, s, end, n, max);
      AllFitTail(ChunkOf(whole[a..end], false, n, max), Chunks(whole[a'..end], whole[end..], size, n, max, headroom));
      CarriesGrow(whole, a', end, KeptAt(whole, a, end, n, max, false), size, n, max, headroom, d, m - 1);
      Growth(n, b - a, end - a', size, d, headroom, m);
    }
  }

  lemma MoreThanOne(m: nat, size: nat)
    requires m > 0
    ensures m * size == size + (m - 1) * size && (m - 1) * size >= 0
  {
  }

  lemma Growth(n: nat, c: nat, c': nat, size: nat, d: nat, headroom: nat, m: nat)
    requires n >= 2 && m > 0 && c + size <= n * (c' + d) && c <= headroom
    requires n * c' + (m - 1) * (size - n * d - (n - 1) * headroom) <= n * headroom
    ensures n * c + m * (size - n * d - (n - 1) * headroom) <= n * headroom
  {
    var k := size - n * d - (n - 1) * headroom;
    assert m * k == k + (m - 1) * k;
    assert n * (c' + d) == n * c' + n * d;
    Scale(n - 1, c, headroom);
    assert n * c == c + (n - 1) * c;
  }
}
