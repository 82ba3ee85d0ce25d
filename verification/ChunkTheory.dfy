/** Decoding a stream in segments, and a file in chunks (`src/chunk.rs` and the main loop of
    `src/bin/lbunzip2.rs`), on bit strings.

    A segment is decoded by a loop that walks from marker to marker: over blocks, over the end of a
    stream with its checksum and padding, and over the header of the next stream.  Cutting the walk at
    any positions it visits, and moving whole bytes to the next chunk, does not change what comes
    out. */
module ChunkTheory {
  import opened Wrappers
  import opened Bits
  import opened Magic
  import opened ScanTheory
  import opened Scan
  import opened BlockSpec
  import opened BlockRoundTrip
  import opened StreamTheory

  /** The buffer for one block: the block size and a quarter of it. */
  function BlockCap(max: nat): nat
  {
    max + max / 4
  }

  /** One turn of the loop: on to the next marker with some output, the end of the walk, a block that
      overflows its buffer and aborts the thread, or a block outside the model. */
  datatype Move = Go(out: seq<Byte>, next: nat) | Stop | Overflow | Outside

  function RoundUp(p: nat): (q: nat)
    ensures p <= q < p + 8 && q % 8 == 0
  {
    p + (8 - p % 8) % 8
  }

  /** The end marker: checksum, padding to a byte, and the header of a following stream. */
  function AfterFinal(bits: Bitstring, p: nat): (m: Move)
    requires p + 48 <= |bits|
    ensures m.Go? ==> m.out == [] && p < m.next <= |bits|
  {
    if p + 80 > |bits| then Stop
    else
      var q := RoundUp(p + 80);
      if q + 32 <= |bits| && Value(bits[q..q + 24]) == 0x425A68 then Go([], q + 32) else Stop
  }

  ghost function MoveAt(bits: Bitstring, p: nat, max: nat): (m: Move)
    requires p + 48 <= |bits|
    ensures m.Go? ==> p < m.next <= |bits|
  {
    var magic := Value(bits[p..p + 48]);
    if magic == BLOCK_MAGIC then
      match ReadBlock(bits, p + 48, max)
      case Ok(d, next) => if |d| <= BlockCap(max) then Go(d, next) else Overflow
      case Err(_) => Stop
      case Oversubscribed => Outside
    else if magic == FINAL_MAGIC then AfterFinal(bits, p)
    else Stop
  }

  /** A block's text may be a quarter longer than the block size and no byte more. */
  lemma BlockCapIs(bits: Bitstring, p: nat, max: nat)
    requires p + 48 <= |bits| && Value(bits[p..p + 48]) == BLOCK_MAGIC && ReadBlock(bits, p + 48, max).Ok?
    ensures var b := ReadBlock(bits, p + 48, max);
      && (|b.value| <= max + max / 4 ==> MoveAt(bits, p, max) == Go(b.value, b.pos))
      && (|b.value| >= max + max / 4 + 1 ==> MoveAt(bits, p, max) == Overflow)
  {
    hide ReadBlock, Value;
  }

  /** What decoding a segment comes to. */
  datatype Decoded = Segment(out: seq<Byte>) | Panic | Beyond

  function Prepend(a: seq<Byte>, d: Decoded): Decoded
  {
    if d.Segment? then Segment(a + d.out) else d
  }

  /** The loop from the marker at `p`, up to the first marker at or behind `end`. */
  ghost function Walk(bits: Bitstring, p: nat, end: nat, max: nat): (d: Decoded)
    requires p <= |bits|
    decreases |bits| - p
  {
    if p + 48 > |bits| || p >= end then Segment([])
    else
      match MoveAt(bits, p, max)
      case Go(out, next) => Prepend(out, Walk(bits, next, end, max))
      case Stop => Segment([])
      case Overflow => Panic
      case Outside => Beyond
  }

  /** `decode_segment`: the first block is decoded without looking at its magic. */
  ghost function SegmentAt(bits: Bitstring, start: nat, end: nat, max: nat): (d: Decoded)
    requires start + 48 <= |bits|
  {
    match ReadBlock(bits, start + 48, max)
    case Ok(d, next) => if |d| <= BlockCap(max) then Prepend(d, Walk(bits, next, end, max)) else Panic
    case Err(_) => Segment([])
    case Oversubscribed => Beyond
  }

  /** A segment that starts at a magic is the walk from there. */
  lemma SegmentIsWalk(bits: Bitstring, start: nat, end: nat, max: nat)
    requires MagicAt(bits, start) && start < end
    ensures start + 48 <= |bits| && SegmentAt(bits, start, end, max) == Walk(bits, start, end, max)
  {
    hide ReadBlock, Value;
    MagicIsInside(bits, start);
    MagicFromSlice(bits, start);
    MagicByValue(bits[start..start + 48]);
  }

  /** A block that fails, or a marker that is none, ends the walk without an error, and so does a stream
      that ends before a marker. */
  lemma WalkStops(bits: Bitstring, p: nat, end: nat, max: nat)
    requires p <= |bits|
    ensures p + 48 > |bits| ==> Walk(bits, p, end, max) == Segment([])
    ensures p + 48 <= |bits| && Value(bits[p..p + 48]) != BLOCK_MAGIC && Value(bits[p..p + 48]) != FINAL_MAGIC ==>
      Walk(bits, p, end, max) == Segment([])
    ensures p + 48 <= |bits| && Value(bits[p..p + 48]) == BLOCK_MAGIC && ReadBlock(bits, p + 48, max).Err? ==>
      Walk(bits, p, end, max) == Segment([])
    ensures p + 48 <= |bits| && ReadBlock(bits, p + 48, max).Err? ==> SegmentAt(bits, p, end, max) == Segment([])
  {
    hide ReadBlock, Value, AfterFinal;
  }

  // ---------------------------------------------------------------------------------------------
  // Cutting the walk
  // ---------------------------------------------------------------------------------------------

  /** The walk from `p` comes by the marker position `s`. */
  ghost predicate Visits(bits: Bitstring, p: nat, s: nat, max: nat)
    requires p <= |bits|
    decreases |bits| - p
  {
    p == s || (p < s && p + 48 <= |bits| && MoveAt(bits, p, max).Go? && Visits(bits, MoveAt(bits, p, max).next, s, max))
  }

  /** Cutting the walk at a position it visits cuts its output. */
  lemma {:induction false} WalkSplit(bits: Bitstring, p: nat, s: nat, end: nat, max: nat)
    requires p <= |bits| && Visits(bits, p, s, max) && s <= end
    ensures s <= |bits| && Walk(bits, p, s, max).Segment?
    ensures Walk(bits, p, end, max) == Prepend(Walk(bits, p, s, max).out, Walk(bits, s, end, max))
    decreases |bits| - p
  {
    hide MoveAt;
    if p == s {
      PrependNothing(Walk(bits, s, end, max));
    } else {
      var m := MoveAt(bits, p, max);
      VisitsForward(bits, m.next, s, max);
      WalkSplit(bits, m.next, s, end, max);
      PrependTwice(m.out, Walk(bits, m.next, s, max).out, Walk(bits, s, end, max));
    }
  }

  lemma PrependNothing(d: Decoded)
    ensures Prepend([], d) == d
  {
    if d.Segment? { assert [] + d.out == d.out; }
  }

  lemma PrependTwice(a: seq<Byte>, b: seq<Byte>, d: Decoded)
    ensures Prepend(a, Prepend(b, d)) == Prepend(a + b, d)
  {
    if d.Segment? { assert a + (b + d.out) == (a + b) + d.out; }
  }

  lemma VisitsForward(bits: Bitstring, p: nat, s: nat, max: nat)
    requires p <= |bits| && Visits(bits, p, s, max)
    ensures p <= s
  {
  }

  lemma {:induction false} VisitsInside(bits: Bitstring, p: nat, s: nat, max: nat)
    requires p <= |bits| && Visits(bits, p, s, max)
    ensures s <= |bits|
    decreases |bits| - p
  {
    hide MoveAt;
    if p != s { VisitsInside(bits, MoveAt(bits, p, max).next, s, max); }
  }

  /** Of two visited positions the walk from the first comes by the second. */
  lemma {:induction false} VisitsBetween(bits: Bitstring, p: nat, x: nat, y: nat, max: nat)
    requires p <= |bits| && Visits(bits, p, x, max) && Visits(bits, p, y, max) && x <= y
    ensures x <= |bits| && Visits(bits, x, y, max)
    decreases |bits| - p
  {
    hide MoveAt;
    VisitsInside(bits, p, x, max);
    if p < x { VisitsBetween(bits, MoveAt(bits, p, max).next, x, y, max); }
  }

  /** The outputs of consecutive segments, joined; the first failure counts. */
  function Joined(ds: seq<Decoded>): (d: Decoded)
  {
    if ds == [] then Segment([])
    else if ds[0].Segment? then Prepend(ds[0].out, Joined(ds[1..]))
    else ds[0]
  }

  /** Where segment `i` ends. */
  function SegmentEnd(starts: seq<nat>, end: nat, i: nat): nat
    requires i < |starts|
  {
    if i + 1 < |starts| then starts[i + 1] else end
  }

  /** Behind every start there is room for a magic. */
  predicate StartsInside(bits: Bitstring, starts: seq<nat>)
  {
    forall i :: 0 <= i < |starts| ==> starts[i] + 48 <= |bits|
  }

  /** The first `n` segments. */
  ghost function Segments(bits: Bitstring, starts: seq<nat>, end: nat, n: nat, max: nat): (ds: seq<Decoded>)
    requires n <= |starts| && StartsInside(bits, starts)
    ensures |ds| == n
    ensures forall i :: 0 <= i < n ==> ds[i] == SegmentAt(bits, starts[i], SegmentEnd(starts, end, i), max)
  {
    seq(n, i requires 0 <= i < n => SegmentAt(bits, starts[i], SegmentEnd(starts, end, i), max))
  }

  /** Segments that are walks between consecutive positions. */
  ghost predicate WalksBetween(bits: Bitstring, starts: seq<nat>, end: nat, ds: seq<Decoded>, max: nat)
  {
    && |ds| <= |starts|
    && (forall i :: 0 <= i < |starts| ==> starts[i] <= |bits|)
    && (forall i :: 0 <= i < |ds| ==> ds[i] == Walk(bits, starts[i], SegmentEnd(starts, end, i), max))
  }

  /** Joining the walks between visited positions gives the walk over all of them. */
  lemma {:induction false} JoinWalks(bits: Bitstring, starts: seq<nat>, end: nat, ds: seq<Decoded>, max: nat)
    requires starts != [] && Increasing(starts) && WalksBetween(bits, starts, end, ds, max)
    requires forall i :: 0 <= i < |starts| ==> starts[i] < end && Visits(bits, starts[0], starts[i], max)
    ensures ds != [] ==> Joined(ds) == Walk(bits, starts[0], SegmentEnd(starts, end, |ds| - 1), max)
    decreases |ds|
  {
    hide Walk, MoveAt, Visits;
    if |ds| > 1 {
      var rest := starts[1..];
      forall i | 0 <= i < |rest|
        ensures Visits(bits, rest[0], rest[i], max)
      {
        VisitsBetween(bits, starts[0], starts[1], starts[i + 1], max);
      }
      forall i | 0 <= i < |ds[1..]|
        ensures ds[1..][i] == Walk(bits, rest[i], SegmentEnd(rest, end, i), max)
      {
        assert SegmentEnd(rest, end, i) == SegmentEnd(starts, end, i + 1);
      }
      JoinWalks(bits, rest, end, ds[1..], max);
      var last := SegmentEnd(starts, end, |ds| - 1);
      assert last == SegmentEnd(rest, end, |ds| - 2);
      assert starts[1] <= last;
      WalkSplit(bits, starts[0], starts[1], last, max);
    } else if |ds| == 1 {
      JoinedOne(ds[0]);
      assert ds == [ds[0]];
    }
  }

  lemma JoinedOne(d: Decoded)
    ensures Joined([d]) == d
  {
    if d.Segment? { assert d.out + [] == d.out; }
  }

  /** Splitting preserves meaning: decoding every segment between block starts that the walk visits,
      and joining the outputs, gives what decoding from the first start to the end gives, across
      stream ends, padding and headers. */
  lemma SegmentsJoin(bits: Bitstring, starts: seq<nat>, end: nat, max: nat)
    requires starts != [] && Increasing(starts)
    requires forall i :: 0 <= i < |starts| ==> starts[i] < end && MagicAt(bits, starts[i]) && Visits(bits, starts[0], starts[i], max)
    ensures StartsInside(bits, starts)
    ensures Joined(Segments(bits, starts, end, |starts|, max)) == SegmentAt(bits, starts[0], end, max)
  {
    hide Walk, SegmentAt, MagicAt, Visits;
    forall i | 0 <= i < |starts|
      ensures starts[i] + 48 <= |bits|
      ensures SegmentAt(bits, starts[i], SegmentEnd(starts, end, i), max) == Walk(bits, starts[i], SegmentEnd(starts, end, i), max)
    {
      SegmentIsWalk(bits, starts[i], SegmentEnd(starts, end, i), max);
    }
    JoinWalks(bits, starts, end, Segments(bits, starts, end, |starts|, max), max);
    SegmentIsWalk(bits, starts[0], end, max);
  }

  // ---------------------------------------------------------------------------------------------
  // Moving the walk
  // ---------------------------------------------------------------------------------------------

  /** Streams of whole bytes of which one repeats the bits `[p, hi)` of the other, `d` bits further
      on, `d` being whole bytes. */
  ghost predicate Aligned(bits: Bitstring, other: Bitstring, d: int, p: nat, hi: nat)
  {
    Agree(bits, other, d, p, hi) && d % 8 == 0 && |bits| % 8 == 0 && |other| % 8 == 0
  }

  lemma RoundUpShift(p: nat, d: int)
    requires d % 8 == 0 && p + d >= 0
    ensures RoundUp(p + d) == RoundUp(p) + d
  {
    assert (p + d) % 8 == p % 8;
  }

  /** A move that stays within the repeated bits is repeated. */
  lemma MoveLocal(bits: Bitstring, p: nat, max: nat, other: Bitstring, d: int, hi: nat)
    requires Aligned(bits, other, d, p, hi) && p + 48 <= |bits| && MoveAt(bits, p, max).Go? && MoveAt(bits, p, max).next <= hi
    ensures p + 48 <= hi
    ensures MoveAt(other, p + d, max) == Go(MoveAt(bits, p, max).out, MoveAt(bits, p, max).next + d)
  {
    hide Value, ReadBlock;
    var m := MoveAt(bits, p, max);
    MovesFar(bits, p, max);
    AgreeSlice(bits, other, d, p, hi, p, p + 48);
    if Value(bits[p..p + 48]) == BLOCK_MAGIC {
      AgreeWithin(bits, other, d, p, hi, p + 48, m.next);
      BlockIsLocal(bits, p + 48, max, other, d);
    } else {
      var q := RoundUp(p + 80);
      RoundUpShift(p + 80, d);
      AgreeSlice(bits, other, d, p, hi, q, q + 24);
    }
  }

  lemma MovesFar(bits: Bitstring, p: nat, max: nat)
    requires p + 48 <= |bits| && MoveAt(bits, p, max).Go?
    ensures p + 105 < MoveAt(bits, p, max).next
  {
    hide Value;
  }

  /** Up to a visited position, the walk is repeated wherever its bits are. */
  lemma {:induction false} WalkLocal(bits: Bitstring, p: nat, s: nat, max: nat, other: Bitstring, d: int)
    requires p <= |bits| && Visits(bits, p, s, max) && Aligned(bits, other, d, p, s)
    ensures Walk(other, p + d, s + d, max) == Walk(bits, p, s, max)
    decreases |bits| - p
  {
    hide MoveAt;
    if p < s {
      var m := MoveAt(bits, p, max);
      VisitsForward(bits, m.next, s, max);
      MoveLocal(bits, p, max, other, d, s);
      AgreeWithin(bits, other, d, p, s, m.next, s);
      WalkLocal(bits, m.next, s, max, other, d);
    }
  }

  /** A move in a stream whose whole rest is repeated is repeated, failures included. */
  lemma MoveSuffix(bits: Bitstring, p: nat, max: nat, other: Bitstring, d: int)
    requires Aligned(bits, other, d, p, |bits|) && |other| == |bits| + d && p + 48 <= |bits|
    ensures var m, m' := MoveAt(bits, p, max), MoveAt(other, p + d, max);
      if m.Go? then m' == Go(m.out, m.next + d) else m' == m
  {
    hide Value, ReadBlock;
    AgreeSlice(bits, other, d, p, |bits|, p, p + 48);
    if Value(bits[p..p + 48]) == BLOCK_MAGIC {
      AgreeWithin(bits, other, d, p, |bits|, p + 48, |bits|);
      BlockIsHistoryFree(bits, p + 48, max, other, d);
    } else if p + 80 <= |bits| {
      var q := RoundUp(p + 80);
      RoundUpShift(p + 80, d);
      if q + 32 <= |bits| { AgreeSlice(bits, other, d, p, |bits|, q, q + 24); }
    }
  }

  /** The walk in a stream whose whole rest is repeated is repeated, whatever it comes to. */
  lemma {:induction false} WalkSuffix(bits: Bitstring, p: nat, end: nat, max: nat, other: Bitstring, d: int)
    requires Aligned(bits, other, d, p, |bits|) && |other| == |bits| + d && 0 <= end + d
    ensures Walk(other, p + d, end + d, max) == Walk(bits, p, end, max)
    decreases |bits| - p
  {
    hide MoveAt;
    if p + 48 <= |bits| && p < end {
      var m := MoveAt(bits, p, max);
      MoveSuffix(bits, p, max, other, d);
      if m.Go? {
        AgreeWithin(bits, other, d, p, |bits|, m.next, |bits|);
        WalkSuffix(bits, m.next, end, max, other, d);
      }
    }
  }
}
