/** Splitting a chunk into segments, and decoding a file chunk by chunk with a carry (`split_chunk` in
    `src/chunk.rs`, the main loop of `src/bin/lbunzip2.rs`), on bit strings. */
module ChunkedTheory {
  import opened Wrappers
  import opened Bits
  import opened Lists
  import opened Magic
  import opened ScanTheory
  import opened Scan
  import opened BlockSpec
  import opened BlockRoundTrip
  import opened StreamTheory
  import opened ChunkTheory

  // ---------------------------------------------------------------------------------------------
  // Splitting
  // ---------------------------------------------------------------------------------------------

  /** Where the segments start, how many of them to decode, and how many bytes that uses up. */
  datatype Split = Split(starts: seq<nat>, count: nat, consumed: nat)

  /** `acc` with the boundaries that differ from the one before. */
  function PushDistinct(acc: seq<nat>, splits: seq<nat>): (r: seq<nat>)
    requires acc != []
    ensures r != [] && r[0] == acc[0]
    decreases |splits|
  {
    if splits == [] then acc
    else PushDistinct(if acc[|acc| - 1] != splits[0] then acc + [splits[0]] else acc, splits[1..])
  }

  function StartsOf(bits: Bitstring, len: nat, first: nat, n: nat, max: nat): (starts: seq<nat>)
    requires |bits| == 8 * len
    ensures starts != [] && starts[0] == first
  {
    PushDistinct([first], SplitPoints(bits, len, n, max))
  }

  /** `split_chunk`. */
  function SplitOf(bits: Bitstring, len: nat, n: nat, max: nat, isLast: bool): (r: Option<Split>)
    requires |bits| == 8 * len
  {
    match ScanTheory.Scan(bits, len, 0)
    case None => None
    case Some(first) =>
      var starts := StartsOf(bits, len, first, n, max);
      if isLast then Some(Split(starts, |starts|, len))
      else if |starts| > 1 then Some(Split(starts, |starts| - 1, starts[|starts| - 1] / 8))
      else None
  }

  /** A position the scan never misses, and the ones behind it, come out strictly increasing. */
  lemma {:induction false} PushIncreasing(acc: seq<nat>, splits: seq<nat>)
    requires acc != [] && Increasing(acc) && Increasing(splits)
    requires splits != [] ==> acc[|acc| - 1] <= splits[0]
    ensures Increasing(PushDistinct(acc, splits))
    ensures forall x :: x in PushDistinct(acc, splits) <==> x in acc || x in splits
    decreases |splits|
  {
    if splits != [] {
      var next := if acc[|acc| - 1] != splits[0] then acc + [splits[0]] else acc;
      assert splits == [splits[0]] + splits[1..];
      PushIncreasing(next, splits[1..]);
      forall x
        ensures x in PushDistinct(acc, splits) <==> x in acc || x in splits
      {
        if x == splits[0] { assert next[|next| - 1] == x; }
      }
    }
  }

  /** The segment starts are strictly increasing magics, the first of them the first in the data, and
      all but the first have passed the structural check. */
  lemma StartsAreMagics(bits: Bitstring, len: nat, first: nat, n: nat, max: nat)
    requires |bits| == 8 * len && ScanTheory.Scan(bits, len, 0) == Some(first)
    ensures var starts := StartsOf(bits, len, first, n, max);
      && Increasing(starts)
      && (forall x :: x in starts ==> MagicAt(bits, x))
      && (forall x :: x in starts && x != first ==> QuickOk(bits, x, max))
  {
    hide MagicAt, SplitPoints, QuickOk, ScanTheory.Scan;
    var splits := SplitPoints(bits, len, n, max);
    SplitPointsVerified(bits, len, n, max);
    ScanIsLeast(bits, len, 0);
    if splits != [] {
      assert splits[0] in splits;
    }
    PushIncreasing([first], splits);
  }

  /** Exactly when a chunk can be split: its first magic is found, and either it is the last chunk or
      behind the beginning of some part but the first there is a magic that passes the check, the next such
      one being other than the first magic. */
  lemma SplitExists(bits: Bitstring, len: nat, n: nat, max: nat, isLast: bool)
    requires |bits| == 8 * len
    ensures var first := ScanTheory.Scan(bits, len, 0);
      SplitOf(bits, len, n, max, isLast).Some? <==>
      first.Some? && (isLast || exists x, i :: 1 <= i < n && x != first.value && FirstInPart(bits, len, n, i, x, max))
  {
    hide MagicAt, SplitPoints, QuickOk, ScanTheory.Scan, Increasing, FirstInPart;
    var r := ScanTheory.Scan(bits, len, 0);
    if r.Some? {
      var first, splits := r.value, SplitPoints(bits, len, n, max);
      var starts := StartsOf(bits, len, first, n, max);
      SplitMembers(bits, len, first, n, max);
      if |starts| > 1 {
        assert starts[1] in starts;
        SplitPointIff(bits, len, n, max, starts[1]);
      } else {
        forall x, i | 1 <= i < n && FirstInPart(bits, len, n, i, x, max)
          ensures x == first
        {
          SplitPointIff(bits, len, n, max, x);
          assert x in starts;
        }
      }
    }
  }

  /** The segments of a split chunk begin at the first magic and at what each of the searches finds. */
  lemma StartsIff(bits: Bitstring, len: nat, n: nat, max: nat, isLast: bool, x: nat)
    requires |bits| == 8 * len && SplitOf(bits, len, n, max, isLast).Some?
    ensures ScanTheory.Scan(bits, len, 0).Some?
    ensures x in SplitOf(bits, len, n, max, isLast).value.starts <==>
      x == ScanTheory.Scan(bits, len, 0).value || exists i :: 1 <= i < n && FirstInPart(bits, len, n, i, x, max)
  {
    hide MagicAt, SplitPoints, QuickOk, ScanTheory.Scan, Increasing, FirstInPart, StartsOf;
    SplitMembers(bits, len, ScanTheory.Scan(bits, len, 0).value, n, max);
    SplitPointIff(bits, len, n, max, x);
  }

  lemma SplitMembers(bits: Bitstring, len: nat, first: nat, n: nat, max: nat)
    requires |bits| == 8 * len && ScanTheory.Scan(bits, len, 0) == Some(first)
    ensures var starts := StartsOf(bits, len, first, n, max);
      && (forall x :: x in starts <==> x == first || x in SplitPoints(bits, len, n, max))
      && (|starts| > 1 ==> starts[1] != starts[0])
  {
    hide MagicAt, SplitPoints, QuickOk, ScanTheory.Scan;
    var splits := SplitPoints(bits, len, n, max);
    SplitPointsVerified(bits, len, n, max);
    ScanIsLeast(bits, len, 0);
    if splits != [] { assert splits[0] in splits; }
    PushIncreasing([first], splits);
  }

  /** The structural check rejects no block that decodes. */
  lemma QuickAcceptsBlocks(bits: Bitstring, p: nat, max: nat)
    requires p + 48 <= |bits| && ReadBlock(bits, p + 48, max).Ok?
    ensures QuickOk(bits, p, max)
  {
    hide ReadStart, ReadAlphabet, ReadCoding, ReadBody, Value, TextOf;
    StartFields(bits, p + 48);
    AlphabetField(bits, p + 105);
    var h := ReadHeader(bits, p + 48);
    BodyRow(bits, h.pos, h.value, max);
  }

  lemma StartFields(bits: Bitstring, p: nat)
    requires p <= |bits| && ReadStart(bits, p).Ok?
    ensures p + 57 <= |bits| && !bits[p + 32] && ReadStart(bits, p) == Ok(Value(bits[p + 33..p + 57]), p + 57)
  {
    hide Value;
    OneBit(bits[p + 32..p + 33]);
  }

  lemma AlphabetField(bits: Bitstring, p: nat)
    requires p <= |bits| && ReadAlphabet(bits, p).Ok?
    ensures p + 16 <= |bits| && Value(bits[p..p + 16]) != 0
  {
    hide Value, ReadUsed;
    var ranges := bits[p..p + 16];
    if Value(ranges) == 0 {
      AllClear(ranges);
      NothingUsed(bits, p + 16, ranges, 0);
    }
  }

  lemma BodyRow(bits: Bitstring, p: nat, h: Header, max: nat)
    requires p <= |bits| && GoodHeader(h) && ReadBody(bits, p, h, max).Ok?
    ensures h.origPtr < max
  {
    hide ReadSymbols, BooksOf;
  }

  lemma OneBit(b: Bitstring)
    requires |b| == 1
    ensures Value(b) == 0 <==> !b[0]
  {
    assert b[..0] == [];
  }

  lemma {:induction false} AllClear(b: Bitstring)
    requires Value(b) == 0
    ensures forall i :: 0 <= i < |b| ==> !b[i]
  {
    if b != [] { AllClear(b[..|b| - 1]); }
  }

  lemma {:induction false} NothingUsed(bits: Bitstring, p: nat, ranges: seq<bool>, k: nat)
    requires p <= |bits| && |ranges| == 16 && k <= 16 && forall i :: 0 <= i < 16 ==> !ranges[i]
    ensures ReadUsed(bits, p, ranges, k, []) == Ok([], p)
    decreases 16 - k
  {
    if k < 16 { NothingUsed(bits, p, ranges, k + 1); }
  }

  /** So when every magic starts a block that decodes, the search for a verified boundary is the search
      for the next magic. */
  lemma QuickFindsNext(bits: Bitstring, start: nat, max: nat)
    requires forall q :: start <= q && MagicAt(bits, q) ==> q + 48 <= |bits| && ReadBlock(bits, q + 48, max).Ok?
    ensures match FirstQuick(bits, start, max)
      case Some(p) => start <= p && MagicAt(bits, p) && forall q :: start <= q < p ==> !MagicAt(bits, q)
      case None => forall q :: start <= q ==> !MagicAt(bits, q)
  {
    hide MagicAt, ReadBlock, QuickOk, FirstQuick;
    forall q | start <= q && MagicAt(bits, q)
      ensures QuickOk(bits, q, max)
    {
      QuickAcceptsBlocks(bits, q, max);
    }
    assert IsFirstQuick(FirstQuick(bits, start, max), bits, start, max);
  }

  // ---------------------------------------------------------------------------------------------
  // Chunk after chunk
  // ---------------------------------------------------------------------------------------------

  /** A turn of the main loop: the chunk cannot be split, or its segments come to these outcomes, or the
      carry does not fit the room in front of the chunk and the main thread panics. */
  datatype Turn = Unsplit | Worked(outs: seq<Decoded>) | CarryTooLong

  /** Splitting a chunk and decoding its segments. */
  ghost function ChunkOf(data: seq<Byte>, isLast: bool, n: nat, max: nat): (r: Turn)
    ensures !r.CarryTooLong?
  {
    match SplitOf(BitsOf(data), |data|, n, max, isLast)
    case None => Unsplit
    case Some(split) =>
      SplitIsSound(BitsOf(data), |data|, n, max, isLast);
      Worked(Segments(BitsOf(data), split.starts, |BitsOf(data)|, split.count, max))
  }

  /** The bytes carried over to the next chunk; a chunk that is not split leaves the carry as it was. */
  function CarryOf(carry: seq<Byte>, data: seq<Byte>, isLast: bool, n: nat, max: nat): (r: seq<Byte>)
  {
    match SplitOf(BitsOf(data), |data|, n, max, isLast)
    case None => carry
    case Some(split) =>
      SplitIsSound(BitsOf(data), |data|, n, max, isLast);
      data[split.consumed..]
  }

  /** What the main loop makes of the chunks, with `headroom` bytes in front of each for the carry. */
  ghost function Chunks(carry: seq<Byte>, rest: seq<Byte>, size: nat, n: nat, max: nat, headroom: nat): (r: seq<Turn>)
    requires size >= 1
    ensures r != []
    decreases |rest|
  {
    var got := if |rest| < size then |rest| else size;
    var isLast := got < size;
    var data := carry + rest[..got];
    if got == 0 && |carry| <= 4 then [Unsplit]
    else if |carry| > headroom then [CarryTooLong]
    else
      [ChunkOf(data, isLast, n, max)]
      + if isLast then [] else Chunks(CarryOf(carry, data, isLast, n, max), rest[got..], size, n, max, headroom)
  }

  lemma SplitIsSound(bits: Bitstring, len: nat, n: nat, max: nat, isLast: bool)
    requires |bits| == 8 * len && SplitOf(bits, len, n, max, isLast).Some?
    ensures var s := SplitOf(bits, len, n, max, isLast).value;
      && 0 < s.count <= |s.starts| && s.consumed <= len && Increasing(s.starts)
      && (forall i :: 0 <= i < |s.starts| ==> MagicAt(bits, s.starts[i])) && StartsInside(bits, s.starts)
      && (isLast <==> s.count == |s.starts|)
      && (s.count < |s.starts| ==> s.count + 1 == |s.starts| && s.consumed == s.starts[s.count] / 8)
      && ScanTheory.Scan(bits, len, 0) == Some(s.starts[0])
  {
    hide MagicAt, QuickOk, StartsOf, ScanTheory.Scan;
    var s := SplitOf(bits, len, n, max, isLast).value;
    StartsAreMagics(bits, len, s.starts[0], n, max);
    forall i | 0 <= i < |s.starts|
      ensures MagicAt(bits, s.starts[i]) && s.starts[i] + 48 <= |bits|
    {
      assert s.starts[i] in s.starts;
      MagicIsInside(bits, s.starts[i]);
    }
  }

  /** The outputs of all chunks joined; a chunk that was not split contributes nothing. */
  function JoinedChunks(cs: seq<Turn>): (d: Decoded)
  {
    if cs == [] then Segment([])
    else
      match cs[0]
      case Unsplit => JoinedChunks(cs[1..])
      case CarryTooLong => Panic
      case Worked(outs) =>
        var first := Joined(outs);
        if first.Segment? then Prepend(first.out, JoinedChunks(cs[1..])) else first
  }

  /** Every chunk but the last is split. */
  predicate AllSplit(cs: seq<Turn>)
  {
    forall i :: 0 <= i < |cs| - 1 ==> cs[i].Worked?
  }

  /** Every carry fits. */
  predicate AllFit(cs: seq<Turn>)
  {
    forall i :: 0 <= i < |cs| ==> !cs[i].CarryTooLong?
  }

  /** The split of the chunk `whole[a..end]`. */
  function SplitAt(whole: seq<Byte>, a: nat, end: nat, n: nat, max: nat, isLast: bool): (r: Option<Split>)
    requires a <= end <= |whole|
    ensures r.Some? ==>
      && 0 < r.value.count <= |r.value.starts| && r.value.consumed <= end - a && (isLast <==> r.value.count == |r.value.starts|)
  {
    hide BitsOf, SplitOf, QuickOk;
    var data := whole[a..end];
    var r := SplitOf(BitsOf(data), |data|, n, max, isLast);
    if r.Some? then
      SplitIsSound(BitsOf(data), |data|, n, max, isLast);
      r
    else r
  }

  /** The segment starts chosen in the chunks, as positions of the file, the kept boundaries among them,
      up to the first chunk that is not split.  The carry is `whole[a..b]`, the rest unread. */
  function ChosenStarts(whole: seq<Byte>, a: nat, b: nat, size: nat, n: nat, max: nat): (starts: seq<nat>)
    requires size >= 1 && a <= b <= |whole|
    decreases |whole| - b
  {
    hide SplitAt;
    var isLast := |whole| - b < size;
    var end := if isLast then |whole| else b + size;
    match SplitAt(whole, a, end, n, max, isLast)
    case None => []
    case Some(split) =>
      Shift(split.starts, 8 * a) + if isLast then [] else ChosenStarts(whole, a + split.consumed, end, size, n, max)
  }

  /** The walk from `s` comes by all of these positions: they are true block starts. */
  ghost predicate AllVisited(bits: Bitstring, s: nat, starts: seq<nat>, max: nat)
  {
    s <= |bits| && forall i :: 0 <= i < |starts| ==> Visits(bits, s, starts[i], max)
  }

  lemma AllVisitedParts(bits: Bitstring, s: nat, x: seq<nat>, y: seq<nat>, max: nat)
    requires AllVisited(bits, s, x + y, max)
    ensures AllVisited(bits, s, x, max) && AllVisited(bits, s, y, max)
  {
    hide Visits;
    forall i | 0 <= i < |x|
      ensures Visits(bits, s, x[i], max)
    {
      assert (x + y)[i] == x[i];
    }
    forall i | 0 <= i < |y|
      ensures Visits(bits, s, y[i], max)
    {
      assert (x + y)[|x| + i] == y[i];
    }
  }

  /** A full chunk that cannot be split is lost, whatever the number of workers: the output is that of
      the file without the chunk's bytes. */
  lemma UnsplitIsLost(carry: seq<Byte>, rest: seq<Byte>, size: nat, n: nat, max: nat, headroom: nat)
    requires 1 <= size <= |rest| && |carry| <= headroom
    ensures var data := carry + rest[..size];
      && |BitsOf(data)| == 8 * |data|
      && var first := ScanTheory.Scan(BitsOf(data), |data|, 0);
      && (Chunks(carry, rest, size, n, max, headroom)[0].Unsplit? <==>
            first.None? || forall x, i :: 1 <= i < n && FirstInPart(BitsOf(data), |data|, n, i, x, max) ==> x == first.value)
    ensures Chunks(carry, rest, size, n, max, headroom)[0].Unsplit? ==>
      JoinedChunks(Chunks(carry, rest, size, n, max, headroom)) == JoinedChunks(Chunks(carry, rest[size..], size, n, max, headroom))
  {
    hide BitsOf, SplitOf, Segments, ScanTheory.Scan, SplitPoints, FirstInPart;
    var data := carry + rest[..size];
    DataLength(data);
    SplitExists(BitsOf(data), |data|, n, max, false);
    var cs := Chunks(carry, rest, size, n, max, headroom);
    if cs[0].Unsplit? {
      var later := Chunks(carry, rest[size..], size, n, max, headroom);
      assert cs == [Unsplit] + later;
      assert cs[1..] == later;
    }
  }

  /** So with one worker only what is left behind the last full chunk reaches the output: the data of all
      full chunks is dropped, and the carry stays the header. */
  lemma {:induction false} OneWorkerDropsData(carry: seq<Byte>, rest: seq<Byte>, size: nat, max: nat, headroom: nat)
    requires size >= 1 && |carry| <= headroom
    ensures |rest| % size <= |rest|
    ensures JoinedChunks(Chunks(carry, rest, size, 1, max, headroom))
         == JoinedChunks(Chunks(carry, rest[|rest| - |rest| % size..], size, 1, max, headroom))
    decreases |rest|
  {
    hide Chunks, JoinedChunks, BitsOf, SplitPoints, ScanTheory.Scan;
    RestOfChunks(|rest|, size);
    if |rest| < size {
      assert rest[0..] == rest;
    } else {
      var data, later := carry + rest[..size], rest[size..];
      UnsplitIsLost(carry, rest, size, 1, max, headroom);
      OneWorkerDropsData(carry, later, size, max, headroom);
      SuffixOfSuffix(rest, size, |rest| % size);
    }
  }

  lemma SuffixOfSuffix(s: seq<Byte>, k: nat, n: nat)
    requires k + n <= |s|
    ensures s[k..][|s| - k - n..] == s[|s| - n..]
  {
  }

  lemma RestOfChunks(r: nat, size: nat)
    requires size >= 1
    ensures r % size <= r && (r < size ==> r % size == r)
    ensures r >= size ==> (r - size) % size == r % size && r % size + size <= r
  {
    if r >= size {
      var q := r / size;
      assert r == q * size + r % size;
      assert r - size == (q - 1) * size + r % size;
      DivUnique(r - size, size, q - 1, r % size);
    }
  }

  lemma DataLength(data: seq<Byte>)
    ensures |BitsOf(data)| == 8 * |data|
  {
    hide BitsOf;
  }

  // ---------------------------------------------------------------------------------------------
  // A chunk inside the file
  // ---------------------------------------------------------------------------------------------

  /** The data of a chunk is the file's bytes from `a` to `b`. */
  lemma ChunkBits(whole: seq<Byte>, a: nat, b: nat)
    requires a <= b <= |whole|
    ensures |BitsOf(whole[a..b])| == 8 * (b - a) && BitsOf(whole[a..b]) == BitsOf(whole)[8 * a..8 * b]
  {
    hide BitsOf, QuickOk;
    BitsOfSlice(whole, a, b);
  }

  /** A magic of the chunk is a magic of the file, and the other way round when it lies inside. */
  lemma MagicInChunk(bits: Bitstring, data: Bitstring, a: nat, b: nat, q: nat)
    requires 8 * a <= 8 * b <= |bits| && data == bits[8 * a..8 * b]
    ensures MagicAt(data, q) <==> q + 48 <= |data| && MagicAt(bits, q + 8 * a)
  {
    hide MagicBits;
    if q + 48 <= |data| {
      var x, y := data[q..q + 48], bits[q + 8 * a..q + 8 * a + 48];
      forall i | 0 <= i < 48
        ensures x[i] == y[i]
      {
        assert x[i] == data[q + i] == bits[8 * a + (q + i)];
      }
      assert x == y;
    }
  }

  /** The starts of a chunk as positions of the file. */
  function Shift(starts: seq<nat>, d: nat): (r: seq<nat>)
    ensures |r| == |starts| && forall i :: 0 <= i < |r| ==> r[i] == starts[i] + d
  {
    seq(|starts|, i requires 0 <= i < |starts| => starts[i] + d)
  }

  /** The first magic the scan of the chunk finds is the marker the chunk begins with. */
  lemma FirstOfChunk(bits: Bitstring, data: Bitstring, a: nat, b: nat, s: nat, first: nat, len: nat)
    requires 8 * a <= 8 * b <= |bits| && data == bits[8 * a..8 * b] && |data| == 8 * len
    requires 8 * a <= s && MagicAt(bits, s) && forall q :: 8 * a <= q < s ==> !MagicAt(bits, q)
    requires ScanTheory.Scan(data, len, 0) == Some(first)
    ensures first + 8 * a == s
  {
    hide MagicAt, ScanTheory.Scan;
    ScanIsLeast(data, len, 0);
    MagicInChunk(bits, data, a, b, first);
    if s < first + 8 * a {
      MagicIsInside(data, first);
      MagicInChunk(bits, data, a, b, s - 8 * a);
    }
  }

  /** `data` are the bytes `[a, b)` of the file. */
  ghost predicate PartOf(bits: Bitstring, data: Bitstring, a: nat, b: nat)
  {
    8 * a <= 8 * b <= |bits| && |bits| % 8 == 0 && data == bits[8 * a..8 * b]
  }

  ghost predicate MagicStarts(data: Bitstring, starts: seq<nat>)
  {
    Increasing(starts) && forall i :: 0 <= i < |starts| ==> MagicAt(data, starts[i])
  }

  /** What the segments of a chunk come to in terms of the file: the walk from the chunk's marker to
      the marker kept for the next chunk, or to the end. */
  lemma ChunkWalk(bits: Bitstring, data: Bitstring, a: nat, b: nat, starts: seq<nat>, count: nat, max: nat, s: nat)
    requires PartOf(bits, data, a, b) && starts != [] && MagicStarts(data, starts) && 0 < count <= |starts| <= count + 1
    requires count == |starts| ==> 8 * b == |bits|
    requires StartsInside(data, starts)
    requires AllVisited(bits, s, Shift(starts, 8 * a), max)
    ensures starts[0] + 8 * a <= |bits|
    ensures Joined(Segments(data, starts, |data|, count, max))
         == Walk(bits, starts[0] + 8 * a, if count < |starts| then starts[count] + 8 * a else |bits|, max)
  {
    hide MagicAt, Walk, Visits, SegmentAt, AllVisited, Segments, Joined, Shift, PartOf, MagicStarts, StartsInside, Increasing;
    var file, ds := Shift(starts, 8 * a), Segments(data, starts, |data|, count, max);
    ShiftIncreasing(data, starts, 8 * a);
    StartInFile(bits, data, a, b, starts, 0, max, s);
    forall i | 0 <= i < |starts|
      ensures file[i] < |bits| && Visits(bits, file[0], file[i], max)
    {
      StartInFile(bits, data, a, b, starts, i, max, s);
    }
    forall i | 0 <= i < count
      ensures ds[i] == Walk(bits, file[i], SegmentEnd(file, |bits|, i), max)
    {
      ChunkSegment(bits, data, a, b, starts, i, max, s);
    }
    JoinWalks(bits, file, |bits|, ds, max);
  }

  lemma ShiftIncreasing(data: Bitstring, starts: seq<nat>, d: nat)
    requires MagicStarts(data, starts)
    ensures Increasing(Shift(starts, d))
  {
    hide MagicAt;
  }

  /** A start of the chunk is a marker that the file's walk from the chunk's first start comes by. */
  lemma StartInFile(bits: Bitstring, data: Bitstring, a: nat, b: nat, starts: seq<nat>, i: nat, max: nat, s: nat)
    requires PartOf(bits, data, a, b) && i < |starts| && MagicStarts(data, starts)
    requires AllVisited(bits, s, Shift(starts, 8 * a), max)
    ensures starts[0] <= starts[i] && starts[i] + 48 <= |data| && starts[i] + 8 * a + 48 <= 8 * b <= |bits|
    ensures MagicAt(data, starts[i]) && Visits(bits, starts[0] + 8 * a, starts[i] + 8 * a, max)
  {
    hide MagicAt, Visits, Shift, AllVisited, PartOf;
    PartLength(bits, data, a, b);
    MagicIsInside(data, starts[i]);
    StartVisited(bits, s, starts, 8 * a, 0, max);
    StartVisited(bits, s, starts, 8 * a, i, max);
    VisitsBetween(bits, s, starts[0] + 8 * a, starts[i] + 8 * a, max);
  }

  lemma StartVisited(bits: Bitstring, s: nat, starts: seq<nat>, d: nat, i: nat, max: nat)
    requires AllVisited(bits, s, Shift(starts, d), max) && i < |starts|
    ensures s <= |bits| && Visits(bits, s, starts[i] + d, max)
  {
    hide Visits, Shift;
    assert Visits(bits, s, Shift(starts, d)[i], max);
  }

  /** One segment of the chunk in terms of the file. */
  lemma ChunkSegment(bits: Bitstring, data: Bitstring, a: nat, b: nat, starts: seq<nat>, i: nat, max: nat, s: nat)
    requires PartOf(bits, data, a, b) && i < |starts| && MagicStarts(data, starts)
    requires AllVisited(bits, s, Shift(starts, 8 * a), max) && (i + 1 == |starts| ==> 8 * b == |bits|)
    ensures starts[i] + 48 <= |data| && starts[i] + 8 * a <= |bits|
    ensures SegmentAt(data, starts[i], SegmentEnd(starts, |data|, i), max)
         == Walk(bits, starts[i] + 8 * a, SegmentEnd(Shift(starts, 8 * a), |bits|, i), max)
  {
    hide MagicAt, Walk, Visits, SegmentAt, AllVisited, PartOf, Shift, Increasing;
    var first, p, d := starts[0] + 8 * a, starts[i], 8 * a;
    StartInFile(bits, data, a, b, starts, i, max, s);
    PartLength(bits, data, a, b);
    if i + 1 < |starts| {
      var q := starts[i + 1];
      StartInFile(bits, data, a, b, starts, i + 1, max, s);
      StartsRise(starts, i);
      SegmentIsWalk(data, p, q, max);
      VisitsBetween(bits, first, p + d, q + d, max);
      SliceAligned(bits, data, a, b, p + d, q + d);
      WalkLocal(bits, p + d, q + d, max, data, -d);
    } else {
      SegmentIsWalk(data, p, |data|, max);
      SliceAligned(bits, data, a, b, p + d, |bits|);
      WalkSuffix(bits, p + d, |bits|, max, data, -d);
    }
  }

  lemma PartLength(bits: Bitstring, data: Bitstring, a: nat, b: nat)
    requires PartOf(bits, data, a, b)
    ensures 8 * a <= 8 * b <= |bits| && |data| == 8 * b - 8 * a
  {
  }

  lemma StartsRise(starts: seq<nat>, i: nat)
    requires Increasing(starts) && i + 1 < |starts|
    ensures starts[i] < starts[i + 1]
  {
  }

  lemma SliceAligned(bits: Bitstring, data: Bitstring, a: nat, b: nat, p: nat, hi: nat)
    requires PartOf(bits, data, a, b) && 8 * a <= p <= hi <= 8 * b
    ensures Aligned(bits, data, -8 * a, p, hi)
  {
  }

  /** The kept boundary is the first magic of the next chunk: within its byte no other magic can stand
      before it, because magics closer than 48 bits are 45 apart. */
  lemma KeptIsFirst(bits: Bitstring, s: nat)
    requires MagicAt(bits, s)
    ensures forall q :: 8 * (s / 8) <= q < s ==> !MagicAt(bits, q)
  {
    hide MagicAt;
    forall q | 8 * (s / 8) <= q < s
      ensures !MagicAt(bits, q)
    {
      if MagicAt(bits, q) { OverlapOnlyAt45(bits, q, s); }
    }
  }

  /** The position of the main loop in the file: the carry is `whole[a..b]`, the rest unread, and `s` is
      the first magic from the carry on, in reach of the scan. */
  ghost predicate Position(whole: seq<Byte>, a: nat, b: nat, s: nat)
  {
    && a <= b <= |whole| && 8 * a <= s && s + 57 <= 8 * |whole|
    && MagicAt(BitsOf(whole), s)
    && (forall q :: 8 * a <= q < s ==> !MagicAt(BitsOf(whole), q))
  }

  lemma SplitAtData(whole: seq<Byte>, a: nat, end: nat, n: nat, max: nat, isLast: bool)
    requires a <= end <= |whole|
    ensures |BitsOf(whole[a..end])| == 8 * (end - a)
    ensures SplitAt(whole, a, end, n, max, isLast) == SplitOf(BitsOf(whole[a..end]), end - a, n, max, isLast)
  {
    hide BitsOf, SplitOf, QuickOk;
    ChunkBits(whole, a, end);
  }

  /** The split of a chunk at such a position, if there is one, starts at `s`; the last chunk always has
      one. */
  lemma SplitAtPosition(whole: seq<Byte>, a: nat, b: nat, s: nat, end: nat, n: nat, max: nat, isLast: bool)
    requires Position(whole, a, b, s) && b <= end <= |whole| && (isLast ==> end == |whole|)
    ensures isLast ==> SplitAt(whole, a, end, n, max, true).Some?
    ensures SplitAt(whole, a, end, n, max, isLast).Some? ==> SplitAt(whole, a, end, n, max, isLast).value.starts[0] + 8 * a == s
  {
    hide BitsOf, MagicAt, ScanTheory.Scan, StartsOf, SplitAt, QuickOk;
    var bits, data := BitsOf(whole), BitsOf(whole[a..end]);
    ChunkBits(whole, a, end);
    SplitAtData(whole, a, end, n, max, isLast);
    var r := ScanTheory.Scan(data, end - a, 0);
    if r.Some? {
      FirstOfChunk(bits, data, a, end, s, r.value, end - a);
    } else if isLast {
      ScanIsLeast(data, end - a, 0);
      MagicInChunk(bits, data, a, end, s - 8 * a);
      assert false;
    }
  }

  /** Where the last segment of a chunk ends: at the kept boundary, or at the end of the file. */
  function KeptAt(whole: seq<Byte>, a: nat, end: nat, n: nat, max: nat, isLast: bool): nat
    requires a <= end <= |whole|
  {
    hide SplitAt;
    var split := SplitAt(whole, a, end, n, max, isLast);
    if isLast then 8 * |whole|
    else if split.None? then 0
    else if split.value.count < |split.value.starts| then split.value.starts[split.value.count] + 8 * a
    else 0
  }

  /** Behind a split chunk the main loop stands at the kept boundary. */
  lemma NextInSplit(whole: seq<Byte>, a: nat, b: nat, s: nat, end: nat, n: nat, max: nat)
    requires Position(whole, a, b, s) && b <= end <= |whole| && SplitAt(whole, a, end, n, max, false).Some?
    ensures var sp := SplitAt(whole, a, end, n, max, false).value;
      && sp.count < |sp.starts| && s < sp.starts[sp.count] + 8 * a <= |BitsOf(whole)|
      && a + sp.consumed == (sp.starts[sp.count] + 8 * a) / 8
      && Position(whole, a + sp.consumed, end, sp.starts[sp.count] + 8 * a)
  {
    hide BitsOf, MagicAt, ScanTheory.Scan, QuickOk, StartsOf, SplitAt;
    var bits, data := BitsOf(whole), BitsOf(whole[a..end]);
    ChunkBits(whole, a, end);
    SplitAtData(whole, a, end, n, max, false);
    var sp := SplitAt(whole, a, end, n, max, false).value;
    SplitIsSound(data, end - a, n, max, false);
    SplitAtPosition(whole, a, b, s, end, n, max, false);
    var k := sp.starts[sp.count];
    StartsAreMagics(data, end - a, sp.starts[0], n, max);
    assert sp.starts[0] < k && k in sp.starts;
    QuickReach(data, k, max);
    MagicInChunk(bits, data, a, end, k);
    KeptIsFirst(bits, k + 8 * a);
  }

  /** Moving on: the carry and the kept boundary. */
  lemma NextPosition(whole: seq<Byte>, a: nat, b: nat, s: nat, end: nat, n: nat, max: nat) returns (a': nat)
    requires Position(whole, a, b, s) && a <= b <= end <= |whole| && SplitAt(whole, a, end, n, max, false).Some?
    ensures a <= a' <= end && a' == a + SplitAt(whole, a, end, n, max, false).value.consumed
    ensures a' == KeptAt(whole, a, end, n, max, false) / 8
    ensures CarryOf(whole[a..b], whole[a..end], false, n, max) == whole[a'..end]
    ensures s < KeptAt(whole, a, end, n, max, false) <= |BitsOf(whole)|
    ensures Position(whole, a', end, KeptAt(whole, a, end, n, max, false))
  {
    hide BitsOf, SplitOf, Position, SplitAt, QuickOk;
    SplitAtData(whole, a, end, n, max, false);
    NextInSplit(whole, a, b, s, end, n, max);
    a' := a + SplitAt(whole, a, end, n, max, false).value.consumed;
    SliceEnd(whole, a, a', end);
  }

  lemma SliceEnd(whole: seq<Byte>, a: nat, m: nat, end: nat)
    requires a <= m <= end <= |whole|
    ensures whole[a..end][m - a..] == whole[m..end]
  {
  }

  lemma QuickReach(bits: Bitstring, p: nat, max: nat)
    requires QuickOk(bits, p, max)
    ensures p + 121 <= |bits|
  {
  }

  /** The starts of a split are magics of the chunk. */
  lemma SplitAtStarts(whole: seq<Byte>, a: nat, end: nat, n: nat, max: nat, isLast: bool)
    requires a <= end <= |whole| && SplitAt(whole, a, end, n, max, isLast).Some?
    ensures var sp := SplitAt(whole, a, end, n, max, isLast).value;
      && |BitsOf(whole[a..end])| == 8 * (end - a)
      && MagicStarts(BitsOf(whole[a..end]), sp.starts) && |sp.starts| <= sp.count + 1
      && StartsInside(BitsOf(whole[a..end]), sp.starts)
  {
    hide BitsOf, SplitOf, SplitAt, MagicStarts, StartsInside, QuickOk;
    SplitAtData(whole, a, end, n, max, isLast);
    SplitStarts(BitsOf(whole[a..end]), end - a, n, max, isLast);
  }

  lemma KeptIs(whole: seq<Byte>, a: nat, end: nat, n: nat, max: nat, isLast: bool)
    requires a <= end <= |whole| && SplitAt(whole, a, end, n, max, isLast).Some?
    ensures var sp := SplitAt(whole, a, end, n, max, isLast).value;
      KeptAt(whole, a, end, n, max, isLast) == if sp.count < |sp.starts| then sp.starts[sp.count] + 8 * a else |BitsOf(whole)|
  {
    hide BitsOf, SplitAt, QuickOk;
  }

  /** The kept boundary is on the walk from the chunk's first marker. */
  lemma KeptVisited(whole: seq<Byte>, a: nat, b: nat, s: nat, end: nat, n: nat, max: nat, s0: nat)
    requires Position(whole, a, b, s) && a <= b <= end <= |whole|
    requires s <= |BitsOf(whole)| && SplitAt(whole, a, end, n, max, false).Some?
    requires AllVisited(BitsOf(whole), s0, Shift(SplitAt(whole, a, end, n, max, false).value.starts, 8 * a), max)
    ensures Visits(BitsOf(whole), s, KeptAt(whole, a, end, n, max, false), max)
  {
    hide BitsOf, MagicAt, Increasing, SplitAt, Position, AllVisited, Visits, PartOf, MagicStarts, StartsInside, Shift, QuickOk;
    ChunkIsPart(whole, a, end);
    var sp := SplitAt(whole, a, end, n, max, false).value;
    SplitAtStarts(whole, a, end, n, max, false);
    SplitAtPosition(whole, a, b, s, end, n, max, false);
    StartInFile(BitsOf(whole), BitsOf(whole[a..end]), a, end, sp.starts, sp.count, max, s0);
  }

  lemma ChunkIsPart(whole: seq<Byte>, a: nat, end: nat)
    requires a <= end <= |whole|
    ensures PartOf(BitsOf(whole), BitsOf(whole[a..end]), a, end) && |BitsOf(whole)| == 8 * |whole|
  {
    hide BitsOf, QuickOk;
    ChunkBits(whole, a, end);
  }

  lemma SplitStarts(bits: Bitstring, len: nat, n: nat, max: nat, isLast: bool)
    requires |bits| == 8 * len && SplitOf(bits, len, n, max, isLast).Some?
    ensures var s := SplitOf(bits, len, n, max, isLast).value;
      && MagicStarts(bits, s.starts) && 0 < s.count <= |s.starts| <= s.count + 1 && (isLast <==> s.count == |s.starts|)
      && StartsInside(bits, s.starts)
  {
    hide MagicAt, SplitOf, ScanTheory.Scan, Increasing;
    SplitIsSound(bits, len, n, max, isLast);
  }

  /** The outcomes of a chunk's segments in terms of its split. */
  lemma ChunkOfSplit(whole: seq<Byte>, a: nat, end: nat, n: nat, max: nat, isLast: bool)
    requires a <= end <= |whole|
    ensures ChunkOf(whole[a..end], isLast, n, max).Worked? <==> SplitAt(whole, a, end, n, max, isLast).Some?
    ensures SplitAt(whole, a, end, n, max, isLast).Some? ==>
      var data, sp := BitsOf(whole[a..end]), SplitAt(whole, a, end, n, max, isLast).value;
      && StartsInside(data, sp.starts)
      && ChunkOf(whole[a..end], isLast, n, max) == Worked(Segments(data, sp.starts, |data|, sp.count, max))
  {
    hide BitsOf, SplitOf, SplitAt, Segments, StartsInside, SegmentAt, QuickOk;
    SplitAtData(whole, a, end, n, max, isLast);
    if SplitAt(whole, a, end, n, max, isLast).Some? { SplitAtStarts(whole, a, end, n, max, isLast); }
  }

  lemma SplitWalks(whole: seq<Byte>, a: nat, end: nat, n: nat, max: nat, isLast: bool, s0: nat)
    requires a <= end <= |whole| && (isLast ==> end == |whole|) && SplitAt(whole, a, end, n, max, isLast).Some?
    requires AllVisited(BitsOf(whole), s0, Shift(SplitAt(whole, a, end, n, max, isLast).value.starts, 8 * a), max)
    ensures ChunkOf(whole[a..end], isLast, n, max).Worked?
    ensures var first := SplitAt(whole, a, end, n, max, isLast).value.starts[0] + 8 * a;
      first <= |BitsOf(whole)| &&
      Joined(ChunkOf(whole[a..end], isLast, n, max).outs) == Walk(BitsOf(whole), first, KeptAt(whole, a, end, n, max, isLast), max)
  {
    hide BitsOf, SplitAt, Walk, Visits, Segments, Joined, AllVisited, Shift, ChunkOf, KeptAt, PartOf, MagicStarts, StartsInside, SegmentAt, QuickOk;
    ChunkIsPart(whole, a, end);
    SplitAtStarts(whole, a, end, n, max, isLast);
    KeptIs(whole, a, end, n, max, isLast);
    ChunkOfSplit(whole, a, end, n, max, isLast);
    var sp := SplitAt(whole, a, end, n, max, isLast).value;
    ChunkWalk(BitsOf(whole), BitsOf(whole[a..end]), a, end, sp.starts, sp.count, max, s0);
  }

  /** What one split chunk contributes, if its starts are true block starts. */
  lemma OneChunk(whole: seq<Byte>, a: nat, b: nat, s: nat, end: nat, n: nat, max: nat, isLast: bool, s0: nat)
    requires Position(whole, a, b, s) && a <= b <= end <= |whole| && (isLast ==> end == |whole|)
    requires s <= |BitsOf(whole)| && SplitAt(whole, a, end, n, max, isLast).Some?
    requires AllVisited(BitsOf(whole), s0, Shift(SplitAt(whole, a, end, n, max, isLast).value.starts, 8 * a), max)
    ensures !isLast ==> Visits(BitsOf(whole), s, KeptAt(whole, a, end, n, max, false), max)
    ensures ChunkOf(whole[a..end], isLast, n, max).Worked?
    ensures Joined(ChunkOf(whole[a..end], isLast, n, max).outs) == Walk(BitsOf(whole), s, KeptAt(whole, a, end, n, max, isLast), max)
  {
    hide BitsOf, SplitAt, Position, Walk, Visits, Segments, Joined, AllVisited, Shift, ChunkOf, KeptAt, PartOf, MagicStarts, StartsInside, SegmentAt, QuickOk;
    ChunkOfSplit(whole, a, end, n, max, isLast);
    SplitAtPosition(whole, a, b, s, end, n, max, isLast);
    SplitWalks(whole, a, end, n, max, isLast, s0);
    if !isLast { KeptVisited(whole, a, b, s, end, n, max, s0); }
  }

  /** The chosen starts of a split chunk are its own and those of the chunks behind it. */
  lemma ChosenSplit(whole: seq<Byte>, a: nat, b: nat, end: nat, isLast: bool, size: nat, n: nat, max: nat, s0: nat)
    requires size >= 1 && a <= b <= |whole| && (isLast <==> |whole| - b < size) && end == if isLast then |whole| else b + size
    requires SplitAt(whole, a, end, n, max, isLast).Some? && AllVisited(BitsOf(whole), s0, ChosenStarts(whole, a, b, size, n, max), max)
    ensures var sp := SplitAt(whole, a, end, n, max, isLast).value;
      && AllVisited(BitsOf(whole), s0, Shift(sp.starts, 8 * a), max)
      && (!isLast ==> AllVisited(BitsOf(whole), s0, ChosenStarts(whole, a + sp.consumed, end, size, n, max), max))
  {
    hide BitsOf, SplitAt, AllVisited, Shift, QuickOk;
    var sp := SplitAt(whole, a, end, n, max, isLast).value;
    AllVisitedParts(BitsOf(whole), s0, Shift(sp.starts, 8 * a),
      if isLast then [] else ChosenStarts(whole, a + sp.consumed, end, size, n, max), max);
  }

  lemma JoinedChunksCons(ds: seq<Decoded>, cs: seq<Turn>)
    ensures JoinedChunks([Worked(ds)] + cs) == if Joined(ds).Segment? then Prepend(Joined(ds).out, JoinedChunks(cs)) else Joined(ds)
  {
    assert ([Worked(ds)] + cs)[1..] == cs;
  }

  lemma PrependEmpty(d: Decoded)
    ensures d.Segment? ==> Prepend(d.out, Segment([])) == d
  {
    if d.Segment? { assert d.out + [] == d.out; }
  }

  lemma AllSplitTail(c: Turn, cs: seq<Turn>)
    requires AllSplit([c] + cs) && cs != []
    ensures c.Worked? && AllSplit(cs)
  {
    assert ([c] + cs)[0] == c;
    forall i | 0 <= i < |cs| - 1
      ensures cs[i].Worked?
    {
      assert ([c] + cs)[i + 1] == cs[i];
    }
  }

  lemma AllFitTail(c: Turn, cs: seq<Turn>)
    ensures AllFit([c] + cs) <==> !c.CarryTooLong? && AllFit(cs)
  {
    assert ([c] + cs)[0] == c;
    if AllFit([c] + cs) {
      forall i | 0 <= i < |cs|
        ensures !cs[i].CarryTooLong?
      {
        assert ([c] + cs)[i + 1] == cs[i];
      }
    }
  }

  /** One turn of the main loop. */
  lemma ChunksStep(whole: seq<Byte>, a: nat, b: nat, end: nat, isLast: bool, size: nat, n: nat, max: nat, headroom: nat)
    requires size >= 1 && a <= b <= |whole| && (|whole| - b > 0 || b - a > 4)
    requires (isLast <==> |whole| - b < size) && end == if isLast then |whole| else b + size
    ensures Chunks(whole[a..b], whole[b..], size, n, max, headroom) ==
      if b - a > headroom then [CarryTooLong]
      else
        [ChunkOf(whole[a..end], isLast, n, max)]
        + if isLast then [] else Chunks(CarryOf(whole[a..b], whole[a..end], isLast, n, max), whole[end..], size, n, max, headroom)
  {
    hide ChunkOf, CarryOf, SegmentAt;
    ReadSlices(whole, a, b, end);
  }

  lemma ReadSlices(whole: seq<Byte>, a: nat, b: nat, end: nat)
    requires a <= b <= end <= |whole|
    ensures whole[a..b] + whole[b..][..end - b] == whole[a..end] && whole[b..][end - b..] == whole[end..]
  {
  }

  lemma PositionRoom(whole: seq<Byte>, a: nat, b: nat, s: nat)
    requires Position(whole, a, b, s)
    ensures a <= b <= |whole| && |whole| - a >= 8
  {
    hide BitsOf, MagicAt, QuickOk;
  }

  // ---------------------------------------------------------------------------------------------
  // Carries that fit
  // ---------------------------------------------------------------------------------------------

  /** The boundaries kept at the ends of the full chunks, as positions of the file: the last start chosen
      in each, up to the first chunk that is not split. */
  function KeptStarts(whole: seq<Byte>, a: nat, b: nat, size: nat, n: nat, max: nat): (kept: seq<nat>)
    requires size >= 1 && a <= b <= |whole|
    decreases |whole| - b
  {
    hide SplitAt, KeptAt;
    if |whole| - b < size then []
    else
      match SplitAt(whole, a, b + size, n, max, false)
      case None => []
      case Some(split) =>
        [KeptAt(whole, a, b + size, n, max, false)] + KeptStarts(whole, a + split.consumed, b + size, size, n, max)
  }

  /** How far the file is read behind full chunk number `i`. */
  function ReadUpTo(b: nat, size: nat, i: nat): nat
  {
    b + (i + 1) * size
  }

  /** No kept boundary lies more than `headroom` bytes before the end of its chunk. */
  predicate CarriesFit(kept: seq<nat>, b: nat, size: nat, headroom: nat)
  {
    forall i :: 0 <= i < |kept| ==> ReadUpTo(b, size, i) <= kept[i] / 8 + headroom
  }

  lemma CarriesFitCons(x: nat, kept: seq<nat>, b: nat, size: nat, headroom: nat)
    ensures CarriesFit([x] + kept, b, size, headroom) <==> b + size <= x / 8 + headroom && CarriesFit(kept, b + size, size, headroom)
  {
    hide ReadUpTo;
    var all := [x] + kept;
    FirstRead(b, size);
    assert all[0] == x;
    forall i | 0 <= i < |kept|
      ensures all[i + 1] == kept[i] && ReadUpTo(b, size, i + 1) == ReadUpTo(b + size, size, i)
    {
      NextRead(b, size, i);
    }
    if CarriesFit(all, b, size, headroom) {
      FitsTail(x, kept, b, size, headroom);
    } else {
      var i :| 0 <= i < |all| && ReadUpTo(b, size, i) > all[i] / 8 + headroom;
      if i > 0 { assert all[i] == kept[i - 1]; }
    }
  }

  lemma FitsTail(x: nat, kept: seq<nat>, b: nat, size: nat, headroom: nat)
    requires CarriesFit([x] + kept, b, size, headroom)
    ensures CarriesFit(kept, b + size, size, headroom)
  {
    hide ReadUpTo;
    forall i | 0 <= i < |kept|
      ensures ReadUpTo(b + size, size, i) <= kept[i] / 8 + headroom
    {
      assert ([x] + kept)[i + 1] == kept[i];
      NextRead(b, size, i);
    }
  }

  lemma FirstRead(b: nat, size: nat)
    ensures ReadUpTo(b, size, 0) == b + size
  {
  }

  lemma NextRead(b: nat, size: nat, i: nat)
    ensures ReadUpTo(b, size, i + 1) == ReadUpTo(b + size, size, i)
  {
  }

  /** Exactly when no assertion of the main loop fails: the first carry, and every carry behind a kept
      boundary, fits the room in front of the chunks. */
  lemma {:induction false} AllFitIff(whole: seq<Byte>, a: nat, b: nat, s: nat, size: nat, n: nat, max: nat, headroom: nat)
    requires size >= 1 && Position(whole, a, b, s)
    requires AllSplit(Chunks(whole[a..b], whole[b..], size, n, max, headroom))
    ensures a <= b <= |whole|
    ensures AllFit(Chunks(whole[a..b], whole[b..], size, n, max, headroom))
       <==> b - a <= headroom && CarriesFit(KeptStarts(whole, a, b, size, n, max), b, size, headroom)
    decreases |whole| - b
  {
    hide BitsOf, Position, Chunks, ChunkOf, CarryOf, KeptAt, AllSplit, AllFit, SplitAt, SegmentAt, QuickOk, CarriesFit;
    PositionInside(whole, a, b, s);
    PositionRoom(whole, a, b, s);
    var isLast := |whole| - b < size;
    var end := if isLast then |whole| else b + size;
    ChunksStep(whole, a, b, end, isLast, size, n, max, headroom);
    var chunk := ChunkOf(whole[a..end], isLast, n, max);
    ChunkOfSplit(whole, a, end, n, max, isLast);
    NothingTooLong();
    if b - a <= headroom && isLast {
      AllFitTail(chunk, []);
      assert [chunk] + [] == [chunk];
      NothingKept(b, size, headroom);
    } else if b - a <= headroom {
      var rest := Chunks(CarryOf(whole[a..b], whole[a..end], false, n, max), whole[end..], size, n, max, headroom);
      AllSplitTail(chunk, rest);
      AllFitTail(chunk, rest);
      var a' := NextPosition(whole, a, b, s, end, n, max);
      AllFitIff(whole, a', end, KeptAt(whole, a, end, n, max, false), size, n, max, headroom);
      CarriesFitCons(KeptAt(whole, a, end, n, max, false), KeptStarts(whole, a', end, size, n, max), b, size, headroom);
      assert KeptStarts(whole, a, b, size, n, max) == [KeptAt(whole, a, end, n, max, false)] + KeptStarts(whole, a', end, size, n, max);
    }
  }

  lemma NothingTooLong()
    ensures !AllFit([CarryTooLong]) && AllFit([])
  {
    assert [CarryTooLong][0] == CarryTooLong;
  }

  lemma NothingKept(b: nat, size: nat, headroom: nat)
    ensures CarriesFit([], b, size, headroom)
  {
  }

  /** A carry that does not fit leaves no output, however much of the file was decoded before. */
  lemma {:induction false} PanicIfTooLong(cs: seq<Turn>)
    requires JoinedChunks(cs).Segment?
    ensures AllFit(cs)
    decreases |cs|
  {
    hide Joined, AllFit;
    NothingTooLong();
    if cs != [] {
      PanicIfTooLong(cs[1..]);
      assert cs == [cs[0]] + cs[1..];
      AllFitTail(cs[0], cs[1..]);
    }
  }

  /** Chunking with a carry preserves meaning: if every chunk but the last could be split, and the
      starts that were chosen are true block starts, decoding chunk by chunk comes to exactly what
      decoding the whole file in one segment comes to, for every chunk size and number of workers for
      which the carries fit; and where one does not fit, it comes to no output.  Magics that no split
      chooses may stand anywhere. */
  lemma ChunkedIsWhole(whole: seq<Byte>, a: nat, b: nat, s: nat, size: nat, n: nat, max: nat, headroom: nat)
    requires size >= 1 && Position(whole, a, b, s)
    requires AllSplit(Chunks(whole[a..b], whole[b..], size, n, max, headroom))
    requires AllVisited(BitsOf(whole), s, ChosenStarts(whole, a, b, size, n, max), max)
    ensures a <= b <= |whole|
    ensures
      var cs := Chunks(whole[a..b], whole[b..], size, n, max, headroom);
      if b - a <= headroom && CarriesFit(KeptStarts(whole, a, b, size, n, max), b, size, headroom)
      then AllFit(cs) && JoinedChunks(cs) == Walk(BitsOf(whole), s, |BitsOf(whole)|, max)
      else !AllFit(cs) && !JoinedChunks(cs).Segment?
  {
    hide BitsOf, Position, Chunks, AllSplit, AllFit, JoinedChunks, Walk, AllVisited, SegmentAt, QuickOk, CarriesFit, KeptStarts;
    AllFitIff(whole, a, b, s, size, n, max, headroom);
    var cs := Chunks(whole[a..b], whole[b..], size, n, max, headroom);
    if AllFit(cs) {
      ChunkedFrom(whole, a, b, s, size, n, max, headroom, s);
    } else if JoinedChunks(cs).Segment? {
      PanicIfTooLong(cs);
    }
  }

  /** The induction, with the position from which the starts are visited held fixed. */
  lemma {:induction false} ChunkedFrom(whole: seq<Byte>, a: nat, b: nat, s: nat, size: nat, n: nat, max: nat, headroom: nat, s0: nat)
    requires size >= 1 && Position(whole, a, b, s)
    requires AllSplit(Chunks(whole[a..b], whole[b..], size, n, max, headroom))
    requires AllFit(Chunks(whole[a..b], whole[b..], size, n, max, headroom))
    requires AllVisited(BitsOf(whole), s0, ChosenStarts(whole, a, b, size, n, max), max)
    ensures JoinedChunks(Chunks(whole[a..b], whole[b..], size, n, max, headroom)) == Walk(BitsOf(whole), s, |BitsOf(whole)|, max)
    decreases |whole| - b
  {
    hide BitsOf, MagicAt, Walk, Position, Visits, AllVisited, ChosenStarts, Chunks, ChunkOf, CarryOf, KeptAt, AllSplit, AllFit, JoinedChunks, Joined, Prepend, SplitAt, Shift, SegmentAt, QuickOk;
    PositionInside(whole, a, b, s);
    PositionRoom(whole, a, b, s);
    var isLast := |whole| - b < size;
    var end := if isLast then |whole| else b + size;
    ChunksStep(whole, a, b, end, isLast, size, n, max, headroom);
    NothingTooLong();
    var chunk := ChunkOf(whole[a..end], isLast, n, max);
    ChunkOfSplit(whole, a, end, n, max, isLast);
    if isLast {
      SplitAtPosition(whole, a, b, s, end, n, max, true);
      ChosenSplit(whole, a, b, end, true, size, n, max, s0);
      OneChunk(whole, a, b, s, end, n, max, true, s0);
      LastKept(whole, a, end, n, max);
      LastChunk(chunk.outs);
    } else {
      var rest := Chunks(CarryOf(whole[a..b], whole[a..end], false, n, max), whole[end..], size, n, max, headroom);
      AllSplitTail(chunk, rest);
      AllFitTail(chunk, rest);
      ChosenSplit(whole, a, b, end, false, size, n, max, s0);
      OneChunk(whole, a, b, s, end, n, max, false, s0);
      var a' := NextPosition(whole, a, b, s, end, n, max);
      var next := KeptAt(whole, a, end, n, max, false);
      ChunkedFrom(whole, a', end, next, size, n, max, headroom, s0);
      InnerChunk(BitsOf(whole), s, next, chunk.outs, rest, max);
    }
  }

  /** Where a carry does not fit, it ends the loop, and what was decoded before it is the beginning of what
      decoding the file in one segment comes to. */
  lemma {:induction false} DecodedBefore(whole: seq<Byte>, a: nat, b: nat, s: nat, size: nat, n: nat, max: nat, headroom: nat, s0: nat)
    requires size >= 1 && Position(whole, a, b, s)
    requires AllSplit(Chunks(whole[a..b], whole[b..], size, n, max, headroom))
    requires !AllFit(Chunks(whole[a..b], whole[b..], size, n, max, headroom))
    requires AllVisited(BitsOf(whole), s0, ChosenStarts(whole, a, b, size, n, max), max)
    requires s <= |BitsOf(whole)| && Walk(BitsOf(whole), s, |BitsOf(whole)|, max).Segment?
    ensures EndsTooLong(Chunks(whole[a..b], whole[b..], size, n, max, headroom), Walk(BitsOf(whole), s, |BitsOf(whole)|, max).out)
    decreases |whole| - b
  {
    hide BitsOf, MagicAt, Walk, Position, Visits, AllVisited, ChosenStarts, Chunks, ChunkOf, CarryOf, KeptAt, AllSplit, AllFit, EndsTooLong, JoinedChunks, Joined, Prepend, SplitAt, Shift, SegmentAt, QuickOk;
    PositionInside(whole, a, b, s);
    PositionRoom(whole, a, b, s);
    var isLast := |whole| - b < size;
    var end := if isLast then |whole| else b + size;
    ChunksStep(whole, a, b, end, isLast, size, n, max, headroom);
    var chunk, out := ChunkOf(whole[a..end], isLast, n, max), Walk(BitsOf(whole), s, |BitsOf(whole)|, max).out;
    ChunkOfSplit(whole, a, end, n, max, isLast);
    if b - a > headroom {
      TooLongAtOnce(out);
    } else if isLast {
      AllFitTail(chunk, []);
      NothingTooLong();
    } else {
      var rest := Chunks(CarryOf(whole[a..b], whole[a..end], false, n, max), whole[end..], size, n, max, headroom);
      AllSplitTail(chunk, rest);
      AllFitTail(chunk, rest);
      ChosenSplit(whole, a, b, end, false, size, n, max, s0);
      OneChunk(whole, a, b, s, end, n, max, false, s0);
      var a' := NextPosition(whole, a, b, s, end, n, max);
      var next := KeptAt(whole, a, end, n, max, false);
      WalkSplit(BitsOf(whole), s, next, |BitsOf(whole)|, max);
      PrependParts(Walk(BitsOf(whole), s, next, max).out, Walk(BitsOf(whole), next, |BitsOf(whole)|, max));
      DecodedBefore(whole, a', end, next, size, n, max, headroom, s0);
      EndsCons(chunk.outs, rest, Walk(BitsOf(whole), next, |BitsOf(whole)|, max).out);
    }
  }

  /** The turns end with a carry that is too long, and what the others decoded is a prefix of `out`. */
  predicate EndsTooLong(cs: seq<Turn>, out: seq<Byte>)
  {
    && cs != [] && cs[|cs| - 1].CarryTooLong? && AllFit(cs[..|cs| - 1])
    && JoinedChunks(cs[..|cs| - 1]).Segment? && JoinedChunks(cs[..|cs| - 1]).out <= out
  }

  lemma TooLongAtOnce(out: seq<Byte>)
    ensures EndsTooLong([CarryTooLong], out)
  {
    assert [CarryTooLong][..0] == [];
  }

  lemma PrependParts(out: seq<Byte>, d: Decoded)
    requires Prepend(out, d).Segment?
    ensures d.Segment? && Prepend(out, d).out == out + d.out
  {
  }

  lemma EndsCons(ds: seq<Decoded>, cs: seq<Turn>, out: seq<Byte>)
    requires EndsTooLong(cs, out) && Joined(ds).Segment?
    ensures EndsTooLong([Worked(ds)] + cs, Joined(ds).out + out)
  {
    hide Joined, AllFit;
    var all := [Worked(ds)] + cs;
    assert all[..|all| - 1] == [Worked(ds)] + cs[..|cs| - 1];
    AllFitTail(Worked(ds), cs[..|cs| - 1]);
    JoinedChunksCons(ds, cs[..|cs| - 1]);
  }

  /** As many messages as the reader sends of `r` bytes. */
  function Messages(r: nat, size: nat): (m: nat)
    requires size >= 1
    decreases r
  {
    if r < size then 1 else 1 + Messages(r - size, size)
  }

  /** The main loop takes all messages, unless a carry does not fit. */
  lemma {:induction false} TurnsTaken(carry: seq<Byte>, rest: seq<Byte>, size: nat, n: nat, max: nat, headroom: nat)
    requires size >= 1
    ensures |Chunks(carry, rest, size, n, max, headroom)| <= Messages(|rest|, size)
    ensures AllFit(Chunks(carry, rest, size, n, max, headroom)) ==> |Chunks(carry, rest, size, n, max, headroom)| == Messages(|rest|, size)
    decreases |rest|
  {
    hide AllFit, ChunkOf, CarryOf;
    NothingTooLong();
    if |rest| >= size && |carry| <= headroom {
      var data := carry + rest[..size];
      var later := Chunks(CarryOf(carry, data, false, n, max), rest[size..], size, n, max, headroom);
      TurnsTaken(CarryOf(carry, data, false, n, max), rest[size..], size, n, max, headroom);
      AllFitTail(ChunkOf(data, false, n, max), later);
    }
  }

  /** The kept boundaries are among the chosen starts. */
  lemma {:induction false} KeptAreChosen(whole: seq<Byte>, a: nat, b: nat, size: nat, n: nat, max: nat)
    requires size >= 1 && a <= b <= |whole|
    ensures forall x :: x in KeptStarts(whole, a, b, size, n, max) ==> x in ChosenStarts(whole, a, b, size, n, max)
    decreases |whole| - b
  {
    hide SplitAt, KeptAt, Shift;
    if |whole| - b >= size && SplitAt(whole, a, b + size, n, max, false).Some? {
      var sp := SplitAt(whole, a, b + size, n, max, false).value;
      KeptInShift(whole, a, b + size, n, max);
      KeptAreChosen(whole, a + sp.consumed, b + size, size, n, max);
    }
  }

  lemma KeptInShift(whole: seq<Byte>, a: nat, end: nat, n: nat, max: nat)
    requires a <= end <= |whole| && SplitAt(whole, a, end, n, max, false).Some?
    ensures KeptAt(whole, a, end, n, max, false) in Shift(SplitAt(whole, a, end, n, max, false).value.starts, 8 * a)
  {
    hide SplitAt;
    var sp := SplitAt(whole, a, end, n, max, false).value;
    assert Shift(sp.starts, 8 * a)[sp.count] == sp.starts[sp.count] + 8 * a;
  }

  lemma LastKept(whole: seq<Byte>, a: nat, end: nat, n: nat, max: nat)
    requires a <= end <= |whole|
    ensures KeptAt(whole, a, end, n, max, true) == |BitsOf(whole)|
  {
    hide BitsOf, SplitAt, QuickOk;
  }

  lemma LastChunk(ds: seq<Decoded>)
    ensures JoinedChunks([Worked(ds)] + []) == Joined(ds)
  {
    JoinedChunksCons(ds, []);
    NoChunks();
    PrependEmpty(Joined(ds));
  }

  /** A chunk that decodes to the walk up to the next position, before chunks that decode to the rest. */
  lemma InnerChunk(bits: Bitstring, s: nat, s': nat, ds: seq<Decoded>, rest: seq<Turn>, max: nat)
    requires s <= s' <= |bits| && Visits(bits, s, s', max)
    requires Joined(ds) == Walk(bits, s, s', max) && JoinedChunks(rest) == Walk(bits, s', |bits|, max)
    ensures JoinedChunks([Worked(ds)] + rest) == Walk(bits, s, |bits|, max)
  {
    hide Walk, Visits, JoinedChunks, Joined, SegmentAt;
    JoinedChunksCons(ds, rest);
    WalkSplit(bits, s, s', |bits|, max);
  }

  lemma NoChunks()
    ensures JoinedChunks([]) == Segment([])
  {
  }

  lemma PositionInside(whole: seq<Byte>, a: nat, b: nat, s: nat)
    requires Position(whole, a, b, s)
    ensures a <= b <= |whole| && s <= |BitsOf(whole)|
  {
  }

  // ---------------------------------------------------------------------------------------------
  // One stream
  // ---------------------------------------------------------------------------------------------

  /** Where a successful sequential walk finds its end marker. */
  ghost function EndMarker(bits: Bitstring, p: nat, max: nat): (q: nat)
    requires p <= |bits| && Sequential(bits, p, max).Blocks?
    ensures p <= q && q + 48 <= |bits|
    decreases |bits| - p
  {
    hide Value, AllocBlock, ReadBlock;
    if Value(bits[p..p + 48]) == BLOCK_MAGIC then EndMarker(bits, AllocBlock(bits, p + 48, max).pos, max) else p
  }

  /** No text is longer than the block buffer. */
  predicate TextsFit(texts: seq<seq<Byte>>, max: nat)
  {
    forall i :: 0 <= i < |texts| ==> |texts[i]| <= BlockCap(max)
  }

  lemma TextsFitTail(d: seq<Byte>, texts: seq<seq<Byte>>, max: nat)
    requires TextsFit([d] + texts, max)
    ensures |d| <= BlockCap(max) && TextsFit(texts, max)
  {
    assert ([d] + texts)[0] == d;
    assert forall i :: 0 <= i < |texts| ==> texts[i] == ([d] + texts)[i + 1];
  }

  /** A segment over a stream that `decompress` accepts yields the same bytes up to the end marker,
      provided every text fits the block buffer, and goes on with the stream behind it. */
  lemma {:induction false} WalkIsSequential(bits: Bitstring, p: nat, max: nat)
    requires p <= |bits| && Sequential(bits, p, max).Blocks? && TextsFit(Sequential(bits, p, max).texts, max)
    ensures Walk(bits, p, |bits|, max)
         == Prepend(Flatten(Sequential(bits, p, max).texts), Walk(bits, EndMarker(bits, p, max), |bits|, max))
    decreases |bits| - p
  {
    hide Value, AllocBlock, ReadBlock, Flatten, TextsFit;
    var w := Sequential(bits, p, max);
    if Value(bits[p..p + 48]) == BLOCK_MAGIC {
      var b := AllocBlock(bits, p + 48, max);
      AllocIsRead(bits, p + 48, max);
      var rest := Sequential(bits, b.pos, max);
      assert w.texts == [b.value] + rest.texts;
      TextsFitTail(b.value, rest.texts, max);
      WalkIsSequential(bits, b.pos, max);
      FlattenCons(b.value, rest.texts);
      PrependTwice(b.value, Flatten(rest.texts), Walk(bits, EndMarker(bits, p, max), |bits|, max));
    } else {
      FlattenNothing<Byte>();
      PrependNothing(Walk(bits, p, |bits|, max));
    }
  }

  /** The walk over an accepted stream comes by every block start. */
  lemma {:induction false} StartsVisited(bits: Bitstring, p: nat, x: nat, max: nat)
    requires p <= |bits| && Sequential(bits, p, max).Blocks? && TextsFit(Sequential(bits, p, max).texts, max)
    requires x in Sequential(bits, p, max).starts
    ensures Visits(bits, p, x, max)
    decreases |bits| - p
  {
    hide Value, AllocBlock, ReadBlock, TextsFit, MagicAt;
    var w := Sequential(bits, p, max);
    if x != p {
      var b := AllocBlock(bits, p + 48, max);
      AllocIsRead(bits, p + 48, max);
      var rest := Sequential(bits, b.pos, max);
      assert w.texts == [b.value] + rest.texts && w.starts == [p] + rest.starts;
      TextsFitTail(b.value, rest.texts, max);
      WalkStarts(bits, p, max);
      StartsVisited(bits, b.pos, x, max);
    }
  }

  /** At the start of a file with a nonempty accepted stream the main loop is in position: no magic can
      stand in the header, for it would overlap the first block's. */
  lemma StreamPosition(whole: seq<Byte>, max: nat)
    requires |whole| >= 4 && Sequential(BitsOf(whole), 32, max).Blocks? && Sequential(BitsOf(whole), 32, max).starts != []
    ensures Position(whole, 0, 4, 32)
  {
    hide BitsOf, MagicAt, Sequential, QuickOk;
    var bits, starts := BitsOf(whole), Sequential(BitsOf(whole), 32, max).starts;
    WalkStarts(bits, 32, max);
    FirstStart(bits, 32, max);
    assert starts[0] in starts;
    forall q | 0 <= q < 32
      ensures !MagicAt(bits, q)
    {
      if MagicAt(bits, q) { OverlapOnlyAt45(bits, q, 32); }
    }
  }

  /** The starts chosen in the chunks are block starts of the stream. */
  ghost predicate ChosenAmong(chosen: seq<nat>, starts: seq<nat>)
  {
    forall i :: 0 <= i < |chosen| ==> chosen[i] in starts
  }

  lemma ChosenVisited(bits: Bitstring, p: nat, chosen: seq<nat>, max: nat)
    requires p <= |bits| && Sequential(bits, p, max).Blocks? && TextsFit(Sequential(bits, p, max).texts, max)
    requires ChosenAmong(chosen, Sequential(bits, p, max).starts)
    ensures AllVisited(bits, p, chosen, max)
  {
    hide Visits, TextsFit, Sequential;
    forall i | 0 <= i < |chosen|
      ensures Visits(bits, p, chosen[i], max)
    {
      StartsVisited(bits, p, chosen[i], max);
    }
  }

  lemma FirstStart(bits: Bitstring, p: nat, max: nat)
    requires p <= |bits| && Sequential(bits, p, max).Blocks? && Sequential(bits, p, max).starts != []
    ensures Sequential(bits, p, max).starts[0] == p
  {
    hide Value, AllocBlock, ReadBlock;
  }

  /** Of a file with one stream, decoding chunk by chunk yields what `decompress` yields, if the starts
      that were chosen are among the blocks that `decompress` visits and the carries fit; and it yields
      nothing if one does not fit. */
  lemma ChunkedIsDecompress(whole: seq<Byte>, size: nat, n: nat, max: nat, headroom: nat)
    requires size >= 1 && |whole| >= 4 && AllSplit(Chunks(whole[..4], whole[4..], size, n, max, headroom))
    requires Sequential(BitsOf(whole), 32, max).Blocks? && Sequential(BitsOf(whole), 32, max).starts != []
    requires ChosenAmong(ChosenStarts(whole, 0, 4, size, n, max), Sequential(BitsOf(whole), 32, max).starts)
    requires TextsFit(Sequential(BitsOf(whole), 32, max).texts, max)
    requires AfterFinal(BitsOf(whole), EndMarker(BitsOf(whole), 32, max)).Stop?
    ensures
      var cs := Chunks(whole[..4], whole[4..], size, n, max, headroom);
      if 4 <= headroom && CarriesFit(KeptStarts(whole, 0, 4, size, n, max), 4, size, headroom)
      then AllFit(cs) && JoinedChunks(cs) == Segment(Flatten(Sequential(BitsOf(whole), 32, max).texts))
      else !AllFit(cs) && !JoinedChunks(cs).Segment?
  {
    hide BitsOf, Walk, Chunks, ChosenStarts, ChosenAmong, AllVisited, AllSplit, AllFit, JoinedChunks, AfterFinal, TextsFit, Position, Flatten, Sequential, SegmentAt, QuickOk, CarriesFit, KeptStarts;
    StreamPosition(whole, max);
    ChosenVisited(BitsOf(whole), 32, ChosenStarts(whole, 0, 4, size, n, max), max);
    assert whole[0..4] == whole[..4];
    ChunkedIsWhole(whole, 0, 4, 32, size, n, max, headroom);
    WalkIsSequential(BitsOf(whole), 32, max);
    WalkAtEnd(BitsOf(whole), 32, max);
    var out := Flatten(Sequential(BitsOf(whole), 32, max).texts);
    assert out + [] == out;
  }

  lemma {:induction false} WalkAtEnd(bits: Bitstring, p: nat, max: nat)
    requires p <= |bits| && Sequential(bits, p, max).Blocks? && AfterFinal(bits, EndMarker(bits, p, max)).Stop?
    ensures Walk(bits, EndMarker(bits, p, max), |bits|, max) == Segment([])
    decreases |bits| - p
  {
    hide Value, AllocBlock, ReadBlock, AfterFinal;
    if Value(bits[p..p + 48]) == BLOCK_MAGIC {
      WalkAtEnd(bits, AllocBlock(bits, p + 48, max).pos, max);
    }
  }
}
