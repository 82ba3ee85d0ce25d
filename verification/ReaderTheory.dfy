/** The readers of `src/reader.rs` on values: what one call serves, and what is still to come. */
module ReaderTheory {
  import opened Wrappers
  import opened Errors
  import opened Bits
  import opened Lists
  import opened Magic
  import opened ScanTheory
  import opened BlockSpec
  import opened BlockRoundTrip
  import opened StreamTheory
  import ChunkedTheory

  // ---------------------------------------------------------------------------------------------
  // Files in which every magic starts a block
  // ---------------------------------------------------------------------------------------------

  /** Where the blocks of a file start, and their texts. */
  datatype Layout = Layout(starts: seq<nat>, texts: seq<seq<Byte>>)

  function EndOf(bits: Bitstring, f: Layout, k: nat): nat
    requires k < |f.starts|
  {
    if k + 1 < |f.starts| then f.starts[k + 1] else |bits|
  }

  /** Block `k` decodes, without running into the next one. */
  ghost predicate BlockAt(bits: Bitstring, f: Layout, k: nat, max: nat)
    requires k < |f.starts| == |f.texts|
  {
    && f.starts[k] + 48 <= |bits|
    && AllocBlock(bits, f.starts[k] + 48, max).Ok?
    && AllocBlock(bits, f.starts[k] + 48, max).value == f.texts[k]
    && AllocBlock(bits, f.starts[k] + 48, max).pos <= EndOf(bits, f, k)
  }

  ghost predicate LaidOut(bits: Bitstring, f: Layout, max: nat)
  {
    && |f.starts| == |f.texts| && Increasing(f.starts) && |bits| % 8 == 0
    && (forall q :: 0 <= q < |bits| ==> (MagicAt(bits, q) <==> q in f.starts))
    && (forall k :: 0 <= k < |f.starts| ==> BlockAt(bits, f, k, max))
  }

  lemma BlockRoom(bits: Bitstring, f: Layout, k: nat, max: nat)
    requires LaidOut(bits, f, max) && k < |f.starts|
    ensures f.starts[k] + 105 < EndOf(bits, f, k) <= |bits| && |f.texts| == |f.starts| && f.texts[k] != []
    ensures BlockAt(bits, f, k, max) && MagicAt(bits, f.starts[k])
  {
    hide MagicAt, AllocBlock, Increasing;
    assert BlockAt(bits, f, k, max);
    if k + 1 < |f.starts| { assert BlockAt(bits, f, k + 1, max); }
    assert f.starts[k] in f.starts;
  }

  /** A stream that `decompress` accepts and that has no other magics is such a file. */
  lemma {:induction false} WalkBlocks(bits: Bitstring, p: nat, max: nat, k: nat)
    requires p <= |bits| && Sequential(bits, p, max).Blocks? && k < |Sequential(bits, p, max).starts|
    ensures var f := Layout(Sequential(bits, p, max).starts, Sequential(bits, p, max).texts); BlockAt(bits, f, k, max)
    decreases |bits| - p
  {
    hide AllocBlock, Value;
    var b := AllocBlock(bits, p + 48, max);
    var w, rest := Sequential(bits, p, max), Sequential(bits, b.pos, max);
    assert w.texts == [b.value] + rest.texts && w.starts == [p] + rest.starts;
    if k > 0 {
      WalkBlocks(bits, b.pos, max, k - 1);
    } else if |rest.starts| > 0 {
      ChunkedTheory.FirstStart(bits, b.pos, max);
    }
  }

  lemma SequentialLaidOut(bits: Bitstring, p: nat, max: nat)
    requires |bits| % 8 == 0 && p <= |bits| && Sequential(bits, p, max).Blocks? && NoStrayMagic(bits, Sequential(bits, p, max).starts)
    ensures LaidOut(bits, Layout(Sequential(bits, p, max).starts, Sequential(bits, p, max).texts), max)
  {
    hide MagicAt, Sequential, BlockAt;
    var f := Layout(Sequential(bits, p, max).starts, Sequential(bits, p, max).texts);
    WalkStarts(bits, p, max);
    forall k | 0 <= k < |f.starts|
      ensures BlockAt(bits, f, k, max)
    {
      WalkBlocks(bits, p, max, k);
    }
  }

  // ---------------------------------------------------------------------------------------------
  // A buffer inside the file
  // ---------------------------------------------------------------------------------------------

  /** `i` is the first block that does not start before bit `p`. */
  predicate FirstFrom(starts: seq<nat>, i: nat, p: nat)
  {
    i <= |starts| && (i > 0 ==> starts[i - 1] < p) && (i < |starts| ==> p <= starts[i])
  }

  function Down(s: seq<nat>, d: nat): (r: seq<nat>)
    ensures |r| == |s| && forall k :: 0 <= k < |r| ==> r[k] == if s[k] >= d then s[k] - d else 0
  {
    seq(|s|, k requires 0 <= k < |s| => if s[k] >= d then s[k] - d else 0)
  }

  lemma DownCons(s: seq<nat>, i: nat, j: nat, d: nat)
    requires i < j <= |s| && s[i] >= d
    ensures Down(s[i..j], d) == [s[i] - d] + Down(s[i + 1..j], d)
    ensures Down(s[i..i], d) == []
  {
  }

  lemma BeforeFirst(starts: seq<nat>, i: nat, p: nat, q: nat)
    requires Increasing(starts) && FirstFrom(starts, i, p) && p <= q && q in starts
    ensures i < |starts| && starts[i] <= q
  {
    var k :| 0 <= k < |starts| && starts[k] == q;
    Ordered(starts);
  }

  lemma Ordered(starts: seq<nat>)
    requires Increasing(starts)
    ensures forall x, y :: 0 <= x <= y < |starts| ==> starts[x] <= starts[y]
  {
  }

  /** The next magic the scan of a buffer finds is the next block start; the scan of a buffer that
      reaches the end of the file misses none. */
  lemma ScanNext(bits: Bitstring, data: Bitstring, a: nat, b: nat, f: Layout, max: nat, i: nat, bit: nat)
    requires ChunkedTheory.PartOf(bits, data, a, b) && LaidOut(bits, f, max) && FirstFrom(f.starts, i, 8 * a + bit)
    requires |data| == 8 * (b - a)
    ensures var r := ScanTheory.Scan(data, b - a, bit);
      && (r.Some? ==> i < |f.starts| && r.value + 8 * a == f.starts[i] && f.starts[i] + 48 <= 8 * b)
      && (r.None? && 8 * b == |bits| ==> i == |f.starts|)
  {
    hide MagicAt, ScanTheory.Scan, BlockAt;
    var r := ScanTheory.Scan(data, b - a, bit);
    ScanIsLeast(data, b - a, bit);
    if r.Some? {
      var p := r.value;
      MagicIsInside(data, p);
      ChunkedTheory.MagicInChunk(bits, data, a, b, p);
      BeforeFirst(f.starts, i, 8 * a + bit, p + 8 * a);
      if f.starts[i] < p + 8 * a {
        BlockRoom(bits, f, i, max);
        ChunkedTheory.MagicInChunk(bits, data, a, b, f.starts[i] - 8 * a);
      }
    } else if 8 * b == |bits| && i < |f.starts| {
      BlockRoom(bits, f, i, max);
      ChunkedTheory.MagicInChunk(bits, data, a, b, f.starts[i] - 8 * a);
    }
  }

  /** The scan of a buffer finds the block starts in it one after the other, up to some block `j`. */
  lemma {:induction false} ScanOfPart(bits: Bitstring, data: Bitstring, a: nat, b: nat, f: Layout, max: nat, i: nat, bit: nat) returns (j: nat)
    requires ChunkedTheory.PartOf(bits, data, a, b) && LaidOut(bits, f, max) && FirstFrom(f.starts, i, 8 * a + bit)
    requires |data| == 8 * (b - a)
    ensures i <= j <= |f.starts| && (8 * b == |bits| ==> j == |f.starts|)
    ensures ScanAll(data, b - a, bit) == Down(f.starts[i..j], 8 * a)
    ensures i < j ==> f.starts[j - 1] + 48 <= 8 * b
    decreases |f.starts| - i
  {
    hide MagicAt, ScanTheory.Scan, BlockAt, LaidOut, ChunkedTheory.PartOf, Down;
    ScanNext(bits, data, a, b, f, max, i, bit);
    var r := ScanTheory.Scan(data, b - a, bit);
    if r.Some? {
      BlockRoom(bits, f, i, max);
      j := ScanOfPart(bits, data, a, b, f, max, i + 1, r.value + 48);
      DownCons(f.starts, i, j, 8 * a);
    } else {
      j := i;
      assert f.starts[i..i] == [];
      NothingDown(8 * a);
    }
  }

  lemma NothingDown(d: nat)
    ensures Down([], d) == []
  {
  }

  /** The blocks of a buffer that are followed by another start, or by the end of the file, decode to
      their texts. */
  lemma {:induction false} PartDecodes(bits: Bitstring, data: Bitstring, a: nat, b: nat, f: Layout, max: nat, i: nat, j: nat)
    requires ChunkedTheory.PartOf(bits, data, a, b) && LaidOut(bits, f, max) && |data| == 8 * (b - a)
    requires i <= j <= |f.starts| && (i < j ==> 8 * a <= f.starts[i]) && (i < j ==> EndOf(bits, f, j - 1) <= 8 * b)
    ensures forall k :: 0 <= k < |Down(f.starts[i..j], 8 * a)| ==> Down(f.starts[i..j], 8 * a)[k] + 48 <= |data|
    ensures Separate(data, Down(f.starts[i..j], 8 * a), max) == Blocks(f.texts[i..j], Down(f.starts[i..j], 8 * a))
    decreases j - i
  {
    hide MagicAt, BlockAt, LaidOut, ChunkedTheory.PartOf, AllocBlock, Down, EndOf;
    SameLength(bits, f, max);
    if i == j {
      assert f.starts[i..j] == [] && f.texts[i..j] == [];
      NothingDown(8 * a);
    } else {
      BlockRoom(bits, f, i, max);
      EndsInOrder(bits, f, max, i, j);
      PartDecodes(bits, data, a, b, f, max, i + 1, j);
      BlockInPart(bits, data, a, b, f, max, i);
      DownCons(f.starts, i, j, 8 * a);
      assert f.texts[i..j] == [f.texts[i]] + f.texts[i + 1..j];
      var ds := Down(f.starts[i..j], 8 * a);
      assert ds[1..] == Down(f.starts[i + 1..j], 8 * a);
      forall k | 0 <= k < |ds|
        ensures ds[k] + 48 <= |data|
      {
        if k > 0 { assert ds[k] == ds[1..][k - 1]; }
      }
    }
  }

  lemma SameLength(bits: Bitstring, f: Layout, max: nat)
    requires LaidOut(bits, f, max)
    ensures |f.texts| == |f.starts|
  {
  }

  /** Blocks end in order. */
  lemma {:induction false} EndsInOrder(bits: Bitstring, f: Layout, max: nat, i: nat, j: nat)
    requires LaidOut(bits, f, max) && i < j <= |f.starts|
    ensures EndOf(bits, f, i) <= EndOf(bits, f, j - 1)
    ensures i + 1 < j ==> f.starts[i] <= f.starts[i + 1] && EndOf(bits, f, i) == f.starts[i + 1]
  {
    hide MagicAt, BlockAt;
    if i + 1 < j {
      BlockRoom(bits, f, j - 1, max);
      assert f.starts[i] < f.starts[i + 1];
      assert i + 1 < j - 1 ==> f.starts[i + 1] < f.starts[j - 1];
    }
  }

  lemma BlockInPart(bits: Bitstring, data: Bitstring, a: nat, b: nat, f: Layout, max: nat, i: nat)
    requires ChunkedTheory.PartOf(bits, data, a, b) && LaidOut(bits, f, max) && |data| == 8 * (b - a)
    requires i < |f.starts| && 8 * a <= f.starts[i] && EndOf(bits, f, i) <= 8 * b
    ensures f.starts[i] - 8 * a + 48 <= |data|
    ensures AllocBlock(data, f.starts[i] - 8 * a + 48, max).Ok? && AllocBlock(data, f.starts[i] - 8 * a + 48, max).value == f.texts[i]
  {
    hide MagicAt, LaidOut, AllocBlock, EndOf;
    BlockRoom(bits, f, i, max);
    var p := f.starts[i] + 48;
    PartAgrees(bits, data, a, b, p, AllocBlock(bits, p, max).pos);
    AllocIsLocal(bits, p, max, data, -8 * a);
  }

  lemma PartAgrees(bits: Bitstring, data: Bitstring, a: nat, b: nat, p: nat, hi: nat)
    requires ChunkedTheory.PartOf(bits, data, a, b) && 8 * a <= p <= hi <= 8 * b
    ensures Agree(bits, data, -8 * a, p, hi)
  {
  }

  // ---------------------------------------------------------------------------------------------
  // The streaming reader
  // ---------------------------------------------------------------------------------------------

  /** Compressed bytes in the buffer, compressed bytes not yet read, whether the source has reported its
      end, decompressed bytes, and how many of them are served. */
  datatype Stream = Stream(comp: seq<Byte>, rest: seq<Byte>, eof: bool, out: seq<Byte>, pos: nat)

  /** What one call serves. */
  datatype Served = Bytes(bytes: seq<Byte>) | Failed(error: StreamError)

  /** Reading up to `size` more bytes; fewer mean the end of the source. */
  function Topped(st: Stream, size: nat): Stream
  {
    if st.eof then st
    else
      var k := if |st.rest| < size then |st.rest| else size;
      st.(comp := st.comp + st.rest[..k], rest := st.rest[k..], eof := k < size)
  }

  /** The block magics found in the buffer. */
  function Found(comp: seq<Byte>): seq<nat>
  {
    ScanAll(BitsOf(comp), |comp|, 0)
  }

  /** How many of them are decoded: all at the end of the source, all but the last before. */
  function DecodeCount(n: nat, eof: bool): nat
  {
    if eof then n else if n > 1 then n - 1 else 0
  }

  /** The texts before the first block that fails. */
  ghost function Sound(bits: Bitstring, starts: seq<nat>, max: nat): seq<seq<Byte>>
    requires forall i :: 0 <= i < |starts| ==> starts[i] + 48 <= |bits|
  {
    if starts == [] then []
    else
      var r := AllocBlock(bits, starts[0] + 48, max);
      if r.Ok? then [r.value] + Sound(bits, starts[1..], max) else []
  }

  /** The block at this start fails. */
  ghost predicate FailsWith(bits: Bitstring, start: nat, max: nat, e: BlockError)
  {
    start + 48 <= |bits| && AllocBlock(bits, start + 48, max) == Err(e)
  }

  /** The blocks at these starts have these texts. */
  ghost predicate HaveTexts(bits: Bitstring, starts: seq<nat>, texts: seq<seq<Byte>>, max: nat)
  {
    && |texts| <= |starts|
    && forall i :: 0 <= i < |texts| ==>
         starts[i] + 48 <= |bits| && AllocBlock(bits, starts[i] + 48, max).Ok? && AllocBlock(bits, starts[i] + 48, max).value == texts[i]
  }

  /** When decoding blocks one by one fails, it is with the error of the first that fails, and the texts
      before that one are those of all blocks before it. */
  lemma {:induction false} FirstFailure(bits: Bitstring, starts: seq<nat>, max: nat, w: Walked, texts: seq<seq<Byte>>)
    requires (forall i :: 0 <= i < |starts| ==> starts[i] + 48 <= |bits|)
    requires w == Separate(bits, starts, max) && w.Broken? && texts == Sound(bits, starts, max)
    ensures |texts| < |starts| && HaveTexts(bits, starts, texts, max)
    ensures w.error.InBlock? && FailsWith(bits, starts[|texts|], max, w.error.error)
    decreases |starts|
  {
    hide AllocBlock, HaveTexts;
    if AllocBlock(bits, starts[0] + 48, max).Ok? {
      FirstFailure(bits, starts[1..], max, Separate(bits, starts[1..], max), Sound(bits, starts[1..], max));
      assert texts == [AllocBlock(bits, starts[0] + 48, max).value] + Sound(bits, starts[1..], max);
      OneMoreText(bits, starts, texts, max);
    } else {
      NoTexts(bits, starts, max);
    }
  }

  lemma NoTexts(bits: Bitstring, starts: seq<nat>, max: nat)
    ensures HaveTexts(bits, starts, [], max)
  {
  }

  lemma OneMoreText(bits: Bitstring, starts: seq<nat>, texts: seq<seq<Byte>>, max: nat)
    requires starts != [] && texts != [] && HaveTexts(bits, starts[1..], texts[1..], max)
    requires starts[0] + 48 <= |bits| && AllocBlock(bits, starts[0] + 48, max).Ok? && AllocBlock(bits, starts[0] + 48, max).value == texts[0]
    ensures HaveTexts(bits, starts, texts, max)
  {
    hide AllocBlock;
    forall i | 0 <= i < |texts|
      ensures starts[i] + 48 <= |bits| && AllocBlock(bits, starts[i] + 48, max).Ok? && AllocBlock(bits, starts[i] + 48, max).value == texts[i]
    {
      if i > 0 { assert starts[i] == starts[1..][i - 1] && texts[i] == texts[1..][i - 1]; }
    }
  }

  lemma FoundInside(comp: seq<Byte>)
    ensures forall i :: 0 <= i < |Found(comp)| ==> Found(comp)[i] + 48 <= |BitsOf(comp)| == 8 * |comp|
  {
    hide BitsOf;
    FoundFrom(BitsOf(comp), |comp|, 0);
  }

  lemma {:induction false} FoundFrom(bits: Bitstring, len: nat, bit: nat)
    requires |bits| == 8 * len
    ensures forall i :: 0 <= i < |ScanAll(bits, len, bit)| ==> ScanAll(bits, len, bit)[i] + 48 <= |bits|
    decreases if bit < |bits| then |bits| - bit else 0
  {
    hide MagicAt, ScanTheory.Scan;
    var r := ScanTheory.Scan(bits, len, bit);
    if r.Some? {
      MagicIsInside(bits, r.value);
      FoundFrom(bits, len, r.value + 48);
    }
  }

  /** Decoding what is in the buffer. */
  ghost function Decoded(st: Stream, max: nat): (r: (Stream, Option<StreamError>))
  {
    FoundInside(st.comp);
    var found := Found(st.comp);
    var count := DecodeCount(|found|, st.eof);
    if found == [] then (if st.eof then st.(comp := [], out := [], pos := 0) else st, None)
    else if count == 0 then (st, None)
    else
      var bits := BitsOf(st.comp);
      match Separate(bits, found[..count], max)
      case Blocks(texts, _) =>
        (st.(comp := if count < |found| then st.comp[found[count] / 8..] else [], out := Flatten(texts), pos := 0), None)
      case Broken(e) => (st.(out := Flatten(Sound(bits, found[..count], max)), pos := 0), Some(e))
      case Unmodelled => (st, None)
  }

  /** `fill`. */
  ghost function Fill(st: Stream, size: nat, max: nat): (r: (Stream, Option<StreamError>))
  {
    if st.eof && |st.comp| <= 4 then (st.(out := [], pos := 0), None)
    else Decoded(Topped(st, size), max)
  }

  function Min(a: nat, b: nat): nat
  {
    if a < b then a else b
  }

  /** Serving at most `len` decompressed bytes. */
  function Serve(st: Stream, len: nat): (r: (Stream, Served))
    requires st.pos <= |st.out|
  {
    var n := Min(len, |st.out| - st.pos);
    (st.(pos := st.pos + n), Bytes(st.out[st.pos..st.pos + n]))
  }

  lemma FillPos(st: Stream, size: nat, max: nat)
    requires st.pos <= |st.out|
    ensures Fill(st, size, max).0.pos <= |Fill(st, size, max).0.out|
  {
    hide BitsOf, Found, Separate, Sound;
  }

  /** `read` into a buffer of `len` bytes. */
  ghost function ReadStep(st: Stream, len: nat, size: nat, max: nat): (r: (Stream, Served))
    requires st.pos <= |st.out|
    ensures r.0.pos <= |r.0.out|
  {
    FillPos(st, size, max);
    if st.pos < |st.out| then Serve(st, len)
    else
      var (filled, error) := Fill(st, size, max);
      if error.Some? then (filled, Failed(error.value))
      else Serve(filled, len)
  }

  // ---------------------------------------------------------------------------------------------
  // What is still to come
  // ---------------------------------------------------------------------------------------------

  /** The reader has the file's bytes `[a, b)` in its buffer and has decoded the blocks before `i`. */
  ghost predicate At(whole: seq<Byte>, f: Layout, st: Stream, i: nat, a: nat, b: nat)
  {
    && a <= b <= |whole| && st.comp == whole[a..b] && st.rest == whole[b..]
    && i <= |f.starts| == |f.texts| && st.pos <= |st.out| && FirstFrom(f.starts, i, 8 * a) && (st.eof ==> b == |whole|)
  }

  /** What the reader has still to serve. */
  function Ahead(f: Layout, st: Stream, i: nat): seq<Byte>
    requires i <= |f.texts| && st.pos <= |st.out|
  {
    st.out[st.pos..] + Flatten(f.texts[i..])
  }

  /** The buffer is short of block magics: the source has not reported its end, and a fill finds fewer
      than two. */
  predicate Starves(st: Stream, size: nat)
  {
    !Topped(st, size).eof && |Found(Topped(st, size).comp)| < 2
  }

  lemma ToppedAt(whole: seq<Byte>, f: Layout, st: Stream, i: nat, a: nat, b: nat, size: nat) returns (b': nat)
    requires At(whole, f, st, i, a, b)
    ensures b <= b' && At(whole, f, Topped(st, size), i, a, b')
    ensures Topped(st, size).out == st.out && Topped(st, size).pos == st.pos
  {
    hide FirstFrom;
    if st.eof {
      b' := b;
    } else {
      b' := b + Min(|st.rest|, size);
      assert whole[b..][..b' - b] == whole[b..b'];
      assert whole[a..b] + whole[b..b'] == whole[a..b'];
      assert whole[b..][b' - b..] == whole[b'..];
    }
  }

  /** The magics in the buffer are those of the blocks `i` to `j`; at the end of the source, of all that
      are left. */
  ghost predicate Scanned(whole: seq<Byte>, f: Layout, st: Stream, i: nat, a: nat, b: nat, j: nat)
  {
    && i <= j <= |f.starts| && (st.eof ==> j == |f.starts|) && a <= b
    && Found(st.comp) == Down(f.starts[i..j], 8 * a) && (i < j ==> f.starts[j - 1] + 48 <= 8 * b && 8 * a <= f.starts[i])
    && ChunkedTheory.PartOf(BitsOf(whole), BitsOf(st.comp), a, b) && |BitsOf(st.comp)| == 8 * (b - a) && |BitsOf(whole)| == 8 * |whole|
  }

  lemma ScannedInside(whole: seq<Byte>, f: Layout, st: Stream, i: nat, a: nat, b: nat, j: nat)
    requires Scanned(whole, f, st, i, a, b, j)
    ensures i <= j <= |f.starts| && (st.eof ==> j == |f.starts|) && |Found(st.comp)| == j - i
  {
    hide BitsOf, Found, ChunkedTheory.PartOf;
  }

  /** The scan of the buffer in terms of the file. */
  lemma FoundAt(whole: seq<Byte>, f: Layout, max: nat, st: Stream, i: nat, a: nat, b: nat) returns (j: nat)
    requires LaidOut(BitsOf(whole), f, max) && At(whole, f, st, i, a, b)
    ensures Scanned(whole, f, st, i, a, b, j)
  {
    hide BitsOf, LaidOut, ScanAll, Down, ChunkedTheory.PartOf;
    ChunkedTheory.ChunkIsPart(whole, a, b);
    ChunkedTheory.PartLength(BitsOf(whole), BitsOf(whole[a..b]), a, b);
    j := ScanOfPart(BitsOf(whole), BitsOf(st.comp), a, b, f, max, i, 0);
  }

  lemma CountedStarts(starts: seq<nat>, i: nat, j: nat, count: nat, d: nat)
    requires i <= j <= |starts| && count <= j - i
    ensures Down(starts[i..j], d)[..count] == Down(starts[i..i + count], d)
  {
  }

  /** A block start kept in the buffer is the first magic of the bytes that are kept. */
  lemma KeptFirst(bits: Bitstring, f: Layout, max: nat, k: nat, p: nat)
    requires LaidOut(bits, f, max) && k < |f.starts| && p == 8 * (f.starts[k] / 8)
    ensures FirstFrom(f.starts, k, p)
  {
    hide MagicAt, BlockAt, LaidOut, Increasing;
    if k > 0 { BlockRoom(bits, f, k - 1, max); }
  }

  lemma FlattenSplit(texts: seq<seq<Byte>>, i: nat, m: nat)
    requires i <= m <= |texts|
    ensures Flatten(texts[i..m]) + Flatten(texts[m..]) == Flatten(texts[i..])
    ensures i < m && texts[i] != [] ==> Flatten(texts[i..m]) != []
  {
    assert texts[i..] == texts[i..m] + texts[m..];
    FlattenAppend(texts[i..m], texts[m..]);
    if i < m {
      assert texts[i..m] == [texts[i]] + texts[i + 1..m];
      FlattenCons(texts[i], texts[i + 1..m]);
    }
  }

  /** The buffer after its first `count` blocks are decoded to `texts`. */
  function Drained(st: Stream, count: nat, texts: seq<seq<Byte>>): Stream
  {
    var found := Found(st.comp);
    st.(comp := if count < |found| && found[count] / 8 <= |st.comp| then st.comp[found[count] / 8..] else [],
        out := Flatten(texts), pos := 0)
  }

  lemma DecodedBlocks(st: Stream, max: nat, texts: seq<seq<Byte>>)
    requires DecodeCount(|Found(st.comp)|, st.eof) > 0
    requires forall i :: 0 <= i < |Found(st.comp)| ==> Found(st.comp)[i] + 48 <= |BitsOf(st.comp)|
    requires var w := Separate(BitsOf(st.comp), Found(st.comp)[..DecodeCount(|Found(st.comp)|, st.eof)], max); w.Blocks? && w.texts == texts
    ensures Decoded(st, max) == (Drained(st, DecodeCount(|Found(st.comp)|, st.eof), texts), None)
  {
    hide BitsOf, Found, Separate, Flatten;
    FoundInside(st.comp);
  }

  lemma DecodedNothing(st: Stream, max: nat)
    requires DecodeCount(|Found(st.comp)|, st.eof) == 0
    ensures Decoded(st, max) == (if st.eof then st.(comp := [], out := [], pos := 0) else st, None)
    ensures st.eof ==> Found(st.comp) == []
    ensures !st.eof ==> |Found(st.comp)| < 2
  {
    hide BitsOf, Found, Separate, Flatten;
  }

  /** The state after decoding: a place in the file, with nothing lost of what was ahead, and something
      to serve unless nothing was ahead or `starved`. */
  ghost predicate MovedOn(whole: seq<Byte>, f: Layout, i: nat, st: Stream, i': nat, a': nat, b: nat, starved: bool)
  {
    && At(whole, f, st, i', a', b) && i <= |f.texts|
    && Ahead(f, st, i') == Flatten(f.texts[i..])
    && (st.pos == |st.out| <==> i == |f.starts| || starved)
  }

  /** Decoding the buffer moves texts from ahead into the output, and loses none. */
  lemma DecodedKeeps(whole: seq<Byte>, f: Layout, max: nat, st: Stream, i: nat, a: nat, b: nat) returns (i': nat, a': nat)
    requires LaidOut(BitsOf(whole), f, max) && At(whole, f, st, i, a, b) && st.pos == |st.out|
    ensures Decoded(st, max).1 == None
    ensures MovedOn(whole, f, i, Decoded(st, max).0, i', a', b, !st.eof && |Found(st.comp)| < 2)
  {
    hide BitsOf, LaidOut, Found, Separate, Flatten, ChunkedTheory.PartOf, Down, FirstFrom, Decoded, Drained, At, Increasing, MovedOn, Scanned;
    var j := FoundAt(whole, f, max, st, i, a, b);
    ScannedInside(whole, f, st, i, a, b, j);
    if DecodeCount(|Found(st.comp)|, st.eof) == 0 {
      i', a' := i, if st.eof then b else a;
      DecodesNothing(whole, f, max, st, i, a, b, j);
    } else {
      i', a' := DecodesSome(whole, f, max, st, i, a, b, j);
    }
  }

  lemma DecodesNothing(whole: seq<Byte>, f: Layout, max: nat, st: Stream, i: nat, a: nat, b: nat, j: nat)
    requires At(whole, f, st, i, a, b) && st.pos == |st.out| && DecodeCount(|Found(st.comp)|, st.eof) == 0
    requires i <= j && (st.eof ==> j == |f.starts|) && |Found(st.comp)| == j - i
    ensures Decoded(st, max).1 == None
    ensures MovedOn(whole, f, i, Decoded(st, max).0, i, if st.eof then b else a, b, !st.eof && |Found(st.comp)| < 2)
  {
    hide BitsOf, Found, Flatten, Decoded, At, Ahead;
    AtInside(whole, f, st, i, a, b);
    DecodedNothing(st, max);
    if st.eof { NothingLeft(whole, f, st, i, a, b); }
    NothingBefore(f, st, i);
  }

  lemma DecodesSome(whole: seq<Byte>, f: Layout, max: nat, st: Stream, i: nat, a: nat, b: nat, j: nat) returns (i': nat, a': nat)
    requires LaidOut(BitsOf(whole), f, max) && At(whole, f, st, i, a, b) && st.pos == |st.out|
    requires DecodeCount(|Found(st.comp)|, st.eof) > 0 && Scanned(whole, f, st, i, a, b, j)
    ensures Decoded(st, max).1 == None
    ensures MovedOn(whole, f, i, Decoded(st, max).0, i', a', b, !st.eof && |Found(st.comp)| < 2)
  {
    hide BitsOf, LaidOut, Found, Separate, Flatten, ChunkedTheory.PartOf, Down, FirstFrom, Decoded, Drained, At, Increasing, Ahead, MovedOn, Scanned;
    AtInside(whole, f, st, i, a, b);
    ScannedInside(whole, f, st, i, a, b, j);
    var count := DecodeCount(|Found(st.comp)|, st.eof);
    i' := i + count;
    a' := if i' < j then f.starts[i'] / 8 else b;
    SomeDecode(whole, f, max, st, i, a, b, j, count);
    DrainedAt(whole, f, max, st, i, a, b, j, count, a');
    BlockRoom(BitsOf(whole), f, i, max);
    DrainedMoved(whole, f, st, i, count, a', b, !st.eof && |Found(st.comp)| < 2);
  }

  /** The stream has `count` blocks from `i` on decoded, and keeps the bytes up to `b` from the next one's
      start on, or from `b` on. */
  ghost predicate DecodedUpTo(whole: seq<Byte>, f: Layout, i: nat, count: nat, b: nat, all: bool, r: Stream)
  {
    && i + count <= |f.texts| && r.out == Flatten(f.texts[i..i + count])
    && (if all then r.comp == []
        else i + count < |f.starts| && f.starts[i + count] / 8 <= b <= |whole| && r.comp == whole[f.starts[i + count] / 8..b])
  }

  /** A decode before the end of the source decodes all blocks found but the last and keeps the bytes from
      that one on; at the end it decodes all and keeps nothing. */
  lemma DecodesAllButLast(whole: seq<Byte>, f: Layout, max: nat, st: Stream, i: nat, a: nat, b: nat)
    requires LaidOut(BitsOf(whole), f, max) && At(whole, f, st, i, a, b) && st.pos == |st.out|
    ensures !st.eof && |Found(st.comp)| >= 2 ==> DecodedUpTo(whole, f, i, |Found(st.comp)| - 1, b, false, Decoded(st, max).0)
    ensures !st.eof && |Found(st.comp)| < 2 ==> Decoded(st, max).0 == st
    ensures st.eof && |Found(st.comp)| >= 1 ==> DecodedUpTo(whole, f, i, |Found(st.comp)|, b, true, Decoded(st, max).0)
  {
    hide BitsOf, LaidOut, Found, Decoded, At, DecodedUpTo;
    if DecodeCount(|Found(st.comp)|, st.eof) == 0 {
      DecodedNothing(st, max);
    } else {
      DecodesCounted(whole, f, max, st, i, a, b, |Found(st.comp)|);
    }
  }

  lemma DecodesCounted(whole: seq<Byte>, f: Layout, max: nat, st: Stream, i: nat, a: nat, b: nat, n: nat)
    requires LaidOut(BitsOf(whole), f, max) && At(whole, f, st, i, a, b) && st.pos == |st.out|
    requires n == |Found(st.comp)| && DecodeCount(n, st.eof) > 0
    ensures DecodedUpTo(whole, f, i, DecodeCount(n, st.eof), b, st.eof, Decoded(st, max).0)
  {
    hide BitsOf, LaidOut, Found, Separate, Flatten, ChunkedTheory.PartOf, Down, FirstFrom, Decoded, Drained, At, Increasing, Scanned, AllocBlock;
    SameLength(BitsOf(whole), f, max);
    var j := FoundAt(whole, f, max, st, i, a, b);
    ScannedInside(whole, f, st, i, a, b, j);
    var count := DecodeCount(n, st.eof);
    var texts := f.texts[i..i + count];
    var a' := if i + count < j then f.starts[i + count] / 8 else b;
    SomeDecode(whole, f, max, st, i, a, b, j, count);
    DrainedAt(whole, f, max, st, i, a, b, j, count, a');
    DrainedParts(st, count, texts);
    DrainedText(st, count, texts);
    AtBytes(whole, f, Drained(st, count, texts), i + count, a', b);
  }

  lemma DrainedText(st: Stream, count: nat, texts: seq<seq<Byte>>)
    ensures Drained(st, count, texts).out == Flatten(texts)
  {
    hide Found, Flatten;
  }

  lemma AtBytes(whole: seq<Byte>, f: Layout, st: Stream, i: nat, a: nat, b: nat)
    requires At(whole, f, st, i, a, b)
    ensures a <= b <= |whole| && st.comp == whole[a..b]
  {
    hide FirstFrom;
  }

  lemma DrainedMoved(whole: seq<Byte>, f: Layout, st: Stream, i: nat, count: nat, a': nat, b: nat, starved: bool)
    requires 0 < count && i + count <= |f.texts| == |f.starts| && f.texts[i] != [] && !starved
    requires At(whole, f, Drained(st, count, f.texts[i..i + count]), i + count, a', b)
    ensures MovedOn(whole, f, i, Drained(st, count, f.texts[i..i + count]), i + count, a', b, starved)
  {
    hide Drained, At, Flatten, Ahead;
    DrainedAhead(f, st, i, count);
  }

  lemma SomeDecode(whole: seq<Byte>, f: Layout, max: nat, st: Stream, i: nat, a: nat, b: nat, j: nat, count: nat)
    requires LaidOut(BitsOf(whole), f, max) && At(whole, f, st, i, a, b)
    requires Scanned(whole, f, st, i, a, b, j) && 0 < count == DecodeCount(|Found(st.comp)|, st.eof)
    ensures i + count <= |f.texts| && Decoded(st, max) == (Drained(st, count, f.texts[i..i + count]), None)
  {
    hide BitsOf, LaidOut, Found, Separate, ChunkedTheory.PartOf, Down, FirstFrom, Increasing, Decoded, Drained;
    FoundInside(st.comp);
    CountedStarts(f.starts, i, j, count, 8 * a);
    if i + count < j {
      KeptBoundary(whole, f, max, st, i, a, b, j, i + count);
    } else {
      LastBoundary(BitsOf(whole), f, max, b);
    }
    PartDecodes(BitsOf(whole), BitsOf(st.comp), a, b, f, max, i, i + count);
    DecodedBlocks(st, max, f.texts[i..i + count]);
  }

  lemma DrainedAt(whole: seq<Byte>, f: Layout, max: nat, st: Stream, i: nat, a: nat, b: nat, j: nat, count: nat, a': nat)
    requires LaidOut(BitsOf(whole), f, max) && At(whole, f, st, i, a, b)
    requires Scanned(whole, f, st, i, a, b, j) && 0 < count == DecodeCount(|Found(st.comp)|, st.eof) && i + count <= |f.texts|
    requires a' == if i + count < j then f.starts[i + count] / 8 else b
    ensures At(whole, f, Drained(st, count, f.texts[i..i + count]), i + count, a', b)
  {
    hide BitsOf, LaidOut, Found, FirstFrom, Flatten, Increasing, ChunkedTheory.PartOf;
    DrainedParts(st, count, f.texts[i..i + count]);
    hide Drained;
    if i + count < j {
      KeptBoundary(whole, f, max, st, i, a, b, j, i + count);
    } else {
      LastBoundary(BitsOf(whole), f, max, b);
    }
  }

  lemma DrainedParts(st: Stream, count: nat, texts: seq<seq<Byte>>)
    ensures var r, found := Drained(st, count, texts), Found(st.comp);
      && r.rest == st.rest && r.eof == st.eof && r.pos == 0
      && (count < |found| && found[count] / 8 <= |st.comp| ==> r.comp == st.comp[found[count] / 8..])
      && (count >= |found| ==> r.comp == [])
  {
    hide Found, Flatten;
  }

  lemma DrainedAhead(f: Layout, st: Stream, i: nat, count: nat)
    requires 0 < count && i + count <= |f.texts| && f.texts[i] != []
    ensures var r := Drained(st, count, f.texts[i..i + count]);
      r.pos == 0 && r.out != [] && Ahead(f, r, i + count) == Flatten(f.texts[i..])
  {
    hide Flatten;
    FlattenSplit(f.texts, i, i + count);
    assert Flatten(f.texts[i..i + count])[0..] == Flatten(f.texts[i..i + count]);
  }

  lemma AtInside(whole: seq<Byte>, f: Layout, st: Stream, i: nat, a: nat, b: nat)
    requires At(whole, f, st, i, a, b)
    ensures a <= b <= |whole| && i <= |f.starts| == |f.texts| && st.pos <= |st.out| && (st.eof ==> b == |whole|)
  {
  }

  /** With everything served, only the blocks not yet decoded are ahead. */
  lemma NothingBefore(f: Layout, st: Stream, i: nat)
    requires i <= |f.texts| && st.pos == |st.out|
    ensures Ahead(f, st, i) == Flatten(f.texts[i..])
    ensures Ahead(f, st.(comp := [], out := [], pos := 0), i) == Flatten(f.texts[i..])
  {
    hide Flatten;
    assert [] + Flatten(f.texts[i..]) == Flatten(f.texts[i..]);
  }

  lemma NothingLeft(whole: seq<Byte>, f: Layout, st: Stream, i: nat, a: nat, b: nat)
    requires At(whole, f, st, i, a, b) && st.eof && i == |f.starts|
    ensures At(whole, f, st.(comp := [], out := [], pos := 0), i, b, b)
  {
  }

  lemma KeptBoundary(whole: seq<Byte>, f: Layout, max: nat, st: Stream, i: nat, a: nat, b: nat, j: nat, k: nat)
    requires LaidOut(BitsOf(whole), f, max) && At(whole, f, st, i, a, b)
    requires i < k < j <= |f.starts| && f.starts[j - 1] + 48 <= 8 * b && 8 * a <= f.starts[i]
    ensures 8 * a <= f.starts[k] && a <= f.starts[k] / 8 <= b && EndOf(BitsOf(whole), f, k - 1) <= 8 * b
    ensures (f.starts[k] - 8 * a) / 8 == f.starts[k] / 8 - a
    ensures st.comp[f.starts[k] / 8 - a..] == whole[f.starts[k] / 8..b]
    ensures FirstFrom(f.starts, k, 8 * (f.starts[k] / 8))
  {
    hide BitsOf, MagicAt, BlockAt, FirstFrom;
    assert f.starts[i] < f.starts[k];
    assert k < j - 1 ==> f.starts[k] < f.starts[j - 1];
    KeptFirst(BitsOf(whole), f, max, k, 8 * (f.starts[k] / 8));
    ChunkedTheory.SliceEnd(whole, a, f.starts[k] / 8, b);
  }

  lemma LastBoundary(bits: Bitstring, f: Layout, max: nat, b: nat)
    requires LaidOut(bits, f, max) && 8 * b == |bits|
    ensures FirstFrom(f.starts, |f.starts|, 8 * b)
    ensures |f.starts| > 0 ==> EndOf(bits, f, |f.starts| - 1) <= 8 * b
  {
    hide LaidOut, MagicAt, BlockAt;
    if |f.starts| > 0 { BlockRoom(bits, f, |f.starts| - 1, max); }
  }

  /** A fill keeps the reader's place in the file. */
  lemma FillKeeps(whole: seq<Byte>, f: Layout, max: nat, st: Stream, i: nat, a: nat, b: nat, size: nat) returns (i': nat, a': nat, b': nat)
    requires LaidOut(BitsOf(whole), f, max) && At(whole, f, st, i, a, b) && st.pos == |st.out|
    ensures Fill(st, size, max).1 == None && MovedOn(whole, f, i, Fill(st, size, max).0, i', a', b', Starves(st, size))
  {
    hide BitsOf, LaidOut, Found, Flatten, FirstFrom, Decoded, At, Topped, Ahead;
    AtInside(whole, f, st, i, a, b);
    if st.eof && |st.comp| <= 4 {
      i', a', b' := i, a, b;
      ShortRest(whole, f, max, st, i, a, b);
      NothingBefore(f, st, i);
    } else {
      b' := ToppedAt(whole, f, st, i, a, b, size);
      i', a' := DecodedKeeps(whole, f, max, Topped(st, size), i, a, b');
    }
  }

  lemma ShortRest(whole: seq<Byte>, f: Layout, max: nat, st: Stream, i: nat, a: nat, b: nat)
    requires LaidOut(BitsOf(whole), f, max) && At(whole, f, st, i, a, b) && st.eof && |st.comp| <= 4
    ensures i == |f.starts| && At(whole, f, st.(out := [], pos := 0), i, a, b)
    ensures Ahead(f, st.(out := [], pos := 0), i) == Flatten(f.texts[i..])
  {
    hide BitsOf, LaidOut, MagicAt, Flatten;
    if i < |f.starts| {
      ChunkedTheory.ChunkIsPart(whole, a, b);
      BlockRoom(BitsOf(whole), f, i, max);
    }
    NothingBefore(f, st.(out := [], pos := 0), i);
  }

  lemma ServeKeeps(f: Layout, st: Stream, i: nat, len: nat)
    requires i <= |f.texts| && st.pos <= |st.out|
    ensures var r := Serve(st, len);
      && r.1.Bytes? && r.0.pos <= |st.out| && r.0 == st.(pos := r.0.pos)
      && |r.1.bytes| <= len && r.1.bytes + Ahead(f, r.0, i) == Ahead(f, st, i)
      && (len > 0 ==> (r.1.bytes == [] <==> st.pos == |st.out|))
  {
    hide Flatten;
    var n := Min(len, |st.out| - st.pos);
    TakeFront(st.out, st.pos, st.pos + n, Flatten(f.texts[i..]));
  }

  /** One read, of whatever length: it serves the next bytes, neither losing nor repeating any; with a
      nonempty buffer it serves none exactly when all is served, or when everything decoded is served
      and the fill starves.  In the second case the reader reports the end too early, but later reads
      go on. */
  lemma ReadKeeps(whole: seq<Byte>, f: Layout, max: nat, st: Stream, i: nat, a: nat, b: nat, len: nat, size: nat) returns (i': nat, a': nat, b': nat)
    requires LaidOut(BitsOf(whole), f, max) && At(whole, f, st, i, a, b)
    ensures st.pos <= |st.out| && i <= |f.starts| == |f.texts|
    ensures var r := ReadStep(st, len, size, max);
      && r.1.Bytes? && |r.1.bytes| <= len && At(whole, f, r.0, i', a', b')
      && r.1.bytes + Ahead(f, r.0, i') == Ahead(f, st, i)
      && (len > 0 ==> (r.1.bytes == [] <==> st.pos == |st.out| && (i == |f.starts| || Starves(st, size))))
  {
    hide BitsOf, LaidOut, Flatten, FirstFrom, Fill, At, Starves, Serve, Ahead;
    AtInside(whole, f, st, i, a, b);
    if st.pos < |st.out| {
      i', a', b' := i, a, b;
      ServeKeeps(f, st, i, len);
      AtPos(whole, f, st, i, a, b, Serve(st, len).0.pos);
    } else {
      i', a', b' := FillKeeps(whole, f, max, st, i, a, b, size);
      var filled := Fill(st, size, max).0;
      AtInside(whole, f, filled, i', a', b');
      ServeKeeps(f, filled, i', len);
      AtPos(whole, f, filled, i', a', b', Serve(filled, len).0.pos);
      NothingBefore(f, st, i);
    }
  }

  lemma AtPos(whole: seq<Byte>, f: Layout, st: Stream, i: nat, a: nat, b: nat, pos: nat)
    requires At(whole, f, st, i, a, b) && pos <= |st.out|
    ensures At(whole, f, st.(pos := pos), i, a, b)
  {
  }

  /** Reads into buffers of these lengths, one after the other: the final state and the bytes served; a
      failing read ends the run. */
  ghost function Reads(st: Stream, lens: seq<nat>, size: nat, max: nat): (r: (Stream, seq<Byte>))
    requires st.pos <= |st.out|
    ensures r.0.pos <= |r.0.out|
    decreases |lens|
  {
    if lens == [] then (st, [])
    else
      var (st', served) := ReadStep(st, lens[0], size, max);
      if served.Failed? then (st', [])
      else
        var (end, more) := Reads(st', lens[1..], size, max);
        (end, served.bytes + more)
  }

  lemma {:induction false} ReadsKeep(whole: seq<Byte>, f: Layout, max: nat, st: Stream, i: nat, a: nat, b: nat, lens: seq<nat>, size: nat) returns (i': nat, a': nat, b': nat)
    requires LaidOut(BitsOf(whole), f, max) && At(whole, f, st, i, a, b)
    ensures st.pos <= |st.out| && i <= |f.texts| && i' <= |f.starts| == |f.texts|
    ensures var r := Reads(st, lens, size, max);
      At(whole, f, r.0, i', a', b') && r.1 + Ahead(f, r.0, i') == Ahead(f, st, i)
    decreases |lens|
  {
    hide BitsOf, LaidOut, At, ReadStep, Ahead;
    AtInside(whole, f, st, i, a, b);
    if lens == [] {
      i', a', b' := i, a, b;
      assert [] + Ahead(f, st, i) == Ahead(f, st, i);
    } else {
      var i1, a1, b1 := ReadKeeps(whole, f, max, st, i, a, b, lens[0], size);
      var r := ReadStep(st, lens[0], size, max);
      i', a', b' := ReadsKeep(whole, f, max, r.0, i1, a1, b1, lens[1..], size);
      var rest := Reads(r.0, lens[1..], size, max);
      assert (r.1.bytes + rest.1) + Ahead(f, rest.0, i') == r.1.bytes + (rest.1 + Ahead(f, rest.0, i'));
    }
  }

  /** The reader before the first read. */
  function Opened(whole: seq<Byte>): Stream
    requires |whole| >= 4
  {
    Stream(whole[..4], whole[4..], false, [], 0)
  }

  lemma OpenedAt(whole: seq<Byte>, f: Layout, max: nat)
    requires |whole| >= 4 && LaidOut(BitsOf(whole), f, max)
    ensures At(whole, f, Opened(whole), 0, 0, 4) && Ahead(f, Opened(whole), 0) == Flatten(f.texts)
  {
    hide BitsOf, LaidOut, Flatten, At, Ahead;
    SameLength(BitsOf(whole), f, max);
    StartsAt(whole, f);
    AllAhead(f, Opened(whole));
  }

  lemma StartsAt(whole: seq<Byte>, f: Layout)
    requires |whole| >= 4 && |f.texts| == |f.starts|
    ensures At(whole, f, Opened(whole), 0, 0, 4)
  {
    hide BitsOf;
    assert whole[0..4] == whole[..4];
  }

  lemma AllAhead(f: Layout, st: Stream)
    requires st.out == [] && st.pos == 0
    ensures Ahead(f, st, 0) == Flatten(f.texts)
  {
    hide Flatten;
    assert f.texts[0..] == f.texts && st.out[0..] == [];
    assert [] + Flatten(f.texts) == Flatten(f.texts);
  }

  /** Whatever the buffers' lengths, what is served is a prefix of the texts in order; and when a read
      into a nonempty buffer then serves nothing without starving, it is all of them. */
  lemma StreamServesTexts(whole: seq<Byte>, f: Layout, max: nat, lens: seq<nat>, len: nat, size: nat)
    requires |whole| >= 4 && LaidOut(BitsOf(whole), f, max) && len > 0
    ensures var (st, served) := Reads(Opened(whole), lens, size, max);
      && served <= Flatten(f.texts)
      && ReadStep(st, len, size, max).1.Bytes?
      && (ReadStep(st, len, size, max).1.bytes == [] && !(st.pos == |st.out| && Starves(st, size)) ==> served == Flatten(f.texts))
  {
    hide BitsOf, LaidOut, At, ReadStep, Reads, Starves, Flatten, Ahead;
    OpenedAt(whole, f, max);
    var i, a, b := ReadsKeep(whole, f, max, Opened(whole), 0, 0, 4, lens, size);
    var r := Reads(Opened(whole), lens, size, max);
    var i', a', b' := ReadKeeps(whole, f, max, r.0, i, a, b, len, size);
    if i == |f.starts| && r.0.pos == |r.0.out| { AllServed(f, r.0, i); }
  }

  lemma AllServed(f: Layout, st: Stream, i: nat)
    requires i == |f.texts| && st.pos == |st.out|
    ensures Ahead(f, st, i) == []
  {
  }

  /** Then it is what `decompress` returns. */
  lemma StreamServesDecompress(whole: seq<Byte>, max: nat, lens: seq<nat>, len: nat, size: nat)
    requires |whole| >= 4 && Sequential(BitsOf(whole), 32, max).Blocks? && NoStrayMagic(BitsOf(whole), Sequential(BitsOf(whole), 32, max).starts)
    requires len > 0
    ensures var (st, served) := Reads(Opened(whole), lens, size, max);
      var text := Flatten(Sequential(BitsOf(whole), 32, max).texts);
      && served <= text
      && ReadStep(st, len, size, max).1.Bytes?
      && (ReadStep(st, len, size, max).1.bytes == [] && !(st.pos == |st.out| && Starves(st, size)) ==> served == text)
  {
    hide BitsOf, LaidOut, ReadStep, Reads, Starves, Flatten, Sequential, NoStrayMagic;
    ChunkedTheory.ChunkIsPart(whole, 0, 4);
    var w := Sequential(BitsOf(whole), 32, max);
    SequentialLaidOut(BitsOf(whole), 32, max);
    StreamServesTexts(whole, Layout(w.starts, w.texts), max, lens, len, size);
  }

  /** Whether the scan of a buffer that ends with byte `end` of the file finds the second block from `i` on:
      it always finds a start that ends nine bits before the end, and one in the seventh byte from the end
      if its search begins an odd number of bytes before that. */
  predicate SecondSeen(f: Layout, i: nat, end: nat)
  {
    i + 1 < |f.starts| &&
    (f.starts[i + 1] + 57 <= 8 * end ||
     (f.starts[i + 1] + 48 < 8 * end && (end - 7 - (f.starts[i] + 48) / 8) % 2 == 1))
  }

  /** Exactly when the fill starves: the source goes on, and the second next block is not seen. */
  lemma StarvesIff(whole: seq<Byte>, f: Layout, max: nat, st: Stream, i: nat, a: nat, b: nat, size: nat)
    requires LaidOut(BitsOf(whole), f, max) && At(whole, f, st, i, a, b)
    ensures Starves(st, size) <==> !st.eof && size <= |whole| - b && !SecondSeen(f, i, b + size)
  {
    hide BitsOf, LaidOut, Found, FirstFrom, MagicAt, Down, ChunkedTheory.PartOf, At, Topped, Increasing, Scanned, SecondSeen;
    var b' := ToppedAt(whole, f, st, i, a, b, size);
    ToppedLength(whole, f, st, i, a, b, size, b');
    var j := FoundAt(whole, f, max, Topped(st, size), i, a, b');
    ScannedInside(whole, f, Topped(st, size), i, a, b', j);
    if !Topped(st, size).eof { TwoFoundIff(whole, f, max, Topped(st, size), i, a, b', j); }
  }

  /** So the reader can report the end of a file of which it has served nothing: exactly when the source
      goes on behind the first fill and that fill does not see the second block. */
  lemma FalseEnd(whole: seq<Byte>, f: Layout, max: nat, len: nat, size: nat)
    requires |whole| >= 4 && LaidOut(BitsOf(whole), f, max) && |f.starts| > 0 && len > 0
    ensures ReadStep(Opened(whole), len, size, max).1 == Bytes([]) <==> 4 + size <= |whole| && !SecondSeen(f, 0, 4 + size)
    ensures Flatten(f.texts) != []
  {
    hide BitsOf, LaidOut, At, ReadStep, Starves, Flatten, Opened, SecondSeen;
    OpenedAt(whole, f, max);
    OpenedFresh(whole);
    StarvesIff(whole, f, max, Opened(whole), 0, 0, 4, size);
    FirstRead(whole, f, max, Opened(whole), len, size);
    TextsNonempty(BitsOf(whole), f, max);
  }

  lemma FirstRead(whole: seq<Byte>, f: Layout, max: nat, st: Stream, len: nat, size: nat)
    requires LaidOut(BitsOf(whole), f, max) && At(whole, f, st, 0, 0, 4) && |f.starts| > 0 && st.pos == |st.out| && len > 0
    ensures ReadStep(st, len, size, max).1 == Bytes([]) <==> Starves(st, size)
  {
    hide BitsOf, LaidOut, At, ReadStep, Starves, Flatten, Ahead;
    var i, a, b := ReadKeeps(whole, f, max, st, 0, 0, 4, len, size);
  }

  lemma OpenedFresh(whole: seq<Byte>)
    requires |whole| >= 4
    ensures Opened(whole).pos == |Opened(whole).out| && !Opened(whole).eof
  {
  }

  lemma TextsNonempty(bits: Bitstring, f: Layout, max: nat)
    requires LaidOut(bits, f, max) && |f.starts| > 0
    ensures Flatten(f.texts) != []
  {
    hide LaidOut, Flatten, BlockAt, MagicAt;
    BlockRoom(bits, f, 0, max);
    FlattenSplit(f.texts, 0, |f.texts|);
    assert f.texts[0..|f.texts|] == f.texts;
  }

  lemma ToppedLength(whole: seq<Byte>, f: Layout, st: Stream, i: nat, a: nat, b: nat, size: nat, b': nat)
    requires At(whole, f, st, i, a, b) && At(whole, f, Topped(st, size), i, a, b')
    ensures !Topped(st, size).eof <==> !st.eof && size <= |whole| - b
    ensures !Topped(st, size).eof ==> b' == b + size
  {
    assert |Topped(st, size).comp| == b' - a;
  }

  /** The scan of the buffer finds two blocks exactly when it sees the second. */
  lemma TwoFoundIff(whole: seq<Byte>, f: Layout, max: nat, st: Stream, i: nat, a: nat, b: nat, j: nat)
    requires LaidOut(BitsOf(whole), f, max) && At(whole, f, st, i, a, b) && Scanned(whole, f, st, i, a, b, j)
    ensures j >= i + 2 <==> SecondSeen(f, i, b)
  {
    hide BitsOf, LaidOut, MagicAt, ScanTheory.Scan, ChunkedTheory.PartOf, Down, BlockAt, SecondSeen, FirstFrom;
    ChunkedTheory.ChunkIsPart(whole, a, b);
    var bits, data := BitsOf(whole), BitsOf(st.comp);
    ChunkedTheory.PartLength(bits, data, a, b);
    assert |Found(st.comp)| == j - i;
    var r := ScanTheory.Scan(data, b - a, 0);
    SeenReaches(bits, f, max, i, b);
    if SecondSeen(f, i, b) { MustFind(bits, data, a, b, f, max, i, 0); }
    ScanNext(bits, data, a, b, f, max, i, 0);
    if r.Some? {
      var first := r.value;
      SecondFound(bits, data, a, b, f, max, i, first);
      TwoFinds(data, b - a, first);
    }
  }

  /** Whether a scan finds two magics is settled by its second search. */
  lemma TwoFinds(data: Bitstring, len: nat, first: nat)
    requires |data| == 8 * len && ScanTheory.Scan(data, len, 0) == Some(first)
    ensures |ScanAll(data, len, 0)| >= 2 <==> ScanTheory.Scan(data, len, first + 48).Some?
  {
    hide ScanTheory.Scan;
    assert ScanAll(data, len, 0) == [first] + ScanAll(data, len, first + 48);
  }

  lemma SeenReaches(bits: Bitstring, f: Layout, max: nat, i: nat, b: nat)
    requires LaidOut(bits, f, max)
    ensures SecondSeen(f, i, b) ==> i < |f.starts| && f.starts[i] + 57 <= 8 * b
  {
    hide LaidOut, BlockAt, MagicAt;
    if i + 1 < |f.starts| { BlockRoom(bits, f, i, max); }
  }

  lemma SecondFound(bits: Bitstring, data: Bitstring, a: nat, b: nat, f: Layout, max: nat, i: nat, first: nat)
    requires ChunkedTheory.PartOf(bits, data, a, b) && LaidOut(bits, f, max) && |data| == 8 * (b - a)
    requires i < |f.starts| && first + 8 * a == f.starts[i]
    ensures ScanTheory.Scan(data, b - a, first + 48).Some? <==> SecondSeen(f, i, b)
  {
    hide LaidOut, MagicAt, ScanTheory.Scan, BlockAt;
    BlockRoom(bits, f, i, max);
    NextFirst(bits, f, max, i);
    ScanNext(bits, data, a, b, f, max, i + 1, first + 48);
    var r := ScanTheory.Scan(data, b - a, first + 48);
    if i + 1 < |f.starts| {
      var q := f.starts[i + 1];
      BlockRoom(bits, f, i + 1, max);
      ChunkedTheory.MagicInChunk(bits, data, a, b, q - 8 * a);
      ChunkedTheory.PartLength(bits, data, a, b);
      if q + 57 <= 8 * b {
        ScanIsLeast(data, b - a, first + 48);
      } else if q + 48 < 8 * b {
        TailCovered(data, b - a, first + 48, q - 8 * a);
        ShiftedByte(f.starts[i] + 48, a);
      } else if r.Some? {
        ScanInside(data, b - a, first + 48);
      }
    }
  }

  lemma ShiftedByte(p: nat, a: nat)
    requires p >= 8 * a
    ensures (p - 8 * a) / 8 == p / 8 - a
  {
  }

  /** Behind the magic of block `i` block `i + 1` is the first. */
  lemma NextFirst(bits: Bitstring, f: Layout, max: nat, i: nat)
    requires LaidOut(bits, f, max) && i < |f.starts|
    ensures FirstFrom(f.starts, i + 1, f.starts[i] + 48)
  {
    hide MagicAt, BlockAt;
    BlockRoom(bits, f, i, max);
    Ordered(f.starts);
  }

  lemma MustFind(bits: Bitstring, data: Bitstring, a: nat, b: nat, f: Layout, max: nat, i: nat, bit: nat)
    requires ChunkedTheory.PartOf(bits, data, a, b) && LaidOut(bits, f, max) && FirstFrom(f.starts, i, 8 * a + bit)
    requires |data| == 8 * (b - a) && i < |f.starts| && f.starts[i] + 57 <= 8 * b
    ensures var r := ScanTheory.Scan(data, b - a, bit); r.Some? && r.value + 8 * a == f.starts[i]
  {
    hide LaidOut, MagicAt, ScanTheory.Scan, BlockAt;
    ScanNext(bits, data, a, b, f, max, i, bit);
    BlockRoom(bits, f, i, max);
    ScanIsLeast(data, b - a, bit);
    ChunkedTheory.MagicInChunk(bits, data, a, b, f.starts[i] - 8 * a);
  }

  // ---------------------------------------------------------------------------------------------
  // The reader over a buffer in memory
  // ---------------------------------------------------------------------------------------------

  const BATCH_SIZE: nat := 64

  /** The next block to decode, decompressed bytes, and how many of them are served. */
  datatype Batch = Batch(next: nat, buf: seq<Byte>, pos: nat)

  /** `fill_batch`: decode the next blocks, at most a batch; a failing block leaves everything as it
      was. */
  ghost function FillBatch(bits: Bitstring, starts: seq<nat>, st: Batch, max: nat): (r: (Batch, Option<StreamError>))
    requires st.next <= |starts| && forall i :: 0 <= i < |starts| ==> starts[i] + 48 <= |bits|
    ensures st.pos <= |st.buf| ==> r.0.pos <= |r.0.buf|
    ensures r.0.next <= |starts|
  {
    if st.next == |starts| then (st.(buf := [], pos := 0), None)
    else
      var end := st.next + Min(|starts| - st.next, BATCH_SIZE);
      match Separate(bits, starts[st.next..end], max)
      case Blocks(texts, _) => (Batch(end, Flatten(texts), 0), None)
      case Broken(e) => (st, Some(e))
      case Unmodelled => (st, None)
  }

  function ServeBatch(st: Batch, len: nat): (r: (Batch, Served))
    requires st.pos <= |st.buf|
  {
    var n := Min(len, |st.buf| - st.pos);
    (st.(pos := st.pos + n), Bytes(st.buf[st.pos..st.pos + n]))
  }

  ghost function ReadBatch(bits: Bitstring, starts: seq<nat>, st: Batch, len: nat, max: nat): (r: (Batch, Served))
    requires st.next <= |starts| && st.pos <= |st.buf| && forall i :: 0 <= i < |starts| ==> starts[i] + 48 <= |bits|
    ensures r.0.next <= |starts| && r.0.pos <= |r.0.buf|
  {
    if st.pos < |st.buf| then ServeBatch(st, len)
    else
      var (filled, error) := FillBatch(bits, starts, st, max);
      if error.Some? then (filled, Failed(error.value))
      else ServeBatch(filled, len)
  }

  function BatchAhead(texts: seq<seq<Byte>>, st: Batch): seq<Byte>
    requires st.next <= |texts| && st.pos <= |st.buf|
  {
    st.buf[st.pos..] + Flatten(texts[st.next..])
  }

  /** Decoding a range of blocks gives their texts, none of them empty. */
  lemma {:induction false} SeparateSlice(bits: Bitstring, starts: seq<nat>, texts: seq<seq<Byte>>, max: nat, i: nat, j: nat)
    requires (forall k :: 0 <= k < |starts| ==> starts[k] + 48 <= |bits|) && Separate(bits, starts, max) == Blocks(texts, starts)
    requires i <= j <= |starts|
    ensures |texts| == |starts| && forall k :: 0 <= k < |starts[i..j]| ==> starts[i..j][k] + 48 <= |bits|
    ensures Separate(bits, starts[i..j], max) == Blocks(texts[i..j], starts[i..j])
    ensures forall k :: 0 <= k < |texts| ==> texts[k] != []
    decreases |starts|
  {
    hide AllocBlock;
    if starts != [] {
      var rest := Separate(bits, starts[1..], max).texts;
      assert texts == [texts[0]] + rest;
      if i > 0 {
        SeparateSlice(bits, starts[1..], rest, max, i - 1, j - 1);
        TailSlice(starts, i, j);
        TailSlice(texts, i, j);
      } else if j > 0 {
        SeparateSlice(bits, starts[1..], rest, max, 0, j - 1);
        HeadSlice(starts, j);
        HeadSlice(texts, j);
      } else {
        SeparateSlice(bits, starts[1..], rest, max, 0, 0);
      }
    }
  }

  lemma TailSlice<T>(s: seq<T>, i: nat, j: nat)
    requires 0 < i <= j <= |s|
    ensures s[1..][i - 1..j - 1] == s[i..j]
  {
  }

  lemma HeadSlice<T>(s: seq<T>, j: nat)
    requires 0 < j <= |s|
    ensures s[0..j] == [s[0]] + s[1..][0..j - 1] && s[0..j][1..] == s[1..][0..j - 1]
  {
  }

  /** One read of a buffer whose blocks all decode: the next bytes, and none, for a nonempty buffer, only
      at the end. */
  lemma BatchKeeps(bits: Bitstring, starts: seq<nat>, texts: seq<seq<Byte>>, st: Batch, len: nat, max: nat)
    requires (forall k :: 0 <= k < |starts| ==> starts[k] + 48 <= |bits|) && Separate(bits, starts, max) == Blocks(texts, starts)
    requires st.next <= |starts| && st.pos <= |st.buf|
    ensures |texts| == |starts|
    ensures var r := ReadBatch(bits, starts, st, len, max);
      && r.1.Bytes? && |r.1.bytes| <= len
      && r.1.bytes + BatchAhead(texts, r.0) == BatchAhead(texts, st)
      && (len > 0 ==> (r.1.bytes == [] <==> BatchAhead(texts, st) == []))
  {
    hide Separate, Flatten;
    SeparateSlice(bits, starts, texts, max, 0, |starts|);
    if st.pos < |st.buf| {
      ServeBatchKeeps(texts, st, len);
    } else {
      var filled := FillBatch(bits, starts, st, max).0;
      BatchFills(bits, starts, texts, st, max);
      ServeBatchKeeps(texts, filled, len);
    }
  }

  /** A fill decodes the next 64 blocks, or all that are left. */
  lemma BatchFills(bits: Bitstring, starts: seq<nat>, texts: seq<seq<Byte>>, st: Batch, max: nat)
    requires (forall k :: 0 <= k < |starts| ==> starts[k] + 48 <= |bits|) && Separate(bits, starts, max) == Blocks(texts, starts)
    requires st.next <= |starts| == |texts| && st.pos == |st.buf|
    ensures var r := FillBatch(bits, starts, st, max);
      && r.1 == None && r.0.pos == 0 && BatchAhead(texts, r.0) == BatchAhead(texts, st)
      && (r.0.buf == [] <==> BatchAhead(texts, st) == [])
      && r.0.next == (if |starts| - st.next <= 64 then |starts| else st.next + 64)
      && r.0.buf == Flatten(texts[st.next..r.0.next])
  {
    hide Separate, Flatten;
    assert [] + Flatten(texts[st.next..]) == Flatten(texts[st.next..]);
    if st.next == |starts| {
      assert texts[st.next..] == [] && texts[st.next..st.next] == [];
      FlattenNothing<Byte>();
    } else {
      var end := st.next + Min(|starts| - st.next, BATCH_SIZE);
      SeparateSlice(bits, starts, texts, max, st.next, end);
      FlattenSplit(texts, st.next, end);
      assert Flatten(texts[st.next..end])[0..] == Flatten(texts[st.next..end]);
    }
  }

  lemma ServeBatchKeeps(texts: seq<seq<Byte>>, st: Batch, len: nat)
    requires st.next <= |texts| && st.pos <= |st.buf|
    ensures var r := ServeBatch(st, len);
      && r.1.Bytes? && |r.1.bytes| <= len && r.1.bytes + BatchAhead(texts, r.0) == BatchAhead(texts, st)
      && (len > 0 ==> (r.1.bytes == [] <==> st.pos == |st.buf|))
      && (r.1.bytes != [] ==> BatchAhead(texts, st) != [])
  {
    hide Flatten;
    var n := Min(len, |st.buf| - st.pos);
    TakeFront(st.buf, st.pos, st.pos + n, Flatten(texts[st.next..]));
  }

  lemma TakeFront(out: seq<Byte>, p: nat, q: nat, rest: seq<Byte>)
    requires p <= q <= |out|
    ensures out[p..q] + (out[q..] + rest) == out[p..] + rest
  {
  }
}
