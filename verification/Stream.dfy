/** Whole-stream decompression: one block after the other (`src/stream.rs`), and all blocks at once
    (`src/parallel.rs`). */
module Stream {
  import opened Wrappers
  import opened Errors
  import opened Bits
  import opened Lists
  import opened BitReaders
  import opened Magic
  import opened ScanTheory
  import opened BlockSpec
  import opened BlockHeader
  import opened BlockRoundTrip
  import opened SymbolTheory
  import opened Block
  import opened StreamTheory
  import Scan

  /** The result of a walk as the program returns it: the texts joined, or the error. */
  ghost predicate Returns(r: Result<seq<Byte>, StreamError>, w: Walked)
  {
    match w
    case Blocks(texts, _) => r == Success(Flatten(texts))
    case Broken(e) => r == Failure(e)
    case Unmodelled => true
  }

  /** `decompress`.  Its result is that of the walk wherever the memory of every expansion is safe; where
      it is not, the walk ends with `WriteBehindVector`, and the program with nothing that is defined. */
  method Decompress(data: seq<Byte>) returns (r: Result<seq<Byte>, StreamError>)
    requires HeaderSize(data).Success? ==> !Sequential(BitsOf(data), 32, HeaderSize(data).value).Unmodelled?
    ensures match HeaderSize(data)
      case Failure(e) => r == Failure(e)
      case Success(max) => Returns(r, Sequential(BitsOf(data), 32, max))
  {
    hide BitsOf, RegisterMatches, AllocBlock, Value, Flatten;
    var size := HeaderSize(data);
    if size.Failure? {
      return Failure(size.error);
    }
    var max := size.value;
    ghost var bits := BitsOf(data);
    ghost var whole := Sequential(bits, 32, max);
    var reader := new BitReader.FromBitOffset(data, 32);
    var output: seq<Byte> := [];
    ghost var texts: seq<seq<Byte>>, starts: seq<nat> := [], [];
    FlattenNothing<Byte>();
    while true
      invariant reader.Valid() && reader.bytes == data
      invariant output == Flatten(texts) && |texts| == |starts|
      invariant whole == Prepended(texts, starts, Sequential(bits, reader.Pos(), max))
      invariant !Sequential(bits, reader.Pos(), max).Unmodelled?
      decreases |bits| - reader.Pos()
    {
      ghost var p, rest := reader.Pos(), Sequential(bits, reader.Pos(), max);
      var magic := reader.ReadBits(48);
      if magic == None {
        return Failure(UnexpectedEnd);
      }
      if magic.value == BLOCK_MAGIC {
        var block := DecodeBlock(reader, max);
        if block.Failure? {
          return Failure(InBlock(block.error));
        }
        PrependedStep(texts, starts, block.value, p, Sequential(bits, reader.Pos(), max));
        FlattenAppend(texts, [block.value]);
        FlattenOne(block.value);
        output := output + block.value;
        texts, starts := texts + [block.value], starts + [p];
      } else if magic.value == FINAL_MAGIC {
        break;
      } else {
        return Failure(InvalidMagic);
      }
    }
    assert texts + [] == texts;
    r := Success(output);
  }

  /** The walk whose first blocks are already known. */
  ghost function Prepended(texts: seq<seq<Byte>>, starts: seq<nat>, w: Walked): Walked
  {
    match w
    case Blocks(t, s) => Blocks(texts + t, starts + s)
    case Broken(e) => w
    case Unmodelled => w
  }

  lemma PrependedStep(texts: seq<seq<Byte>>, starts: seq<nat>, d: seq<Byte>, p: nat, w: Walked)
    ensures Prepended(texts, starts, Prepended([d], [p], w)) == Prepended(texts + [d], starts + [p], w)
  {
    if w.Blocks? {
      assert texts + ([d] + w.texts) == (texts + [d]) + w.texts;
      assert starts + ([p] + w.starts) == (starts + [p]) + w.starts;
    }
  }

  /** `decompress_parallel` for any number of threads. */
  method DecompressParallel(data: seq<Byte>, nThreads: nat) returns (r: Result<seq<Byte>, StreamError>)
    requires HeaderSize(data).Success? ==>
      Modelled(BitsOf(data), ScanParallel(BitsOf(data), |data|, nThreads), HeaderSize(data).value)
    ensures match HeaderSize(data)
      case Failure(e) => r == Failure(e)
      case Success(max) =>
        var starts := ScanParallel(BitsOf(data), |data|, nThreads);
        && (forall i :: 0 <= i < |starts| ==> starts[i] + 48 <= |BitsOf(data)|)
        && Returns(r, Separate(BitsOf(data), starts, max))
  {
    hide BitsOf, RegisterMatches, AllocBlock, ScanParallel, Flatten;
    var size := HeaderSize(data);
    if size.Failure? {
      return Failure(size.error);
    }
    var max := size.value;
    ghost var bits := BitsOf(data);
    var boundaries := Scan.FindAllBlocksParallel(data, nThreads);
    ScanResultsInside(bits, |data|, nThreads);
    var results := DecodeBlocks(data, boundaries, max);
    r := Assemble(results, boundaries, bits, max);
  }

  /** The blocks at these boundaries, each by itself. */
  method DecodeBlocks(data: seq<Byte>, boundaries: seq<nat>, max: nat) returns (results: seq<Result<seq<Byte>, BlockError>>)
    requires max <= MAX_BLOCKSIZE && Modelled(BitsOf(data), boundaries, max)
    requires forall i :: 0 <= i < |boundaries| ==> boundaries[i] + 48 <= |BitsOf(data)|
    ensures |results| == |boundaries|
    ensures forall j :: 0 <= j < |results| ==> ResultAt(results[j], BitsOf(data), boundaries[j], max)
  {
    hide BitsOf, RegisterMatches, AllocBlock;
    results := [];
    for bi := 0 to |boundaries|
      invariant |results| == bi
      invariant forall j :: 0 <= j < bi ==> ResultAt(results[j], BitsOf(data), boundaries[j], max)
    {
      var reader := new BitReader.FromBitOffset(data, boundaries[bi] + 48);
      var block := DecodeBlock(reader, max);
      results := results + [block];
    }
  }

  /** A block decoded by itself gave `r`. */
  ghost predicate ResultAt(r: Result<seq<Byte>, BlockError>, bits: Bitstring, start: nat, max: nat)
    requires start + 48 <= |bits|
  {
    match AllocBlock(bits, start + 48, max)
    case Ok(d, _) => r == Success(d)
    case Err(e) => r == Failure(e)
    case Oversubscribed => false
  }

  /** The results joined in order, or the first error. */
  method Assemble(results: seq<Result<seq<Byte>, BlockError>>, ghost starts: seq<nat>, ghost bits: Bitstring, ghost max: nat)
      returns (r: Result<seq<Byte>, StreamError>)
    requires |results| == |starts| && forall i :: 0 <= i < |starts| ==> starts[i] + 48 <= |bits|
    requires forall j :: 0 <= j < |results| ==> ResultAt(results[j], bits, starts[j], max)
    ensures Returns(r, Separate(bits, starts, max))
  {
    hide AllocBlock, Flatten;
    var k := 0;
    while k < |results|
      invariant 0 <= k <= |results|
      invariant forall j :: 0 <= j < k ==> results[j].Success?
    {
      if results[k].Failure? {
        SeparateFails(results, starts, bits, max, k);
        return Failure(InBlock(results[k].error));
      }
      k := k + 1;
    }
    var output: seq<Byte> := [];
    FlattenNothing<Byte>();
    assert starts[0..] == starts;
    ghost var texts: seq<seq<Byte>> := [];
    for i := 0 to |results|
      invariant output == Flatten(texts) && |texts| == i
      invariant forall j :: 0 <= j < i ==> results[j] == Success(texts[j])
    {
      FlattenAppend(texts, [results[i].value]);
      FlattenOne(results[i].value);
      output := output + results[i].value;
      texts := texts + [results[i].value];
    }
    SeparateSucceeds(results, starts, bits, max, texts);
    r := Success(output);
  }

  lemma {:induction false} SeparateFails(results: seq<Result<seq<Byte>, BlockError>>, starts: seq<nat>, bits: Bitstring, max: nat, k: nat)
    requires |results| == |starts| && forall i :: 0 <= i < |starts| ==> starts[i] + 48 <= |bits|
    requires forall j :: 0 <= j < |results| ==> ResultAt(results[j], bits, starts[j], max)
    requires k < |results| && results[k].Failure? && forall j :: 0 <= j < k ==> results[j].Success?
    ensures Separate(bits, starts, max) == Broken(InBlock(results[k].error))
    decreases k
  {
    hide AllocBlock;
    assert ResultAt(results[0], bits, starts[0], max);
    if k > 0 { SeparateFails(results[1..], starts[1..], bits, max, k - 1); }
  }

  lemma {:induction false} SeparateSucceeds(results: seq<Result<seq<Byte>, BlockError>>, starts: seq<nat>, bits: Bitstring, max: nat, texts: seq<seq<Byte>>)
    requires |results| == |starts| == |texts| && forall i :: 0 <= i < |starts| ==> starts[i] + 48 <= |bits|
    requires forall j :: 0 <= j < |results| ==> ResultAt(results[j], bits, starts[j], max)
    requires forall j :: 0 <= j < |results| ==> results[j] == Success(texts[j])
    ensures Separate(bits, starts, max) == Blocks(texts, starts)
    decreases |starts|
  {
    hide AllocBlock;
    if starts != [] {
      assert ResultAt(results[0], bits, starts[0], max);
      SeparateSucceeds(results[1..], starts[1..], bits, max, texts[1..]);
      assert texts == [texts[0]] + texts[1..];
    }
  }

  /** Whatever a scan returns are magics of the buffer. */
  lemma ScanResultsInside(bits: Bitstring, len: nat, threads: nat)
    requires |bits| == 8 * len
    ensures forall i :: 0 <= i < |ScanParallel(bits, len, threads)| ==> ScanParallel(bits, len, threads)[i] + 48 <= |bits|
  {
    hide ScanTheory.Scan, MagicAt, SortDedup, Flatten;
    var n := if threads == 0 then 1 else threads;
    var s := ScanParallel(bits, len, threads);
    if len < 16 || n == 1 {
      ScanAllIsRange(bits, len, 0);
      RangeInside(bits, len, 0, |bits|);
    } else {
      FlattenMember(Parts(bits, len, n));
      forall x | x in s
        ensures x + 48 <= |bits|
      {
        var i :| 0 <= i < n && x in Parts(bits, len, n)[i];
        RangeInside(bits, len, PartStart(len, n, i), PartEnd(len, n, i));
      }
    }
    assert forall i :: 0 <= i < |s| ==> s[i] in s;
  }

  lemma {:induction false} RangeInside(bits: Bitstring, len: nat, bit: nat, end: nat)
    requires |bits| == 8 * len
    ensures forall x :: x in ScanRange(bits, len, bit, end) ==> MagicAt(bits, x) && x + 48 <= |bits|
    decreases if bit < |bits| then |bits| - bit else 0
  {
    hide ScanTheory.Scan, MagicAt;
    var r := ScanTheory.Scan(bits, len, bit);
    if bit < end && r.Some? && r.value < end {
      MagicIsInside(bits, r.value);
      RangeInside(bits, len, r.value + 48, end);
    }
  }
}
