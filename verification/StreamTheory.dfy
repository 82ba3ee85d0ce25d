/** The sequential walk over the blocks of a stream (`src/stream.rs`) and its parallel counterpart
    (`src/parallel.rs`), on bit strings. */
module StreamTheory {
  import opened Wrappers
  import opened Errors
  import opened Bits
  import opened Magic
  import opened ScanTheory
  import opened BlockSpec
  import opened BlockRoundTrip

  datatype StreamError =
    | TooShort
    | BadSignature
    | NotHuffman
    | BadLevel
    | UnexpectedEnd
    | InvalidMagic
    | InBlock(error: BlockError)

  /** The block size from the four header bytes `BZh1` to `BZh9`. */
  function HeaderSize(data: seq<Byte>): (r: Result<nat, StreamError>)
    ensures r.Success? ==> r.value <= 900_000 && |data| >= 4
  {
    if |data| < 4 then Failure(TooShort)
    else if data[0] != 0x42 || data[1] != 0x5A then Failure(BadSignature)
    else if data[2] != 0x68 then Failure(NotHuffman)
    else if !(0x31 <= data[3] <= 0x39) then Failure(BadLevel)
    else Success(100_000 * (data[3] as int - 0x30))
  }

  /** A header is `BZh` and a digit from 1 to 9; what is wrong with the bytes is found in this order. */
  lemma HeaderIff(data: seq<Byte>)
    ensures HeaderSize(data).Success? <==>
      |data| >= 4 && data[0] == 66 && data[1] == 90 && data[2] == 104 && 49 <= data[3] <= 57
    ensures HeaderSize(data).Success? ==> HeaderSize(data).value == 100_000 * (data[3] as int - 48)
    ensures |data| < 4 ==> HeaderSize(data) == Failure(TooShort)
    ensures |data| >= 4 && !(data[0] == 66 && data[1] == 90) ==> HeaderSize(data) == Failure(BadSignature)
    ensures |data| >= 4 && data[0] == 66 && data[1] == 90 && data[2] != 104 ==> HeaderSize(data) == Failure(NotHuffman)
    ensures |data| >= 4 && data[0] == 66 && data[1] == 90 && data[2] == 104 && !(49 <= data[3] <= 57) ==> HeaderSize(data) == Failure(BadLevel)
  {
  }

  /** A walk over blocks: the blocks' texts and where their magics stand, an error, or a block whose
      code lengths are outside the model. */
  datatype Walked = Blocks(texts: seq<seq<Byte>>, starts: seq<nat>) | Broken(error: StreamError) | Unmodelled

  /** The sequential walk from the marker at `p`. */
  ghost function Sequential(bits: Bitstring, p: nat, max: nat): (r: Walked)
    requires p <= |bits|
    ensures r.Blocks? ==> |r.texts| == |r.starts|
    decreases |bits| - p
  {
    if p + 48 > |bits| then Broken(UnexpectedEnd)
    else
      var magic := Value(bits[p..p + 48]);
      if magic == BLOCK_MAGIC then
        match AllocBlock(bits, p + 48, max)
        case Err(e) => Broken(InBlock(e))
        case Oversubscribed => Unmodelled
        case Ok(d, next) =>
          match Sequential(bits, next, max)
          case Blocks(texts, starts) => Blocks([d] + texts, [p] + starts)
          case Broken(e) => Broken(e)
          case Unmodelled => Unmodelled
      else if magic == FINAL_MAGIC then Blocks([], [])
      else Broken(InvalidMagic)
  }

  /** What ends the walk without success: the stream ends before a marker, the marker is none, or a block
      fails. */
  lemma SequentialFails(bits: Bitstring, p: nat, max: nat)
    requires p <= |bits|
    ensures p + 48 > |bits| ==> Sequential(bits, p, max) == Broken(UnexpectedEnd)
    ensures p + 48 <= |bits| && Value(bits[p..p + 48]) != BLOCK_MAGIC && Value(bits[p..p + 48]) != FINAL_MAGIC ==>
      Sequential(bits, p, max) == Broken(InvalidMagic)
    ensures p + 48 <= |bits| && Value(bits[p..p + 48]) == BLOCK_MAGIC && AllocBlock(bits, p + 48, max).Err? ==>
      Sequential(bits, p, max) == Broken(InBlock(AllocBlock(bits, p + 48, max).error))
    ensures (p + 48 <= |bits| && Value(bits[p..p + 48]) == BLOCK_MAGIC && AllocBlock(bits, p + 48, max).Ok?
             && Sequential(bits, AllocBlock(bits, p + 48, max).pos, max).Broken?) ==>
      Sequential(bits, p, max) == Sequential(bits, AllocBlock(bits, p + 48, max).pos, max)
  {
    hide AllocBlock, Value;
  }

  /** Decoding each of the given block starts by itself; the first error in order counts. */
  ghost function Separate(bits: Bitstring, starts: seq<nat>, max: nat): (r: Walked)
    requires forall i :: 0 <= i < |starts| ==> starts[i] + 48 <= |bits|
    ensures r.Blocks? ==> |r.texts| == |starts|
  {
    if starts == [] then Blocks([], [])
    else
      match AllocBlock(bits, starts[0] + 48, max)
      case Err(e) => Broken(InBlock(e))
      case Oversubscribed => Unmodelled
      case Ok(d, _) =>
        match Separate(bits, starts[1..], max)
        case Blocks(texts, _) => Blocks([d] + texts, starts)
        case Broken(e) => Broken(e)
        case Unmodelled => Unmodelled
  }

  /** No block at the given starts has oversubscribed code lengths. */
  ghost predicate Modelled(bits: Bitstring, starts: seq<nat>, max: nat)
  {
    forall i :: 0 <= i < |starts| && starts[i] + 48 <= |bits| ==> !AllocBlock(bits, starts[i] + 48, max).Oversubscribed?
  }

  /** The blocks a successful walk visits start at magics, at least 105 bits apart, and end well
      inside the stream. */
  lemma {:induction false} WalkStarts(bits: Bitstring, p: nat, max: nat)
    requires p <= |bits| && Sequential(bits, p, max).Blocks?
    ensures var starts := Sequential(bits, p, max).starts;
      && Increasing(starts)
      && (forall x :: x in starts ==> p <= x && MagicAt(bits, x) && x + 105 <= |bits|)
      && (forall x, y :: x in starts && y in starts && x < y ==> x + 105 <= y)
    decreases |bits| - p
  {
    hide AllocBlock, MagicAt, Value;
    if p + 48 <= |bits| && Value(bits[p..p + 48]) == BLOCK_MAGIC {
      MagicByValue(bits[p..p + 48]);
      MagicFromSlice(bits, p);
      var b := AllocBlock(bits, p + 48, max);
      WalkStarts(bits, b.pos, max);
      var rest := Sequential(bits, b.pos, max).starts;
      assert Sequential(bits, p, max).starts == [p] + rest;
      assert forall i :: 0 <= i < |rest| ==> rest[i] in rest;
    }
  }

  lemma MagicFromSlice(bits: Bitstring, p: nat)
    requires p + 48 <= |bits|
    ensures MagicAt(bits, p) <==> bits[p..p + 48] == MagicBits()
  {
  }

  /** Decoding the visited blocks one by one from their starts repeats the walk. */
  lemma {:induction false} SeparateIsSequential(bits: Bitstring, p: nat, max: nat)
    requires p <= |bits| && Sequential(bits, p, max).Blocks?
    requires forall i :: 0 <= i < |Sequential(bits, p, max).starts| ==> Sequential(bits, p, max).starts[i] + 48 <= |bits|
    ensures Separate(bits, Sequential(bits, p, max).starts, max) == Sequential(bits, p, max)
    decreases |bits| - p
  {
    hide AllocBlock, Value;
    if p + 48 <= |bits| && Value(bits[p..p + 48]) == BLOCK_MAGIC {
      var b := AllocBlock(bits, p + 48, max);
      var rest := Sequential(bits, b.pos, max).starts;
      var starts := Sequential(bits, p, max).starts;
      assert starts == [p] + rest && starts[1..] == rest;
      SeparateIsSequential(bits, b.pos, max);
    }
  }

  /** No magic of the stream is anything but a block the walk visits. */
  ghost predicate NoStrayMagic(bits: Bitstring, starts: seq<nat>)
  {
    forall p :: 0 <= p < |bits| && MagicAt(bits, p) ==> p in starts
  }

  /** If a successful walk accounts for every magic, every scan, serial or with any number of threads,
      finds exactly the visited block starts. */
  lemma ScanFindsVisited(bits: Bitstring, len: nat, p: nat, max: nat, threads: nat)
    requires |bits| == 8 * len && p <= |bits| && Sequential(bits, p, max).Blocks?
    requires NoStrayMagic(bits, Sequential(bits, p, max).starts)
    ensures ScanParallel(bits, len, threads) == ScanAll(bits, len, 0) == Sequential(bits, p, max).starts
  {
    hide MagicAt, Sequential, ScanParallel, ScanAll;
    var starts := Sequential(bits, p, max).starts;
    WalkStarts(bits, p, max);
    forall q | 0 <= q < |bits| && MagicAt(bits, q)
      ensures !MagicAt(bits, q + 45) && q + 57 <= |bits|
    {
      assert q in starts;
      NoneAt45(bits, starts, q);
    }
    ParallelScanIsSerial(bits, len, threads);
    IncreasingUnique(starts, Occurrences(bits, 0, Reach(bits)));
  }

  /** Block starts that account for every magic and lie 105 bits apart leave none 45 bits behind one. */
  lemma NoneAt45(bits: Bitstring, starts: seq<nat>, q: nat)
    requires NoStrayMagic(bits, starts) && q in starts && forall x, y :: x in starts && y in starts && x < y ==> x + 105 <= y
    ensures !MagicAt(bits, q + 45)
  {
    hide MagicAt;
    assert q + 45 !in starts;
    if MagicAt(bits, q + 45) { MagicIsInside(bits, q + 45); }
  }

  /** When the scan finds exactly the blocks that the sequential walk visits, decoding them separately
      gives the sequential result. */
  lemma ParallelIsSequential(bits: Bitstring, len: nat, p: nat, max: nat, threads: nat)
    requires |bits| == 8 * len && p <= |bits| && Sequential(bits, p, max).Blocks?
    requires ScanParallel(bits, len, threads) == Sequential(bits, p, max).starts
    ensures var starts := ScanParallel(bits, len, threads);
      && (forall i :: 0 <= i < |starts| ==> starts[i] + 48 <= |bits|)
      && Separate(bits, starts, max) == Sequential(bits, p, max)
  {
    hide ScanParallel, Sequential, Separate;
    WalkStarts(bits, p, max);
    var starts := Sequential(bits, p, max).starts;
    assert forall i :: 0 <= i < |starts| ==> starts[i] in starts;
    SeparateIsSequential(bits, p, max);
  }
}
