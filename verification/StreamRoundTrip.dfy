/** Compressing whole files and decoding them again: a reference compressor for streams of blocks, as
    `src/stream.rs` reads them. */
module StreamRoundTrip {
  import opened Wrappers
  import opened Errors
  import opened Bits
  import opened Magic
  import opened SymbolTheory
  import opened BlockSpec
  import opened BlockRoundTrip
  import opened BwtTheory
  import opened ScanTheory
  import opened StreamTheory
  import opened ChunkTheory
  import opened ChunkedTheory
  import RleTheory

  // ---------------------------------------------------------------------------------------------
  // Bits as bytes
  // ---------------------------------------------------------------------------------------------

  function BytesOf(bits: Bitstring): (bytes: seq<Byte>)
    ensures |bytes| == |bits| / 8
  {
    if |bits| < 8 then []
    else
      assert Pow2(8) == 256;
      BytesOf(bits[..|bits| - 8]) + [Value(bits[|bits| - 8..])]
  }

  lemma {:induction false} BitsOfBytesOf(bits: Bitstring)
    requires |bits| % 8 == 0
    ensures BitsOf(BytesOf(bits)) == bits
  {
    hide Value, ToBits;
    if bits != [] {
      var init, last := bits[..|bits| - 8], bits[|bits| - 8..];
      BitsOfBytesOf(init);
      ToBitsOfValue(last);
      var bytes := BytesOf(bits);
      assert bytes[..|bytes| - 1] == BytesOf(init);
      assert bits == init + last;
    }
  }

  // ---------------------------------------------------------------------------------------------
  // The compressor
  // ---------------------------------------------------------------------------------------------

  predicate ValidPlans(plans: seq<Plan>, max: nat)
  {
    forall i :: 0 <= i < |plans| ==> ValidPlan(plans[i], max)
  }

  /** The end marker. */
  function FinalBits(): (b: Bitstring)
    ensures |b| == 48
  {
    ToBits(FINAL_MAGIC, 48)
  }

  /** The stream's checksum, and zeros up to the next byte behind `n` bits and the checksum. */
  function Trailer(n: nat, crc: nat): (b: Bitstring)
    ensures 32 <= |b| < 40 && (n + |b|) % 8 == 0
  {
    hide ToBits;
    ToBits(crc, 32) + Zeros(Padding(n + 32))
  }

  function Padding(n: nat): (k: nat)
    ensures k < 8 && (n + k) % 8 == 0
  {
    (8 - n % 8) % 8
  }

  /** The blocks, each behind its magic. */
  function EncodeBlocks(plans: seq<Plan>, max: nat): (b: Bitstring)
    requires ValidPlans(plans, max)
  {
    if plans == [] then []
    else MagicBits() + (EncodeBlock(plans[0], max) + EncodeBlocks(plans[1..], max))
  }

  /** A stream behind its header: the blocks, the end marker, the checksum, and padding to a byte. */
  function EncodeStream(plans: seq<Plan>, max: nat, crc: nat): (b: Bitstring)
    requires ValidPlans(plans, max)
  {
    var body := EncodeBlocks(plans, max) + FinalBits();
    body + Trailer(|body|, crc)
  }

  lemma StreamLength(plans: seq<Plan>, max: nat, crc: nat)
    requires ValidPlans(plans, max)
    ensures |EncodeStream(plans, max, crc)| % 8 == 0
  {
    hide EncodeBlocks, FinalBits, Trailer, ValidPlan;
  }

  function HeaderBytes(level: nat): (h: seq<Byte>)
    requires 1 <= level <= 9
    ensures |h| == 4 && HeaderSize(h) == Success(100_000 * level)
  {
    [0x42, 0x5A, 0x68, 0x30 + level]
  }

  /** A compressed file. */
  function EncodeFile(level: nat, plans: seq<Plan>, crc: nat): (whole: seq<Byte>)
    requires 1 <= level <= 9 && ValidPlans(plans, 100_000 * level)
  {
    HeaderBytes(level) + BytesOf(EncodeStream(plans, 100_000 * level, crc))
  }

  // ---------------------------------------------------------------------------------------------
  // The round trip
  // ---------------------------------------------------------------------------------------------

  /** The plans hold the transforms of these run-length strings. */
  ghost predicate PlansFor(plans: seq<Plan>, xs: seq<seq<Byte>>, max: nat)
  {
    && |plans| == |xs| && ValidPlans(plans, max)
    && (forall i :: 0 <= i < |xs| ==> IsBwt(xs[i], plans[i].column.bytes, plans[i].column.origPtr))
  }

  function Expanded(xs: seq<seq<Byte>>): (texts: seq<seq<Byte>>)
    ensures |texts| == |xs| && forall i :: 0 <= i < |xs| ==> texts[i] == RleTheory.Decode(xs[i])
  {
    seq(|xs|, i requires 0 <= i < |xs| => RleTheory.Decode(xs[i]))
  }

  /** The vectors of the allocating expansion are long enough for all strings. */
  predicate AllInside(xs: seq<seq<Byte>>)
  {
    forall i :: 0 <= i < |xs| ==> RleTheory.Inside(RleTheory.Guaranteed, xs[i])
  }

  lemma PlansTail(plans: seq<Plan>, xs: seq<seq<Byte>>, max: nat)
    requires PlansFor(plans, xs, max) && xs != []
    ensures ValidPlan(plans[0], max) && IsBwt(xs[0], plans[0].column.bytes, plans[0].column.origPtr)
    ensures PlansFor(plans[1..], xs[1..], max) && Expanded(xs) == [RleTheory.Decode(xs[0])] + Expanded(xs[1..])
    ensures AllInside(xs) <==> RleTheory.Inside(RleTheory.Guaranteed, xs[0]) && AllInside(xs[1..])
  {
    hide ValidPlan, IsBwt, RleTheory.Decode, RleTheory.Inside;
    if RleTheory.Inside(RleTheory.Guaranteed, xs[0]) && AllInside(xs[1..]) {
      forall i | 0 <= i < |xs|
        ensures RleTheory.Inside(RleTheory.Guaranteed, xs[i])
      {
        if i > 0 { assert xs[i] == xs[1..][i - 1]; }
      }
    }
  }

  /** The markers in the stream read as their values. */
  lemma BlockMarker(bits: Bitstring, p: nat)
    requires At(bits, p, MagicBits())
    ensures p + 48 <= |bits| && Value(bits[p..p + 48]) == BLOCK_MAGIC
  {
    hide MagicBits, Value;
    MagicByValue(bits[p..p + 48]);
  }

  lemma FinalMarker(bits: Bitstring, p: nat)
    requires At(bits, p, FinalBits())
    ensures p + 48 <= |bits| && Value(bits[p..p + 48]) == FINAL_MAGIC
  {
    hide ToBits, Value, Pow2;
    Pow48();
    ValueOfToBits(FINAL_MAGIC, 48);
  }

  /** The sequential walk over a compressed stream finds exactly its blocks, and its end marker right
      behind them, if and only if the memory of all expansions is safe. */
  lemma {:induction false} StreamInverse(bits: Bitstring, p: nat, plans: seq<Plan>, xs: seq<seq<Byte>>, max: nat)
    requires p <= |bits| && PlansFor(plans, xs, max)
    requires At(bits, p, EncodeBlocks(plans, max) + FinalBits())
    ensures if AllInside(xs) then Sequential(bits, p, max).Blocks? else Sequential(bits, p, max) == Broken(InBlock(WriteBehindVector))
    ensures AllInside(xs) ==>
      && Sequential(bits, p, max).texts == Expanded(xs)
      && EndMarker(bits, p, max) == p + |EncodeBlocks(plans, max)|
    decreases |plans|
  {
    hide At, MagicBits, FinalBits, Value, AllocBlock, ReadBlock, EncodeBlock, PlansFor, Expanded, AllInside, Pow2, Sequential, EndMarker, RleTheory.Decode, RleTheory.Inside, ValidPlan;
    var final := FinalBits();
    NoPlans(plans, xs, max);
    if plans == [] {
      assert EncodeBlocks(plans, max) + final == final;
      FinalMarker(bits, p);
      SequentialEnds(bits, p, max);
    } else {
      PlansTail(plans, xs, max);
      var magic, block, rest := MagicBits(), EncodeBlock(plans[0], max), EncodeBlocks(plans[1..], max);
      Regroup(magic, block, rest, final);
      AtSplit(bits, p, magic, block + (rest + final));
      BlockMarker(bits, p);
      AtSplit(bits, p + 48, block, rest + final);
      CodedInverse(bits, p + 48, xs[0], plans[0], max);
      if RleTheory.Inside(RleTheory.Guaranteed, xs[0]) {
        AtEnds(bits, p + 48 + |block|, rest + final);
        StreamInverse(bits, p + 48 + |block|, plans[1..], xs[1..], max);
        SequentialBlock(bits, p, max, RleTheory.Decode(xs[0]), p + 48 + |block|);
      } else {
        SequentialOverrun(bits, p, max);
      }
    }
  }

  lemma SequentialOverrun(bits: Bitstring, p: nat, max: nat)
    requires p + 48 <= |bits| && Value(bits[p..p + 48]) == BLOCK_MAGIC && AllocBlock(bits, p + 48, max) == Err(WriteBehindVector)
    ensures Sequential(bits, p, max) == Broken(InBlock(WriteBehindVector))
  {
    hide Value, AllocBlock;
  }

  lemma SequentialEnds(bits: Bitstring, p: nat, max: nat)
    requires p + 48 <= |bits| && Value(bits[p..p + 48]) == FINAL_MAGIC
    ensures Sequential(bits, p, max) == Blocks([], []) && EndMarker(bits, p, max) == p
  {
    hide Value, AllocBlock;
  }

  lemma SequentialBlock(bits: Bitstring, p: nat, max: nat, d: seq<Byte>, next: nat)
    requires p + 48 <= |bits| && Value(bits[p..p + 48]) == BLOCK_MAGIC && AllocBlock(bits, p + 48, max) == Ok(d, next)
    ensures var rest := Sequential(bits, next, max);
      && (rest.Blocks? ==> Sequential(bits, p, max).Blocks? && Sequential(bits, p, max).texts == [d] + rest.texts)
      && (rest.Blocks? ==> Sequential(bits, p, max).starts == [p] + rest.starts)
      && (rest.Blocks? ==> EndMarker(bits, p, max) == EndMarker(bits, next, max))
      && (rest.Broken? ==> Sequential(bits, p, max) == rest)
  {
    hide Value, AllocBlock;
  }

  lemma NoPlans(plans: seq<Plan>, xs: seq<seq<Byte>>, max: nat)
    requires PlansFor(plans, xs, max)
    ensures |plans| == |xs| && ValidPlans(plans, max) && (xs == [] ==> Expanded(xs) == [] && AllInside(xs))
  {
  }

  lemma AtEnds(bits: Bitstring, p: nat, w: Bitstring)
    requires At(bits, p, w)
    ensures p + |w| <= |bits|
  {
  }

  lemma Regroup(a: Bitstring, b: Bitstring, c: Bitstring, d: Bitstring)
    ensures (a + (b + c)) + d == a + (b + (c + d))
  {
  }

  /** A compressed file begins with its header and goes on with its stream. */
  lemma FileBits(level: nat, plans: seq<Plan>, crc: nat)
    requires 1 <= level <= 9 && ValidPlans(plans, 100_000 * level)
    ensures var whole := EncodeFile(level, plans, crc);
      && HeaderSize(whole) == Success(100_000 * level)
      && |BitsOf(whole)| == 32 + |EncodeStream(plans, 100_000 * level, crc)|
      && At(BitsOf(whole), 32, EncodeStream(plans, 100_000 * level, crc))
  {
    hide BitsOf, BytesOf, EncodeStream, ValidPlan;
    var stream := EncodeStream(plans, 100_000 * level, crc);
    StreamLength(plans, 100_000 * level, crc);
    BitsOfConcat(HeaderBytes(level), BytesOf(stream));
    BitsOfBytesOf(stream);
  }

  /** What stands behind the end marker of a compressed file: a checksum, padding, and nothing more. */
  lemma StreamEnds(bits: Bitstring, plans: seq<Plan>, max: nat, crc: nat)
    requires ValidPlans(plans, max) && |bits| == 32 + |EncodeStream(plans, max, crc)|
    ensures 32 + |EncodeBlocks(plans, max)| + 48 <= |bits|
    ensures AfterFinal(bits, 32 + |EncodeBlocks(plans, max)|).Stop?
  {
    hide EncodeBlocks, FinalBits, Trailer, Value, ValidPlan;
  }

  lemma StreamStart(bits: Bitstring, plans: seq<Plan>, max: nat, crc: nat)
    requires ValidPlans(plans, max) && At(bits, 32, EncodeStream(plans, max, crc))
    ensures At(bits, 32, EncodeBlocks(plans, max) + FinalBits())
  {
    hide EncodeBlocks, FinalBits, Trailer, At, ValidPlan;
    var body := EncodeBlocks(plans, max) + FinalBits();
    AtSplit(bits, 32, body, Trailer(|body|, crc));
  }

  /** The round trip for files: what the decompressor makes of a compressed file are the expansions of the
      run-length strings its blocks were made from, and nothing is left behind them, if and only if the
      vector is long enough for each of the strings. */
  lemma FileInverse(level: nat, plans: seq<Plan>, xs: seq<seq<Byte>>, crc: nat)
    requires 1 <= level <= 9 && PlansFor(plans, xs, 100_000 * level)
    ensures var whole, max := EncodeFile(level, plans, crc), 100_000 * level;
      && HeaderSize(whole) == Success(max) && 32 <= |BitsOf(whole)|
      && (if AllInside(xs) then Sequential(BitsOf(whole), 32, max).Blocks?
          else Sequential(BitsOf(whole), 32, max) == Broken(InBlock(WriteBehindVector)))
      && (AllInside(xs) ==>
            && Sequential(BitsOf(whole), 32, max).texts == Expanded(xs)
            && AfterFinal(BitsOf(whole), EndMarker(BitsOf(whole), 32, max)).Stop?)
  {
    hide BitsOf, EncodeFile, EncodeStream, EncodeBlocks, PlansFor, Expanded, AllInside, At, AfterFinal, FinalBits, Sequential;
    var max := 100_000 * level;
    NoPlans(plans, xs, max);
    FileBits(level, plans, crc);
    var bits := BitsOf(EncodeFile(level, plans, crc));
    StreamStart(bits, plans, max, crc);
    StreamInverse(bits, 32, plans, xs, max);
    StreamEnds(bits, plans, max, crc);
  }

  /** Every list of run-length strings within the block size is the content of some compressed file. */
  lemma {:induction false} PlansExist(xs: seq<seq<Byte>>, max: nat) returns (plans: seq<Plan>)
    requires max <= MAX_BLOCKSIZE && forall i :: 0 <= i < |xs| ==> 0 < |xs[i]| <= max
    ensures PlansFor(plans, xs, max)
  {
    hide ValidPlan, IsBwt;
    plans := [];
    if xs != [] {
      var first := CodedPlanExists(xs[0], max);
      var rest := PlansExist(xs[1..], max);
      plans := [first] + rest;
      assert xs == [xs[0]] + xs[1..];
    }
  }

  /** A text whose expansion the allocating form can write: all but a last repetition of it fits into a
      quarter more than its run-length form. */
  predicate Writable(d: seq<Byte>)
  {
    var x := RleTheory.Encode(d);
    |RleTheory.Decode(RleTheory.WithoutLastCount(x))| <= |x| + |x| / 4
  }

  /** A text that is no longer than that is one. */
  lemma ShortIsWritable(d: seq<Byte>)
    requires |d| <= |RleTheory.Encode(d)| + |RleTheory.Encode(d)| / 4
    ensures Writable(d)
  {
    hide RleTheory.Encode, RleTheory.Decode, RleTheory.Inside, RleTheory.WithoutLastCount;
    RleTheory.DecodeEncode(d);
    RleTheory.InsideIfFits(RleTheory.Encode(d));
    RleTheory.InsideIff(RleTheory.Encode(d));
  }

  /** Every list of nonempty texts whose run-length forms fit the block size has a compressed file from
      which `decompress` gets exactly these texts, if and only if they are all writable. */
  lemma CompressedFile(texts: seq<seq<Byte>>, level: nat) returns (whole: seq<Byte>)
    requires 1 <= level <= 9
    requires forall i :: 0 <= i < |texts| ==> texts[i] != [] && |RleTheory.Encode(texts[i])| <= 100_000 * level
    ensures HeaderSize(whole) == Success(100_000 * level) && 32 <= |BitsOf(whole)|
    ensures
      var w := Sequential(BitsOf(whole), 32, 100_000 * level);
      if forall i :: 0 <= i < |texts| ==> Writable(texts[i]) then w.Blocks? && w.texts == texts
      else w == Broken(InBlock(WriteBehindVector))
  {
    hide BitsOf, EncodeFile, Sequential, PlansFor, RleTheory.Encode, RleTheory.Decode, RleTheory.Inside, RleTheory.WithoutLastCount;
    var xs := seq(|texts|, i requires 0 <= i < |texts| => RleTheory.Encode(texts[i]));
    forall i | 0 <= i < |texts|
      ensures xs[i] != [] && RleTheory.Decode(xs[i]) == texts[i]
      ensures RleTheory.Inside(RleTheory.Guaranteed, xs[i]) <==> Writable(texts[i])
    {
      RleTheory.EncodeNonempty(texts[i]);
      RleTheory.DecodeEncode(texts[i]);
      RleTheory.InsideIff(xs[i]);
    }
    var plans := PlansExist(xs, 100_000 * level);
    NoPlans(plans, xs, 100_000 * level);
    whole := EncodeFile(level, plans, 0);
    FileInverse(level, plans, xs, 0);
    assert Expanded(xs) == texts;
  }

  /** A run of 255 bytes and 100 bytes without runs are not writable, nor would they be with the capacity
      doubled: for every level there is a valid file in whose only block `decompress` writes behind the
      end of its vector. */
  lemma OverrunningFile(level: nat, growth: RleTheory.Growth) returns (whole: seq<Byte>)
    requires 1 <= level <= 9
    ensures !Writable(RleTheory.RunAndMore()) && !RleTheory.Inside(growth, RleTheory.Encode(RleTheory.RunAndMore()))
    ensures HeaderSize(whole) == Success(100_000 * level) && 32 <= |BitsOf(whole)|
    ensures Sequential(BitsOf(whole), 32, 100_000 * level) == Broken(InBlock(WriteBehindVector))
  {
    hide BitsOf, Sequential, RleTheory.Encode, RleTheory.Decode, RleTheory.Inside, RleTheory.WithoutLastCount, RleTheory.RunAndMore;
    var d := RleTheory.RunAndMore();
    RleTheory.RunAndMoreOverruns(growth);
    RleTheory.RunAndMoreOverruns(RleTheory.Guaranteed);
    RleTheory.InsideIff(RleTheory.Encode(d));
    whole := CompressedFile([d], level);
    assert [d][0] == d;
  }

  /** For every level there is a file that `decompress` accepts and whose text does not fit the block
      buffer of `lbunzip2`. */
  lemma OverflowingFile(level: nat) returns (whole: seq<Byte>)
    requires 1 <= level <= 9
    ensures HeaderSize(whole) == Success(100_000 * level) && 32 <= |BitsOf(whole)|
    ensures Sequential(BitsOf(whole), 32, 100_000 * level).Blocks?
    ensures !TextsFit(Sequential(BitsOf(whole), 32, 100_000 * level).texts, 100_000 * level)
  {
    hide BitsOf, EncodeFile, Sequential, PlansFor, RleTheory.Overlong, RleTheory.Decode, RleTheory.Inside;
    var max := 100_000 * level;
    var x := RleTheory.Overlong(max);
    var plans := PlansExist([x], max);
    NoPlans(plans, [x], max);
    whole := EncodeFile(level, plans, 0);
    FileInverse(level, plans, [x], 0);
    RleTheory.OverlongInside(max);
    assert |Expanded([x])[0]| > BlockCap(max);
  }
}
