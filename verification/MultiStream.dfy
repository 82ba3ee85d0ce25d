/** Files of several streams one behind the other, as parallel compressors write them: a segment goes on
    behind the end of a stream (`decode_segment` in `src/chunk.rs`), `decompress` does not
    (`src/stream.rs`). */
module MultiStream {
  import opened Wrappers
  import opened Errors
  import opened Bits
  import opened Lists
  import opened Magic
  import opened BlockSpec
  import opened BlockRoundTrip
  import opened BwtTheory
  import opened StreamTheory
  import opened ChunkTheory
  import opened ChunkedTheory
  import opened StreamRoundTrip
  import RleTheory

  /** One stream: the level its header names, its blocks, the run-length strings these hold, and its
      checksum. */
  datatype Member = Member(level: nat, plans: seq<Plan>, xs: seq<seq<Byte>>, crc: nat)

  ghost predicate ValidMember(m: Member, max: nat)
  {
    1 <= m.level <= 9 && PlansFor(m.plans, m.xs, max)
  }

  ghost predicate ValidMembers(ms: seq<Member>, max: nat)
  {
    forall i :: 0 <= i < |ms| ==> ValidMember(ms[i], max)
  }

  /** The streams one behind the other. */
  function Joined(ms: seq<Member>, max: nat): (file: seq<Byte>)
    requires ValidMembers(ms, max)
  {
    if ms == [] then []
    else
      MemberPlans(ms[0], max);
      HeaderBytes(ms[0].level) + (BytesOf(EncodeStream(ms[0].plans, max, ms[0].crc)) + Joined(ms[1..], max))
  }

  lemma MemberPlans(m: Member, max: nat)
    requires ValidMember(m, max)
    ensures ValidPlans(m.plans, max) && |m.plans| == |m.xs|
  {
  }

  /** A file of one stream is a compressed file. */
  lemma OneMember(m: Member)
    requires ValidMember(m, 100_000 * m.level)
    ensures ValidPlans(m.plans, 100_000 * m.level)
    ensures Joined([m], 100_000 * m.level) == EncodeFile(m.level, m.plans, m.crc)
  {
    hide EncodeStream, BytesOf, ValidMember;
    MemberPlans(m, 100_000 * m.level);
    assert [m][1..] == [];
    var stream := BytesOf(EncodeStream(m.plans, 100_000 * m.level, m.crc));
    assert stream + [] == stream;
  }

  /** A file of two streams is two compressed files one behind the other. */
  lemma TwoMembers(a: Member, b: Member)
    requires a.level == b.level && ValidMember(a, 100_000 * a.level) && ValidMember(b, 100_000 * a.level)
    ensures ValidPlans(a.plans, 100_000 * a.level) && ValidPlans(b.plans, 100_000 * a.level)
    ensures Joined([a, b], 100_000 * a.level) == EncodeFile(a.level, a.plans, a.crc) + EncodeFile(b.level, b.plans, b.crc)
  {
    hide EncodeStream, BytesOf, ValidMember;
    MemberPlans(a, 100_000 * a.level);
    OneMember(b);
    assert [a, b][1..] == [b];
  }

  // ---------------------------------------------------------------------------------------------
  // The header of a following stream
  // ---------------------------------------------------------------------------------------------

  /** These bytes begin with `BZh` and one more byte. */
  predicate HeaderFollows(tail: seq<Byte>)
  {
    |tail| >= 4 && tail[0] == 66 && tail[1] == 90 && tail[2] == 104
  }

  lemma HeaderBytesFollow(level: nat, tail: seq<Byte>)
    requires 1 <= level <= 9
    ensures HeaderFollows(HeaderBytes(level) + tail)
  {
  }

  lemma ThreeBytes(a: Byte, b: Byte, c: Byte)
    ensures Value(BitsOf([a, b, c])) == 0x1_0000 * a + 0x100 * b + c
  {
    hide Value, ToBits, BitsOf;
    Pow2Values();
    BitsOfConcat([a, b], [c]);
    BitsOfConcat([a], [b]);
    assert [a, b] == [a] + [b] && [a, b, c] == [a, b] + [c];
    OneByte(a);
    OneByte(b);
    OneByte(c);
    ValueConcat(BitsOf([a]), BitsOf([b]));
    ValueConcat(BitsOf([a, b]), BitsOf([c]));
  }

  lemma OneByte(a: Byte)
    ensures Value(BitsOf([a])) == a && |BitsOf([a])| == 8
  {
    hide Value, ToBits;
    Pow2Values();
    ValueOfToBits(a, 8);
    assert [a][..0] == [] && BitsOf([]) + ToBits(a, 8) == ToBits(a, 8);
  }

  /** Behind an end marker, its checksum and the padding the walk goes on if and only if the bytes there
      begin with a header. */
  lemma AfterFinalIff(bits: Bitstring, p: nat, q: nat, tail: seq<Byte>)
    requires p + 80 <= q < p + 88 && q % 8 == 0 && q <= |bits| && bits[q..] == BitsOf(tail)
    ensures AfterFinal(bits, p) == if HeaderFollows(tail) then Go([], q + 32) else Stop
  {
    hide Value, BitsOf;
    assert RoundUp(p + 80) == q;
    if |tail| >= 4 {
      var three := tail[..3];
      assert three == [tail[0], tail[1], tail[2]];
      BitsOfTake(tail, 3);
      assert bits[q..q + 24] == bits[q..][..24];
      ThreeBytes(tail[0], tail[1], tail[2]);
      HeaderValue(tail[0], tail[1], tail[2]);
    }
  }

  lemma HeaderValue(a: Byte, b: Byte, c: Byte)
    ensures 0x1_0000 * a + 0x100 * b + c == 0x425A68 <==> a == 66 && b == 90 && c == 104
  {
  }

  // ---------------------------------------------------------------------------------------------
  // The walk over the streams
  // ---------------------------------------------------------------------------------------------

  /** The texts of a stream fit the block buffer. */
  predicate MemberFits(m: Member, max: nat)
  {
    forall i :: 0 <= i < |m.xs| ==> |RleTheory.Decode(m.xs[i])| <= max + max / 4
  }

  predicate MembersFit(ms: seq<Member>, max: nat)
  {
    forall i :: 0 <= i < |ms| ==> MemberFits(ms[i], max)
  }

  function MemberText(m: Member): seq<Byte>
  {
    Flatten(Expanded(m.xs))
  }

  /** The texts of all streams joined. */
  function AllText(ms: seq<Member>): seq<Byte>
  {
    if ms == [] then [] else MemberText(ms[0]) + AllText(ms[1..])
  }

  predicate Fitting(xs: seq<seq<Byte>>, max: nat)
  {
    forall i :: 0 <= i < |xs| ==> |RleTheory.Decode(xs[i])| <= max + max / 4
  }

  /** The walk over the blocks of a stream yields their texts. */
  lemma {:induction false} WalkPlans(bits: Bitstring, p: nat, plans: seq<Plan>, xs: seq<seq<Byte>>, max: nat)
    requires p <= |bits| && PlansFor(plans, xs, max) && Fitting(xs, max)
    requires At(bits, p, EncodeBlocks(plans, max) + FinalBits())
    ensures p + |EncodeBlocks(plans, max)| + 48 <= |bits|
    ensures Walk(bits, p, |bits|, max)
         == Prepend(Flatten(Expanded(xs)), Walk(bits, p + |EncodeBlocks(plans, max)|, |bits|, max))
    decreases |plans|
  {
    hide At, MagicBits, FinalBits, Value, AllocBlock, ReadBlock, EncodeBlock, PlansFor, Expanded, Fitting, Walk, Prepend, Flatten, RleTheory.Decode, RleTheory.Inside, ValidPlan;
    var final := FinalBits();
    NoPlans(plans, xs, max);
    if plans == [] {
      assert EncodeBlocks(plans, max) + final == final;
      AtEnds(bits, p, final);
      FlattenNothing<Byte>();
      PrependNothing(Walk(bits, p, |bits|, max));
    } else {
      PlansTail(plans, xs, max);
      FittingTail(xs, max);
      var d := RleTheory.Decode(xs[0]);
      var magic, block, rest := MagicBits(), EncodeBlock(plans[0], max), EncodeBlocks(plans[1..], max);
      Regroup(magic, block, rest, final);
      AtSplit(bits, p, magic, block + (rest + final));
      BlockMarker(bits, p);
      AtSplit(bits, p + 48, block, rest + final);
      CodedInverse(bits, p + 48, xs[0], plans[0], max);
      var next := p + 48 + |block|;
      AtEnds(bits, next, rest + final);
      WalkBlock(bits, p, max, d, next);
      WalkPlans(bits, next, plans[1..], xs[1..], max);
      FlattenCons(d, Expanded(xs[1..]));
      PrependTwice(d, Flatten(Expanded(xs[1..])), Walk(bits, next + |rest|, |bits|, max));
    }
  }

  lemma FittingTail(xs: seq<seq<Byte>>, max: nat)
    requires Fitting(xs, max) && xs != []
    ensures Fitting(xs[1..], max) && |RleTheory.Decode(xs[0])| <= max + max / 4
  {
    hide RleTheory.Decode;
  }

  lemma WalkBlock(bits: Bitstring, p: nat, max: nat, d: seq<Byte>, next: nat)
    requires p + 48 <= |bits| && Value(bits[p..p + 48]) == BLOCK_MAGIC && ReadBlock(bits, p + 48, max) == Ok(d, next)
    requires |d| <= max + max / 4
    ensures Walk(bits, p, |bits|, max) == Prepend(d, Walk(bits, next, |bits|, max))
  {
    hide ReadBlock, Value;
    BlockCapIs(bits, p, max);
  }

  lemma WalkFinal(bits: Bitstring, p: nat, max: nat)
    requires p + 48 <= |bits| && Value(bits[p..p + 48]) == FINAL_MAGIC
    ensures Walk(bits, p, |bits|, max) ==
      if AfterFinal(bits, p).Go? then Prepend([], Walk(bits, AfterFinal(bits, p).next, |bits|, max)) else Segment([])
  {
    hide ReadBlock, Value;
  }

  /** The streams from byte `k` of the file on, and `tail` behind them. */
  lemma {:induction false} WalkMembers(bits: Bitstring, p: nat, ms: seq<Member>, tail: seq<Byte>, max: nat)
    requires p <= |bits| && p % 8 == 0 && ms != [] && ValidMembers(ms, max) && MembersFit(ms, max) && !HeaderFollows(tail)
    requires bits[p..] == BitsOf(Joined(ms, max) + tail)
    ensures p + 32 <= |bits| && Walk(bits, p + 32, |bits|, max) == Segment(AllText(ms))
    decreases |ms|
  {
    hide BitsOf, Joined, ValidMember, MemberFits, HeaderFollows, Walk, EncodeStream, EncodeBlocks, FinalBits, At, Prepend, Flatten, Expanded, RoundUp, Value, AfterFinal;
    var m, after := ms[0], Joined(ms[1..], max) + tail;
    MemberPlans(m, max);
    MemberBits(bits, p, ms, tail, max);
    var q := p + 32 + |EncodeStream(m.plans, max, m.crc)|;
    var f := p + 32 + |EncodeBlocks(m.plans, max)|;
    MemberWalk(bits, p, m, max);
    AfterFinalIff(bits, f, q, after);
    WalkFinal(bits, f, max);
    if |ms| == 1 {
      assert ms[1..] == [];
      NothingJoined(tail, max);
      AllTextCons(ms);
      PrependSegment(MemberText(m), []);
    } else {
      NextHeader(ms[1..], tail, max);
      WalkMembers(bits, q, ms[1..], tail, max);
      AllTextCons(ms);
      PrependSegment([], AllText(ms[1..]));
      PrependSegment(MemberText(m), AllText(ms[1..]));
      assert [] + AllText(ms[1..]) == AllText(ms[1..]);
    }
  }

  lemma PrependSegment(a: seq<Byte>, b: seq<Byte>)
    ensures Prepend(a, Segment(b)) == Segment(a + b) && Prepend([], Segment(b)) == Segment(b)
  {
    assert [] + b == b;
  }

  lemma AllTextCons(ms: seq<Member>)
    requires ms != []
    ensures AllText(ms) == MemberText(ms[0]) + AllText(ms[1..])
    ensures |ms| == 1 ==> AllText(ms) == MemberText(ms[0]) + []
  {
    hide MemberText;
  }

  lemma NothingJoined(tail: seq<Byte>, max: nat)
    ensures ValidMembers([], max) && Joined([], max) + tail == tail
  {
    assert [] + tail == tail;
  }

  lemma NextHeader(ms: seq<Member>, tail: seq<Byte>, max: nat)
    requires ms != [] && ValidMembers(ms, max)
    ensures HeaderFollows(Joined(ms, max) + tail)
  {
    hide EncodeStream, BytesOf, PlansFor;
    var m := ms[0];
    MemberPlans(m, max);
    var rest := BytesOf(EncodeStream(m.plans, max, m.crc)) + Joined(ms[1..], max);
    assert Joined(ms, max) == HeaderBytes(m.level) + rest;
    assert (HeaderBytes(m.level) + rest) + tail == HeaderBytes(m.level) + (rest + tail);
    HeaderBytesFollow(m.level, rest + tail);
  }

  /** The first stream in the bits of the file, and what stands behind it. */
  lemma MemberBits(bits: Bitstring, p: nat, ms: seq<Member>, tail: seq<Byte>, max: nat)
    requires p <= |bits| && ms != [] && ValidMembers(ms, max) && ValidPlans(ms[0].plans, max)
    requires bits[p..] == BitsOf(Joined(ms, max) + tail)
    ensures var stream := EncodeStream(ms[0].plans, max, ms[0].crc);
      && |stream| % 8 == 0 && At(bits, p + 32, stream)
      && bits[p + 32 + |stream|..] == BitsOf(Joined(ms[1..], max) + tail)
  {
    hide BitsOf, EncodeStream, BytesOf, ValidMember, ValidPlan;
    var m := ms[0];
    var stream := EncodeStream(m.plans, max, m.crc);
    var header, body, after := HeaderBytes(m.level), BytesOf(stream), Joined(ms[1..], max) + tail;
    StreamLength(m.plans, max, m.crc);
    BitsOfBytesOf(stream);
    assert Joined(ms, max) == header + (body + Joined(ms[1..], max)) by { JoinedCons(ms, max); }
    assert Joined(ms, max) + tail == header + (body + after);
    BitsOfConcat(header, body + after);
    BitsOfConcat(body, after);
    Positions(bits, p, BitsOf(header), stream, BitsOf(after));
  }

  lemma JoinedCons(ms: seq<Member>, max: nat)
    requires ms != [] && ValidMembers(ms, max) && ValidPlans(ms[0].plans, max)
    ensures Joined(ms, max) == HeaderBytes(ms[0].level) + (BytesOf(EncodeStream(ms[0].plans, max, ms[0].crc)) + Joined(ms[1..], max))
  {
    hide EncodeStream, BytesOf, ValidPlan;
  }

  lemma Positions(bits: Bitstring, p: nat, a: Bitstring, b: Bitstring, c: Bitstring)
    requires p <= |bits| && bits[p..] == a + (b + c)
    ensures At(bits, p + |a|, b) && bits[p + |a| + |b|..] == c
  {
    assert bits[p..] == bits[p..p + |a + (b + c)|];
    AtSplit(bits, p, a, b + c);
    AtSplit(bits, p + |a|, b, c);
    assert bits[p + |a| + |b|..p + |a| + |b| + |c|] == bits[p + |a| + |b|..];
  }

  /** The walk over one stream up to its end marker. */
  lemma MemberWalk(bits: Bitstring, p: nat, m: Member, max: nat)
    requires p % 8 == 0 && ValidMember(m, max) && MemberFits(m, max) && ValidPlans(m.plans, max)
    requires At(bits, p + 32, EncodeStream(m.plans, max, m.crc)) && |EncodeStream(m.plans, max, m.crc)| % 8 == 0
    ensures var f, q := p + 32 + |EncodeBlocks(m.plans, max)|, p + 32 + |EncodeStream(m.plans, max, m.crc)|;
      && f + 80 <= q < f + 88 && q <= |bits| && Value(bits[f..f + 48]) == FINAL_MAGIC && q % 8 == 0
      && Walk(bits, p + 32, |bits|, max) == Prepend(MemberText(m), Walk(bits, f, |bits|, max))
  {
    hide At, EncodeBlocks, FinalBits, Walk, PlansFor, Fitting, RleTheory.Decode, Expanded, Flatten, Value, Trailer, ValidPlan;
    var body := EncodeBlocks(m.plans, max) + FinalBits();
    AtSplit(bits, p + 32, body, Trailer(|body|, m.crc));
    AtEnds(bits, p + 32, EncodeStream(m.plans, max, m.crc));
    SameFit(m, max);
    WalkPlans(bits, p + 32, m.plans, m.xs, max);
    AtSplit(bits, p + 32, EncodeBlocks(m.plans, max), FinalBits());
    FinalMarker(bits, p + 32 + |EncodeBlocks(m.plans, max)|);
  }

  lemma SameFit(m: Member, max: nat)
    requires MemberFits(m, max)
    ensures Fitting(m.xs, max)
  {
    hide RleTheory.Decode;
  }

  /** The round trip for files of several streams: decoding such a file as one segment from its first block
      gives the texts of all streams, whatever stands behind the last unless it is the header of yet
      another one.  The block size is that of the first header. */
  lemma StreamsInverse(ms: seq<Member>, tail: seq<Byte>)
    requires ms != [] && ms[0].level <= 9 && ValidMembers(ms, 100_000 * ms[0].level)
    requires MembersFit(ms, 100_000 * ms[0].level) && !HeaderFollows(tail)
    ensures var whole, max := Joined(ms, 100_000 * ms[0].level) + tail, 100_000 * ms[0].level;
      && HeaderSize(whole) == Success(max) && 32 <= |BitsOf(whole)|
      && Walk(BitsOf(whole), 32, |BitsOf(whole)|, max) == Segment(AllText(ms))
      && (ms[0].plans != [] ==>
            80 <= |BitsOf(whole)| && MagicAt(BitsOf(whole), 32)
            && SegmentAt(BitsOf(whole), 32, |BitsOf(whole)|, max) == Segment(AllText(ms)))
  {
    hide BitsOf, Joined, Walk, AllText, HeaderFollows, MembersFit, SegmentAt, MagicAt, EncodeStream, PlansFor;
    var max := 100_000 * ms[0].level;
    var whole := Joined(ms, max) + tail;
    var bits := BitsOf(whole);
    assert bits[0..] == bits;
    WalkMembers(bits, 0, ms, tail, max);
    MemberPlans(ms[0], max);
    JoinedHeader(ms, tail, max);
    if ms[0].plans != [] {
      MemberBits(bits, 0, ms, tail, max);
      FirstMagic(bits, ms[0], max);
      SegmentIsWalk(bits, 32, |bits|, max);
    }
  }

  lemma JoinedHeader(ms: seq<Member>, tail: seq<Byte>, max: nat)
    requires ms != [] && 1 <= ms[0].level <= 9 && ValidMembers(ms, max) && ValidPlans(ms[0].plans, max)
    ensures HeaderSize(Joined(ms, max) + tail) == Success(100_000 * ms[0].level)
  {
    hide EncodeStream, BytesOf, ValidPlan;
    JoinedCons(ms, max);
    var whole, h := Joined(ms, max) + tail, HeaderBytes(ms[0].level);
    assert whole[..4] == h;
    assert forall i :: 0 <= i < 4 ==> whole[i] == whole[..4][i];
  }

  lemma FirstMagic(bits: Bitstring, m: Member, max: nat)
    requires ValidPlans(m.plans, max) && m.plans != [] && At(bits, 32, EncodeStream(m.plans, max, m.crc))
    ensures MagicAt(bits, 32) && 80 <= |bits|
    ensures |bits| >= 32 + 48 + 48 + 32
  {
    hide MagicBits, FinalBits, EncodeBlock, Trailer, ValidPlan, At;
    AtEnds(bits, 32, EncodeStream(m.plans, max, m.crc));
    StreamStart(bits, m.plans, max, m.crc);
    var rest := EncodeBlock(m.plans[0], max) + EncodeBlocks(m.plans[1..], max);
    assert EncodeBlocks(m.plans, max) + FinalBits() == MagicBits() + (rest + FinalBits());
    AtSplit(bits, 32, MagicBits(), rest + FinalBits());
  }

  /** `decompress` stops at the end of the first stream. */
  lemma OnlyTheFirst(ms: seq<Member>, tail: seq<Byte>)
    requires ms != [] && ms[0].level <= 9 && ValidMembers(ms, 100_000 * ms[0].level) && AllInside(ms[0].xs)
    ensures var whole, max := Joined(ms, 100_000 * ms[0].level) + tail, 100_000 * ms[0].level;
      && HeaderSize(whole) == Success(max) && 32 <= |BitsOf(whole)|
      && Sequential(BitsOf(whole), 32, max).Blocks?
      && Flatten(Sequential(BitsOf(whole), 32, max).texts) == MemberText(ms[0])
  {
    hide BitsOf, Joined, Sequential, EncodeStream, PlansFor, AllInside, Expanded, Flatten, At;
    var max, m := 100_000 * ms[0].level, ms[0];
    var bits := BitsOf(Joined(ms, max) + tail);
    assert bits[0..] == bits;
    MemberPlans(m, max);
    JoinedHeader(ms, tail, max);
    MemberBits(bits, 0, ms, tail, max);
    AtEnds(bits, 32, EncodeStream(m.plans, max, m.crc));
    StreamStart(bits, m.plans, max, m.crc);
    StreamInverse(bits, 32, m.plans, m.xs, max);
  }

  /** At the start of such a file the main loop of `lbunzip2` is in position. */
  lemma StreamsPosition(ms: seq<Member>, tail: seq<Byte>)
    requires ms != [] && ms[0].level <= 9 && ValidMembers(ms, 100_000 * ms[0].level) && ms[0].plans != []
    ensures Position(Joined(ms, 100_000 * ms[0].level) + tail, 0, 4, 32)
  {
    hide BitsOf, Joined, EncodeStream, PlansFor, MagicAt, At;
    var max := 100_000 * ms[0].level;
    var whole := Joined(ms, max) + tail;
    var bits := BitsOf(whole);
    assert bits[0..] == bits;
    MemberPlans(ms[0], max);
    JoinedHeader(ms, tail, max);
    MemberBits(bits, 0, ms, tail, max);
    FirstMagic(bits, ms[0], max);
    DataLength(whole);
    forall q | 0 <= q < 32
      ensures !MagicAt(bits, q)
    {
      if MagicAt(bits, q) { OverlapOnlyAt45(bits, q, 32); }
    }
  }
}
