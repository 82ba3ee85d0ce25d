/** Splitting a chunk and decoding a segment (`src/chunk.rs`), and the main loop that reads, carries,
    splits and decodes (`src/bin/lbunzip2.rs`). */
module Chunk {
  import opened Wrappers
  import opened Bits
  import opened BitReaders
  import opened Magic
  import opened ScanTheory
  import opened SymbolTheory
  import opened BlockSpec
  import opened BlockRoundTrip
  import opened ChunkTheory
  import opened ChunkedTheory
  import Block
  import Scan

  /** `split_chunk`. */
  method SplitChunk(data: seq<Byte>, nSegments: nat, max: nat, isLast: bool) returns (r: Option<Split>)
    ensures r == SplitOf(BitsOf(data), |data|, nSegments, max, isLast)
  {
    hide BitsOf, ScanTheory.Scan, Scan.SplitPoints, Increasing;
    var first := Scan.FindNextBlock(data, 0);
    if first == None {
      return None;
    }
    var splits := Scan.SplitBoundariesParallel(data, nSegments, max);
    var starts: seq<nat> := [first.value];
    assert splits[0..] == splits;
    for i := 0 to |splits|
      invariant starts != []
      invariant PushDistinct(starts, splits[i..]) == StartsOf(BitsOf(data), |data|, first.value, nSegments, max)
    {
      assert splits[i..] == [splits[i]] + splits[i + 1..];
      if starts[|starts| - 1] != splits[i] {
        starts := starts + [splits[i]];
      }
    }
    var n := |starts|;
    var decodeSegments := n;
    if !isLast {
      if n <= 1 {
        return None;
      }
      decodeSegments := n - 1;
    }
    var consumed := if decodeSegments < n then starts[decodeSegments] / 8 else |data|;
    r := Some(Split(starts, decodeSegments, consumed));
  }

  /** The first three bytes of a big-endian 32-bit read. */
  lemma TopBytes(bits: Bitstring, p: nat)
    requires p + 32 <= |bits|
    ensures Value(bits[p..p + 32]) / 0x100 == Value(bits[p..p + 24])
  {
    hide Value;
    var hi, lo := bits[p..p + 24], bits[p + 24..p + 32];
    assert bits[p..p + 32] == hi + lo;
    ValueConcat(hi, lo);
    assert Pow2(8) == 256;
  }

  /** The part of the loop behind an end marker: skip the checksum and the padding, and read the next
      stream's header.  False ends the loop. */
  method NextStream(reader: BitReader) returns (more: bool)
    requires reader.Valid() && 48 <= reader.Pos()
    modifies reader
    ensures reader.Valid()
    ensures AfterFinal(reader.Stream(), old(reader.Pos()) - 48) == if more then Go([], reader.Pos()) else Stop
  {
    hide BitsOf, RegisterMatches, Value;
    var crc := reader.ReadBits(32);
    if crc == None {
      return false;
    }
    var p := reader.Position();
    var pad := (8 - p % 8) % 8;
    WholeBytes(reader.bytes, p);
    if pad > 0 {
      reader.Skip(pad);
    }
    ghost var q := reader.Pos();
    var h := reader.ReadBits(32);
    if h == None {
      return false;
    }
    TopBytes(reader.Stream(), q);
    more := h.value / 0x100 == 0x425A68;
  }

  lemma WholeBytes(bytes: seq<Byte>, p: nat)
    requires p <= |BitsOf(bytes)|
    ensures RoundUp(p) <= |BitsOf(bytes)|
  {
    hide BitsOf;
    assert |BitsOf(bytes)| == 8 * |bytes|;
  }

  /** `decode_block_into_vec`: the output grows by the block's text, which must fit a buffer of
      `blockCap` bytes. */
  method DecodeBlockIntoVec(output: seq<Byte>, reader: BitReader, max: nat, blockCap: nat)
      returns (r: Block.IntoResult, grown: seq<Byte>)
    requires reader.Valid() && max <= MAX_BLOCKSIZE && !ReadBlock(reader.Stream(), reader.Pos(), max).Oversubscribed?
    modifies reader
    ensures reader.Valid()
    ensures match ReadBlock(reader.Stream(), old(reader.Pos()), max)
      case Ok(d, p) =>
        && reader.Pos() == p
        && (if |d| <= blockCap then r == Block.Written(|d|) && grown == output + d else r == Block.Aborted)
      case Err(e) => r == Block.Rejection(e) && grown == output
      case Oversubscribed => false
  {
    hide RegisterMatches, BitsOf, ReadBlock;
    var out := new Byte[blockCap];
    r := Block.DecodeBlockInto(reader, max, out);
    grown := if r.Written? then output + out[..r.n] else output;
  }

  /** `decode_segment`: what the walk over the segment comes to, an overflowing block included. */
  method DecodeSegment(data: seq<Byte>, startBit: nat, endBit: nat, max: nat) returns (r: Decoded)
    requires max <= MAX_BLOCKSIZE && startBit + 48 <= 8 * |data|
    requires !SegmentAt(BitsOf(data), startBit, endBit, max).Beyond?
    ensures r == SegmentAt(BitsOf(data), startBit, endBit, max)
  {
    hide BitsOf, RegisterMatches, ReadBlock, Value, AfterFinal;
    var totalBits := 8 * |data|;
    var blockCap := max + max / 4;
    ghost var bits := BitsOf(data);
    ghost var whole := SegmentAt(bits, startBit, endBit, max);
    var reader := new BitReader.FromBitOffset(data, startBit + 48);
    var block, output := DecodeBlockIntoVec([], reader, max, blockCap);
    if block.Aborted? {
      return Panic;
    }
    if block.Rejection? {
      return Segment(output);
    }
    assert forall d: seq<Byte> :: [] + d == d;
    while true
      invariant reader.Valid() && reader.bytes == data
      invariant whole == Prepend(output, Walk(bits, reader.Pos(), endBit, max))
      decreases |bits| - reader.Pos()
    {
      ghost var p := reader.Pos();
      var pos := reader.Position();
      WalkEmpty(bits, pos, endBit, max, output);
      if pos + 48 > totalBits || pos >= endBit {
        break;
      }
      WalkMoves(bits, pos, endBit, max, output);
      var magic := reader.ReadBits(48);
      if magic == None {
        break;
      }
      if magic.value == BLOCK_MAGIC {
        block, output := DecodeBlockIntoVec(output, reader, max, blockCap);
        if block.Aborted? {
          return Panic;
        }
        if block.Rejection? {
          break;
        }
      } else if magic.value == FINAL_MAGIC {
        var more := NextStream(reader);
        if !more {
          break;
        }
        assert output + [] == output;
      } else {
        break;
      }
    }
    r := Segment(output);
  }

  lemma WalkEmpty(bits: Bitstring, p: nat, end: nat, max: nat, output: seq<Byte>)
    requires p <= |bits|
    ensures p + 48 > |bits| || p >= end ==> Prepend(output, Walk(bits, p, end, max)) == Segment(output)
  {
    assert output + [] == output;
  }

  /** One turn of the loop on the walk whose first part is in `output`. */
  lemma WalkMoves(bits: Bitstring, p: nat, end: nat, max: nat, output: seq<Byte>)
    requires p + 48 <= |bits| && p < end
    ensures var m := MoveAt(bits, p, max);
      && (m.Go? ==> Prepend(output, Walk(bits, p, end, max)) == Prepend(output + m.out, Walk(bits, m.next, end, max)))
      && (m.Stop? ==> Prepend(output, Walk(bits, p, end, max)) == Segment(output))
      && (m.Overflow? ==> Prepend(output, Walk(bits, p, end, max)) == Panic)
      && (m.Outside? ==> Prepend(output, Walk(bits, p, end, max)) == Beyond)
  {
    hide MoveAt;
    var m := MoveAt(bits, p, max);
    if m.Go? {
      PrependTwice(output, m.out, Walk(bits, m.next, end, max));
    }
    assert output + [] == output;
  }

  // ---------------------------------------------------------------------------------------------
  // The main loop
  // ---------------------------------------------------------------------------------------------

  /** No segment of any chunk holds a block with oversubscribed code lengths. */
  predicate InModel(cs: seq<Turn>)
  {
    forall i, j :: 0 <= i < |cs| && cs[i].Worked? && 0 <= j < |cs[i].outs| ==> !cs[i].outs[j].Beyond?
  }

  /** The segments of one chunk, as the workers decode them. */
  method DecodeSegments(data: seq<Byte>, split: Split, max: nat) returns (outs: seq<Decoded>)
    requires max <= MAX_BLOCKSIZE && split.count <= |split.starts|
    requires StartsInside(BitsOf(data), split.starts)
    requires forall i :: 0 <= i < split.count ==> !Segments(BitsOf(data), split.starts, |BitsOf(data)|, split.count, max)[i].Beyond?
    ensures outs == Segments(BitsOf(data), split.starts, |BitsOf(data)|, split.count, max)
  {
    hide BitsOf, SegmentAt;
    var totalBits := 8 * |data|;
    outs := [];
    for i := 0 to split.count
      invariant |outs| == i
      invariant forall j :: 0 <= j < i ==> outs[j] == Segments(BitsOf(data), split.starts, |BitsOf(data)|, split.count, max)[j]
    {
      var end := if i + 1 < |split.starts| then split.starts[i + 1] else totalBits;
      assert end == SegmentEnd(split.starts, |BitsOf(data)|, i);
      assert !Segments(BitsOf(data), split.starts, |BitsOf(data)|, split.count, max)[i].Beyond?;
      var out := DecodeSegment(data, split.starts[i], end, max);
      outs := outs + [out];
    }
  }

  /** One turn of the main loop: put the carry in front of the bytes read, split the chunk, keep what is
      not consumed, and decode the segments.  A carry that does not fit ends the main thread. */
  method DecodeChunk(carry: seq<Byte>, read: seq<Byte>, isLast: bool, nWorkers: nat, max: nat, headroom: nat)
      returns (c: Turn, next: seq<Byte>)
    requires max <= MAX_BLOCKSIZE && (|carry| <= headroom ==> NoneBeyond(ChunkOf(carry + read, isLast, nWorkers, max)))
    ensures if |carry| > headroom then c == CarryTooLong && next == carry
            else c == ChunkOf(carry + read, isLast, nWorkers, max) && next == CarryOf(carry, carry + read, isLast, nWorkers, max)
  {
    hide BitsOf, SplitOf, Segments, SegmentAt, StartsInside;
    if |carry| > headroom {
      return CarryTooLong, carry;
    }
    var data := carry + read;
    var split := SplitChunk(data, nWorkers, max, isLast);
    if split == None {
      return Unsplit, carry;
    }
    SplitIsSound(BitsOf(data), |data|, nWorkers, max, isLast);
    next := data[split.value.consumed..];
    var outs := DecodeSegments(data, split.value, max);
    c := Worked(outs);
  }

  predicate NoneBeyond(c: Turn)
  {
    c.Worked? ==> forall j :: 0 <= j < |c.outs| ==> !c.outs[j].Beyond?
  }

  /** The reader and the main loop over a whole file: read up to `size` bytes, put the carry in front,
      and go on with what the chunk leaves, until the last chunk or a carry that does not fit. */
  method DecodeChunks(header: seq<Byte>, file: seq<Byte>, size: nat, nWorkers: nat, max: nat, headroom: nat)
      returns (cs: seq<Turn>)
    requires size >= 1 && max <= MAX_BLOCKSIZE && InModel(Chunks(header, file, size, nWorkers, max, headroom))
    ensures cs == Chunks(header, file, size, nWorkers, max, headroom)
  {
    hide Chunks, ChunkOf, CarryOf, InModel, NoneBeyond;
    ghost var whole := Chunks(header, file, size, nWorkers, max, headroom);
    var carry, rest, isLast := header, file, false;
    cs := [];
    while !isLast
      invariant whole == if isLast then cs else cs + Chunks(carry, rest, size, nWorkers, max, headroom)
      decreases |rest|, !isLast
    {
      var got := if |rest| < size then |rest| else size;
      isLast := got < size;
      ChunksUnfold(carry, rest, got, isLast, size, nWorkers, max, headroom);
      if got == 0 && |carry| <= 4 {
        cs := cs + [Unsplit];
        return;
      }
      ghost var data := carry + rest[..got];
      ghost var chunk := ChunkOf(data, isLast, nWorkers, max);
      ghost var tail := if isLast then [] else Chunks(CarryOf(carry, data, isLast, nWorkers, max), rest[got..], size, nWorkers, max, headroom);
      ChunksJoined(cs, chunk, tail);
      if |carry| <= headroom {
        InModelAt(cs, chunk, tail);
      }
      var c, next := DecodeChunk(carry, rest[..got], isLast, nWorkers, max, headroom);
      cs := cs + [c];
      if c.CarryTooLong? {
        return;
      }
      carry, rest := next, rest[got..];
    }
  }

  lemma ChunksUnfold(carry: seq<Byte>, rest: seq<Byte>, got: nat, isLast: bool, size: nat, n: nat, max: nat, headroom: nat)
    requires size >= 1 && got == (if |rest| < size then |rest| else size) && (isLast <==> got < size)
    ensures Chunks(carry, rest, size, n, max, headroom) ==
      if got == 0 && |carry| <= 4 then [Unsplit]
      else if |carry| > headroom then [CarryTooLong]
      else
        var data := carry + rest[..got];
        [ChunkOf(data, isLast, n, max)]
        + if isLast then [] else Chunks(CarryOf(carry, data, isLast, n, max), rest[got..], size, n, max, headroom)
  {
    hide ChunkOf, CarryOf;
  }

  lemma ChunksJoined(before: seq<Turn>, c: Turn, tail: seq<Turn>)
    ensures before + ([c] + tail) == (before + [c]) + tail
    ensures before + [c] + [] == before + [c]
  {
  }

  lemma InModelAt(before: seq<Turn>, c: Turn, tail: seq<Turn>)
    requires InModel(before + ([c] + tail))
    ensures NoneBeyond(c)
  {
    var cs := before + ([c] + tail);
    assert cs[|before|] == c;
  }
}
