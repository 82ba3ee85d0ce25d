/** `StreamingBz2Read` and `ParallelBz2Read` (`src/reader.rs`). */
module Readers {
  import opened Wrappers
  import opened Errors
  import opened Bits
  import opened Lists
  import opened SymbolTheory
  import opened ScanTheory
  import opened BlockRoundTrip
  import opened StreamTheory
  import opened ReaderTheory
  import StreamImpl = Stream
  import Scan

  /** A source of bytes that hands out as many as it likes at a time, but none only at its end. */
  class Source {
    var rest: seq<Byte>

    constructor (data: seq<Byte>)
      ensures rest == data
    {
      rest := data;
    }

    method Read(max: nat) returns (got: seq<Byte>)
      modifies this
      ensures old(rest) == got + rest && |got| <= max
      ensures got == [] <==> max == 0 || old(rest) == []
    {
      if max == 0 || rest == [] {
        return [];
      }
      var most := Min(max, |rest|);
      assert 1 <= most;
      var n: nat :| 1 <= n <= most;
      got := rest[..n];
      rest := rest[n..];
    }

    /** Reading until there are `n` bytes or no more come: however the source cuts them, these are the
        next `n` bytes, or all that are left. */
    method ReadUpTo(n: nat) returns (got: seq<Byte>)
      modifies this
      ensures got == old(rest)[..Min(n, |old(rest)|)] && rest == old(rest)[Min(n, |old(rest)|)..]
    {
      got := [];
      var end := false;
      while |got| < n && !end
        invariant |got| <= n && old(rest) == got + rest
        invariant end ==> rest == []
        decreases |rest|, !end
      {
        var more := Read(n - |got|);
        if more == [] {
          end := true;
        } else {
          got := got + more;
        }
      }
    }
  }

  /** The texts of the results up to the first failure, and the failure. */
  method AppendResults(results: seq<Result<seq<Byte>, BlockError>>, ghost starts: seq<nat>, ghost bits: Bitstring, ghost max: nat)
      returns (out: seq<Byte>, error: Option<StreamError>)
    requires |results| == |starts| && forall i :: 0 <= i < |starts| ==> starts[i] + 48 <= |bits|
    requires forall j :: 0 <= j < |results| ==> StreamImpl.ResultAt(results[j], bits, starts[j], max)
    ensures match Separate(bits, starts, max)
      case Blocks(texts, _) => error == None && out == Flatten(texts)
      case Broken(e) => error == Some(e) && out == Flatten(Sound(bits, starts, max))
      case Unmodelled => false
  {
    hide AllocBlock, Flatten, StreamImpl.ResultAt, Separate, Sound;
    out := [];
    FlattenNothing<Byte>();
    ghost var texts: seq<seq<Byte>> := [];
    for i := 0 to |results|
      invariant |texts| == i && out == Flatten(texts)
      invariant forall j :: 0 <= j < i ==> results[j] == Success(texts[j])
    {
      if results[i].Failure? {
        StreamImpl.SeparateFails(results, starts, bits, max, i);
        SoundUpTo(results, starts, bits, max, texts);
        return out, Some(InBlock(results[i].error));
      }
      FlattenAppend(texts, [results[i].value]);
      FlattenOne(results[i].value);
      out := out + results[i].value;
      texts := texts + [results[i].value];
    }
    StreamImpl.SeparateSucceeds(results, starts, bits, max, texts);
    error := None;
  }

  lemma {:induction false} SoundUpTo(results: seq<Result<seq<Byte>, BlockError>>, starts: seq<nat>, bits: Bitstring, max: nat, texts: seq<seq<Byte>>)
    requires |results| == |starts| && forall i :: 0 <= i < |starts| ==> starts[i] + 48 <= |bits|
    requires forall j :: 0 <= j < |results| ==> StreamImpl.ResultAt(results[j], bits, starts[j], max)
    requires |texts| < |results| && results[|texts|].Failure? && forall j :: 0 <= j < |texts| ==> results[j] == Success(texts[j])
    ensures Sound(bits, starts, max) == texts
    decreases |texts|
  {
    hide AllocBlock;
    assert StreamImpl.ResultAt(results[0], bits, starts[0], max);
    if texts != [] {
      SoundUpTo(results[1..], starts[1..], bits, max, texts[1..]);
    }
  }

  /** The streaming reader.  `chunkBytes` is how much it reads at a time. */
  class StreamingReader {
    const source: Source
    const max: nat
    const chunkBytes: nat
    var compBuf: seq<Byte>
    var outBuf: seq<Byte>
    var outPos: nat
    var sourceEof: bool

    ghost function State(): Stream
      reads this, source
    {
      Stream(compBuf, source.rest, sourceEof, outBuf, outPos)
    }

    ghost predicate Valid()
      reads this
    {
      outPos <= |outBuf| && max <= MAX_BLOCKSIZE
    }

    constructor (source: Source, header: seq<Byte>, max: nat, chunkBytes: nat)
      requires max <= MAX_BLOCKSIZE
      ensures Valid() && this.source == source && this.max == max && this.chunkBytes == chunkBytes
      ensures State() == Stream(header, source.rest, false, [], 0)
    {
      this.source, this.max, this.chunkBytes := source, max, chunkBytes;
      compBuf, outBuf, outPos, sourceEof := header, [], 0, false;
    }

    /** `new`: the header decides; a good one is kept in the buffer. */
    static method Open(source: Source, chunkBytes: nat) returns (r: Result<StreamingReader, StreamError>)
      modifies source
      ensures match HeaderSize(old(source.rest))
        case Failure(e) => r == Failure(e)
        case Success(max) =>
          && r.Success? && fresh(r.value) && r.value.Valid() && r.value.source == source && r.value.max == max
          && r.value.chunkBytes == chunkBytes && r.value.State() == Opened(old(source.rest))
    {
      var header := source.ReadUpTo(4);
      var size := HeaderSize(header);
      HeaderIsFirst(old(source.rest), header);
      if size.Failure? {
        return Failure(size.error);
      }
      var reader := new StreamingReader(source, header, size.value, chunkBytes);
      r := Success(reader);
    }

    /** `fill`. */
    method Fill() returns (error: Option<StreamError>)
      requires Valid() && FillModelled(State(), chunkBytes, max)
      modifies this, source
      ensures Valid() && (State(), error) == ReaderTheory.Fill(old(State()), chunkBytes, max)
    {
      hide BitsOf, Found, Separate, Flatten, Modelled, Sound;
      if sourceEof && |compBuf| <= 4 {
        outBuf, outPos := [], 0;
        return None;
      }
      if !sourceEof {
        var more := source.ReadUpTo(chunkBytes);
        compBuf := compBuf + more;
        sourceEof := |more| < chunkBytes;
      }
      assert State() == Topped(old(State()), chunkBytes);
      error := DecodeBuffered();
    }

    /** The rest of `fill`: scan, decode, and drop what is decoded. */
    method DecodeBuffered() returns (error: Option<StreamError>)
      requires Valid() && BufferModelled(State(), max)
      modifies this
      ensures Valid() && (State(), error) == Decoded(old(State()), max)
    {
      hide BitsOf, Found, Separate, Flatten, Modelled, Sound;
      FoundInside(compBuf);
      var boundaries := Scan.FindAllBlocks(compBuf);
      assert boundaries == Found(compBuf) by { FoundIs(compBuf); }
      if boundaries == [] {
        if sourceEof {
          compBuf, outBuf, outPos := [], [], 0;
        }
        return None;
      }
      var decodeCount := |boundaries|;
      if !sourceEof {
        if |boundaries| > 1 {
          decodeCount := |boundaries| - 1;
        } else {
          return None;
        }
      }
      ghost var bits, starts := BitsOf(compBuf), boundaries[..decodeCount];
      var results := StreamImpl.DecodeBlocks(compBuf, boundaries[..decodeCount], max);
      outBuf, error := AppendResults(results, starts, bits, max);
      outPos := 0;
      if error.Some? {
        return;
      }
      if decodeCount < |boundaries| {
        var keepFrom := boundaries[decodeCount] / 8;
        compBuf := compBuf[keepFrom..];
      } else {
        compBuf := [];
      }
    }

    /** `read`. */
    method Read(buf: array<Byte>) returns (r: Result<nat, StreamError>)
      requires Valid() && (outPos == |outBuf| ==> FillModelled(State(), chunkBytes, max))
      modifies this, source, buf
      ensures Valid()
      ensures var step := ReadStep(old(State()), buf.Length, chunkBytes, max);
        && State() == step.0
        && match step.1
           case Bytes(bytes) => r == Success(|bytes|) && |bytes| <= buf.Length && buf[..] == bytes + old(buf[..])[|bytes|..]
           case Failed(e) => r == Failure(e) && buf[..] == old(buf[..])
    {
      hide BitsOf, ReaderTheory.Fill, Modelled, Topped, Serve, FillModelled;
      if outPos < |outBuf| {
        var n := ServeInto(buf);
        return Success(n);
      }
      var error := Fill();
      if error.Some? {
        return Failure(error.value);
      }
      if outBuf == [] {
        NothingServed(State(), buf[..]);
        return Success(0);
      }
      var n := ServeInto(buf);
      r := Success(n);
    }

    method ServeInto(buf: array<Byte>) returns (n: nat)
      requires Valid()
      modifies this`outPos, buf
      ensures Valid() && n <= buf.Length
      ensures (State(), Bytes(buf[..n])) == Serve(old(State()), buf.Length)
      ensures buf[n..] == old(buf[..])[n..]
    {
      n := Min(buf.Length, |outBuf| - outPos);
      CopyInto(buf, outBuf[outPos..outPos + n]);
      outPos := outPos + n;
    }
  }

  /** `copy_from_slice` into the front of a buffer. */
  method CopyInto(buf: array<Byte>, bytes: seq<Byte>)
    requires |bytes| <= buf.Length
    modifies buf
    ensures buf[..|bytes|] == bytes && buf[|bytes|..] == old(buf[..])[|bytes|..]
  {
    for k := 0 to |bytes|
      invariant buf[..k] == bytes[..k]
      invariant buf[k..] == old(buf[..])[k..]
    {
      buf[k] := bytes[k];
    }
  }

  /** No block in the buffer that is to be decoded has oversubscribed code lengths. */
  ghost predicate BufferModelled(st: Stream, max: nat)
  {
    Modelled(BitsOf(st.comp), Found(st.comp)[..DecodeCount(|Found(st.comp)|, st.eof)], max)
  }

  ghost predicate FillModelled(st: Stream, size: nat, max: nat)
  {
    BufferModelled(Topped(st, size), max)
  }

  lemma FoundIs(comp: seq<Byte>)
    ensures Found(comp) == ScanAll(BitsOf(comp), |comp|, 0)
  {
  }

  lemma HeaderIsFirst(data: seq<Byte>, header: seq<Byte>)
    requires header == data[..Min(4, |data|)]
    ensures HeaderSize(header) == HeaderSize(data)
  {
  }

  lemma NothingServed(st: Stream, buf: seq<Byte>)
    requires st.out == [] && st.pos == 0
    ensures Serve(st, |buf|) == (st, Bytes([])) && [] + buf[0..] == buf
  {
  }

  lemma NothingInBatch(st: Batch, buf: seq<Byte>)
    requires st.buf == [] && st.pos == 0
    ensures ServeBatch(st, |buf|) == (st, Bytes([])) && [] + buf[0..] == buf
  {
  }

  /** The reader over a buffer in memory. */
  class BatchReader {
    const data: seq<Byte>
    const max: nat
    const boundaries: seq<nat>
    var nextBlock: nat
    var buf: seq<Byte>
    var bufPos: nat

    ghost function State(): Batch
      reads this
    {
      Batch(nextBlock, buf, bufPos)
    }

    ghost predicate Valid()
      reads this
    {
      && max <= MAX_BLOCKSIZE && nextBlock <= |boundaries| && bufPos <= |buf|
      && (forall i :: 0 <= i < |boundaries| ==> boundaries[i] + 48 <= |BitsOf(data)|)
    }

    constructor (data: seq<Byte>, max: nat, boundaries: seq<nat>)
      requires max <= MAX_BLOCKSIZE && forall i :: 0 <= i < |boundaries| ==> boundaries[i] + 48 <= |BitsOf(data)|
      ensures Valid() && this.data == data && this.max == max && this.boundaries == boundaries && State() == Batch(0, [], 0)
    {
      this.data, this.max, this.boundaries := data, max, boundaries;
      nextBlock, buf, bufPos := 0, [], 0;
    }

    /** `new`: the boundaries are all that the serial scan finds. */
    static method Open(data: seq<Byte>) returns (r: Result<BatchReader, StreamError>)
      ensures match HeaderSize(data)
        case Failure(e) => r == Failure(e)
        case Success(max) =>
          && r.Success? && fresh(r.value) && r.value.Valid() && r.value.data == data && r.value.max == max
          && r.value.boundaries == Found(data) && r.value.State() == Batch(0, [], 0)
    {
      hide BitsOf, Found;
      var size := HeaderSize(data);
      if size.Failure? {
        return Failure(size.error);
      }
      var boundaries := Scan.FindAllBlocks(data);
      FoundIs(data);
      FoundInside(data);
      var reader := new BatchReader(data, size.value, boundaries);
      r := Success(reader);
    }

    /** `fill_batch`. */
    method FillBatch() returns (error: Option<StreamError>)
      requires Valid() && Modelled(BitsOf(data), boundaries, max)
      modifies this
      ensures Valid() && (State(), error) == ReaderTheory.FillBatch(BitsOf(data), boundaries, old(State()), max)
    {
      hide BitsOf, Separate, Flatten, AllocBlock;
      var remaining: nat := |boundaries| - nextBlock;
      if remaining == 0 {
        buf, bufPos := [], 0;
        return None;
      }
      var batchEnd := nextBlock + Min(remaining, BATCH_SIZE);
      var batch := boundaries[nextBlock..batchEnd];
      var results := StreamImpl.DecodeBlocks(data, batch, max);
      var out;
      out, error := AppendResults(results, batch, BitsOf(data), max);
      if error.Some? {
        return;
      }
      buf, bufPos, nextBlock := out, 0, batchEnd;
    }

    /** `read`. */
    method Read(into: array<Byte>) returns (r: Result<nat, StreamError>)
      requires Valid() && Modelled(BitsOf(data), boundaries, max)
      modifies this, into
      ensures Valid()
      ensures var step := ReadBatch(BitsOf(data), boundaries, old(State()), into.Length, max);
        && State() == step.0
        && match step.1
           case Bytes(bytes) => r == Success(|bytes|) && |bytes| <= into.Length && into[..] == bytes + old(into[..])[|bytes|..]
           case Failed(e) => r == Failure(e) && into[..] == old(into[..])
    {
      hide BitsOf, ReaderTheory.FillBatch, Modelled, ServeBatch;
      if bufPos >= |buf| {
        var error := FillBatch();
        if error.Some? {
          return Failure(error.value);
        }
        if buf == [] {
          NothingInBatch(State(), into[..]);
          return Success(0);
        }
      }
      var n := ServeInto(into);
      r := Success(n);
    }

    method ServeInto(into: array<Byte>) returns (n: nat)
      requires Valid()
      modifies this`bufPos, into
      ensures Valid() && n <= into.Length
      ensures (State(), Bytes(into[..n])) == ServeBatch(old(State()), into.Length)
      ensures into[n..] == old(into[..])[n..]
    {
      hide BitsOf;
      n := Min(into.Length, |buf| - bufPos);
      CopyInto(into, buf[bufPos..bufPos + n]);
      bufPos := bufPos + n;
    }
  }
}
