/** The collector's reorder buffer: `apply_result` and `flush_completed` of `src/bin/lbunzip2.rs`. */
module Collectors {
  import opened Wrappers
  import opened Bits
  import opened Lists
  import opened Pipeline
  import opened PipelineInvariant
  import opened PipelineSteps

  /** What a flush leaves, and what it sends to the writer and back to the reader. */
  datatype Flushed = Flushed(inFlight: seq<InFlight>, next: nat, writes: seq<Bytes>, slots: seq<nat>)

  /** The outputs worth sending: those that are there and not empty. */
  function Sendable(results: seq<Option<Bytes>>): seq<Bytes>
  {
    if results == [] then []
    else (if results[0].None? || results[0].value == [] then [] else [results[0].value]) + Sendable(results[1..])
  }

  function FlushAll(fs: seq<InFlight>, next: nat): (r: Flushed)
    decreases |fs|
  {
    var i := Position(fs, next);
    if i == |fs| || fs[i].done < fs[i].count then Flushed(fs, next, [], [])
    else
      var rest := FlushAll(fs[..i] + fs[i + 1..], next + 1);
      rest.(writes := Sendable(fs[i].results) + rest.writes, slots := [fs[i].slot] + rest.slots)
  }

  class Buffer {
    var inFlight: seq<InFlight>
    var nextWrite: nat

    constructor ()
      ensures inFlight == [] && nextWrite == 0
    {
      inFlight, nextWrite := [], 0;
    }

    /** A new slot. */
    method Register(chunk: nat, slot: nat, count: nat)
      modifies this`inFlight
      ensures inFlight == old(inFlight) + [InFlight(chunk, slot, count, seq(count, i => None), 0)]
    {
      inFlight := inFlight + [InFlight(chunk, slot, count, seq(count, i => None), 0)];
    }

    /** `apply_result`. */
    method ApplyResult(chunk: nat, seg: nat, out: Bytes)
      requires Position(inFlight, chunk) < |inFlight| ==> seg < |inFlight[Position(inFlight, chunk)].results|
      modifies this`inFlight
      ensures inFlight == Applied(old(inFlight), chunk, seg, out)
    {
      AppliedAtPosition(inFlight, chunk, seg, out);
      for i := 0 to |inFlight|
        invariant inFlight == old(inFlight)
        invariant forall j :: 0 <= j < i ==> inFlight[j].chunk != chunk
      {
        if inFlight[i].chunk == chunk {
          PositionIs(inFlight, chunk, i);
          var e := inFlight[i];
          inFlight := inFlight[i := e.(results := e.results[seg := Some(out)], done := e.done + 1)];
          return;
        }
      }
    }

    /** `flush_completed`: in the order of sending, what went to the writer and which slots went back. */
    method FlushCompleted() returns (writes: seq<Bytes>, slots: seq<nat>)
      modifies this
      ensures FlushAll(old(inFlight), old(nextWrite)) == Flushed(inFlight, nextWrite, writes, slots)
    {
      hide FlushAll, Position;
      writes, slots := [], [];
      AfterEmpty(FlushAll(inFlight, nextWrite));
      while true
        invariant FlushAll(old(inFlight), old(nextWrite)) == After(writes, slots, FlushAll(inFlight, nextWrite))
        decreases |inFlight|
      {
        var idx := 0;
        while idx < |inFlight| && inFlight[idx].chunk != nextWrite
          invariant 0 <= idx <= |inFlight|
          invariant forall j :: 0 <= j < idx ==> inFlight[j].chunk != nextWrite
        {
          idx := idx + 1;
        }
        PositionIs(inFlight, nextWrite, idx);
        FlushAllStep(inFlight, nextWrite);
        if idx == |inFlight| || inFlight[idx].done < inFlight[idx].count {
          AfterNothing(writes, slots, inFlight, nextWrite);
          return;
        }
        var completed := inFlight[idx];
        ghost var rest := FlushAll(inFlight[..idx] + inFlight[idx + 1..], nextWrite + 1);
        AfterMore(writes, slots, Sendable(completed.results), completed.slot, rest);
        inFlight := inFlight[..idx] + inFlight[idx + 1..];
        var sent := Drain(completed.results);
        writes := writes + sent;
        slots := slots + [completed.slot];
        nextWrite := nextWrite + 1;
      }
    }
  }

  /** Draining the results of a completed chunk. */
  method Drain(results: seq<Option<Bytes>>) returns (sent: seq<Bytes>)
    ensures sent == Sendable(results)
  {
    sent := [];
    assert results[0..] == results;
    for g := 0 to |results|
      invariant sent + Sendable(results[g..]) == Sendable(results)
    {
      assert results[g..][1..] == results[g + 1..];
      if results[g].Some? && results[g].value != [] {
        assert sent + ([results[g].value] + Sendable(results[g + 1..])) == (sent + [results[g].value]) + Sendable(results[g + 1..]);
        sent := sent + [results[g].value];
      } else {
        assert [] + Sendable(results[g + 1..]) == Sendable(results[g + 1..]);
      }
    }
    assert sent + [] == sent;
  }

  function After(writes: seq<Bytes>, slots: seq<nat>, r: Flushed): Flushed
  {
    r.(writes := writes + r.writes, slots := slots + r.slots)
  }

  lemma AfterNothing(writes: seq<Bytes>, slots: seq<nat>, fs: seq<InFlight>, next: nat)
    ensures After(writes, slots, Flushed(fs, next, [], [])) == Flushed(fs, next, writes, slots)
  {
  }

  lemma AfterMore(writes: seq<Bytes>, slots: seq<nat>, sent: seq<Bytes>, slot: nat, r: Flushed)
    ensures After(writes, slots, r.(writes := sent + r.writes, slots := [slot] + r.slots)) == After(writes + sent, slots + [slot], r)
  {
    assert writes + (sent + r.writes) == (writes + sent) + r.writes;
    assert slots + ([slot] + r.slots) == (slots + [slot]) + r.slots;
  }

  lemma PositionIs(fs: seq<InFlight>, chunk: nat, i: nat)
    requires i <= |fs| && (i < |fs| ==> fs[i].chunk == chunk) && forall j :: 0 <= j < i ==> fs[j].chunk != chunk
    ensures Position(fs, chunk) == i
  {
    hide Position;
    var p := Position(fs, chunk);
    assert p < |fs| ==> fs[p].chunk == chunk;
    assert i < |fs| ==> fs[i].chunk == chunk;
  }

  /** A result changes the first entry for its chunk, or nothing. */
  lemma {:induction false} AppliedAtPosition(fs: seq<InFlight>, chunk: nat, seg: nat, out: Bytes)
    requires Position(fs, chunk) < |fs| ==> seg < |fs[Position(fs, chunk)].results|
    ensures var i := Position(fs, chunk);
      Applied(fs, chunk, seg, out) ==
        if i == |fs| then fs else fs[i := fs[i].(results := fs[i].results[seg := Some(out)], done := fs[i].done + 1)]
    decreases |fs|
  {
    if fs != [] && fs[0].chunk != chunk {
      AppliedAtPosition(fs[1..], chunk, seg, out);
      assert fs == [fs[0]] + fs[1..];
    }
  }

  /** What a flush of chunks in flight from `next` on comes to: it sends the outputs of exactly the
      complete chunks at the front, in order, and returns their slots; what is left waits for
      results. */
  predicate InOrder(jobs: seq<seq<Outcome>>, fs: seq<InFlight>, next: nat, r: Flushed)
  {
    && next <= r.next <= next + |fs| && r.next <= |jobs|
    && r.inFlight == fs[r.next - next..] && FrontWaits(r.inFlight)
    && (forall i :: 0 <= i < r.next - next ==> fs[i].done == fs[i].count)
    && r.slots == Collect(fs[..r.next - next], SlotOfEntry)
    && Flat(jobs[..next]) + Flatten(r.writes) == Flat(jobs[..r.next])
  }

  lemma {:induction false} FlushInOrder(jobs: seq<seq<Outcome>>, fs: seq<InFlight>, next: nat)
    requires EntriesFit(jobs, fs, next)
    ensures InOrder(jobs, fs, next, FlushAll(fs, next))
    decreases |fs|
  {
    hide EntriesFit, Position, FrontWaits, Collect, FlushAll, Sendable, Flat;
    FrontIsNext(jobs, fs, next);
    if FrontWaits(fs) {
      FlushNothing(fs, next);
      EntryChunks(jobs, fs, next);
      assert Flat(jobs[..next]) + [] == Flat(jobs[..next]);
    } else {
      DoneIsCount(jobs, fs, next);
      FlushEntries(jobs, fs, next);
      FlushInOrder(jobs, fs[1..], next + 1);
      FlushFront(fs, next);
      MoreInOrder(jobs, fs, next, FlushAll(fs[1..], next + 1));
    }
  }

  lemma MoreInOrder(jobs: seq<seq<Outcome>>, fs: seq<InFlight>, next: nat, rest: Flushed)
    requires EntriesFit(jobs, fs, next) && !FrontWaits(fs) && fs != []
    requires InOrder(jobs, fs[1..], next + 1, rest)
    ensures InOrder(jobs, fs, next, rest.(writes := Sendable(fs[0].results) + rest.writes, slots := [fs[0].slot] + rest.slots))
  {
    hide EntriesFit, Flat, FrontWaits, Collect, Sendable;
    DoneIsCount(jobs, fs, next);
    FlushedFront(fs, rest.next - next);
    MoreBytes(jobs, fs, next, rest.writes);
  }

  lemma MoreBytes(jobs: seq<seq<Outcome>>, fs: seq<InFlight>, next: nat, writes: seq<Bytes>)
    requires EntriesFit(jobs, fs, next) && !FrontWaits(fs)
    ensures fs != [] && next < |jobs|
    ensures Flat(jobs[..next]) + Flatten(Sendable(fs[0].results) + writes) == Flat(jobs[..next + 1]) + Flatten(writes)
  {
    hide EntriesFit, Flat, FrontWaits, Collect, Sendable;
    FrontComplete(jobs, fs, next);
    SendablePresent(fs[0].results);
    FlattenAppend(Sendable(fs[0].results), writes);
    FlatStep(jobs, next);
    Associate(Flat(jobs[..next]), Joined(jobs[next]), Flatten(writes));
  }

  lemma Associate(a: Bytes, b: Bytes, c: Bytes)
    ensures a + (b + c) == (a + b) + c
  {
  }

  lemma DoneIsCount(jobs: seq<seq<Outcome>>, fs: seq<InFlight>, next: nat)
    requires EntriesFit(jobs, fs, next) && !FrontWaits(fs)
    ensures fs != [] && fs[0].done == fs[0].count
  {
    assert EntryFits(fs[0], next + 0, jobs[next + 0]);
  }

  lemma FlushNothing(fs: seq<InFlight>, next: nat)
    requires Position(fs, next) == 0 && FrontWaits(fs)
    ensures FlushAll(fs, next) == Flushed(fs, next, [], [])
    ensures fs[0..] == fs && Collect(fs[..0], SlotOfEntry) == [] && Flatten<Byte>([]) == []
  {
    hide Position;
  }

  lemma FlushAllStep(fs: seq<InFlight>, next: nat)
    ensures var i := Position(fs, next);
      if i == |fs| || fs[i].done < fs[i].count then FlushAll(fs, next) == Flushed(fs, next, [], [])
      else
        var rest := FlushAll(fs[..i] + fs[i + 1..], next + 1);
        FlushAll(fs, next) == rest.(writes := Sendable(fs[i].results) + rest.writes, slots := [fs[i].slot] + rest.slots)
  {
    hide Position, Sendable;
  }

  lemma AfterEmpty(r: Flushed)
    ensures After([], [], r) == r
  {
    assert [] + r.writes == r.writes && [] + r.slots == r.slots;
  }

  lemma FlushFront(fs: seq<InFlight>, next: nat)
    requires fs != [] && Position(fs, next) == 0 && !FrontWaits(fs)
    ensures var rest := FlushAll(fs[1..], next + 1);
      FlushAll(fs, next) == rest.(writes := Sendable(fs[0].results) + rest.writes, slots := [fs[0].slot] + rest.slots)
  {
    hide Position, FlushAll, Sendable;
    FlushAllStep(fs, next);
    FrontRemoved(fs);
  }

  lemma FrontRemoved(fs: seq<InFlight>)
    requires fs != []
    ensures fs[..0] + fs[0 + 1..] == fs[1..]
  {
  }

  lemma FlushedFront(fs: seq<InFlight>, k: nat)
    requires 0 < k <= |fs|
    ensures fs[1..][k - 1..] == fs[k..]
    ensures Collect(fs[..k], SlotOfEntry) == [fs[0].slot] + Collect(fs[1..][..k - 1], SlotOfEntry)
    ensures forall i :: 0 < i < k ==> fs[i] == fs[1..][i - 1]
  {
    PopPrefix(fs, k);
    CollectCons(fs[0], fs[1..][..k - 1], SlotOfEntry);
  }

  /** Leaving out what is empty does not change the bytes. */
  lemma {:induction false} SendablePresent(results: seq<Option<Bytes>>)
    ensures Flatten(Sendable(results)) == Collect(results, Present)
    decreases |results|
  {
    if results != [] {
      SendablePresent(results[1..]);
      var rest := Flatten(Sendable(results[1..]));
      assert [] + rest == rest;
      if results[0].Some? && results[0].value != [] {
        FlattenCons(results[0].value, Sendable(results[1..]));
      } else {
        assert [] + Sendable(results[1..]) == Sendable(results[1..]);
      }
    }
  }

  /** One turn of the pipeline's collector is one turn of the flush loop. */
  lemma FlushTurn(s: State, closing: bool)
    ensures var s', r := FlushStep(s, closing), FlushAll(s.inFlight, s.nextWrite);
      if s'.collector.Writing? then
        var rest := FlushAll(s'.inFlight, s.nextWrite + 1);
        r == rest.(writes := Sendable(s'.collector.pending) + rest.writes, slots := [s'.collector.slot] + rest.slots)
      else
        s'.inFlight == s.inFlight && r == Flushed(s.inFlight, s.nextWrite, [], [])
  {
    hide FlushAll, Position, Sendable;
    FlushAllStep(s.inFlight, s.nextWrite);
  }
}
