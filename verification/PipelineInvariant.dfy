/** What every step of the pipeline keeps. */
module PipelineInvariant {
  import opened Wrappers
  import opened Bits
  import opened Lists
  import opened Pipeline

  // ---------------------------------------------------------------------------------------------
  // Counting
  // ---------------------------------------------------------------------------------------------

  /** How often `x` occurs. */
  function Occ<T(==)>(q: seq<T>, x: T): nat
  {
    multiset(q)[x]
  }

  lemma OccConcat<T>(a: seq<T>, b: seq<T>, x: T)
    ensures Occ(a + b, x) == Occ(a, x) + Occ(b, x)
  {
  }

  lemma OccMember<T>(q: seq<T>, x: T)
    ensures Occ(q, x) > 0 <==> x in q
  {
  }

  lemma OccOne<T>(y: T, x: T)
    ensures Occ([y], x) == if x == y then 1 else 0
  {
  }

  lemma OccNone<T>(x: T)
    ensures Occ([], x) == 0
  {
  }

  lemma OccPush<T>(q: seq<T>, y: T, x: T)
    ensures Occ(q + [y], x) == Occ(q, x) + if x == y then 1 else 0
  {
    OccConcat(q, [y], x);
    OccOne(y, x);
  }

  lemma OccPop<T>(q: seq<T>, x: T)
    requires q != []
    ensures Occ(q, x) == (if x == q[0] then 1 else 0) + Occ(q[1..], x)
  {
    assert q == [q[0]] + q[1..];
    OccConcat([q[0]], q[1..], x);
    OccOne(q[0], x);
  }

  lemma OccCollectPush<T, U>(q: seq<T>, y: T, f: T -> seq<U>, x: U)
    ensures Occ(Collect(q + [y], f), x) == Occ(Collect(q, f), x) + Occ(f(y), x)
  {
    CollectPush(q, y, f);
    OccConcat(Collect(q, f), f(y), x);
  }

  lemma OccCollectPop<T, U>(q: seq<T>, f: T -> seq<U>, x: U)
    requires q != []
    ensures Occ(Collect(q, f), x) == Occ(f(q[0]), x) + Occ(Collect(q[1..], f), x)
  {
    OccConcat(f(q[0]), Collect(q[1..], f), x);
  }

  lemma OccCollectUpdate<T, U>(q: seq<T>, i: nat, y: T, f: T -> seq<U>, x: U)
    requires i < |q|
    ensures Occ(Collect(q[i := y], f), x) + Occ(f(q[i]), x) == Occ(Collect(q, f), x) + Occ(f(y), x)
  {
    OccCollectSplit(q, i, f, x);
    OccCollectSplit(q[i := y], i, f, x);
    assert q[i := y][..i] == q[..i] && q[i := y][i + 1..] == q[i + 1..];
  }

  lemma OccCollectSplit<T, U>(q: seq<T>, i: nat, f: T -> seq<U>, x: U)
    requires i < |q|
    ensures Occ(Collect(q, f), x) == Occ(Collect(q[..i], f), x) + Occ(f(q[i]), x) + Occ(Collect(q[i + 1..], f), x)
  {
    CollectSplit(q, i, f);
    OccConcat(Collect(q[..i], f) + f(q[i]), Collect(q[i + 1..], f), x);
    OccConcat(Collect(q[..i], f), f(q[i]), x);
  }

  lemma OccCollectMember<T, U>(q: seq<T>, i: nat, f: T -> seq<U>, x: U)
    requires i < |q| && x in f(q[i])
    ensures Occ(Collect(q, f), x) > 0
  {
    OccCollectSplit(q, i, f, x);
    OccMember(f(q[i]), x);
  }

  // ---------------------------------------------------------------------------------------------
  // Chunk numbers
  // ---------------------------------------------------------------------------------------------

  /** The number of split chunks among the first `k`. */
  function JobsBefore(plan: Plan, k: nat): (n: nat)
    requires k <= |plan|
  {
    |Jobs(plan[..k])|
  }

  lemma JobsStep(plan: Plan, k: nat)
    requires k < |plan|
    ensures JobsBefore(plan, k + 1) == JobsBefore(plan, k) + if plan[k].Some? then 1 else 0
    ensures JobsBefore(plan, k) + (if plan[k].Some? then 1 else 0) <= |Jobs(plan)|
    ensures plan[k].Some? ==> Jobs(plan)[JobsBefore(plan, k)] == plan[k].value
  {
    assert plan[..k + 1] == plan[..k] + [plan[k]];
    CollectPush(plan[..k], plan[k], Given);
    CollectSplit(plan, k, Given);
  }

  lemma JobsAll(plan: Plan)
    ensures JobsBefore(plan, |plan|) == |Jobs(plan)| && JobsBefore(plan, 0) == 0
  {
    assert plan[..|plan|] == plan;
  }

  // ---------------------------------------------------------------------------------------------
  // Parts of the state
  // ---------------------------------------------------------------------------------------------

  function SlotOfMessage(m: Message): seq<nat>
  {
    if m.NewSlot? then [m.slot] else []
  }

  function SlotOfEntry(e: InFlight): seq<nat>
  {
    [e.slot]
  }

  function SlotOfFilled(m: Filled): seq<nat>
  {
    [m.slot]
  }

  function ReaderHand(r: Reader): seq<nat>
  {
    if r.Sending? then [r.slot] else []
  }

  function MainHand(m: Main): seq<nat>
  {
    if m.Returning? || m.Announcing? then [m.slot] else []
  }

  function CollectorHand(col: Collector): seq<nat>
  {
    if col.Writing? || col.Recycling? then [col.slot] else []
  }

  /** The slots of the chunks announced and not yet flushed, in chunk order: first those the collector
      has registered, then those still in its channel. */
  function Registry(s: State): seq<nat>
  {
    Collect(s.inFlight, SlotOfEntry) + Collect(s.inbox, SlotOfMessage)
  }

  /** The first chunk that is not flushed. */
  function First(s: State): nat
  {
    s.nextWrite + if s.collector.Writing? || s.collector.Recycling? then 1 else 0
  }

  /** In how many of these places a slot is: the return channel, the reader's hands, the filled
      channel, the main thread's hands, in flight, the collector's hands. */
  function Places(s: State, x: nat): nat
  {
    Occ(s.free, x) + Occ(ReaderHand(s.reader), x) + Occ(Collect(s.filled, SlotOfFilled), x)
    + Occ(MainHand(s.main), x) + Occ(Registry(s), x) + Occ(CollectorHand(s.collector), x)
  }

  /** Every slot is in exactly one place; until the reader exits none is lost. */
  ghost predicate SlotsKept(s: State)
  {
    && (forall x: nat :: Places(s, x) + Occ(s.lost, x) == if x < SLOTS then 1 else 0)
    && (s.lost != [] ==> s.reader.ReaderDone?)
    && (s.reader.ReaderDone? ==> s.free == [])
  }

  type Token = (nat, nat)

  function TokenOfItem(item: Item): seq<Token>
  {
    [(item.chunk, item.seg)]
  }

  function TokenOfWorker(w: Worker): seq<Token>
  {
    if w.Busy? || w.Lost? then TokenOfItem(w.item) else []
  }

  function TokenOfMessage(m: Message): seq<Token>
  {
    if m.Result? then [(m.chunk, m.seg)] else []
  }

  /** How often a segment is on its way: queued, being decoded, or decoded and not yet collected. */
  function Running(work: seq<Item>, workers: seq<Worker>, inbox: seq<Message>, t: Token): nat
  {
    Occ(Collect(work, TokenOfItem), t) + Occ(Collect(workers, TokenOfWorker), t) + Occ(Collect(inbox, TokenOfMessage), t)
  }

  // ---------------------------------------------------------------------------------------------
  // The invariant
  // ---------------------------------------------------------------------------------------------

  /** A slot holds the data of chunk number `ch`. */
  predicate Holds(plan: Plan, contents: map<nat, nat>, slot: nat, ch: nat)
  {
    && slot in contents && contents[slot] < |plan|
    && plan[contents[slot]].Some? && JobsBefore(plan, contents[slot]) == ch
  }

  predicate HoldsIndex(contents: map<nat, nat>, slot: nat, k: nat)
  {
    slot in contents && contents[slot] == k
  }

  /** The reader and the filled channel. */
  predicate ReaderFeeds(plan: Plan, contents: map<nat, nat>, reader: Reader, read: nat, filled: seq<Filled>, taken: nat)
  {
    && read <= |plan| && taken + |filled| == read
    && (reader.ReaderDone? <==> read == |plan|)
    && (reader.Sending? ==> HoldsIndex(contents, reader.slot, read))
    && (forall i :: 0 <= i < |filled| ==>
          HoldsIndex(contents, filled[i].slot, taken + i) && (filled[i].last <==> taken + i + 1 == |plan|))
  }

  /** The chunk the main thread is at. */
  predicate MainAt(plan: Plan, contents: map<nat, nat>, main: Main, taken: nat, chunkId: nat)
  {
    taken <= |plan| &&
    match main
    case Waiting => taken < |plan| && chunkId == JobsBefore(plan, taken)
    case Returning(slot, last) =>
      0 < taken && (last <==> taken == |plan|) && plan[taken - 1].None? && chunkId == JobsBefore(plan, taken)
    case Announcing(slot, last, count) =>
      && 0 < taken && (last <==> taken == |plan|) && HoldsIndex(contents, slot, taken - 1)
      && plan[taken - 1].Some? && chunkId + 1 == JobsBefore(plan, taken)
      && count == |plan[taken - 1].value|
    case Posting(slot, last, count, seg) =>
      && 0 < taken && (last <==> taken == |plan|)
      && plan[taken - 1].Some? && chunkId + 1 == JobsBefore(plan, taken)
      && seg <= count == |plan[taken - 1].value|
    case MainDone => taken == |plan| && chunkId == JobsBefore(plan, taken)
  }

  /** The chunks announced so far. */
  function Announced(main: Main, chunkId: nat): nat
  {
    chunkId + if main.Posting? then 1 else 0
  }

  /** Slots in flight hold the data of their chunks, which are announced in order. */
  predicate Registered(plan: Plan, contents: map<nat, nat>, registry: seq<nat>, first: nat, announced: nat)
  {
    && first + |registry| == announced <= |Jobs(plan)|
    && (forall i :: 0 <= i < |registry| ==> Holds(plan, contents, registry[i], first + i))
  }

  /** The chunk the main thread is posting is the last in flight. */
  predicate PostingLast(main: Main, registry: seq<nat>)
  {
    main.Posting? && main.seg < main.count ==> registry != [] && registry[|registry| - 1] == main.slot
  }

  /** A message in front of which `before` chunks are announced. */
  predicate MessageFits(jobs: seq<seq<Outcome>>, m: Message, before: nat)
  {
    match m
    case NewSlot(chunk, slot, count) => chunk == before && chunk < |jobs| && count == |jobs[chunk]|
    case Result(chunk, seg, out) =>
      chunk < before && chunk < |jobs| && seg < |jobs[chunk]| && jobs[chunk][seg] == Some(out)
  }

  predicate MessageAt(jobs: seq<seq<Outcome>>, inbox: seq<Message>, before: nat, j: nat)
    requires j < |inbox|
  {
    MessageFits(jobs, inbox[j], before + |Collect(inbox[..j], SlotOfMessage)|)
  }

  predicate MessagesFit(jobs: seq<seq<Outcome>>, inbox: seq<Message>, before: nat)
  {
    forall j :: 0 <= j < |inbox| ==> MessageAt(jobs, inbox, before, j)
  }

  function SomeCount<T>(s: seq<Option<T>>): (n: nat)
    ensures n <= |s| && (n == |s| <==> forall i :: 0 <= i < |s| ==> s[i].Some?)
  {
    if s == [] then 0 else SomeCount(s[1..]) + if s[0].Some? then 1 else 0
  }

  /** What the collector knows about a chunk in flight. */
  predicate EntryFits(e: InFlight, ch: nat, outs: seq<Outcome>)
  {
    && e.chunk == ch && e.count == |e.results| == |outs| && e.done == SomeCount(e.results)
    && (forall g :: 0 <= g < |outs| && e.results[g].Some? ==> e.results[g] == outs[g])
  }

  predicate EntriesFit(jobs: seq<seq<Outcome>>, fs: seq<InFlight>, first: nat)
  {
    && first + |fs| <= |jobs|
    && (forall i :: 0 <= i < |fs| ==> EntryFits(fs[i], first + i, jobs[first + i]))
  }

  /** A segment has been handed out. */
  predicate Posted(jobs: seq<seq<Outcome>>, main: Main, chunkId: nat, t: Token)
  {
    && t.0 < |jobs| && t.1 < |jobs[t.0]|
    && (t.0 < chunkId || (main.Posting? && t.0 == chunkId && t.1 < main.seg))
  }

  /** A segment's output has reached the collector. */
  predicate Received(fs: seq<InFlight>, first: nat, t: Token)
  {
    || t.0 < first
    || (t.0 < first + |fs| && t.1 < |fs[t.0 - first].results| && fs[t.0 - first].results[t.1].Some?)
  }

  predicate IsSegment(jobs: seq<seq<Outcome>>, t: Token)
  {
    t.0 < |jobs| && t.1 < |jobs[t.0]|
  }

  /** Every segment handed out and not yet received is on its way exactly once, and nothing else is. */
  ghost predicate TokensKept(jobs: seq<seq<Outcome>>, main: Main, chunkId: nat, fs: seq<InFlight>, first: nat, work: seq<Item>, workers: seq<Worker>, inbox: seq<Message>)
  {
    && (forall t: Token :: Running(work, workers, inbox, t) == if Posted(jobs, main, chunkId, t) && !Received(fs, first, t) then 1 else 0)
    && (forall t: Token :: IsSegment(jobs, t) && Received(fs, first, t) ==> Posted(jobs, main, chunkId, t))
  }

  /** An item refers to the slot its chunk is registered with. */
  predicate ItemFits(item: Item, first: nat, registry: seq<nat>)
  {
    first <= item.chunk < first + |registry| && registry[item.chunk - first] == item.slot
  }

  predicate ItemsFit(work: seq<Item>, workers: seq<Worker>, first: nat, registry: seq<nat>)
  {
    && (forall i :: 0 <= i < |work| ==> ItemFits(work[i], first, registry))
    && (forall i :: 0 <= i < |workers| && (workers[i].Busy? || workers[i].Lost?) ==> ItemFits(workers[i].item, first, registry))
  }

  /** A worker is lost only to a segment that panics. */
  predicate LostFit(jobs: seq<seq<Outcome>>, workers: seq<Worker>)
  {
    forall i :: 0 <= i < |workers| && workers[i].Lost? ==>
      workers[i].item.chunk < |jobs| && workers[i].item.seg < |jobs[workers[i].item.chunk]|
      && jobs[workers[i].item.chunk][workers[i].item.seg].None?
  }

  function PendingOf(col: Collector): seq<Option<Bytes>>
  {
    if col.Writing? then col.pending else []
  }

  /** What is written, in the writer's channel, and in the collector's hands. */
  function Sent(written: Bytes, toWriter: seq<Bytes>, pending: seq<Option<Bytes>>): Bytes
  {
    written + Flatten(toWriter) + Collect(pending, Present)
  }

  /** That are the outputs of the flushed chunks in order. */
  predicate OutputKept(jobs: seq<seq<Outcome>>, first: nat, sent: Bytes)
  {
    first <= |jobs| && sent == Flat(jobs[..first])
  }

  predicate Closing(col: Collector)
  {
    col.CollectorDone? || ((col.Flushing? || col.Writing? || col.Recycling?) && col.closing)
  }

  predicate Bounded(c: Config, s: State)
  {
    && |s.workers| == c.workers
    && |s.filled| <= SLOTS && |s.work| <= 2 * c.workers && |s.inbox| <= 4 * c.workers && |s.toWriter| <= SLOTS
  }

  /** The front of the chunks in flight waits for results. */
  predicate FrontWaits(fs: seq<InFlight>)
  {
    fs == [] || fs[0].done < fs[0].count
  }

  predicate SomeLost(ws: seq<Worker>)
  {
    exists i :: 0 <= i < |ws| && ws[i].Lost?
  }

  /** Who may be done. */
  predicate Orderly(s: State)
  {
    && (forall i :: 0 <= i < |s.workers| && s.workers[i].Stopped? ==> s.main.MainDone? && s.work == [])
    && (Closing(s.collector) ==> s.main.MainDone? && AllEnded(s.workers) && s.inbox == [])
    && (s.collector.Listening? || s.collector.CollectorDone? ==> FrontWaits(s.inFlight))
    && (s.writerDone ==> s.collector.CollectorDone? && s.toWriter == [])
    && (s.aborted ==> s.main.Waiting? || (s.main.Posting? && AllEnded(s.workers)) || (s.main.MainDone? && SomeLost(s.workers)))
  }

  /** No chunk is taken from the one on in front of which the carry does not fit. */
  predicate Asserted(failAt: nat, main: Main, taken: nat, filled: seq<Filled>, aborted: bool)
  {
    taken <= failAt && (aborted && main.Waiting? ==> taken == failAt && filled != [])
  }

  ghost predicate Inv(c: Config, s: State)
  {
    && SlotsKept(s)
    && ReaderFeeds(c.plan, s.contents, s.reader, s.read, s.filled, s.taken)
    && MainAt(c.plan, s.contents, s.main, s.taken, s.chunkId)
    && Registered(c.plan, s.contents, Registry(s), First(s), Announced(s.main, s.chunkId))
    && PostingLast(s.main, Registry(s))
    && MessagesFit(Jobs(c.plan), s.inbox, First(s) + |s.inFlight|)
    && EntriesFit(Jobs(c.plan), s.inFlight, First(s))
    && TokensKept(Jobs(c.plan), s.main, s.chunkId, s.inFlight, First(s), s.work, s.workers, s.inbox)
    && ItemsFit(s.work, s.workers, First(s), Registry(s)) && LostFit(Jobs(c.plan), s.workers)
    && OutputKept(Jobs(c.plan), First(s), Sent(s.written, s.toWriter, PendingOf(s.collector)))
    && Bounded(c, s) && Orderly(s) && Asserted(c.failAt, s.main, s.taken, s.filled, s.aborted)
  }
}
