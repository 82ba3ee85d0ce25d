/** What holds of every interleaving of the pipeline's threads: output in order and exactly once, safe
    and conserved slots, progress, termination. */
module PipelineTheory {
  import opened Wrappers
  import opened Bits
  import opened Lists
  import opened Pipeline
  import opened PipelineInvariant
  import opened PipelineSteps

  /** Some interleaving leads to the state. */
  ghost predicate Reachable(c: Config, s: State)
  {
    c.plan != [] && exists ts :: Run(c, Start(c), ts) == Some(s)
  }

  lemma ReachableKeeps(c: Config, s: State)
    requires Reachable(c, s)
    ensures Inv(c, s)
  {
    hide Inv, Run;
    var ts :| Run(c, Start(c), ts) == Some(s);
    StartInv(c);
    RunKeeps(c, Start(c), ts, s);
  }

  // ---------------------------------------------------------------------------------------------
  // Output
  // ---------------------------------------------------------------------------------------------

  lemma FlatPrefix(jobs: seq<seq<Outcome>>, k: nat)
    requires k <= |jobs|
    ensures Flat(jobs[..k]) <= Flat(jobs)
  {
    assert jobs == jobs[..k] + jobs[k..];
    CollectAppend(jobs[..k], jobs[k..], Joined);
  }

  /** In every reachable state the bytes written are a prefix of the segments' outputs in the order of
      chunks and segments. */
  lemma OrderedOutput(c: Config, s: State)
    requires Reachable(c, s)
    ensures s.written <= Expected(c.plan)
  {
    hide Reachable, SlotsKept, ReaderFeeds, MainAt, Registered, Registry, PostingLast, MessagesFit, EntriesFit, TokensKept, ItemsFit, LostFit, Orderly, Bounded, Flat, Jobs, Collect;
    ReachableKeeps(c, s);
    FlatPrefix(Jobs(c.plan), First(s));
  }

  /** Nothing is queued, being decoded, on its way to the collector, or lost. */
  predicate Quiet(s: State)
  {
    s.work == [] && s.inbox == [] && forall i :: 0 <= i < |s.workers| ==> !s.workers[i].Busy? && !s.workers[i].Lost?
  }

  /** No segment of any chunk panics. */
  predicate NoPanic(plan: Plan)
  {
    forall k :: 0 <= k < |plan| && plan[k].Some? ==> AllDecode(plan[k].value)
  }

  predicate AllDecode(outs: seq<Outcome>)
  {
    forall g :: 0 <= g < |outs| ==> outs[g].Some?
  }

  lemma {:induction false} NoPanicJobs(plan: Plan)
    requires NoPanic(plan)
    ensures forall ch :: 0 <= ch < |Jobs(plan)| ==> AllDecode(Jobs(plan)[ch])
    decreases |plan|
  {
    hide AllDecode;
    if plan != [] {
      NoPanicJobs(plan[1..]);
      CollectPop(plan, Given);
      var rest := Jobs(plan[1..]);
      assert Jobs(plan) == Given(plan[0]) + rest;
      forall ch | 0 <= ch < |Jobs(plan)|
        ensures AllDecode(Jobs(plan)[ch])
      {
        if ch >= |Given(plan[0])| { assert Jobs(plan)[ch] == rest[ch - |Given(plan[0])|]; }
      }
    }
  }

  /** Without a panic no worker is lost. */
  lemma NoneLost(c: Config, s: State)
    requires LostFit(Jobs(c.plan), s.workers) && NoPanic(c.plan)
    ensures forall i :: 0 <= i < |s.workers| ==> !s.workers[i].Lost?
  {
    hide Jobs, NoPanic;
    NoPanicJobs(c.plan);
  }

  lemma QuietRuns(s: State, t: Token)
    requires Quiet(s)
    ensures Running(s.work, s.workers, s.inbox, t) == 0
  {
    NoTokens(s.workers);
  }

  /** When nothing is on its way and no chunk is half posted, every chunk in flight is complete; so if
      the collector has no complete chunk to flush, none is in flight. */
  lemma QuietMeansFlushed(c: Config, s: State)
    requires Quiet(s) && !s.main.Posting? && FrontWaits(s.inFlight)
    requires EntriesFit(Jobs(c.plan), s.inFlight, First(s))
    requires TokensKept(Jobs(c.plan), s.main, s.chunkId, s.inFlight, First(s), s.work, s.workers, s.inbox)
    requires First(s) + |Registry(s)| == s.chunkId
    ensures s.inFlight == []
  {
    hide Quiet, Running, Registry, Jobs, First;
    if s.inFlight != [] {
      var first, e := First(s), s.inFlight[0];
      RegistryLength(s);
      assert EntryFits(e, first + 0, Jobs(c.plan)[first + 0]);
      forall g | 0 <= g < |e.results|
        ensures e.results[g].Some?
      {
        QuietReceived(Jobs(c.plan), s, first, g);
      }
    }
  }

  /** When nothing is on its way, the segments of all announced chunks have been received. */
  lemma QuietReceived(jobs: seq<seq<Outcome>>, s: State, ch: nat, g: nat)
    requires Quiet(s) && ch < s.chunkId && IsSegment(jobs, (ch, g))
    requires TokensKept(jobs, s.main, s.chunkId, s.inFlight, First(s), s.work, s.workers, s.inbox)
    ensures Received(s.inFlight, First(s), (ch, g))
  {
    hide Quiet, Running, Received;
    var t := (ch, g);
    QuietRuns(s, t);
    assert Posted(jobs, s.main, s.chunkId, t);
  }

  /** At the end, if no segment panics, everything is written: each segment's output exactly once, in
      order. */
  lemma CompleteAtEnd(c: Config, s: State)
    requires Reachable(c, s) && Final(s) && NoPanic(c.plan)
    ensures s.written == Expected(c.plan)
  {
    hide Reachable, SlotsKept, ReaderFeeds, MessagesFit, EntriesFit, TokensKept, ItemsFit, LostFit, PostingLast, Registry, Jobs, Collect, JobsBefore, NoPanic;
    ReachableKeeps(c, s);
    NoneLost(c, s);
    JobsAll(c.plan);
    RegisteredLength(c.plan, s.contents, Registry(s), First(s), Announced(s.main, s.chunkId));
    NoWork(c, s);
    QuietMeansFlushed(c, s);
    RegistryLength(s);
    FlattenNothing<Byte>();
    CollectNone(Present);
    CollectNone(SlotOfMessage);
    assert Jobs(c.plan)[..First(s)] == Jobs(c.plan);
    assert s.written + [] + [] == s.written;
  }

  lemma NoWork(c: Config, s: State)
    requires Bounded(c, s) && Orderly(s) && AllEnded(s.workers) && s.inbox == []
    requires forall i :: 0 <= i < |s.workers| ==> !s.workers[i].Lost?
    ensures Quiet(s)
  {
    if c.workers > 0 { assert s.workers[0].Stopped?; }
  }

  // ---------------------------------------------------------------------------------------------
  // Slots
  // ---------------------------------------------------------------------------------------------

  /** The slots in the return channel, with the reader, in the filled channel, with the main thread, in
      flight, and with the collector. */
  function AllSlots(s: State): seq<nat>
  {
    s.free + ReaderHand(s.reader) + Collect(s.filled, SlotOfFilled) + MainHand(s.main) + Registry(s) + CollectorHand(s.collector)
  }

  lemma PlacesCounted(s: State, x: nat)
    ensures Occ(AllSlots(s), x) == Places(s, x)
  {
    hide Occ, Registry, Collect, ReaderHand, MainHand, CollectorHand;
    var a := s.free + ReaderHand(s.reader);
    var b := a + Collect(s.filled, SlotOfFilled);
    var d := b + MainHand(s.main);
    OccConcat(s.free, ReaderHand(s.reader), x);
    OccConcat(a, Collect(s.filled, SlotOfFilled), x);
    OccConcat(b, MainHand(s.main), x);
    OccConcat(d, Registry(s), x);
    OccConcat(d + Registry(s), CollectorHand(s.collector), x);
  }

  lemma SixSlots(q: seq<nat>)
    requires forall x: nat :: Occ(q, x) == if x < SLOTS then 1 else 0
    ensures multiset(q) == multiset([0, 1, 2, 3, 4, 5]) && |q| == SLOTS
  {
    var six: seq<nat> := [0, 1, 2, 3, 4, 5];
    forall x: nat
      ensures multiset(q)[x] == multiset(six)[x]
    {
      FirstSlots(x);
      assert Occ(q, x) == Occ(six, x);
    }
    assert |multiset(q)| == |q| && |multiset(six)| == |six|;
  }

  /** Until the reader exits, the six slots are all in the pipeline, each in one place. */
  lemma SlotsConserved(c: Config, s: State)
    requires Reachable(c, s) && !s.reader.ReaderDone?
    ensures multiset(AllSlots(s)) == multiset([0, 1, 2, 3, 4, 5]) && |AllSlots(s)| == SLOTS
  {
    hide Reachable, Inv, AllSlots;
    ReachableKeeps(c, s);
    InvSlots(c, s);
    SlotsAreSix(s);
  }

  lemma InvSlots(c: Config, s: State)
    requires Inv(c, s)
    ensures SlotsKept(s)
  {
    hide SlotsKept, ReaderFeeds, MainAt, Registered, PostingLast, MessagesFit, EntriesFit, TokensKept, ItemsFit, LostFit, OutputKept, Orderly, Bounded;
  }

  lemma SlotsAreSix(s: State)
    requires SlotsKept(s) && !s.reader.ReaderDone?
    ensures multiset(AllSlots(s)) == multiset([0, 1, 2, 3, 4, 5]) && |AllSlots(s)| == SLOTS
  {
    hide Occ, AllSlots, Places;
    forall x: nat
      ensures Occ(AllSlots(s), x) == if x < SLOTS then 1 else 0
    {
      PlacesCounted(s, x);
      OccNone<nat>(x);
    }
    SixSlots(AllSlots(s));
  }

  /** The item is queued or being decoded. */
  predicate Live(s: State, item: Item)
  {
    item in s.work || Busy(item) in s.workers
  }

  /** A slot that a queued or running item refers to is in flight: it is neither back in the return
      channel nor with the reader, and still holds the data of the item's chunk. */
  lemma SlotsSafe(c: Config, s: State, item: Item)
    requires Reachable(c, s) && Live(s, item)
    ensures item.slot in Registry(s)
    ensures item.slot !in s.free && item.slot !in ReaderHand(s.reader) && item.slot !in Collect(s.filled, SlotOfFilled)
    ensures item.slot !in MainHand(s.main) && item.slot !in CollectorHand(s.collector)
    ensures item.chunk < |Jobs(c.plan)| && item.seg < |Jobs(c.plan)[item.chunk]|
    ensures DecodeSlot(c, s, item.slot, item.seg) == Jobs(c.plan)[item.chunk][item.seg]
  {
    hide Reachable, Inv, Registry, Collect, ReaderHand, MainHand, CollectorHand, Jobs, DecodeSlot;
    ReachableKeeps(c, s);
    LiveFits(c, s, item);
    InFlightOnly(s, item.slot);
    DecodesJob(c, s, item.slot, item.chunk, item.seg);
  }

  lemma LiveFits(c: Config, s: State, item: Item)
    requires Inv(c, s) && Live(s, item)
    ensures SlotsKept(s) && item.slot in Registry(s) && Holds(c.plan, s.contents, item.slot, item.chunk)
    ensures IsSegment(Jobs(c.plan), (item.chunk, item.seg))
  {
    hide SlotsKept, ReaderFeeds, MainAt, PostingLast, MessagesFit, EntriesFit, TokensKept, OutputKept, Orderly, Bounded, Holds, Registry, Jobs;
    if item in s.work {
      var i :| 0 <= i < |s.work| && s.work[i] == item;
      WorkToken(Jobs(c.plan), s, i);
      assert ItemFits(s.work[i], First(s), Registry(s));
    } else {
      var i :| 0 <= i < |s.workers| && s.workers[i] == Busy(item);
      BusyToken(Jobs(c.plan), s, i);
      assert ItemFits(s.workers[i].item, First(s), Registry(s));
    }
  }

  lemma InFlightOnly(s: State, x: nat)
    requires SlotsKept(s) && x in Registry(s)
    ensures x !in s.free && x !in ReaderHand(s.reader) && x !in Collect(s.filled, SlotOfFilled)
    ensures x !in MainHand(s.main) && x !in CollectorHand(s.collector)
  {
    hide Occ, Registry, Collect, ReaderHand, MainHand, CollectorHand;
    assert Places(s, x) <= 1;
    OccMember(Registry(s), x);
    OccMember(s.free, x);
    OccMember(ReaderHand(s.reader), x);
    OccMember(Collect(s.filled, SlotOfFilled), x);
    OccMember(MainHand(s.main), x);
    OccMember(CollectorHand(s.collector), x);
  }

  /** No result finds its slot unregistered: the entry for its chunk exists, has the place, and the
      place is empty; the output is the segment's. */
  lemma ResultFindsSlot(c: Config, s: State)
    requires Reachable(c, s) && s.inbox != [] && s.inbox[0].Result?
    ensures var m, i := s.inbox[0], Position(s.inFlight, s.inbox[0].chunk);
      && i < |s.inFlight| && m.seg < |s.inFlight[i].results| && s.inFlight[i].results[m.seg].None?
      && m.chunk < |Jobs(c.plan)| && m.seg < |Jobs(c.plan)[m.chunk]| && Jobs(c.plan)[m.chunk][m.seg] == Some(m.out)
  {
    hide Reachable, SlotsKept, ReaderFeeds, MainAt, Registered, Registry, PostingLast, MessagesFit, EntriesFit, TokensKept, ItemsFit, LostFit, OutputKept, Orderly, Bounded, Position, Jobs;
    ReachableKeeps(c, s);
    HeadResult(Jobs(c.plan), s);
    EntryChunks(Jobs(c.plan), s.inFlight, First(s));
    var i := Position(s.inFlight, s.inbox[0].chunk);
    assert s.inFlight[s.inbox[0].chunk - First(s)].chunk == s.inbox[0].chunk;
    if i < |s.inFlight| {
      assert s.inFlight[i].chunk == First(s) + i;
    }
  }

  // ---------------------------------------------------------------------------------------------
  // Progress
  // ---------------------------------------------------------------------------------------------

  /** No thread can move. */
  ghost predicate Stuck(c: Config, s: State)
  {
    forall t: Thread :: Fire(c, s, t).None?
  }

  /** The return channel has room for every slot that is in someone's hands. */
  lemma CanReturn(s: State, slot: nat)
    requires SlotsKept(s) && (MainHand(s.main) == [slot] || CollectorHand(s.collector) == [slot])
    ensures Return(s, slot).Some?
  {
    hide SlotsKept, Registry, Collect, ReaderHand, MainHand, CollectorHand;
    if !s.reader.ReaderDone? { SlotsAreSix(s); }
  }

  lemma StuckCollector(c: Config, s: State)
    requires SlotsKept(s) && Orderly(s) && CollectorStep(s).None? && WriterStep(s).None?
    ensures (s.collector.Listening? || s.collector.CollectorDone?) && s.inbox == [] && s.toWriter == []
    ensures s.collector.Listening? ==> !(s.main.MainDone? && AllEnded(s.workers))
    ensures s.collector.CollectorDone? ==> s.writerDone && s.main.MainDone?
  {
    hide SlotsKept, Return, FlushStep, Delivered, FrontWaits, AllEnded;
    if s.collector.Recycling? { CanReturn(s, s.collector.slot); }
  }

  lemma StuckWorkers(c: Config, s: State)
    requires Orderly(s) && Bounded(c, s) && c.workers >= 1 && s.inbox == []
    requires forall i :: 0 <= i < |s.workers| ==> !s.workers[i].Lost?
    requires forall i: nat :: WorkerStep(c, s, i).None?
    ensures Quiet(s) && (s.main.MainDone? ==> AllEnded(s.workers))
  {
    hide DecodeSlot, FrontWaits;
    forall i | 0 <= i < |s.workers|
      ensures !s.workers[i].Busy? && s.work == [] && (s.main.MainDone? ==> s.workers[i].Stopped?)
    {
      assert WorkerStep(c, s, i).None?;
    }
    assert !s.workers[0].Busy?;
  }

  lemma StuckMain(c: Config, s: State)
    requires SlotsKept(s) && MainStep(c, s).None? && c.workers >= 1 && s.inbox == [] && s.work == []
    ensures s.main.MainDone? || (s.main.Waiting? && s.filled == [] && !s.reader.ReaderDone?)
  {
    hide SlotsKept, Return, SplitSlot;
    if s.main.Returning? { CanReturn(s, s.main.slot); }
  }

  /** Were everybody waiting, all six slots would be in flight and complete. */
  lemma SomeSlotMoves(c: Config, s: State)
    requires SlotsKept(s) && Quiet(s) && FrontWaits(s.inFlight) && EntriesFit(Jobs(c.plan), s.inFlight, First(s))
    requires TokensKept(Jobs(c.plan), s.main, s.chunkId, s.inFlight, First(s), s.work, s.workers, s.inbox)
    requires First(s) + |Registry(s)| == Announced(s.main, s.chunkId)
    requires s.reader.Receiving? && s.main.Waiting? && s.collector.Listening? && s.filled == []
    ensures s.free != []
  {
    hide SlotsKept, FrontWaits, EntriesFit, TokensKept, Registry, Jobs, Collect;
    QuietMeansFlushed(c, s);
    RegistryLength(s);
    CollectNone(SlotOfMessage);
    SlotsAreSix(s);
    CollectNone(SlotOfFilled);
  }

  /** While a worker is left, the main thread is aborted only in front of a carry that does not fit. */
  lemma AbortedWhen(c: Config, s: State)
    requires Bounded(c, s) && Orderly(s) && c.workers >= 1 && s.aborted
    requires MainAt(c.plan, s.contents, s.main, s.taken, s.chunkId) && Asserted(c.failAt, s.main, s.taken, s.filled, s.aborted)
    requires forall i :: 0 <= i < |s.workers| ==> !s.workers[i].Lost?
    ensures c.failAt < |c.plan|
  {
    hide FrontWaits, JobsBefore;
    var w := s.workers[0];
  }

  /** The main thread is done only when it has taken all chunks. */
  lemma DoneWhen(c: Config, s: State)
    requires Inv(c, s) && s.main.MainDone?
    ensures c.failAt >= |c.plan|
  {
    hide SlotsKept, ReaderFeeds, Registered, Registry, PostingLast, MessagesFit, EntriesFit, TokensKept, ItemsFit, LostFit, OutputKept, Orderly, Bounded, JobsBefore;
  }

  /** When no thread can move and no segment panics, the pipeline has shut down or the main thread has
      panicked, and which of the two depends on the carries alone. */
  lemma StuckIsFinal(c: Config, s: State)
    requires Inv(c, s) && c.workers >= 1 && Stuck(c, s) && NoPanic(c.plan)
    ensures if c.failAt < |c.plan| then s.aborted && !Final(s) else Final(s) && !s.aborted
  {
    hide SlotsKept, ReaderFeeds, MainAt, Registered, Registry, PostingLast, MessagesFit, EntriesFit, TokensKept, ItemsFit, LostFit, OutputKept, Jobs, CollectorStep, MainStep, WorkerStep, WriterStep, NoPanic, Asserted;
    NoneLost(c, s);
    if s.main.MainDone? { DoneWhen(c, s); }
    if s.aborted {
      AbortedWhen(c, s);
    } else {
      AllWaiting(c, s);
    }
  }

  lemma AllWaiting(c: Config, s: State)
    requires Inv(c, s) && c.workers >= 1 && Stuck(c, s) && !s.aborted
    requires forall i :: 0 <= i < |s.workers| ==> !s.workers[i].Lost?
    ensures Final(s)
  {
    hide SlotsKept, ReaderFeeds, MainAt, Registered, Registry, PostingLast, MessagesFit, EntriesFit, TokensKept, ItemsFit, LostFit, OutputKept, Jobs, CollectorStep, MainStep, WorkerStep, WriterStep, Asserted;
    assert Fire(c, s, TheCollector).None? && Fire(c, s, TheWriter).None? && Fire(c, s, TheMain).None? && Fire(c, s, TheReader).None?;
    forall i: nat
      ensures WorkerStep(c, s, i).None?
    {
      assert Fire(c, s, AWorker(i)).None?;
    }
    StuckCollector(c, s);
    StuckWorkers(c, s);
    StuckMain(c, s);
    if s.main.Waiting? {
      RegisteredLength(c.plan, s.contents, Registry(s), First(s), Announced(s.main, s.chunkId));
      if s.reader.Receiving? { SomeSlotMoves(c, s); }
      assert false;
    }
  }

  /** The pipeline never deadlocks: with at least one worker, no segment that panics and carries that fit,
      in every reachable state that is not final some thread can move. */
  lemma NeverStuck(c: Config, s: State)
    requires Reachable(c, s) && c.workers >= 1 && !Final(s) && NoPanic(c.plan) && c.failAt >= |c.plan|
    ensures exists t: Thread :: Fire(c, s, t).Some?
  {
    hide Reachable, Inv, Fire, Final, NoPanic;
    ReachableKeeps(c, s);
    if Stuck(c, s) { StuckIsFinal(c, s); }
  }

  /** No send fails but the main thread's to workers that are all lost: whoever else is about to send finds
      the receiver alive. */
  lemma ReceiversAlive(c: Config, s: State)
    requires Reachable(c, s)
    ensures s.main.Announcing? || s.main.Posting? || (exists i :: 0 <= i < |s.workers| && s.workers[i].Busy?) ==> !s.collector.CollectorDone?
    ensures s.main.Posting? ==> forall i :: 0 <= i < |s.workers| ==> !s.workers[i].Stopped?
    ensures s.aborted && !s.main.Waiting? ==> s.main.MainDone? || forall i :: 0 <= i < |s.workers| ==> s.workers[i].Lost?
    ensures s.collector.Writing? ==> !s.writerDone
    ensures s.reader.Sending? ==> !s.main.MainDone?
  {
    hide Reachable, SlotsKept, Registered, Registry, PostingLast, MessagesFit, EntriesFit, TokensKept, ItemsFit, LostFit, OutputKept, Jobs, JobsBefore, FrontWaits;
    ReachableKeeps(c, s);
  }

  // ---------------------------------------------------------------------------------------------
  // Termination
  // ---------------------------------------------------------------------------------------------

  function Total<T>(q: seq<T>, w: T -> nat): nat
  {
    if q == [] then 0 else w(q[0]) + Total(q[1..], w)
  }

  lemma {:induction false} TotalAppend<T>(a: seq<T>, b: seq<T>, w: T -> nat)
    ensures Total(a + b, w) == Total(a, w) + Total(b, w)
    decreases |a|
  {
    if a == [] {
      assert a + b == b;
    } else {
      TotalAppend(a[1..], b, w);
      assert (a + b)[1..] == a[1..] + b;
    }
  }

  lemma TotalPush<T>(a: seq<T>, x: T, w: T -> nat)
    ensures Total(a + [x], w) == Total(a, w) + w(x)
  {
    TotalAppend(a, [x], w);
    assert Total([x], w) == w(x) + Total([x][1..], w);
  }

  lemma TotalPop<T>(a: seq<T>, w: T -> nat)
    requires a != []
    ensures Total(a, w) == w(a[0]) + Total(a[1..], w)
  {
  }

  lemma {:induction false} TotalUpdate<T>(a: seq<T>, i: nat, x: T, w: T -> nat)
    requires i < |a|
    ensures Total(a[i := x], w) + w(a[i]) == Total(a, w) + w(x)
    decreases |a|
  {
    if i > 0 {
      TotalUpdate(a[1..], i - 1, x, w);
      assert a[i := x][1..] == a[1..][i - 1 := x];
    } else {
      assert a[i := x][1..] == a[1..];
    }
  }

  /** The steps still to come, counted for each chunk, message and thread. */
  function FilledCost(o: Option<seq<Outcome>>): nat
  {
    if o.Some? then 7 * |o.value| + 8 else 2
  }

  function UnreadCost(o: Option<seq<Outcome>>): nat
  {
    FilledCost(o) + 2
  }

  function ReaderCost(r: Reader): nat
  {
    match r
    case Receiving => 2
    case Sending(_) => 1
    case ReaderDone => 0
  }

  function MainCost(m: Main): nat
  {
    match m
    case Waiting => 1
    case Returning(_, _) => 2
    case Announcing(_, _, count) => 7 * count + 8
    case Posting(_, _, count, seg) => if seg <= count then 5 * (count - seg) + 2 else 2
    case MainDone => 0
  }

  function WorkerCost(w: Worker): nat
  {
    match w
    case Idle => 1
    case Busy(_) => 4
    case Lost(_) => 0
    case Stopped => 0
  }

  function MessageCost(m: Message): nat
  {
    if m.NewSlot? then 2 * m.count + 5 else 2
  }

  function EntryCost(e: InFlight): nat
  {
    2 * |e.results| + 3
  }

  function FlushCost(closing: bool): nat
  {
    if closing then 1 else 3
  }

  function CollectorCost(col: Collector): nat
  {
    match col
    case Listening => 2
    case Flushing(closing) => FlushCost(closing)
    case Writing(_, pending, closing) => FlushCost(closing) + 2 * |pending| + 2
    case Recycling(_, closing) => FlushCost(closing) + 1
    case CollectorDone => 0
  }

  /** Chunks not yet read and chunks in the filled channel. */
  function InputCost(plan: Plan, read: nat, taken: nat): nat
    requires taken <= read <= |plan|
  {
    Total(plan[read..], UnreadCost) + Total(plan[taken..read], FilledCost)
  }

  /** The reader and the main thread. */
  function FeedCost(plan: Plan, read: nat, taken: nat, reader: Reader, main: Main, aborted: bool): nat
    requires taken <= read <= |plan|
  {
    InputCost(plan, read, taken) + ReaderCost(reader) + MainCost(main) + if aborted then 0 else 1
  }

  /** The workers and the collector's channel. */
  function WorkCost(work: seq<Item>, workers: seq<Worker>, inbox: seq<Message>): nat
  {
    4 * |work| + Total(workers, WorkerCost) + Total(inbox, MessageCost)
  }

  /** The collector and the writer. */
  function OutCost(col: Collector, inFlight: seq<InFlight>, toWriter: seq<Bytes>, writerDone: bool): nat
  {
    CollectorCost(col) + Total(inFlight, EntryCost) + |toWriter| + if writerDone then 0 else 1
  }

  function Remaining(c: Config, s: State): nat
    requires s.taken <= s.read <= |c.plan|
  {
    FeedCost(c.plan, s.read, s.taken, s.reader, s.main, s.aborted)
    + WorkCost(s.work, s.workers, s.inbox)
    + OutCost(s.collector, s.inFlight, s.toWriter, s.writerDone)
  }

  lemma InputRead(plan: Plan, read: nat, taken: nat)
    requires taken <= read < |plan|
    ensures InputCost(plan, read, taken) == InputCost(plan, read + 1, taken) + 2
  {
    hide FilledCost;
    assert plan[read..][0] == plan[read] && plan[read..][1..] == plan[read + 1..];
    TotalPop(plan[read..], UnreadCost);
    assert plan[taken..read + 1] == plan[taken..read] + [plan[read]];
    TotalPush(plan[taken..read], plan[read], FilledCost);
  }

  lemma InputTaken(plan: Plan, read: nat, taken: nat)
    requires taken < read <= |plan|
    ensures InputCost(plan, read, taken) == InputCost(plan, read, taken + 1) + FilledCost(plan[taken])
  {
    hide FilledCost;
    assert plan[taken..read][1..] == plan[taken + 1..read];
  }

  lemma ReaderCosts(c: Config, s: State, s': State)
    requires Inv(c, s) && ReaderStep(c, s) == Some(s')
    ensures s'.taken <= s'.read <= |c.plan| && Remaining(c, s') < Remaining(c, s)
  {
    hide SlotsKept, MainAt, Registered, Registry, PostingLast, MessagesFit, EntriesFit, TokensKept, ItemsFit, LostFit, OutputKept, Orderly, Bounded, Total, InputCost, WorkCost, OutCost;
    if s.read < |c.plan| { InputRead(c.plan, s.read, s.taken); }
  }

  lemma MainCosts(c: Config, s: State, s': State)
    requires Inv(c, s) && !s.aborted && MainStep(c, s) == Some(s')
    ensures s'.taken <= s'.read <= |c.plan| && Remaining(c, s') < Remaining(c, s)
  {
    hide SlotsKept, Registered, Registry, PostingLast, MessagesFit, EntriesFit, TokensKept, ItemsFit, LostFit, OutputKept, Orderly, Bounded, Remaining, MainAt, ReaderFeeds, MainStep;
    InvInput(c, s);
    if s.main.Waiting? {
      TakeCosts(c, s, s');
    } else {
      PostCosts(c, s, s');
    }
  }

  lemma TakeCosts(c: Config, s: State, s': State)
    requires ReaderFeeds(c.plan, s.contents, s.reader, s.read, s.filled, s.taken)
    requires !s.aborted && s.main.Waiting? && MainStep(c, s) == Some(s')
    ensures s'.taken <= s'.read <= |c.plan| && Remaining(c, s') < Remaining(c, s)
  {
    hide Total, InputCost, WorkCost, OutCost, AllEnded;
    if s.filled != [] { InputTaken(c.plan, s.read, s.taken); }
  }

  lemma PostCosts(c: Config, s: State, s': State)
    requires !s.aborted && s.taken <= s.read <= |c.plan| && MainAt(c.plan, s.contents, s.main, s.taken, s.chunkId)
    requires !s.main.Waiting? && MainStep(c, s) == Some(s')
    ensures s'.taken <= s'.read <= |c.plan| && Remaining(c, s') < Remaining(c, s)
  {
    hide Total, InputCost, JobsBefore, AllEnded, OutCost;
    if s.main.Announcing? {
      TotalPush(s.inbox, NewSlot(s.chunkId, s.main.slot, s.main.count), MessageCost);
    }
  }

  lemma WorkerCosts(c: Config, s: State, i: nat, s': State)
    requires s.taken <= s.read <= |c.plan| && WorkerStep(c, s, i) == Some(s')
    ensures s'.taken <= s'.read <= |c.plan| && Remaining(c, s') < Remaining(c, s)
  {
    hide Total, InputCost, DecodeSlot, FeedCost, OutCost;
    TotalUpdate(s.workers, i, s'.workers[i], WorkerCost);
    if s'.inbox != s.inbox { TotalPush(s.inbox, s'.inbox[|s.inbox|], MessageCost); }
  }

  lemma ListenCosts(c: Config, s: State, s': State)
    requires Inv(c, s) && s.collector.Listening? && ListenStep(s) == Some(s')
    ensures s'.taken <= s'.read <= |c.plan| && Remaining(c, s') < Remaining(c, s)
  {
    hide SlotsKept, MainAt, Registered, Registry, PostingLast, MessagesFit, EntriesFit, TokensKept, ItemsFit, LostFit, OutputKept, Orderly, Bounded, Total, InputCost, Applied, Jobs, FeedCost;
    if s.inbox != [] {
      TotalPop(s.inbox, MessageCost);
      match s.inbox[0]
      case NewSlot(chunk, slot, count) =>
        TotalPush(s.inFlight, s'.inFlight[|s.inFlight|], EntryCost);
      case Result(chunk, seg, out) =>
        EntryChunks(Jobs(c.plan), s.inFlight, First(s));
        HeadResult(Jobs(c.plan), s);
        AppliedAt(s.inFlight, First(s), chunk, seg, out);
        TotalUpdate(s.inFlight, chunk - First(s), s'.inFlight[chunk - First(s)], EntryCost);
    }
  }

  lemma FlushCosts(c: Config, s: State)
    requires Inv(c, s) && s.collector.Flushing?
    ensures s.taken <= s.read <= |c.plan| && Remaining(c, FlushStep(s, s.collector.closing)) < Remaining(c, s)
  {
    hide SlotsKept, MainAt, Registered, Registry, PostingLast, MessagesFit, EntriesFit, TokensKept, ItemsFit, LostFit, OutputKept, Orderly, Bounded, Total, InputCost, Position, FeedCost, WorkCost;
    FrontIsNext(Jobs(c.plan), s.inFlight, First(s));
    if s.inFlight != [] {
      assert s.inFlight[..0] + s.inFlight[0 + 1..] == s.inFlight[1..];
      TotalPop(s.inFlight, EntryCost);
    }
  }

  lemma WriteCosts(c: Config, s: State, s': State)
    requires s.taken <= s.read <= |c.plan| && s.collector.Writing?
    requires WriteStep(s, s.collector.slot, s.collector.pending, s.collector.closing) == Some(s')
    ensures s'.taken <= s'.read <= |c.plan| && Remaining(c, s') < Remaining(c, s)
  {
    hide Total, InputCost, FeedCost, WorkCost;
  }

  lemma RecycleCosts(c: Config, s: State, s': State)
    requires s.taken <= s.read <= |c.plan| && s.collector.Recycling?
    requires RecycleStep(s, s.collector.slot, s.collector.closing) == Some(s')
    ensures s'.taken <= s'.read <= |c.plan| && Remaining(c, s') < Remaining(c, s)
  {
    hide Total, InputCost, Return, FeedCost, WorkCost;
    ReturnFrame(s, s.collector.slot);
  }

  lemma CollectorCosts(c: Config, s: State, s': State)
    requires Inv(c, s) && CollectorStep(s) == Some(s')
    ensures s'.taken <= s'.read <= |c.plan| && Remaining(c, s') < Remaining(c, s)
  {
    hide Inv, Remaining, ListenStep, FlushStep, WriteStep, RecycleStep;
    InvInput(c, s);
    match s.collector
    case Listening => ListenCosts(c, s, s');
    case Flushing(closing) =>
      FlushCosts(c, s);
      FlushInput(s, closing);
    case Writing(_, _, _) => WriteCosts(c, s, s');
    case Recycling(_, _) => RecycleCosts(c, s, s');
    case CollectorDone =>
  }

  lemma FlushInput(s: State, closing: bool)
    ensures FlushStep(s, closing).taken == s.taken && FlushStep(s, closing).read == s.read
  {
  }

  /** Every step brings the end nearer. */
  lemma StepCosts(c: Config, s: State, t: Thread, s': State)
    requires Inv(c, s) && Fire(c, s, t) == Some(s')
    ensures s.taken <= s.read <= |c.plan| && s'.taken <= s'.read <= |c.plan|
    ensures Remaining(c, s') < Remaining(c, s)
  {
    hide SlotsKept, MainAt, Registered, Registry, PostingLast, MessagesFit, EntriesFit, TokensKept, ItemsFit, LostFit, OutputKept, Orderly, Bounded, Total, InputCost, ReaderStep, MainStep, WorkerStep, CollectorStep;
    match t
    case TheReader => ReaderCosts(c, s, s');
    case TheMain => MainCosts(c, s, s');
    case AWorker(i) => WorkerCosts(c, s, i, s');
    case TheCollector => CollectorCosts(c, s, s');
    case TheWriter =>
  }

  /** A bound on the number of steps. */
  function Bound(c: Config): nat
  {
    Total(c.plan, UnreadCost) + c.workers + 7
  }

  lemma {:induction false} RunCosts(c: Config, s: State, ts: seq<Thread>, s': State)
    requires Inv(c, s) && Run(c, s, ts) == Some(s')
    ensures s.taken <= s.read <= |c.plan| && |ts| <= Remaining(c, s)
    decreases |ts|
  {
    hide Inv, Fire, Remaining;
    if ts != [] {
      var next := Fire(c, s, ts[0]).value;
      StepCosts(c, s, ts[0], next);
      StepKeeps(c, s, ts[0], next);
      RunCosts(c, next, ts[1..], s');
    } else {
      InvInput(c, s);
    }
  }

  lemma InvInput(c: Config, s: State)
    requires Inv(c, s)
    ensures s.taken <= s.read <= |c.plan|
  {
    hide SlotsKept, MainAt, Registered, Registry, PostingLast, MessagesFit, EntriesFit, TokensKept, ItemsFit, LostFit, OutputKept, Orderly, Bounded;
  }

  lemma {:induction false} IdleCost(ws: seq<Worker>)
    requires forall i :: 0 <= i < |ws| ==> ws[i].Idle?
    ensures Total(ws, WorkerCost) == |ws|
    decreases |ws|
  {
    if ws != [] { IdleCost(ws[1..]); }
  }

  /** Every run ends: no interleaving is longer than the bound. */
  lemma RunsAreBounded(c: Config, ts: seq<Thread>)
    requires c.plan != [] && Run(c, Start(c), ts).Some?
    ensures |ts| <= Bound(c)
  {
    hide Inv, Run;
    StartInv(c);
    RunCosts(c, Start(c), ts, Run(c, Start(c), ts).value);
    IdleCost(Start(c).workers);
    assert c.plan[0..] == c.plan;
  }

  /** Whatever the interleaving, if no segment panics, once no thread can move, then either all carries fit,
      the pipeline has shut down and the whole output is written; or one does not, the main thread has
      panicked, and nothing is written of the chunks from that one on. */
  lemma EveryRunEndsWithTheOutput(c: Config, ts: seq<Thread>, s: State)
    requires c.plan != [] && c.workers >= 1 && NoPanic(c.plan) && Run(c, Start(c), ts) == Some(s) && Stuck(c, s)
    ensures c.failAt >= |c.plan| ==> Final(s) && !s.aborted && s.written == Expected(c.plan)
    ensures c.failAt < |c.plan| ==> s.aborted && !Final(s) && s.written <= Expected(c.plan[..c.failAt])
  {
    hide Inv, Run, Stuck, Final, NoPanic;
    assert Reachable(c, s);
    ReachableKeeps(c, s);
    StuckIsFinal(c, s);
    if c.failAt >= |c.plan| {
      CompleteAtEnd(c, s);
    } else {
      WritesStopAtCarry(c, s);
    }
  }

  lemma {:induction false} JobsAtMost(plan: Plan, i: nat, j: nat)
    requires i <= j <= |plan|
    ensures JobsBefore(plan, i) <= JobsBefore(plan, j) <= JobsBefore(plan, i) + (j - i)
    decreases j
  {
    hide JobsBefore, Jobs;
    if i < j {
      JobsAtMost(plan, i, j - 1);
      JobsStep(plan, j - 1);
    }
  }

  lemma WrittenUpTo(c: Config, s: State, k: nat)
    requires Inv(c, s) && First(s) <= k <= |Jobs(c.plan)|
    ensures s.written <= Flat(Jobs(c.plan)[..k])
  {
    hide SlotsKept, ReaderFeeds, MainAt, Registered, Registry, PostingLast, MessagesFit, EntriesFit, TokensKept, ItemsFit, LostFit, Orderly, Bounded, Jobs, Flat, Collect;
    var jobs := Jobs(c.plan);
    FlatPrefix(jobs[..k], First(s));
    assert jobs[..k][..First(s)] == jobs[..First(s)];
  }

  /** Nothing from the chunk on in front of which the carry does not fit is ever written. */
  lemma WritesStopAtCarry(c: Config, s: State)
    requires Reachable(c, s) && c.failAt <= |c.plan|
    ensures s.written <= Expected(c.plan[..c.failAt])
  {
    hide Reachable, Inv, Jobs, JobsBefore, Flat;
    ReachableKeeps(c, s);
    FirstBeforeTaken(c, s);
    JobsAtMost(c.plan, s.taken, c.failAt);
    JobsOfPrefix(c.plan, c.failAt);
    WrittenUpTo(c, s, JobsBefore(c.plan, c.failAt));
  }

  lemma FirstBeforeTaken(c: Config, s: State)
    requires Inv(c, s)
    ensures s.taken <= |c.plan| && s.taken <= c.failAt && First(s) <= JobsBefore(c.plan, s.taken)
  {
    hide SlotsKept, ReaderFeeds, Registry, PostingLast, MessagesFit, EntriesFit, TokensKept, ItemsFit, LostFit, OutputKept, Orderly, Bounded, JobsBefore, Jobs, HoldsIndex, Holds;
  }

  lemma JobsOfPrefix(plan: Plan, k: nat)
    requires k <= |plan|
    ensures JobsBefore(plan, k) <= |Jobs(plan)| && Jobs(plan)[..JobsBefore(plan, k)] == Jobs(plan[..k])
  {
    assert plan == plan[..k] + plan[k..];
    CollectAppend(plan[..k], plan[k..], Given);
  }
}
