/** What a panicking worker does to the pipeline: its chunk is never complete, so it and every chunk behind
    it keep their slots. */
module PipelineHang {
  import opened Wrappers
  import opened Bits
  import opened Lists
  import opened Pipeline
  import opened PipelineInvariant
  import opened PipelineSteps
  import opened PipelineTheory

  /** Decoding segment `g` of chunk `k` panics. */
  predicate Panics(plan: Plan, k: nat, g: nat)
  {
    k < |plan| && plan[k].Some? && g < |plan[k].value| && plan[k].value[g].None?
  }

  lemma PanickingJob(plan: Plan, k: nat, g: nat)
    requires Panics(plan, k, g)
    ensures JobsBefore(plan, k) < |Jobs(plan)| && g < |Jobs(plan)[JobsBefore(plan, k)]|
    ensures Jobs(plan)[JobsBefore(plan, k)][g].None?
  {
    hide Jobs, JobsBefore;
    JobsStep(plan, k);
  }

  /** A step flushes at most one chunk, and only one whose segments have all been decoded. */
  lemma StepFlushes(c: Config, s: State, t: Thread, s': State)
    requires Inv(c, s) && Fire(c, s, t) == Some(s')
    ensures First(s') == First(s) ||
      (First(s') == First(s) + 1 && First(s) < |Jobs(c.plan)| && AllDecode(Jobs(c.plan)[First(s)]))
  {
    hide Inv, CollectorStep, First;
    if t.TheCollector? {
      InvEntries(c, s);
      CollectorFlushes(Jobs(c.plan), s, s');
    } else {
      OthersFlushNothing(c, s, t, s');
    }
  }

  lemma InvEntries(c: Config, s: State)
    requires Inv(c, s)
    ensures EntriesFit(Jobs(c.plan), s.inFlight, First(s))
  {
    hide SlotsKept, ReaderFeeds, MainAt, Registered, Registry, PostingLast, MessagesFit, EntriesFit, TokensKept, ItemsFit, LostFit, OutputKept, Orderly, Bounded, Jobs, First;
  }

  lemma CollectorFlushes(jobs: seq<seq<Outcome>>, s: State, s': State)
    requires CollectorStep(s) == Some(s') && EntriesFit(jobs, s.inFlight, First(s))
    ensures First(s') == First(s) || (First(s') == First(s) + 1 && First(s) < |jobs| && AllDecode(jobs[First(s)]))
  {
    hide EntriesFit, AllEnded, Delivered, Position;
    if s.collector.Flushing? {
      FrontIsNext(jobs, s.inFlight, First(s));
      if !FrontWaits(s.inFlight) { FrontComplete(jobs, s.inFlight, First(s)); }
    }
  }

  lemma OthersFlushNothing(c: Config, s: State, t: Thread, s': State)
    requires Fire(c, s, t) == Some(s') && !t.TheCollector?
    ensures First(s') == First(s)
  {
    hide SplitSlot, DecodeSlot, AllEnded;
  }

  /** So a chunk with a panicking segment is never flushed. */
  lemma {:induction false} RunFlushes(c: Config, s: State, ts: seq<Thread>, s': State, k: nat, g: nat)
    requires Inv(c, s) && Run(c, s, ts) == Some(s') && Panics(c.plan, k, g) && First(s) <= JobsBefore(c.plan, k)
    ensures Inv(c, s') && First(s') <= JobsBefore(c.plan, k)
    decreases |ts|
  {
    hide Inv, Fire, First, Jobs, JobsBefore;
    if ts != [] {
      var next := Fire(c, s, ts[0]).value;
      StepKeeps(c, s, ts[0], next);
      StepFlushes(c, s, ts[0], next);
      PanickingJob(c.plan, k, g);
      RunFlushes(c, next, ts[1..], s', k, g);
    }
  }

  /** Nothing behind a chunk with a panicking segment is ever written. */
  lemma WritesStopAtPanic(c: Config, s: State, k: nat, g: nat)
    requires Reachable(c, s) && Panics(c.plan, k, g)
    ensures JobsBefore(c.plan, k) <= |Jobs(c.plan)| && s.written <= Flat(Jobs(c.plan)[..JobsBefore(c.plan, k)])
  {
    hide Inv, Run, Jobs, JobsBefore, Flat;
    var ts :| Run(c, Start(c), ts) == Some(s);
    StartInv(c);
    RunFlushes(c, Start(c), ts, s, k, g);
    PanickingJob(c.plan, k, g);
    WrittenUpTo(c, s, JobsBefore(c.plan, k));
  }

  // ---------------------------------------------------------------------------------------------
  // All slots in flight
  // ---------------------------------------------------------------------------------------------

  /** The chunks `k` and on to `last` hold six slots. */
  predicate HoldsAllSlots(plan: Plan, k: nat, last: nat)
    requires k <= last <= |plan|
  {
    JobsBefore(plan, last) >= JobsBefore(plan, k) + 6
  }

  /** The reader is not beyond chunk `last`. */
  predicate NotBeyond(s: State, last: nat)
  {
    s.read < last || (s.read == last && s.reader.Receiving?)
  }

  /** When the reader asks for a slot for chunk `last`, six slots are held in the filled channel, by the
      main thread and in flight. */
  lemma SlotsHeld(c: Config, s: State, k: nat, last: nat)
    requires ReaderFeeds(c.plan, s.contents, s.reader, s.read, s.filled, s.taken)
    requires MainAt(c.plan, s.contents, s.main, s.taken, s.chunkId)
    requires k < last < |c.plan| && HoldsAllSlots(c.plan, k, last) && s.read == last
    requires First(s) + |Registry(s)| == Announced(s.main, s.chunkId) && First(s) <= JobsBefore(c.plan, k)
    ensures |s.filled| + |MainHand(s.main)| + |Registry(s)| >= SLOTS
  {
    hide Registry, JobsBefore, Jobs, First, HoldsIndex;
    JobsAtMost(c.plan, s.taken, last);
  }

  /** So there is none left for it. */
  lemma NoSlotLeft(c: Config, s: State, k: nat, last: nat)
    requires Inv(c, s) && k < last < |c.plan| && HoldsAllSlots(c.plan, k, last) && First(s) <= JobsBefore(c.plan, k)
    requires s.read == last && s.reader.Receiving?
    ensures s.free == []
  {
    hide SlotsKept, ReaderFeeds, MainAt, Registered, Registry, PostingLast, MessagesFit, EntriesFit, TokensKept, ItemsFit, LostFit, OutputKept, Orderly, Bounded, JobsBefore, HoldsAllSlots, AllSlots;
    InvSlots(c, s);
    SlotsAreSix(s);
    AllSlotsLength(s);
    RegisteredLength(c.plan, s.contents, Registry(s), First(s), Announced(s.main, s.chunkId));
    SlotsHeld(c, s, k, last);
  }

  lemma AllSlotsLength(s: State)
    ensures |AllSlots(s)| >= |s.free| + |s.filled| + |MainHand(s.main)| + |Registry(s)|
  {
    hide Registry, MainHand, Collect;
    FilledLength(s.filled);
  }

  lemma {:induction false} FilledLength(q: seq<Filled>)
    ensures |Collect(q, SlotOfFilled)| == |q|
    decreases |q|
  {
    if q != [] { FilledLength(q[1..]); }
  }

  lemma StepNotBeyond(c: Config, s: State, t: Thread, s': State, k: nat, last: nat)
    requires Inv(c, s) && Fire(c, s, t) == Some(s') && NotBeyond(s, last)
    requires k < last < |c.plan| && HoldsAllSlots(c.plan, k, last) && First(s) <= JobsBefore(c.plan, k)
    ensures NotBeyond(s', last)
  {
    hide Inv, HoldsAllSlots, First, JobsBefore;
    if t.TheReader? {
      if s.read == last { NoSlotLeft(c, s, k, last); }
      MainBusy(c, s, last);
    } else {
      OthersKeepReader(c, s, t, s');
    }
  }

  lemma MainBusy(c: Config, s: State, last: nat)
    requires Inv(c, s) && s.read <= last < |c.plan|
    ensures !s.main.MainDone?
  {
    hide SlotsKept, Registered, Registry, PostingLast, MessagesFit, EntriesFit, TokensKept, ItemsFit, LostFit, OutputKept, Orderly, Bounded, JobsBefore, HoldsIndex;
  }

  lemma OthersKeepReader(c: Config, s: State, t: Thread, s': State)
    requires Fire(c, s, t) == Some(s') && !t.TheReader?
    ensures s'.read == s.read && s'.reader == s.reader
  {
    hide SplitSlot, DecodeSlot, AllEnded, Delivered, Position;
  }

  lemma {:induction false} RunNotBeyond(c: Config, s: State, ts: seq<Thread>, s': State, k: nat, g: nat, last: nat)
    requires Inv(c, s) && Run(c, s, ts) == Some(s') && Panics(c.plan, k, g) && First(s) <= JobsBefore(c.plan, k)
    requires k < last < |c.plan| && HoldsAllSlots(c.plan, k, last) && NotBeyond(s, last)
    ensures Inv(c, s') && NotBeyond(s', last)
    decreases |ts|
  {
    hide Inv, Fire, First, Jobs, JobsBefore, HoldsAllSlots, NotBeyond;
    if ts != [] {
      var next := Fire(c, s, ts[0]).value;
      StepKeeps(c, s, ts[0], next);
      StepFlushes(c, s, ts[0], next);
      PanickingJob(c.plan, k, g);
      StepNotBeyond(c, s, ts[0], next, k, last);
      RunNotBeyond(c, next, ts[1..], s', k, g, last);
    }
  }

  /** If a segment panics and chunk `last` comes behind six split chunks from the panicking one on, no
      interleaving ever reads that chunk or shuts the pipeline down: the reader waits for a slot for good. */
  lemma NeverShutsDown(c: Config, s: State, k: nat, g: nat, last: nat)
    requires Reachable(c, s) && Panics(c.plan, k, g) && k < last < |c.plan| && HoldsAllSlots(c.plan, k, last)
    ensures !Final(s) && s.read <= last && !s.reader.ReaderDone?
  {
    hide Inv, Run, Jobs, JobsBefore, HoldsAllSlots;
    var ts :| Run(c, Start(c), ts) == Some(s);
    StartInv(c);
    RunNotBeyond(c, Start(c), ts, s, k, g, last);
    ReaderLeft(c, s, last);
  }

  lemma ReaderLeft(c: Config, s: State, last: nat)
    requires Inv(c, s) && NotBeyond(s, last) && last < |c.plan|
    ensures !s.reader.ReaderDone? && s.read <= last
  {
    hide SlotsKept, MainAt, Registered, Registry, PostingLast, MessagesFit, EntriesFit, TokensKept, ItemsFit, LostFit, OutputKept, Orderly, Bounded;
  }

  // ---------------------------------------------------------------------------------------------
  // Workers that are left
  // ---------------------------------------------------------------------------------------------

  /** No segment but those in `S` panics. */
  predicate PanicsWithin(jobs: seq<seq<Outcome>>, S: set<Token>)
  {
    forall ch: nat, g: nat :: ch < |jobs| && g < |jobs[ch]| && jobs[ch][g].None? ==> (ch, g) in S
  }

  /** A list in which nothing occurs twice is no longer than a set that holds its members. */
  lemma {:induction false} Pigeonhole<T>(q: seq<T>, S: set<T>)
    requires forall x :: x in q ==> x in S && Occ(q, x) <= 1
    ensures |q| <= |S|
    decreases |q|
  {
    hide Occ;
    if q != [] {
      var rest := S - {q[0]};
      forall x | x in q[1..]
        ensures x in rest && Occ(q[1..], x) <= 1
      {
        OccPop(q, x);
        OccMember(q[1..], x);
      }
      Pigeonhole(q[1..], rest);
      assert S == rest + {q[0]} && |S| == |rest| + 1;
    }
  }

  /** Lost workers hold one token each. */
  lemma {:induction false} LostTokens(ws: seq<Worker>)
    requires forall i :: 0 <= i < |ws| ==> ws[i].Lost?
    ensures |Collect(ws, TokenOfWorker)| == |ws|
    decreases |ws|
  {
    if ws != [] { LostTokens(ws[1..]); }
  }

  /** A segment takes at most one worker with it: with fewer panicking segments than workers one is left. */
  lemma SomeoneLeft(c: Config, s: State, S: set<Token>)
    requires Inv(c, s) && PanicsWithin(Jobs(c.plan), S) && |S| < c.workers
    ensures |s.workers| == c.workers && exists i :: 0 <= i < |s.workers| && !s.workers[i].Lost?
  {
    hide SlotsKept, ReaderFeeds, MainAt, Registered, Registry, PostingLast, MessagesFit, EntriesFit, ItemsFit, OutputKept, Orderly, Jobs, Collect, Occ, Posted, Received, First, PanicsWithin, LostFit;
    var ws := s.workers;
    if forall i :: 0 <= i < |ws| ==> ws[i].Lost? {
      var q := Collect(ws, TokenOfWorker);
      LostTokens(ws);
      forall t | t in q
        ensures t in S && Occ(q, t) <= 1
      {
        assert Running(s.work, s.workers, s.inbox, t) <= 1;
        OccMember(q, t);
        var i := HolderOf(ws, t);
        LostInside(Jobs(c.plan), ws, S, i);
      }
      Pigeonhole(q, S);
    }
  }

  lemma LostInside(jobs: seq<seq<Outcome>>, ws: seq<Worker>, S: set<Token>, i: nat)
    requires LostFit(jobs, ws) && PanicsWithin(jobs, S) && i < |ws| && ws[i].Lost?
    ensures (ws[i].item.chunk, ws[i].item.seg) in S
  {
  }

  // ---------------------------------------------------------------------------------------------
  // Exactly when the program hangs
  // ---------------------------------------------------------------------------------------------

  /** The last chunk the main thread can receive: the one in front of which it panics, or the last of
      the file. */
  function Goal(c: Config): nat
    requires c.plan != []
  {
    if c.failAt < |c.plan| then c.failAt else |c.plan| - 1
  }

  /** The chunks from `k` on keep six slots before that chunk can be read. */
  predicate Starves(c: Config, k: nat)
    requires c.plan != []
  {
    k < Goal(c) && HoldsAllSlots(c.plan, k, Goal(c))
  }

  /** The worker that is left, if it waits, waits for work. */
  lemma WorkersWait(c: Config, s: State)
    requires Orderly(s) && Bounded(c, s) && c.workers >= 1 && s.inbox == [] && s.collector.Listening?
    requires (exists i :: 0 <= i < |s.workers| && !s.workers[i].Lost?) && !(s.main.MainDone? && AllEnded(s.workers))
    requires forall i: nat :: WorkerStep(c, s, i).None?
    ensures s.work == [] && !s.main.MainDone? && forall i :: 0 <= i < |s.workers| ==> !s.workers[i].Busy?
  {
    hide DecodeSlot, FrontWaits;
    forall i | 0 <= i < |s.workers|
      ensures !s.workers[i].Busy? && (!s.workers[i].Lost? ==> s.work == []) && (s.main.MainDone? ==> !s.workers[i].Idle?)
    {
      assert WorkerStep(c, s, i).None?;
    }
  }

  /** A token in the hands of some worker. */
  lemma {:induction false} HolderOf(ws: seq<Worker>, t: Token) returns (i: nat)
    requires Occ(Collect(ws, TokenOfWorker), t) > 0
    ensures i < |ws| && TokenOfWorker(ws[i]) == [t]
    decreases |ws|
  {
    hide Occ, Collect;
    if ws == [] {
      CollectNone(TokenOfWorker);
      OccNone<Token>(t);
      assert false;
    } else {
      OccCollectPop(ws, TokenOfWorker, t);
      if TokenOfWorker(ws[0]) == [t] {
        i := 0;
      } else {
        HeldByOther(ws[0], t);
        var j := HolderOf(ws[1..], t);
        i := j + 1;
      }
    }
  }

  lemma HeldByOther(w: Worker, t: Token)
    requires TokenOfWorker(w) != [t]
    ensures Occ(TokenOfWorker(w), t) == 0
  {
  }

  /** The chunk at the front waits for a segment that was posted and is with no one but a lost worker: the
      segment panics. */
  lemma FrontIsPanic(jobs: seq<seq<Outcome>>, s: State)
    requires s.work == [] && s.inbox == [] && forall i :: 0 <= i < |s.workers| ==> !s.workers[i].Busy?
    requires s.inFlight != [] && FrontWaits(s.inFlight) && !s.main.Posting? && First(s) < s.chunkId
    requires EntriesFit(jobs, s.inFlight, First(s)) && LostFit(jobs, s.workers)
    requires TokensKept(jobs, s.main, s.chunkId, s.inFlight, First(s), s.work, s.workers, s.inbox)
    ensures First(s) < |jobs| && !AllDecode(jobs[First(s)]) && SomeLost(s.workers)
  {
    hide Occ, Collect, First, TokensKept;
    var first, e := First(s), s.inFlight[0];
    assert EntryFits(e, first + 0, jobs[first + 0]);
    var g :| 0 <= g < |e.results| && e.results[g].None?;
    var u := (first, g);
    MissingRuns(jobs, s, u);
    CollectNone(TokenOfItem);
    CollectNone(TokenOfMessage);
    OccNone<Token>(u);
    var i := HolderOf(s.workers, u);
    assert s.workers[i].Lost?;
    assert jobs[first][g].None?;
  }

  /** So it is the first chunk with a panicking segment, for no chunk behind that is ever flushed. */
  lemma FirstPanic(plan: Plan, k: nat, first: nat)
    requires k <= |plan| && NoPanic(plan[..k]) && first <= JobsBefore(plan, k)
    requires first < |Jobs(plan)| && !AllDecode(Jobs(plan)[first])
    ensures first == JobsBefore(plan, k)
  {
    hide AllDecode, NoPanic;
    NoPanicJobs(plan[..k]);
    JobsOfPrefix(plan, k);
    assert forall ch :: 0 <= ch < JobsBefore(plan, k) ==> Jobs(plan)[ch] == Jobs(plan)[..JobsBefore(plan, k)][ch];
  }

  lemma MissingRuns(jobs: seq<seq<Outcome>>, s: State, u: Token)
    requires TokensKept(jobs, s.main, s.chunkId, s.inFlight, First(s), s.work, s.workers, s.inbox)
    requires IsSegment(jobs, u) && u.0 == First(s) && u.0 < s.chunkId && s.inFlight != []
    requires u.1 < |s.inFlight[0].results| && s.inFlight[0].results[u.1].None?
    ensures Running(s.work, s.workers, s.inbox, u) == 1
  {
    hide Running, First;
  }

  /** All six slots are in flight. */
  lemma AllInFlight(s: State)
    requires SlotsKept(s) && s.reader.Receiving? && s.free == [] && s.filled == [] && s.main.Waiting?
    requires s.collector.Listening? && s.inbox == []
    ensures |s.inFlight| == |Registry(s)| == SLOTS
  {
    hide SlotsKept, Registry, Collect;
    SlotsAreSix(s);
    RegistryLength(s);
    CollectNone(SlotOfFilled);
    CollectNone(SlotOfMessage);
  }

  /** When everybody waits, six split chunks from the panic on have been taken. */
  lemma SixTaken(c: Config, s: State, k: nat, S: set<Token>)
    requires Inv(c, s) && Stuck(c, s) && !Final(s) && !s.aborted
    requires k <= |c.plan| && NoPanic(c.plan[..k]) && First(s) <= JobsBefore(c.plan, k)
    requires PanicsWithin(Jobs(c.plan), S) && |S| < c.workers
    ensures s.taken < |c.plan| && s.taken <= c.failAt
    ensures JobsBefore(c.plan, s.taken) == JobsBefore(c.plan, k) + SLOTS
  {
    hide SlotsKept, ReaderFeeds, MainAt, Registered, Registry, PostingLast, MessagesFit, EntriesFit, TokensKept, ItemsFit, LostFit, OutputKept, Orderly, Bounded, Jobs, JobsBefore, First, CollectorStep, MainStep, WorkerStep, WriterStep, PanicsWithin, NoPanic;
    SomeoneLeft(c, s, S);
    EverybodyWaits(c, s);
    AllInFlight(s);
    WaitingCount(c, s);
    FrontIsPanic(Jobs(c.plan), s);
    FirstPanic(c.plan, k, First(s));
  }

  lemma WaitingCount(c: Config, s: State)
    requires Inv(c, s) && s.main.Waiting?
    ensures s.taken < |c.plan| && s.taken <= c.failAt
    ensures First(s) + |Registry(s)| == s.chunkId == JobsBefore(c.plan, s.taken)
  {
    hide SlotsKept, ReaderFeeds, Registry, PostingLast, MessagesFit, EntriesFit, TokensKept, ItemsFit, LostFit, OutputKept, Orderly, Bounded, JobsBefore, Jobs, First, Holds;
  }

  lemma EverybodyWaits(c: Config, s: State)
    requires Inv(c, s) && Stuck(c, s) && !Final(s) && !s.aborted && c.workers >= 1
    requires exists i :: 0 <= i < |s.workers| && !s.workers[i].Lost?
    ensures s.work == [] && s.inbox == [] && forall i :: 0 <= i < |s.workers| ==> !s.workers[i].Busy?
    ensures s.main.Waiting? && s.filled == [] && s.reader.Receiving? && s.free == []
    ensures s.collector.Listening? && FrontWaits(s.inFlight)
  {
    hide SlotsKept, MainAt, Registered, Registry, PostingLast, MessagesFit, EntriesFit, TokensKept, ItemsFit, LostFit, OutputKept, Jobs, CollectorStep, MainStep, WorkerStep, WriterStep, FrontWaits;
    assert Fire(c, s, TheCollector).None? && Fire(c, s, TheWriter).None? && Fire(c, s, TheMain).None? && Fire(c, s, TheReader).None?;
    forall i: nat
      ensures WorkerStep(c, s, i).None?
    {
      assert Fire(c, s, AWorker(i)).None?;
    }
    StuckCollector(c, s);
    if s.main.MainDone? { DoneReads(c, s); }
    if s.collector.CollectorDone? { CollectorLast(s); }
    WorkersWait(c, s);
    StuckMain(c, s);
  }

  /** When the main thread is done the reader is. */
  lemma DoneReads(c: Config, s: State)
    requires Inv(c, s) && s.main.MainDone?
    ensures s.reader.ReaderDone?
  {
    hide SlotsKept, Registered, Registry, PostingLast, MessagesFit, EntriesFit, TokensKept, ItemsFit, LostFit, OutputKept, Orderly, Bounded, JobsBefore, HoldsIndex;
  }

  /** The collector goes behind the workers. */
  lemma CollectorLast(s: State)
    requires Orderly(s) && s.collector.CollectorDone?
    ensures s.main.MainDone? && AllEnded(s.workers)
  {
    hide FrontWaits;
  }

  /** With fewer segments that panic than workers, every interleaving, which is bounded, ends in a state
      where no thread can move.  Let `k` be the first chunk with such a segment.  Exactly when six chunks
      from `k` on keep their slots before the main thread has received its last chunk, that is a hang: the
      pipeline has not shut down, and the process does not abort but goes on waiting.  Otherwise the main
      thread panics, in front of a carry that does not fit or when it joins a lost worker. */
  lemma HangsIff(c: Config, ts: seq<Thread>, s: State, k: nat, g: nat, S: set<Token>)
    requires c.plan != [] && Run(c, Start(c), ts) == Some(s) && Stuck(c, s)
    requires Panics(c.plan, k, g) && NoPanic(c.plan[..k])
    requires PanicsWithin(Jobs(c.plan), S) && |S| < c.workers
    ensures |ts| <= Bound(c)
    ensures !Final(s) && !s.aborted <==> Starves(c, k)
    ensures s.aborted <==> !Starves(c, k)
    ensures s.written <= Expected(c.plan[..k])
  {
    hide Inv, Run, Stuck, Final, Jobs, JobsBefore, HoldsAllSlots, Bound, PanicsWithin, Panics, NoPanic, Flat;
    assert Reachable(c, s);
    RunsAreBounded(c, ts);
    ReachableKeeps(c, s);
    PanicInPlan(c.plan, k, g);
    StartInv(c);
    RunFlushes(c, Start(c), ts, s, k, g);
    WritesStopAtPanic(c, s, k, g);
    JobsOfPrefix(c.plan, k);
    if Starves(c, k) { NeverShutsDown(c, s, k, g, Goal(c)); }
    if s.aborted {
      AbortMeans(c, s, S);
    } else {
      if Final(s) { FinalJoins(c, s, k, g, S); }
      SixTaken(c, s, k, S);
      TakenHolds(c.plan, k, s.taken, Goal(c));
    }
  }

  lemma PanicInPlan(plan: Plan, k: nat, g: nat)
    requires Panics(plan, k, g)
    ensures k < |plan|
  {
  }

  lemma TakenHolds(plan: Plan, k: nat, taken: nat, last: nat)
    requires k < |plan| && taken <= last < |plan| && JobsBefore(plan, taken) == JobsBefore(plan, k) + SLOTS
    ensures k < last && HoldsAllSlots(plan, k, last)
  {
    hide JobsBefore;
    JobsAtMost(plan, taken, last);
    if taken <= k { JobsAtMost(plan, taken, k); }
  }

  /** When everyone is done some panicking chunk is the first that is not flushed, and the worker lost to
      it is there to be joined. */
  lemma FinalJoins(c: Config, s: State, k: nat, g: nat, S: set<Token>)
    requires Inv(c, s) && Final(s) && k <= |c.plan| && First(s) <= JobsBefore(c.plan, k) && Panics(c.plan, k, g)
    requires PanicsWithin(Jobs(c.plan), S) && |S| < c.workers
    ensures s.aborted || !Stuck(c, s)
  {
    hide SlotsKept, ReaderFeeds, MainAt, Registered, Registry, PostingLast, MessagesFit, EntriesFit, TokensKept, ItemsFit, LostFit, OutputKept, Orderly, Bounded, Jobs, JobsBefore, First, PanicsWithin, Panics, FrontWaits, SomeLost, JoinFails;
    SomeoneLeft(c, s, S);
    FinalQuiet(c, s);
    AllAnnounced(c, s);
    PanickingJob(c.plan, k, g);
    RegistryLength(s);
    CollectNone(SlotOfMessage);
    FrontIsPanic(Jobs(c.plan), s);
    LostFailsJoin(s.workers);
    if !s.aborted { assert Fire(c, s, TheMain).Some?; }
  }

  lemma FinalQuiet(c: Config, s: State)
    requires Orderly(s) && Final(s) && exists i :: 0 <= i < |s.workers| && !s.workers[i].Lost?
    ensures s.work == [] && s.inbox == [] && !s.main.Posting? && FrontWaits(s.inFlight) && s.toWriter == [] && s.collector.CollectorDone?
    ensures forall i :: 0 <= i < |s.workers| ==> !s.workers[i].Busy?
  {
    hide FrontWaits;
  }

  lemma AllAnnounced(c: Config, s: State)
    requires Inv(c, s) && Final(s)
    ensures First(s) + |Registry(s)| == s.chunkId == |Jobs(c.plan)|
  {
    hide SlotsKept, ReaderFeeds, Registry, PostingLast, MessagesFit, EntriesFit, TokensKept, ItemsFit, LostFit, OutputKept, Orderly, Bounded, JobsBefore, Jobs, First, Holds, AllEnded;
    JobsAll(c.plan);
  }

  /** While a worker is left, the main thread panics only in front of a carry that does not fit, or behind
      its loop. */
  lemma AbortMeans(c: Config, s: State, S: set<Token>)
    requires Inv(c, s) && s.aborted && PanicsWithin(Jobs(c.plan), S) && |S| < c.workers
    ensures (s.taken == c.failAt < |c.plan| && s.taken < s.read) || s.reader.ReaderDone?
  {
    hide SlotsKept, Registered, Registry, PostingLast, MessagesFit, EntriesFit, TokensKept, ItemsFit, LostFit, OutputKept, JobsBefore, FrontWaits, PanicsWithin, Jobs, HoldsIndex, SomeLost;
    SomeoneLeft(c, s, S);
  }
}
