/** Every step of every thread keeps the invariant of the pipeline. */
module PipelineSteps {
  import opened Wrappers
  import opened Bits
  import opened Lists
  import opened Pipeline
  import opened PipelineInvariant

  // ---------------------------------------------------------------------------------------------
  // The start
  // ---------------------------------------------------------------------------------------------

  lemma {:induction false} NoTokens(ws: seq<Worker>)
    requires forall i :: 0 <= i < |ws| ==> !ws[i].Busy? && !ws[i].Lost?
    ensures Collect(ws, TokenOfWorker) == []
    decreases |ws|
  {
    if ws != [] { NoTokens(ws[1..]); }
  }

  lemma StartSlots(c: Config)
    ensures SlotsKept(Start(c))
  {
    var s := Start(c);
    forall x: nat
      ensures Places(s, x) + Occ(s.lost, x) == if x < SLOTS then 1 else 0
    {
      StartPlaces(s, x);
    }
  }

  lemma StartPlaces(s: State, x: nat)
    requires s.free == [0, 1, 2, 3, 4, 5] && s.reader == Receiving && s.filled == [] && s.main == Waiting
    requires s.inFlight == [] && s.inbox == [] && s.collector == Listening && s.lost == []
    ensures Places(s, x) + Occ(s.lost, x) == if x < SLOTS then 1 else 0
  {
    hide Occ, Collect;
    OccNone<nat>(x);
    CollectNone(SlotOfEntry);
    CollectNone(SlotOfMessage);
    CollectNone(SlotOfFilled);
    assert Registry(s) == [];
    FirstSlots(x);
  }

  lemma FirstSlots(x: nat)
    ensures Occ([0, 1, 2, 3, 4, 5], x) == if x < SLOTS then 1 else 0
  {
    hide Occ;
    var none: seq<nat> := [];
    OccNone<nat>(x);
    OccPush(none, 0, x);
    OccPush([0], 1, x);
    OccPush([0, 1], 2, x);
    OccPush([0, 1, 2], 3, x);
    OccPush([0, 1, 2, 3], 4, x);
    OccPush([0, 1, 2, 3, 4], 5, x);
    assert none + [0] == [0] && [0] + [1] == [0, 1] && [0, 1] + [2] == [0, 1, 2];
    assert [0, 1, 2] + [3] == [0, 1, 2, 3] && [0, 1, 2, 3] + [4] == [0, 1, 2, 3, 4];
    assert [0, 1, 2, 3, 4] + [5] == [0, 1, 2, 3, 4, 5];
  }

  lemma StartInv(c: Config)
    requires c.plan != []
    ensures Inv(c, Start(c))
  {
    hide SlotsKept, JobsBefore, Jobs, TokensKept, OutputKept;
    var s := Start(c);
    StartSlots(c);
    JobsAll(c.plan);
    NoTokens(s.workers);
    StartOutput(Jobs(c.plan));
    StartTokens(Jobs(c.plan), s.workers);
  }

  lemma StartOutput(jobs: seq<seq<Outcome>>)
    ensures OutputKept(jobs, 0, Sent([], [], []))
  {
    assert jobs[..0] == [];
  }

  lemma StartTokens(jobs: seq<seq<Outcome>>, ws: seq<Worker>)
    requires Collect(ws, TokenOfWorker) == []
    ensures TokensKept(jobs, Waiting, 0, [], 0, [], ws, [])
  {
  }

  // ---------------------------------------------------------------------------------------------
  // The reader
  // ---------------------------------------------------------------------------------------------

  lemma {:induction false} FilledMember(q: seq<Filled>, i: nat)
    requires i < |q|
    ensures Occ(Collect(q, SlotOfFilled), q[i].slot) > 0
  {
    OccCollectMember(q, i, SlotOfFilled, q[i].slot);
  }

  /** A slot in the return channel is nowhere else. */
  lemma FreeIsElsewhere(s: State)
    requires SlotsKept(s) && s.free != []
    ensures forall i :: 0 <= i < |s.filled| ==> s.filled[i].slot != s.free[0]
    ensures forall i :: 0 <= i < |Registry(s)| ==> Registry(s)[i] != s.free[0]
    ensures s.main.Returning? || s.main.Announcing? ==> s.main.slot != s.free[0]
  {
    hide Registry, Occ, Collect;
    var x := s.free[0];
    OccPop(s.free, x);
    assert Places(s, x) <= 1;
    forall i | 0 <= i < |s.filled|
      ensures s.filled[i].slot != x
    {
      FilledMember(s.filled, i);
    }
    forall i | 0 <= i < |Registry(s)|
      ensures Registry(s)[i] != x
    {
      OccMember(Registry(s), Registry(s)[i]);
    }
    OccOne(x, x);
  }

  lemma ReaderSlots(c: Config, s: State, s': State)
    requires SlotsKept(s) && ReaderStep(c, s) == Some(s')
    ensures SlotsKept(s')
  {
    hide Occ, Collect, Registry, Places;
    RegistryOf(s, s');
    forall x: nat
      ensures Places(s', x) + Occ(s'.lost, x) == if x < SLOTS then 1 else 0
    {
      assert Places(s, x) + Occ(s.lost, x) == if x < SLOTS then 1 else 0;
      ReaderPlaces(c, s, s', x);
    }
  }

  lemma ReaderPlaces(c: Config, s: State, s': State, x: nat)
    requires ReaderStep(c, s) == Some(s') && Registry(s) == Registry(s')
    ensures Places(s', x) + Occ(s'.lost, x) == Places(s, x) + Occ(s.lost, x)
  {
    hide Occ, Collect, Registry;
    OccNone<nat>(x);
    OccConcat(s.lost + s.free, ReaderHand(s.reader), x);
    OccConcat(s.lost, s.free, x);
    if s.reader.Receiving? {
      OccConcat(s.lost + s.free, [], x);
      if s.free != [] {
        OccPop(s.free, x);
        OccOne(s.free[0], x);
      }
    } else {
      var m := Filled(s.reader.slot, s.read + 1 == |c.plan|);
      OccCollectPush(s.filled, m, SlotOfFilled, x);
      OccConcat(s.lost + s.free, [], x);
    }
  }

  lemma RegistryOf(s: State, s': State)
    requires s.inFlight == s'.inFlight && s.inbox == s'.inbox
    ensures Registry(s) == Registry(s')
  {
  }

  lemma ReaderRest(c: Config, s: State, s': State)
    requires Inv(c, s) && ReaderStep(c, s) == Some(s')
    ensures ReaderFeeds(c.plan, s'.contents, s'.reader, s'.read, s'.filled, s'.taken)
    ensures MainAt(c.plan, s'.contents, s'.main, s'.taken, s'.chunkId)
    ensures Registered(c.plan, s'.contents, Registry(s), First(s), Announced(s.main, s.chunkId))
  {
    hide SlotsKept, Registry, PostingLast, MessagesFit, EntriesFit, TokensKept, ItemsFit, LostFit, OutputKept, Orderly, JobsBefore, Jobs;
    if s.free != [] { FreeIsElsewhere(s); }
  }

  lemma ReaderKeeps(c: Config, s: State, s': State)
    requires Inv(c, s) && !s.aborted && ReaderStep(c, s) == Some(s')
    ensures Inv(c, s')
  {
    hide SlotsKept, ReaderFeeds, MainAt, Registered, Registry, PostingLast, MessagesFit, EntriesFit, TokensKept, ItemsFit, LostFit, OutputKept, FrontWaits;
    ReaderSlots(c, s, s');
    ReaderRest(c, s, s');
    RegistryOf(s, s');
  }

  // ---------------------------------------------------------------------------------------------
  // The main thread
  // ---------------------------------------------------------------------------------------------

  lemma ReturnSlots(s: State, slot: nat, s': State)
    requires Return(s, slot) == Some(s')
    requires s.lost != [] ==> s.reader.ReaderDone?
    requires s.reader.ReaderDone? ==> s.free == []
    ensures s' == s.(free := s'.free, lost := s'.lost)
    ensures s'.lost != [] ==> s.reader.ReaderDone?
    ensures s.reader.ReaderDone? ==> s'.free == []
    ensures forall x: nat :: Occ(s'.free, x) + Occ(s'.lost, x) == Occ(s.free, x) + Occ(s.lost, x) + if x == slot then 1 else 0
  {
    hide Occ;
    forall x: nat
      ensures Occ(s'.free, x) + Occ(s'.lost, x) == Occ(s.free, x) + Occ(s.lost, x) + if x == slot then 1 else 0
    {
      OccPush(s.lost, slot, x);
      OccPush(s.free, slot, x);
    }
  }

  lemma ReturnFrame(s: State, slot: nat)
    ensures Return(s, slot).Some? ==>
      Return(s, slot).value == s.(free := Return(s, slot).value.free, lost := Return(s, slot).value.lost)
  {
  }

  lemma MainSlots(c: Config, s: State, s': State)
    requires SlotsKept(s) && MainStep(c, s) == Some(s')
    ensures SlotsKept(s')
  {
    hide Occ, Collect, Registry, SplitSlot, AllEnded, Return, Places;
    if s.main.Returning? {
      ReturningSlots(c, s, s');
    } else {
      MainRegistry(c, s, s');
      forall x: nat
        ensures Places(s', x) + Occ(s'.lost, x) == Places(s, x) + Occ(s.lost, x)
      {
        MainPlaces(c, s, s', x);
      }
    }
  }

  lemma ReturningSlots(c: Config, s: State, s': State)
    requires SlotsKept(s) && s.main.Returning? && MainStep(c, s) == Some(s')
    ensures SlotsKept(s')
  {
    hide Occ, Collect, Registry, SplitSlot, AllEnded, Return;
    ReturnFrame(s, s.main.slot);
    ReturnSlots(s, s.main.slot, Return(s, s.main.slot).value);
    RegistryOf(s, s');
    forall x: nat
      ensures Places(s', x) + Occ(s'.lost, x) == Places(s, x) + Occ(s.lost, x)
    {
      OccNone<nat>(x);
      OccOne(s.main.slot, x);
    }
  }

  lemma MainPlaces(c: Config, s: State, s': State, x: nat)
    requires !s.main.Returning? && MainStep(c, s) == Some(s')
    requires Registry(s') == if s.main.Announcing? then Registry(s) + [s.main.slot] else Registry(s)
    ensures Places(s', x) == Places(s, x)
  {
    hide Occ, Collect, Registry, SplitSlot, AllEnded;
    OccNone<nat>(x);
    if s.main.Waiting? && s.filled != [] {
      OccCollectPop(s.filled, SlotOfFilled, x);
    } else if s.main.Announcing? {
      OccPush(Registry(s), s.main.slot, x);
      OccOne(s.main.slot, x);
    }
  }

  /** Only announcing a chunk changes what is in flight. */
  lemma MainRegistry(c: Config, s: State, s': State)
    requires MainStep(c, s) == Some(s')
    ensures Registry(s') == if s.main.Announcing? then Registry(s) + [s.main.slot] else Registry(s)
    ensures First(s') == First(s) && s'.inFlight == s.inFlight
  {
    hide Collect, SplitSlot, AllEnded;
    if s.main.Announcing? {
      CollectPush(s.inbox, s'.inbox[|s.inbox|], SlotOfMessage);
      assert Registry(s') == Collect(s.inFlight, SlotOfEntry) + (Collect(s.inbox, SlotOfMessage) + [s.main.slot]);
    }
  }

  lemma MainFeeds(c: Config, s: State, s': State)
    requires ReaderFeeds(c.plan, s.contents, s.reader, s.read, s.filled, s.taken) && MainStep(c, s) == Some(s')
    ensures ReaderFeeds(c.plan, s'.contents, s'.reader, s'.read, s'.filled, s'.taken)
  {
    hide SplitSlot, HoldsIndex, AllEnded, Return;
    if s.main.Returning? { ReturnFrame(s, s.main.slot); }
  }

  lemma MainMoves(c: Config, s: State, s': State)
    requires ReaderFeeds(c.plan, s.contents, s.reader, s.read, s.filled, s.taken)
    requires MainAt(c.plan, s.contents, s.main, s.taken, s.chunkId) && MainStep(c, s) == Some(s')
    ensures MainAt(c.plan, s'.contents, s'.main, s'.taken, s'.chunkId)
  {
    hide JobsBefore, HoldsIndex, Return, SplitSlot, AllEnded;
    if s.main.Waiting? && s.filled != [] {
      TakeMoves(c, s, s');
    } else if s.main.Returning? {
      ReturnFrame(s, s.main.slot);
    }
  }

  /** Taking a chunk finds out whether it is split. */
  lemma TakeMoves(c: Config, s: State, s': State)
    requires ReaderFeeds(c.plan, s.contents, s.reader, s.read, s.filled, s.taken) && s.main.Waiting? && s.filled != []
    requires MainAt(c.plan, s.contents, s.main, s.taken, s.chunkId) && MainStep(c, s) == Some(s')
    ensures MainAt(c.plan, s'.contents, s'.main, s'.taken, s'.chunkId)
  {
    hide JobsBefore;
    JobsStep(c.plan, s.taken);
  }

  lemma MainRegisters(c: Config, s: State, s': State)
    requires MainAt(c.plan, s.contents, s.main, s.taken, s.chunkId) && MainStep(c, s) == Some(s')
    requires Registered(c.plan, s.contents, Registry(s), First(s), Announced(s.main, s.chunkId)) && PostingLast(s.main, Registry(s))
    ensures Registered(c.plan, s'.contents, Registry(s'), First(s'), Announced(s'.main, s'.chunkId)) && PostingLast(s'.main, Registry(s'))
  {
    hide JobsBefore, Jobs, Registry, SplitSlot, AllEnded, Return, Holds, HoldsIndex;
    MainRegistry(c, s, s');
    if s.main.Returning? { ReturnFrame(s, s.main.slot); }
    if s.main.Announcing? { AnnouncedHolds(c, s); }
  }

  lemma AnnouncedHolds(c: Config, s: State)
    requires MainAt(c.plan, s.contents, s.main, s.taken, s.chunkId) && s.main.Announcing?
    ensures Holds(c.plan, s.contents, s.main.slot, s.chunkId) && s.chunkId + 1 <= |Jobs(c.plan)|
  {
    hide JobsBefore, Jobs;
    JobsStep(c.plan, s.taken - 1);
  }

  lemma MainMessages(c: Config, s: State, s': State)
    requires MainAt(c.plan, s.contents, s.main, s.taken, s.chunkId) && MainStep(c, s) == Some(s')
    requires Registered(c.plan, s.contents, Registry(s), First(s), Announced(s.main, s.chunkId))
    requires MessagesFit(Jobs(c.plan), s.inbox, First(s) + |s.inFlight|)
    ensures MessagesFit(Jobs(c.plan), s'.inbox, First(s') + |s'.inFlight|)
  {
    hide SplitSlot, MainAt, Registered, MessagesFit, MessageFits, Registry, Jobs, Collect, AllEnded;
    MainRegistry(c, s, s');
    if s.main.Announcing? {
      AnnounceFits(c, s);
      RegistryLength(s);
      MessagePush(Jobs(c.plan), s.inbox, s'.inbox[|s.inbox|], First(s) + |s.inFlight|);
    }
  }

  lemma AnnounceFits(c: Config, s: State)
    requires MainAt(c.plan, s.contents, s.main, s.taken, s.chunkId) && s.main.Announcing?
    requires Registered(c.plan, s.contents, Registry(s), First(s), Announced(s.main, s.chunkId))
    ensures MessageFits(Jobs(c.plan), NewSlot(s.chunkId, s.main.slot, s.main.count), First(s) + |Registry(s)|)
  {
    hide JobsBefore, Jobs, Registry, Holds;
    JobsStep(c.plan, s.taken - 1);
  }

  lemma RegisteredLength(plan: Plan, contents: map<nat, nat>, registry: seq<nat>, first: nat, announced: nat)
    requires Registered(plan, contents, registry, first, announced)
    ensures first + |registry| == announced <= |Jobs(plan)|
  {
  }

  lemma {:induction false} EntriesLength(fs: seq<InFlight>)
    ensures |Collect(fs, SlotOfEntry)| == |fs|
    ensures forall i :: 0 <= i < |fs| ==> Collect(fs, SlotOfEntry)[i] == fs[i].slot
  {
    if fs != [] { EntriesLength(fs[1..]); }
  }

  lemma RegistryLength(s: State)
    ensures |Registry(s)| == |s.inFlight| + |Collect(s.inbox, SlotOfMessage)|
  {
    EntriesLength(s.inFlight);
  }

  lemma MessagePush(jobs: seq<seq<Outcome>>, inbox: seq<Message>, m: Message, before: nat)
    requires MessagesFit(jobs, inbox, before) && MessageFits(jobs, m, before + |Collect(inbox, SlotOfMessage)|)
    ensures MessagesFit(jobs, inbox + [m], before)
  {
    hide MessageAt;
    forall j | 0 <= j < |inbox + [m]|
      ensures MessageAt(jobs, inbox + [m], before, j)
    {
      MessageAtPush(jobs, inbox, m, before, j);
    }
  }

  lemma MessageAtPush(jobs: seq<seq<Outcome>>, inbox: seq<Message>, m: Message, before: nat, j: nat)
    requires j <= |inbox|
    ensures j < |inbox| ==> MessageAt(jobs, inbox + [m], before, j) == MessageAt(jobs, inbox, before, j)
    ensures j == |inbox| ==> MessageAt(jobs, inbox + [m], before, j) == MessageFits(jobs, m, before + |Collect(inbox, SlotOfMessage)|)
  {
    hide Collect, MessageFits;
    assert inbox[..|inbox|] == inbox;
    PushPrefix(inbox, m, j);
  }

  lemma PushPrefix<T>(q: seq<T>, x: T, j: nat)
    requires j <= |q|
    ensures (q + [x])[..j] == q[..j]
  {
  }

  lemma MainTokens(c: Config, s: State, s': State)
    requires MainAt(c.plan, s.contents, s.main, s.taken, s.chunkId) && MainStep(c, s) == Some(s')
    requires First(s) <= Announced(s.main, s.chunkId) && EntriesFit(Jobs(c.plan), s.inFlight, First(s))
    requires TokensKept(Jobs(c.plan), s.main, s.chunkId, s.inFlight, First(s), s.work, s.workers, s.inbox)
    ensures TokensKept(Jobs(c.plan), s'.main, s'.chunkId, s'.inFlight, First(s'), s'.work, s'.workers, s'.inbox)
  {
    hide JobsBefore, Jobs, SplitSlot, Collect, Occ, EntriesFit, Received, AllEnded, Return, HoldsIndex, Posted;
    MainRegistry(c, s, s');
    if s.main.Returning? { ReturnFrame(s, s.main.slot); }
    if s.taken > 0 { JobsStep(c.plan, s.taken - 1); }
    forall t: Token
      ensures Running(s'.work, s'.workers, s'.inbox, t) ==
        if Posted(Jobs(c.plan), s'.main, s'.chunkId, t) && !Received(s'.inFlight, First(s'), t) then 1 else 0
      ensures IsSegment(Jobs(c.plan), t) && Received(s'.inFlight, First(s'), t) ==> Posted(Jobs(c.plan), s'.main, s'.chunkId, t)
    {
      assert Running(s.work, s.workers, s.inbox, t) ==
        if Posted(Jobs(c.plan), s.main, s.chunkId, t) && !Received(s.inFlight, First(s), t) then 1 else 0;
      OccNone<Token>(t);
      if s'.work != s.work {
        OccCollectPush(s.work, s'.work[|s.work|], TokenOfItem, t);
        OccOne((s.chunkId, s.main.seg), t);
        PostOne(Jobs(c.plan), s, t);
      } else {
        if s.main.Announcing? { OccCollectPush(s.inbox, s'.inbox[|s.inbox|], TokenOfMessage, t); }
        SamePosted(Jobs(c.plan), s, s', t);
      }
    }
  }

  /** A step that posts nothing changes nothing of what has been posted. */
  lemma SamePosted(jobs: seq<seq<Outcome>>, s: State, s': State, t: Token)
    requires s.main.Posting? ==> s'.main == s.main || (s.main.seg >= s.main.count && s.chunkId < |jobs| && s.main.count == |jobs[s.chunkId]|)
    requires if s.main.Posting? && s'.main != s.main then s'.chunkId == s.chunkId + 1 && !s'.main.Posting? else s'.chunkId == s.chunkId
    requires !s.main.Posting? && s'.main.Posting? ==> s'.main.seg == 0
    ensures Posted(jobs, s'.main, s'.chunkId, t) == Posted(jobs, s.main, s.chunkId, t)
  {
  }

  lemma PostOne(jobs: seq<seq<Outcome>>, s: State, t: Token)
    requires s.main.Posting? && s.main.seg < s.main.count && s.chunkId < |jobs| && s.main.count == |jobs[s.chunkId]|
    ensures Posted(jobs, s.main.(seg := s.main.seg + 1), s.chunkId, t) <==> Posted(jobs, s.main, s.chunkId, t) || t == (s.chunkId, s.main.seg)
    ensures !Posted(jobs, s.main, s.chunkId, (s.chunkId, s.main.seg))
  {
  }

  lemma MainItems(c: Config, s: State, s': State)
    requires MainStep(c, s) == Some(s') && PostingLast(s.main, Registry(s))
    requires First(s) + |Registry(s)| == Announced(s.main, s.chunkId)
    requires ItemsFit(s.work, s.workers, First(s), Registry(s))
    ensures ItemsFit(s'.work, s'.workers, First(s'), Registry(s'))
  {
    hide Registry, SplitSlot, AllEnded;
    MainRegistry(c, s, s');
  }

  lemma MainOrderly(c: Config, s: State, s': State)
    requires MainStep(c, s) == Some(s') && !s.aborted && Bounded(c, s) && Orderly(s)
    requires Asserted(c.failAt, s.main, s.taken, s.filled, s.aborted)
    ensures Bounded(c, s') && Orderly(s') && Asserted(c.failAt, s'.main, s'.taken, s'.filled, s'.aborted)
  {
    hide FrontWaits, SplitSlot, AllEnded, SomeLost, JoinFails, Return;
    if JoinFails(s.workers) { JoinFailsOn(s.workers); }
    if s.main.Returning? { ReturnFrame(s, s.main.slot); }
  }

  lemma MainKeeps(c: Config, s: State, s': State)
    requires Inv(c, s) && !s.aborted && MainStep(c, s) == Some(s')
    ensures Inv(c, s')
  {
    hide SlotsKept, ReaderFeeds, MainAt, Registered, Registry, PostingLast, MessagesFit, EntriesFit, TokensKept, ItemsFit, OutputKept, Orderly, Bounded, Asserted, SplitSlot, AllEnded, LostFit, JoinFails, MainStep;
    RegisteredLength(c.plan, s.contents, Registry(s), First(s), Announced(s.main, s.chunkId));
    MainSlots(c, s, s');
    MainFeeds(c, s, s');
    MainMoves(c, s, s');
    MainRegisters(c, s, s');
    MainMessages(c, s, s');
    MainTokens(c, s, s');
    MainItems(c, s, s');
    MainRegistry(c, s, s');
    MainOrderly(c, s, s');
    MainFrame(c, s, s');
  }

  /** What the main thread does not touch. */
  lemma MainFrame(c: Config, s: State, s': State)
    requires MainStep(c, s) == Some(s')
    ensures s'.workers == s.workers && s'.written == s.written && s'.toWriter == s.toWriter && s'.collector == s.collector
    ensures s'.inFlight == s.inFlight && First(s') == First(s)
  {
    hide SplitSlot, AllEnded, JoinFails, Return;
    if s.main.Returning? { ReturnFrame(s, s.main.slot); }
  }

  lemma {:induction false} JoinFailsOn(ws: seq<Worker>)
    requires JoinFails(ws)
    ensures SomeLost(ws)
  {
    if !ws[0].Lost? {
      JoinFailsOn(ws[1..]);
      var i :| 0 <= i < |ws[1..]| && ws[1..][i].Lost?;
      assert ws[i + 1].Lost?;
    }
  }

  /** When all workers have ended and one is lost, some join fails. */
  lemma {:induction false} LostFailsJoin(ws: seq<Worker>)
    requires AllEnded(ws) && SomeLost(ws)
    ensures JoinFails(ws)
    decreases |ws|
  {
    if !ws[0].Lost? {
      var i :| 0 <= i < |ws| && ws[i].Lost?;
      assert ws[1..][i - 1].Lost?;
      LostFailsJoin(ws[1..]);
    }
  }

  // ---------------------------------------------------------------------------------------------
  // The workers
  // ---------------------------------------------------------------------------------------------

  lemma WorkerRegistry(c: Config, s: State, i: nat, s': State)
    requires WorkerStep(c, s, i) == Some(s')
    ensures Registry(s') == Registry(s) && First(s') == First(s) && s'.inFlight == s.inFlight
  {
    hide Collect, DecodeSlot;
    if s'.inbox != s.inbox {
      CollectPush(s.inbox, s'.inbox[|s.inbox|], SlotOfMessage);
      assert Collect(s.inbox, SlotOfMessage) + [] == Collect(s.inbox, SlotOfMessage);
    }
  }

  lemma WorkerTokens(c: Config, s: State, i: nat, s': State, jobs: seq<seq<Outcome>>)
    requires WorkerStep(c, s, i) == Some(s')
    requires TokensKept(jobs, s.main, s.chunkId, s.inFlight, First(s), s.work, s.workers, s.inbox)
    ensures TokensKept(jobs, s'.main, s'.chunkId, s'.inFlight, First(s'), s'.work, s'.workers, s'.inbox)
  {
    hide Posted, Received, Running, DecodeSlot;
    forall t: Token
      ensures Running(s'.work, s'.workers, s'.inbox, t) == Running(s.work, s.workers, s.inbox, t)
    {
      WorkerRunning(c, s, i, s', t);
    }
  }

  lemma WorkerRunning(c: Config, s: State, i: nat, s': State, t: Token)
    requires WorkerStep(c, s, i) == Some(s')
    ensures Running(s'.work, s'.workers, s'.inbox, t) == Running(s.work, s.workers, s.inbox, t)
  {
    hide Collect, Occ, DecodeSlot;
    OccCollectUpdate(s.workers, i, s'.workers[i], TokenOfWorker, t);
    OccNone<Token>(t);
    if s'.inbox != s.inbox {
      OccCollectPush(s.inbox, s'.inbox[|s.inbox|], TokenOfMessage, t);
    } else if s'.work != s.work {
      OccCollectPop(s.work, TokenOfItem, t);
    }
  }

  lemma WorkerItems(c: Config, s: State, i: nat, s': State, first: nat, registry: seq<nat>)
    requires WorkerStep(c, s, i) == Some(s') && ItemsFit(s.work, s.workers, first, registry)
    ensures ItemsFit(s'.work, s'.workers, first, registry)
  {
    hide ItemFits, DecodeSlot;
  }

  /** A running segment is one of the chunk's and not yet received. */
  lemma RunningToken(jobs: seq<seq<Outcome>>, s: State, t: Token)
    requires TokensKept(jobs, s.main, s.chunkId, s.inFlight, First(s), s.work, s.workers, s.inbox)
    requires Running(s.work, s.workers, s.inbox, t) > 0
    ensures IsSegment(jobs, t) && !Received(s.inFlight, First(s), t) && Posted(jobs, s.main, s.chunkId, t)
  {
    hide Running, Received;
  }

  lemma BusyToken(jobs: seq<seq<Outcome>>, s: State, i: nat)
    requires TokensKept(jobs, s.main, s.chunkId, s.inFlight, First(s), s.work, s.workers, s.inbox)
    requires i < |s.workers| && (s.workers[i].Busy? || s.workers[i].Lost?)
    ensures IsSegment(jobs, (s.workers[i].item.chunk, s.workers[i].item.seg))
    ensures First(s) <= s.workers[i].item.chunk
  {
    hide Occ, Collect, TokensKept;
    var t := (s.workers[i].item.chunk, s.workers[i].item.seg);
    OccCollectMember(s.workers, i, TokenOfWorker, t);
    RunningToken(jobs, s, t);
  }

  /** A slot that holds a chunk's data decodes to the chunk's outputs. */
  lemma DecodesJob(c: Config, s: State, slot: nat, ch: nat, seg: nat)
    requires Holds(c.plan, s.contents, slot, ch)
    ensures ch < |Jobs(c.plan)|
    ensures seg < |Jobs(c.plan)[ch]| ==> DecodeSlot(c, s, slot, seg) == Jobs(c.plan)[ch][seg]
  {
    hide JobsBefore, Jobs;
    JobsStep(c.plan, s.contents[slot]);
  }

  /** What a worker sends, or what it panics at. */
  lemma WorkerSends(c: Config, s: State, i: nat)
    requires Registered(c.plan, s.contents, Registry(s), First(s), Announced(s.main, s.chunkId))
    requires TokensKept(Jobs(c.plan), s.main, s.chunkId, s.inFlight, First(s), s.work, s.workers, s.inbox)
    requires ItemsFit(s.work, s.workers, First(s), Registry(s)) && i < |s.workers| && s.workers[i].Busy?
    ensures var item := s.workers[i].item;
      && IsSegment(Jobs(c.plan), (item.chunk, item.seg))
      && DecodeSlot(c, s, item.slot, item.seg) == Jobs(c.plan)[item.chunk][item.seg]
      && (DecodeSlot(c, s, item.slot, item.seg).Some? ==>
            MessageFits(Jobs(c.plan), Result(item.chunk, item.seg, DecodeSlot(c, s, item.slot, item.seg).value), First(s) + |Registry(s)|))
  {
    hide TokensKept, Registry, Holds, Jobs, DecodeSlot;
    var item := s.workers[i].item;
    BusyToken(Jobs(c.plan), s, i);
    assert ItemFits(item, First(s), Registry(s));
    DecodesJob(c, s, item.slot, item.chunk, item.seg);
  }

  lemma WorkerMessages(c: Config, s: State, i: nat, s': State)
    requires WorkerStep(c, s, i) == Some(s')
    requires Registered(c.plan, s.contents, Registry(s), First(s), Announced(s.main, s.chunkId))
    requires TokensKept(Jobs(c.plan), s.main, s.chunkId, s.inFlight, First(s), s.work, s.workers, s.inbox)
    requires ItemsFit(s.work, s.workers, First(s), Registry(s))
    requires MessagesFit(Jobs(c.plan), s.inbox, First(s) + |s.inFlight|)
    ensures MessagesFit(Jobs(c.plan), s'.inbox, First(s) + |s.inFlight|)
  {
    hide TokensKept, Registry, Registered, ItemsFit, LostFit, MessagesFit, MessageFits, Jobs, DecodeSlot, Collect;
    if s.workers[i].Busy? { WorkerSends(c, s, i); }
    if s'.inbox != s.inbox {
      RegistryLength(s);
      MessagePush(Jobs(c.plan), s.inbox, s'.inbox[|s.inbox|], First(s) + |s.inFlight|);
    }
  }

  lemma WorkerLost(c: Config, s: State, i: nat, s': State)
    requires WorkerStep(c, s, i) == Some(s') && LostFit(Jobs(c.plan), s.workers)
    requires Registered(c.plan, s.contents, Registry(s), First(s), Announced(s.main, s.chunkId))
    requires TokensKept(Jobs(c.plan), s.main, s.chunkId, s.inFlight, First(s), s.work, s.workers, s.inbox)
    requires ItemsFit(s.work, s.workers, First(s), Registry(s))
    ensures LostFit(Jobs(c.plan), s'.workers)
  {
    hide TokensKept, Registry, Registered, ItemsFit, MessageFits, Jobs, DecodeSlot;
    if s.workers[i].Busy? { WorkerSends(c, s, i); }
  }

  lemma WorkerOrderly(c: Config, s: State, i: nat, s': State)
    requires WorkerStep(c, s, i) == Some(s') && Bounded(c, s) && Orderly(s) && !s.aborted
    ensures Bounded(c, s') && Orderly(s')
  {
    hide FrontWaits, DecodeSlot;
  }

  lemma WorkerKeeps(c: Config, s: State, i: nat, s': State)
    requires Inv(c, s) && !s.aborted && WorkerStep(c, s, i) == Some(s')
    ensures Inv(c, s')
  {
    hide ReaderFeeds, MainAt, Registered, Registry, PostingLast, MessagesFit, EntriesFit, TokensKept, ItemsFit, LostFit, OutputKept, Orderly, Bounded, DecodeSlot, Occ, Collect;
    WorkerRegistry(c, s, i, s');
    WorkerTokens(c, s, i, s', Jobs(c.plan));
    WorkerItems(c, s, i, s', First(s), Registry(s));
    WorkerMessages(c, s, i, s');
    WorkerLost(c, s, i, s');
    WorkerOrderly(c, s, i, s');
    SamePlaces(s, s');
  }

  /** Steps that move no slot. */
  lemma SamePlaces(s: State, s': State)
    requires SlotsKept(s) && Registry(s) == Registry(s') && s.free == s'.free && s.lost == s'.lost && s.reader == s'.reader
    requires s.filled == s'.filled && MainHand(s.main) == MainHand(s'.main) && CollectorHand(s.collector) == CollectorHand(s'.collector)
    ensures SlotsKept(s')
  {
    hide Registry, Occ, Collect, MainHand, CollectorHand, ReaderHand;
    forall x: nat
      ensures Places(s', x) == Places(s, x)
    {
    }
  }

  // ---------------------------------------------------------------------------------------------
  // The writer
  // ---------------------------------------------------------------------------------------------

  lemma WriterSent(s: State, s': State, pending: seq<Option<Bytes>>)
    requires WriterStep(s) == Some(s')
    ensures Sent(s'.written, s'.toWriter, pending) == Sent(s.written, s.toWriter, pending)
  {
    hide Collect;
    if s.toWriter != [] {
      CollectPop(s.toWriter, Whole);
      assert s.written + (s.toWriter[0] + Flatten(s'.toWriter)) == (s.written + s.toWriter[0]) + Flatten(s'.toWriter);
    }
  }

  lemma WriterKeeps(c: Config, s: State, s': State)
    requires Inv(c, s) && !s.aborted && WriterStep(s) == Some(s')
    ensures Inv(c, s')
  {
    hide ReaderFeeds, MainAt, Registered, Registry, PostingLast, MessagesFit, EntriesFit, TokensKept, ItemsFit, LostFit, OutputKept, Sent, Occ, Collect;
    WriterSent(s, s', PendingOf(s.collector));
    RegistryOf(s, s');
    SamePlaces(s, s');
  }

  // ---------------------------------------------------------------------------------------------
  // The collector: messages
  // ---------------------------------------------------------------------------------------------

  lemma PopPrefix<T>(q: seq<T>, j: nat)
    requires 0 < j <= |q|
    ensures q[..j] == [q[0]] + q[1..][..j - 1]
  {
  }

  lemma {:induction false} CollectCons<T, U>(x: T, q: seq<T>, f: T -> seq<U>)
    ensures Collect([x] + q, f) == f(x) + Collect(q, f)
  {
    CollectAppend([x], q, f);
    CollectOne(x, f);
  }

  /** Taking the first message out leaves the others where they are in the order of chunks. */
  lemma MessagePop(jobs: seq<seq<Outcome>>, inbox: seq<Message>, before: nat)
    requires inbox != [] && MessagesFit(jobs, inbox, before)
    ensures MessageFits(jobs, inbox[0], before)
    ensures MessagesFit(jobs, inbox[1..], before + |SlotOfMessage(inbox[0])|)
  {
    hide MessageFits, Collect;
    assert MessageAt(jobs, inbox, before, 0);
    CollectNone(SlotOfMessage);
    assert inbox[..0] == [];
    var rest, later := inbox[1..], before + |SlotOfMessage(inbox[0])|;
    forall j | 0 <= j < |rest|
      ensures MessageAt(jobs, rest, later, j)
    {
      assert MessageAt(jobs, inbox, before, j + 1);
      PopPrefix(inbox, j + 1);
      CollectCons(inbox[0], inbox[1..][..j], SlotOfMessage);
    }
  }

  /** In a registry of consecutive chunks, a result finds its entry at the chunk's distance from the
      first. */
  lemma {:induction false} AppliedAt(fs: seq<InFlight>, first: nat, ch: nat, seg: nat, out: Bytes)
    requires forall i :: 0 <= i < |fs| ==> fs[i].chunk == first + i
    requires first <= ch < first + |fs| && seg < |fs[ch - first].results|
    ensures Applied(fs, ch, seg, out)
         == fs[ch - first := fs[ch - first].(results := fs[ch - first].results[seg := Some(out)], done := fs[ch - first].done + 1)]
    decreases |fs|
  {
    if ch > first {
      assert forall i :: 0 <= i < |fs[1..]| ==> fs[1..][i] == fs[i + 1];
      AppliedAt(fs[1..], first + 1, ch, seg, out);
    }
  }

  lemma EntryChunks(jobs: seq<seq<Outcome>>, fs: seq<InFlight>, first: nat)
    requires EntriesFit(jobs, fs, first)
    ensures first + |fs| <= |jobs|
    ensures forall i :: 0 <= i < |fs| ==> fs[i].chunk == first + i && fs[i].count == |fs[i].results| == |jobs[first + i]|
  {
  }

  /** The result at the head of the collector's channel finds its chunk registered and its place
      empty. */
  lemma HeadResult(jobs: seq<seq<Outcome>>, s: State)
    requires s.inbox != [] && s.inbox[0].Result?
    requires MessagesFit(jobs, s.inbox, First(s) + |s.inFlight|) && EntriesFit(jobs, s.inFlight, First(s))
    requires TokensKept(jobs, s.main, s.chunkId, s.inFlight, First(s), s.work, s.workers, s.inbox)
    ensures var m := s.inbox[0];
      && First(s) <= m.chunk < First(s) + |s.inFlight| && m.chunk < |jobs|
      && m.seg < |s.inFlight[m.chunk - First(s)].results| == |jobs[m.chunk]|
      && s.inFlight[m.chunk - First(s)].results[m.seg].None?
      && jobs[m.chunk][m.seg] == Some(m.out)
  {
    hide MessagesFit, EntriesFit, TokensKept, Occ, Collect;
    var m := s.inbox[0];
    MessagePop(jobs, s.inbox, First(s) + |s.inFlight|);
    EntryChunks(jobs, s.inFlight, First(s));
    OccCollectMember(s.inbox, 0, TokenOfMessage, (m.chunk, m.seg));
    RunningToken(jobs, s, (m.chunk, m.seg));
  }

  lemma {:induction false} SomeCountUpdate<T>(s: seq<Option<T>>, g: nat, x: T)
    requires g < |s| && s[g].None?
    ensures SomeCount(s[g := Some(x)]) == SomeCount(s) + 1
    decreases |s|
  {
    if g > 0 {
      SomeCountUpdate(s[1..], g - 1, x);
      assert s[g := Some(x)][1..] == s[1..][g - 1 := Some(x)];
    } else {
      assert s[g := Some(x)][1..] == s[1..];
    }
  }

  lemma {:induction false} NoneCounted<T>(s: seq<Option<T>>)
    requires forall i :: 0 <= i < |s| ==> s[i].None?
    ensures SomeCount(s) == 0
  {
    if s != [] { NoneCounted(s[1..]); }
  }

  lemma EntryUpdate(e: InFlight, ch: nat, outs: seq<Outcome>, seg: nat)
    requires EntryFits(e, ch, outs) && seg < |outs| && e.results[seg].None? && outs[seg].Some?
    ensures EntryFits(e.(results := e.results[seg := outs[seg]], done := e.done + 1), ch, outs)
  {
    SomeCountUpdate(e.results, seg, outs[seg].value);
  }

  lemma ListenEntries(jobs: seq<seq<Outcome>>, s: State)
    requires s.inbox != [] && MessagesFit(jobs, s.inbox, First(s) + |s.inFlight|) && EntriesFit(jobs, s.inFlight, First(s))
    requires TokensKept(jobs, s.main, s.chunkId, s.inFlight, First(s), s.work, s.workers, s.inbox)
    ensures EntriesFit(jobs, Delivered(s, s.inbox[0]), First(s))
  {
    hide TokensKept, MessagesFit, EntryFits, Applied;
    var m := s.inbox[0];
    MessagePop(jobs, s.inbox, First(s) + |s.inFlight|);
    EntryChunks(jobs, s.inFlight, First(s));
    match m
    case NewSlot(chunk, slot, count) =>
      NewEntry(chunk, slot, jobs[chunk]);
    case Result(chunk, seg, out) =>
      HeadResult(jobs, s);
      AppliedAt(s.inFlight, First(s), chunk, seg, out);
      EntryUpdate(s.inFlight[chunk - First(s)], chunk, jobs[chunk], seg);
  }

  lemma NewEntry(chunk: nat, slot: nat, outs: seq<Outcome>)
    ensures EntryFits(InFlight(chunk, slot, |outs|, seq(|outs|, i => None), 0), chunk, outs)
  {
    NoneCounted<Bytes>(seq(|outs|, i => None));
  }

  /** A message taken in registers at most what it announces: the chunks in flight stay the same. */
  lemma ListenRegistry(jobs: seq<seq<Outcome>>, s: State, s': State)
    requires s.inbox != [] && s.collector.Listening? && ListenStep(s) == Some(s')
    requires MessagesFit(jobs, s.inbox, First(s) + |s.inFlight|) && EntriesFit(jobs, s.inFlight, First(s))
    requires TokensKept(jobs, s.main, s.chunkId, s.inFlight, First(s), s.work, s.workers, s.inbox)
    ensures Registry(s') == Registry(s) && |s'.inFlight| == |s.inFlight| + |SlotOfMessage(s.inbox[0])|
  {
    hide TokensKept, MessagesFit, EntriesFit, Applied, Collect;
    EntryChunks(jobs, s.inFlight, First(s));
    CollectPop(s.inbox, SlotOfMessage);
    match s.inbox[0]
    case NewSlot(chunk, slot, count) =>
      CollectPush(s.inFlight, s'.inFlight[|s.inFlight|], SlotOfEntry);
      assert (Collect(s.inFlight, SlotOfEntry) + [slot]) + Collect(s'.inbox, SlotOfMessage)
          == Collect(s.inFlight, SlotOfEntry) + ([slot] + Collect(s'.inbox, SlotOfMessage));
    case Result(chunk, seg, out) =>
      HeadResult(jobs, s);
      AppliedAt(s.inFlight, First(s), chunk, seg, out);
      EntriesLength(s.inFlight);
      EntriesLength(s'.inFlight);
      assert Collect(s'.inFlight, SlotOfEntry) == Collect(s.inFlight, SlotOfEntry);
      assert [] + Collect(s'.inbox, SlotOfMessage) == Collect(s'.inbox, SlotOfMessage);
  }

  /** What is received after a message: what was before, and the result it brought. */
  lemma ReceivedAfter(jobs: seq<seq<Outcome>>, s: State, t: Token)
    requires s.inbox != [] && MessagesFit(jobs, s.inbox, First(s) + |s.inFlight|) && EntriesFit(jobs, s.inFlight, First(s))
    requires TokensKept(jobs, s.main, s.chunkId, s.inFlight, First(s), s.work, s.workers, s.inbox)
    ensures Received(Delivered(s, s.inbox[0]), First(s), t) <==> Received(s.inFlight, First(s), t) || t in TokenOfMessage(s.inbox[0])
    ensures t in TokenOfMessage(s.inbox[0]) ==> !Received(s.inFlight, First(s), t)
  {
    hide TokensKept, MessagesFit, EntriesFit, Applied;
    EntryChunks(jobs, s.inFlight, First(s));
    match s.inbox[0]
    case NewSlot(chunk, slot, count) =>
    case Result(chunk, seg, out) =>
      HeadResult(jobs, s);
      AppliedAt(s.inFlight, First(s), chunk, seg, out);
  }

  lemma ListenTokens(jobs: seq<seq<Outcome>>, s: State, s': State)
    requires s.inbox != [] && s.collector.Listening? && ListenStep(s) == Some(s')
    requires MessagesFit(jobs, s.inbox, First(s) + |s.inFlight|) && EntriesFit(jobs, s.inFlight, First(s))
    requires TokensKept(jobs, s.main, s.chunkId, s.inFlight, First(s), s.work, s.workers, s.inbox)
    ensures TokensKept(jobs, s'.main, s'.chunkId, s'.inFlight, First(s'), s'.work, s'.workers, s'.inbox)
  {
    hide MessagesFit, EntriesFit, Delivered, Received, Posted, Collect, Occ;
    forall t: Token
      ensures Running(s'.work, s'.workers, s'.inbox, t) ==
        if Posted(jobs, s'.main, s'.chunkId, t) && !Received(s'.inFlight, First(s'), t) then 1 else 0
      ensures IsSegment(jobs, t) && Received(s'.inFlight, First(s'), t) ==> Posted(jobs, s'.main, s'.chunkId, t)
    {
      assert Running(s.work, s.workers, s.inbox, t) ==
        if Posted(jobs, s.main, s.chunkId, t) && !Received(s.inFlight, First(s), t) then 1 else 0;
      ReceivedAfter(jobs, s, t);
      OccCollectPop(s.inbox, TokenOfMessage, t);
      OccMessage(s.inbox[0], t);
    }
  }

  lemma OccMessage(m: Message, t: Token)
    ensures Occ(TokenOfMessage(m), t) == if t in TokenOfMessage(m) then 1 else 0
  {
  }

  lemma ListenKeeps(c: Config, s: State, s': State)
    requires Inv(c, s) && !s.aborted && s.collector.Listening? && ListenStep(s) == Some(s')
    ensures Inv(c, s')
  {
    hide ReaderFeeds, MainAt, Registered, Registry, PostingLast, MessagesFit, EntriesFit, TokensKept, ItemsFit, LostFit, OutputKept, Sent, Occ, Collect, Delivered, FrontWaits;
    if s.inbox != [] {
      MessagePop(Jobs(c.plan), s.inbox, First(s) + |s.inFlight|);
      ListenEntries(Jobs(c.plan), s);
      ListenRegistry(Jobs(c.plan), s, s');
      ListenTokens(Jobs(c.plan), s, s');
    } else {
      RegistryOf(s, s');
    }
    SamePlaces(s, s');
  }

  // ---------------------------------------------------------------------------------------------
  // The collector: flushing
  // ---------------------------------------------------------------------------------------------

  /** The search for the next chunk to write finds the front of the chunks in flight. */
  lemma FrontIsNext(jobs: seq<seq<Outcome>>, fs: seq<InFlight>, first: nat)
    requires EntriesFit(jobs, fs, first)
    ensures Position(fs, first) == 0
  {
    hide EntriesFit, Position;
    EntryChunks(jobs, fs, first);
    if fs != [] { assert fs[0].chunk == first; }
  }

  /** A chunk whose results are counted in full has all of them. */
  lemma FrontComplete(jobs: seq<seq<Outcome>>, fs: seq<InFlight>, first: nat)
    requires EntriesFit(jobs, fs, first) && !FrontWaits(fs)
    ensures fs != [] && first < |jobs| && fs[0].results == jobs[first]
    ensures forall g :: 0 <= g < |jobs[first]| ==> jobs[first][g].Some?
  {
    assert EntryFits(fs[0], first + 0, jobs[first + 0]);
    assert SomeCount(fs[0].results) == |fs[0].results|;
  }

  /** Flushing takes the front of the registry. */
  lemma FlushRegistry(s: State, s': State)
    requires s.inFlight != [] && s'.inFlight == s.inFlight[1..] && s'.inbox == s.inbox
    ensures Registry(s) == [s.inFlight[0].slot] + Registry(s')
  {
    CollectPop(s.inFlight, SlotOfEntry);
  }

  lemma FlushTokens(jobs: seq<seq<Outcome>>, s: State, s': State, first: nat)
    requires EntriesFit(jobs, s.inFlight, first) && !FrontWaits(s.inFlight)
    requires s'.inFlight == s.inFlight[1..]
    requires TokensKept(jobs, s.main, s.chunkId, s.inFlight, first, s.work, s.workers, s.inbox)
    ensures TokensKept(jobs, s.main, s.chunkId, s'.inFlight, first + 1, s.work, s.workers, s.inbox)
  {
    hide EntriesFit, Running, FrontWaits;
    FrontComplete(jobs, s.inFlight, first);
    EntryChunks(jobs, s.inFlight, first);
    forall t: Token | IsSegment(jobs, t)
      ensures Received(s'.inFlight, first + 1, t) <==> Received(s.inFlight, first, t)
    {
    }
  }

  lemma WorkToken(jobs: seq<seq<Outcome>>, s: State, i: nat)
    requires TokensKept(jobs, s.main, s.chunkId, s.inFlight, First(s), s.work, s.workers, s.inbox)
    requires i < |s.work|
    ensures IsSegment(jobs, (s.work[i].chunk, s.work[i].seg)) && !Received(s.inFlight, First(s), (s.work[i].chunk, s.work[i].seg))
  {
    hide Occ, Collect, TokensKept, Received, Posted;
    var t := (s.work[i].chunk, s.work[i].seg);
    OccCollectMember(s.work, i, TokenOfItem, t);
    RunningToken(jobs, s, t);
  }

  lemma BusyNotReceived(jobs: seq<seq<Outcome>>, s: State, i: nat)
    requires TokensKept(jobs, s.main, s.chunkId, s.inFlight, First(s), s.work, s.workers, s.inbox)
    requires i < |s.workers| && (s.workers[i].Busy? || s.workers[i].Lost?)
    ensures var t := (s.workers[i].item.chunk, s.workers[i].item.seg); IsSegment(jobs, t) && !Received(s.inFlight, First(s), t)
  {
    hide Occ, Collect, TokensKept, Received, Posted;
    var t := (s.workers[i].item.chunk, s.workers[i].item.seg);
    OccCollectMember(s.workers, i, TokenOfWorker, t);
    RunningToken(jobs, s, t);
  }

  /** No item refers to a complete chunk. */
  lemma FlushItems(jobs: seq<seq<Outcome>>, s: State, registry: seq<nat>, slot: nat)
    requires EntriesFit(jobs, s.inFlight, First(s)) && !FrontWaits(s.inFlight)
    requires TokensKept(jobs, s.main, s.chunkId, s.inFlight, First(s), s.work, s.workers, s.inbox)
    requires ItemsFit(s.work, s.workers, First(s), [slot] + registry)
    ensures ItemsFit(s.work, s.workers, First(s) + 1, registry)
  {
    hide EntriesFit, TokensKept, FrontWaits;
    FrontComplete(jobs, s.inFlight, First(s));
    forall i | 0 <= i < |s.work|
      ensures ItemFits(s.work[i], First(s) + 1, registry)
    {
      assert ItemFits(s.work[i], First(s), [slot] + registry);
      WorkToken(jobs, s, i);
    }
    forall i | 0 <= i < |s.workers| && (s.workers[i].Busy? || s.workers[i].Lost?)
      ensures ItemFits(s.workers[i].item, First(s) + 1, registry)
    {
      assert ItemFits(s.workers[i].item, First(s), [slot] + registry);
      BusyNotReceived(jobs, s, i);
    }
  }

  /** The chunk being posted is not complete. */
  lemma FlushPosting(c: Config, s: State, registry: seq<nat>, slot: nat)
    requires MainAt(c.plan, s.contents, s.main, s.taken, s.chunkId) && PostingLast(s.main, [slot] + registry)
    requires First(s) + 1 + |registry| == Announced(s.main, s.chunkId)
    requires EntriesFit(Jobs(c.plan), s.inFlight, First(s)) && !FrontWaits(s.inFlight)
    requires TokensKept(Jobs(c.plan), s.main, s.chunkId, s.inFlight, First(s), s.work, s.workers, s.inbox)
    ensures PostingLast(s.main, registry)
  {
    hide EntriesFit, FrontWaits, Running, Jobs, JobsBefore;
    FrontComplete(Jobs(c.plan), s.inFlight, First(s));
    if s.main.Posting? && s.main.seg < s.main.count && registry == [] {
      JobsStep(c.plan, s.taken - 1);
      FrontPosted(Jobs(c.plan), s, s.main.seg);
    }
  }

  /** All segments of a complete chunk are posted. */
  lemma FrontPosted(jobs: seq<seq<Outcome>>, s: State, g: nat)
    requires EntriesFit(jobs, s.inFlight, First(s)) && !FrontWaits(s.inFlight)
    requires TokensKept(jobs, s.main, s.chunkId, s.inFlight, First(s), s.work, s.workers, s.inbox)
    requires First(s) < |jobs| && g < |jobs[First(s)]|
    ensures Posted(jobs, s.main, s.chunkId, (First(s), g))
  {
    hide EntriesFit, FrontWaits, Running;
    FrontComplete(jobs, s.inFlight, First(s));
    var t := (First(s), g);
    assert IsSegment(jobs, t) && Received(s.inFlight, First(s), t);
  }

  lemma FlushEntries(jobs: seq<seq<Outcome>>, fs: seq<InFlight>, first: nat)
    requires EntriesFit(jobs, fs, first) && fs != []
    ensures EntriesFit(jobs, fs[1..], first + 1)
  {
    hide EntryFits;
    var rest := fs[1..];
    forall i | 0 <= i < |rest|
      ensures EntryFits(rest[i], first + 1 + i, jobs[first + 1 + i])
    {
      assert EntryFits(fs[i + 1], first + (i + 1), jobs[first + (i + 1)]);
    }
  }

  lemma FlushRegistered(plan: Plan, contents: map<nat, nat>, slot: nat, registry: seq<nat>, first: nat, announced: nat)
    requires Registered(plan, contents, [slot] + registry, first, announced)
    ensures Registered(plan, contents, registry, first + 1, announced)
  {
    hide Holds, Jobs;
    forall i | 0 <= i < |registry|
      ensures Holds(plan, contents, registry[i], first + 1 + i)
    {
      assert ([slot] + registry)[i + 1] == registry[i];
      assert Holds(plan, contents, ([slot] + registry)[i + 1], first + (i + 1));
    }
  }

  /** The outputs of a complete chunk are the next part of the output. */
  lemma FlatStep(jobs: seq<seq<Outcome>>, k: nat)
    requires k < |jobs|
    ensures Flat(jobs[..k + 1]) == Flat(jobs[..k]) + Joined(jobs[k])
  {
    assert jobs[..k + 1] == jobs[..k] + [jobs[k]];
    CollectPush(jobs[..k], jobs[k], Joined);
  }

  lemma FlushOutput(jobs: seq<seq<Outcome>>, s: State, first: nat)
    requires EntriesFit(jobs, s.inFlight, first) && !FrontWaits(s.inFlight)
    requires OutputKept(jobs, first, Sent(s.written, s.toWriter, []))
    ensures OutputKept(jobs, first + 1, Sent(s.written, s.toWriter, s.inFlight[0].results))
  {
    hide EntriesFit, FrontWaits, Flat;
    FrontComplete(jobs, s.inFlight, first);
    FlatStep(jobs, first);
    CollectNone(Present);
    SentWith(s.written, s.toWriter, s.inFlight[0].results);
  }

  lemma SentWith(written: Bytes, toWriter: seq<Bytes>, pending: seq<Option<Bytes>>)
    ensures Sent(written, toWriter, pending) == Sent(written, toWriter, []) + Collect(pending, Present)
  {
    CollectNone(Present);
    var sent := written + Flatten(toWriter);
    assert sent + [] == sent;
  }

  lemma FlushSlots(s: State, s': State)
    requires SlotsKept(s) && s.inFlight != [] && Registry(s) == [s.inFlight[0].slot] + Registry(s')
    requires s.collector.Flushing? && s'.collector.Writing? && s'.collector.slot == s.inFlight[0].slot
    requires s.free == s'.free && s.lost == s'.lost && s.reader == s'.reader && s.filled == s'.filled && s.main == s'.main
    ensures SlotsKept(s')
  {
    hide Registry, Occ, Collect, MainHand, ReaderHand;
    forall x: nat
      ensures Places(s', x) == Places(s, x)
    {
      OccNone<nat>(x);
      OccConcat([s.inFlight[0].slot], Registry(s'), x);
    }
  }

  lemma FlushKeeps(c: Config, s: State, s': State)
    requires Inv(c, s) && !s.aborted && s.collector.Flushing? && s' == FlushStep(s, s.collector.closing)
    ensures Inv(c, s')
  {
    hide ReaderFeeds, MainAt, Registered, Registry, PostingLast, MessagesFit, EntriesFit, TokensKept, ItemsFit, LostFit, OutputKept, Sent, Occ, Collect, SlotsKept;
    FrontIsNext(Jobs(c.plan), s.inFlight, First(s));
    if FrontWaits(s.inFlight) {
      RegistryOf(s, s');
      SamePlaces(s, s');
    } else {
      assert s.inFlight[..0] + s.inFlight[0 + 1..] == s.inFlight[1..];
      var slot, registry := s.inFlight[0].slot, Registry(s');
      FlushRegistry(s, s');
      RegisteredLength(c.plan, s.contents, Registry(s), First(s), Announced(s.main, s.chunkId));
      FlushSlots(s, s');
      FlushTokens(Jobs(c.plan), s, s', First(s));
      FlushItems(Jobs(c.plan), s, registry, slot);
      FlushPosting(c, s, registry, slot);
      FlushEntries(Jobs(c.plan), s.inFlight, First(s));
      FlushRegistered(c.plan, s.contents, slot, registry, First(s), Announced(s.main, s.chunkId));
      FlushOutput(Jobs(c.plan), s, First(s));
    }
  }

  lemma WriteSent(s: State, s': State)
    requires s.collector.Writing? && WriteStep(s, s.collector.slot, s.collector.pending, s.collector.closing) == Some(s')
    ensures Sent(s'.written, s'.toWriter, PendingOf(s'.collector)) == Sent(s.written, s.toWriter, PendingOf(s.collector))
  {
    hide Collect;
    var pending := s.collector.pending;
    if pending != [] {
      CollectPop(pending, Present);
      var rest := Collect(pending[1..], Present);
      assert [] + rest == rest;
      if pending[0].Some? && pending[0].value != [] {
        CollectPush(s.toWriter, pending[0].value, Whole);
        assert s.written + (Flatten(s.toWriter) + pending[0].value) + rest
            == s.written + Flatten(s.toWriter) + (pending[0].value + rest);
      }
    }
  }

  lemma WriteKeeps(c: Config, s: State, s': State)
    requires Inv(c, s) && !s.aborted && s.collector.Writing?
    requires WriteStep(s, s.collector.slot, s.collector.pending, s.collector.closing) == Some(s')
    ensures Inv(c, s')
  {
    hide ReaderFeeds, MainAt, Registered, Registry, PostingLast, MessagesFit, EntriesFit, TokensKept, ItemsFit, LostFit, OutputKept, Sent, Occ, Collect, FrontWaits, SlotsKept;
    WriteSent(s, s');
    RegistryOf(s, s');
    SamePlaces(s, s');
  }

  lemma RecycleSlots(s: State, s': State)
    requires SlotsKept(s) && s.collector.Recycling? && RecycleStep(s, s.collector.slot, s.collector.closing) == Some(s')
    ensures SlotsKept(s')
  {
    hide Occ, Collect, Registry, MainHand, ReaderHand;
    var slot := s.collector.slot;
    var mid := Return(s, slot).value;
    ReturnSlots(s, slot, mid);
    RegistryOf(s, s');
    forall x: nat
      ensures Places(s', x) + Occ(s'.lost, x) == Places(s, x) + Occ(s.lost, x)
    {
      OccNone<nat>(x);
      OccOne(slot, x);
    }
  }

  lemma RecycleKeeps(c: Config, s: State, s': State)
    requires Inv(c, s) && !s.aborted && s.collector.Recycling?
    requires RecycleStep(s, s.collector.slot, s.collector.closing) == Some(s')
    ensures Inv(c, s')
  {
    hide ReaderFeeds, MainAt, Registered, Registry, PostingLast, MessagesFit, EntriesFit, TokensKept, ItemsFit, LostFit, OutputKept, Sent, Occ, Collect, FrontWaits, SlotsKept;
    RecycleSlots(s, s');
    RegistryOf(s, s');
  }

  // ---------------------------------------------------------------------------------------------
  // All threads
  // ---------------------------------------------------------------------------------------------

  /** Every step of every thread keeps the invariant. */
  lemma StepKeeps(c: Config, s: State, t: Thread, s': State)
    requires Inv(c, s) && Fire(c, s, t) == Some(s')
    ensures Inv(c, s')
  {
    hide Inv, ReaderStep, MainStep, WorkerStep, WriterStep, ListenStep, FlushStep, WriteStep, RecycleStep;
    match t
    case TheReader => ReaderKeeps(c, s, s');
    case TheMain => MainKeeps(c, s, s');
    case AWorker(i) => WorkerKeeps(c, s, i, s');
    case TheWriter => WriterKeeps(c, s, s');
    case TheCollector =>
      match s.collector
      case Listening => ListenKeeps(c, s, s');
      case Flushing(_) => FlushKeeps(c, s, s');
      case Writing(_, _, _) => WriteKeeps(c, s, s');
      case Recycling(_, _) => RecycleKeeps(c, s, s');
      case CollectorDone =>
  }

  /** Every reachable state satisfies the invariant. */
  lemma {:induction false} RunKeeps(c: Config, s: State, ts: seq<Thread>, s': State)
    requires Inv(c, s) && Run(c, s, ts) == Some(s')
    ensures Inv(c, s')
    decreases |ts|
  {
    hide Inv, Fire;
    if ts != [] {
      StepKeeps(c, s, ts[0], Fire(c, s, ts[0]).value);
      RunKeeps(c, Fire(c, s, ts[0]).value, ts[1..], s');
    }
  }
}
