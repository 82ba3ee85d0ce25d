/** The whole of `lbunzip2` (`src/bin/lbunzip2.rs`): the pipeline at work on the chunks of a file. */
module Lbunzip2 {
  import opened Wrappers
  import opened Bits
  import opened Lists
  import opened ChunkTheory
  import opened ChunkedTheory
  import opened StreamTheory
  import opened ScanTheory
  import opened CarryTheory
  import opened OrdinaryFiles
  import MultiStream
  import Pipeline
  import PipelineInvariant
  import PipelineTheory
  import PipelineHang

  /** What a worker meets: the output, or a panic when a block overflows its buffer. */
  function OutcomeOf(d: Decoded): Pipeline.Outcome
  {
    if d.Segment? then Some(d.out) else None
  }

  function Outcomes(ds: seq<Decoded>): (outs: seq<Pipeline.Outcome>)
    ensures |outs| == |ds| && forall j :: 0 <= j < |ds| ==> outs[j] == OutcomeOf(ds[j])
  {
    seq(|ds|, j requires 0 <= j < |ds| => OutcomeOf(ds[j]))
  }

  function GivenBy(t: Turn): Option<seq<Pipeline.Outcome>>
  {
    if t.Worked? then Some(Outcomes(t.outs)) else None
  }

  /** The chunks as the pipeline sees them. */
  function PlanOf(cs: seq<Turn>): (plan: Pipeline.Plan)
    ensures |plan| == |cs|
    ensures forall i :: 0 <= i < |cs| ==> plan[i] == GivenBy(cs[i])
  {
    seq(|cs|, i requires 0 <= i < |cs| => GivenBy(cs[i]))
  }

  lemma {:induction false} JoinedSegments(ds: seq<Decoded>)
    ensures Joined(ds).Segment? <==> PipelineTheory.AllDecode(Outcomes(ds))
    ensures Joined(ds).Segment? ==> Joined(ds) == Segment(Pipeline.Joined(Outcomes(ds)))
    decreases |ds|
  {
    if ds != [] {
      JoinedSegments(ds[1..]);
      assert Outcomes(ds)[0] == OutcomeOf(ds[0]) && Outcomes(ds)[1..] == Outcomes(ds[1..]);
      assert Outcomes(ds) == [OutcomeOf(ds[0])] + Outcomes(ds[1..]);
    }
  }

  /** Joining the chunks gives bytes exactly when all carries fit and no segment panics, and then the
      output that the pipeline is to write. */
  lemma {:induction false} JoinedIsExpected(cs: seq<Turn>)
    ensures JoinedChunks(cs).Segment? <==> AllFit(cs) && PipelineTheory.NoPanic(PlanOf(cs))
    ensures JoinedChunks(cs).Segment? ==> JoinedChunks(cs) == Segment(Pipeline.Expected(PlanOf(cs)))
    decreases |cs|
  {
    hide PipelineTheory.AllDecode, Joined, Pipeline.Joined, Outcomes, Pipeline.Expected, AllFit, PipelineTheory.NoPanic;
    if cs != [] {
      JoinedIsExpected(cs[1..]);
      assert PlanOf(cs)[1..] == PlanOf(cs[1..]);
      assert PlanOf(cs) == [PlanOf(cs)[0]] + PlanOf(cs[1..]);
      assert cs == [cs[0]] + cs[1..];
      AllFitTail(cs[0], cs[1..]);
      NoPanicCons(PlanOf(cs)[0], PlanOf(cs[1..]));
      if cs[0].Worked? { JoinedSegments(cs[0].outs); }
      ExpectedCons(PlanOf(cs));
    } else {
      NothingExpected();
      NothingTooLong();
    }
  }

  lemma NoPanicCons(o: Option<seq<Pipeline.Outcome>>, plan: Pipeline.Plan)
    ensures PipelineTheory.NoPanic([o] + plan) <==> (o.Some? ==> PipelineTheory.AllDecode(o.value)) && PipelineTheory.NoPanic(plan)
  {
    hide PipelineTheory.AllDecode;
    var all := [o] + plan;
    if PipelineTheory.NoPanic(all) {
      assert all[0] == o;
      forall k | 0 <= k < |plan| && plan[k].Some?
        ensures PipelineTheory.AllDecode(plan[k].value)
      {
        assert all[k + 1] == plan[k];
      }
    }
  }

  lemma NothingExpected()
    ensures Pipeline.Expected([]) == [] && PipelineTheory.NoPanic([])
  {
  }

  lemma ExpectedCons(plan: Pipeline.Plan)
    requires plan != []
    ensures Pipeline.Expected(plan) == (if plan[0].Some? then Pipeline.Joined(plan[0].value) else []) + Pipeline.Expected(plan[1..])
  {
    hide Collect;
    CollectPop(plan, Pipeline.Given);
    var rest := Pipeline.Jobs(plan[1..]);
    assert [] + rest == rest;
    if plan[0].Some? {
      CollectAppend([plan[0].value], rest, Pipeline.Joined);
      CollectOne(plan[0].value, Pipeline.Joined);
    } else {
      assert [] + Pipeline.Expected(plan[1..]) == Pipeline.Expected(plan[1..]);
    }
  }

  /** How many turns come to an end before a carry that does not fit. */
  function Fitting(cs: seq<Turn>): (k: nat)
    ensures k <= |cs| && AllFit(cs[..k]) && (k < |cs| ==> cs[k].CarryTooLong?) && (k == |cs| <==> AllFit(cs))
  {
    if cs == [] then 0
    else if cs[0].CarryTooLong? then 0
    else
      var k := Fitting(cs[1..]);
      assert cs == [cs[0]] + cs[1..] && cs[..k + 1] == [cs[0]] + cs[1..][..k];
      AllFitTail(cs[0], cs[1..]);
      AllFitTail(cs[0], cs[1..][..k]);
      k + 1
  }

  function Unread(n: int): (plan: Pipeline.Plan)
    ensures |plan| == (if n < 0 then 0 else n) && forall i :: 0 <= i < |plan| ==> plan[i] == None
  {
    seq(if n < 0 then 0 else n, _ => None)
  }

  /** The pipeline on a file that begins with a 4-byte header.  The reader goes on behind a carry that does
      not fit. */
  ghost function Configuration(whole: seq<Byte>, size: nat, n: nat, max: nat, headroom: nat): Pipeline.Config
    requires size >= 1 && |whole| >= 4
  {
    hide AllFit;
    var cs := Turns(whole, size, n, max, headroom);
    Pipeline.Config(n, PlanOf(cs) + Unread(Messages(|whole| - 4, size) - |cs|), Fitting(cs))
  }

  /** What is behind the turns does not matter. */
  lemma NoPanicUnread(plan: Pipeline.Plan, n: int)
    ensures PipelineTheory.NoPanic(plan + Unread(n)) <==> PipelineTheory.NoPanic(plan)
    ensures Unread(0) == [] && plan + [] == plan
  {
    hide PipelineTheory.AllDecode;
    var all := plan + Unread(n);
    if PipelineTheory.NoPanic(all) {
      forall k | 0 <= k < |plan| && plan[k].Some?
        ensures PipelineTheory.AllDecode(plan[k].value)
      {
        assert all[k] == plan[k];
      }
    }
  }

  /** When all carries fit, the pipeline's plan is that of the turns, and no chunk makes the main thread
      panic; and otherwise one does. */
  lemma ConfigurationFits(whole: seq<Byte>, size: nat, n: nat, max: nat, headroom: nat)
    requires size >= 1 && |whole| >= 4
    ensures var c, cs := Configuration(whole, size, n, max, headroom), Turns(whole, size, n, max, headroom);
      && c.plan != [] && c.workers == n
      && (c.failAt >= |c.plan| <==> AllFit(cs))
      && (AllFit(cs) ==> c.plan == PlanOf(cs))
      && (PipelineTheory.NoPanic(c.plan) <==> PipelineTheory.NoPanic(PlanOf(cs)))
  {
    hide AllFit, PipelineTheory.NoPanic, Chunks;
    var cs := Turns(whole, size, n, max, headroom);
    TurnsTaken(whole[..4], whole[4..], size, n, max, headroom);
    NoPanicUnread(PlanOf(cs), Messages(|whole| - 4, size) - |cs|);
  }

  /** Whatever the interleaving, chunk size and number of workers: when every chunk but the last can be
      split at true block starts, and decoding the file in one go meets no overflow, then either all
      carries fit, and the pipeline shuts down with exactly the bytes of decoding the file in one go; or
      one does not, and the process aborts with a beginning of them. */
  lemma PipelineDecodesFile(whole: seq<Byte>, s: nat, size: nat, n: nat, max: nat, headroom: nat, ts: seq<Pipeline.Thread>, end: Pipeline.State)
    requires size >= 1 && n >= 1 && Position(whole, 0, 4, s)
    requires AllSplit(Turns(whole, size, n, max, headroom))
    requires AllVisited(BitsOf(whole), s, ChosenStarts(whole, 0, 4, size, n, max), max)
    requires s <= |BitsOf(whole)| && Walk(BitsOf(whole), s, |BitsOf(whole)|, max).Segment?
    ensures var c := Configuration(whole, size, n, max, headroom);
      Pipeline.Run(c, Pipeline.Start(c), ts) == Some(end) && PipelineTheory.Stuck(c, end) ==>
      Ends(4 <= headroom && CarriesFit(KeptStarts(whole, 0, 4, size, n, max), 4, size, headroom), end, Walk(BitsOf(whole), s, |BitsOf(whole)|, max).out)
  {
    hide BitsOf, Walk, Chunks, AllSplit, AllFit, JoinedChunks, Position, PipelineTheory.Stuck, Pipeline.Run, Pipeline.Final, Pipeline.Expected, PipelineTheory.NoPanic, AllVisited, ChosenStarts, KeptStarts, CarriesFit, Configuration;
    PositionInside(whole, 0, 4, s);
    assert whole[0..4] == whole[..4];
    ChunkedIsWhole(whole, 0, 4, s, size, n, max, headroom);
    var out := Walk(BitsOf(whole), s, |BitsOf(whole)|, max).out;
    var c, cs := Configuration(whole, size, n, max, headroom), Turns(whole, size, n, max, headroom);
    ConfigurationFits(whole, size, n, max, headroom);
    JoinedIsExpected(cs);
    if !AllFit(cs) {
      DecodedBefore(whole, 0, 4, s, size, n, max, headroom, s);
      BeforeTooLong(whole, size, n, max, headroom, out);
    }
    if Pipeline.Run(c, Pipeline.Start(c), ts) == Some(end) && PipelineTheory.Stuck(c, end) {
      PipelineTheory.EveryRunEndsWithTheOutput(c, ts, end);
    }
  }

  /** How the program ends: with the whole output, or by the main thread's panic. */
  predicate Ends(fits: bool, end: Pipeline.State, out: seq<Byte>)
  {
    if fits then Pipeline.Final(end) && !end.aborted && end.written == out
    else end.aborted && !Pipeline.Final(end) && end.written <= out
  }

  /** The turns before a carry that does not fit, as the pipeline sees them. */
  lemma BeforeTooLong(whole: seq<Byte>, size: nat, n: nat, max: nat, headroom: nat, out: seq<Byte>)
    requires size >= 1 && |whole| >= 4 && EndsTooLong(Turns(whole, size, n, max, headroom), out)
    ensures var c := Configuration(whole, size, n, max, headroom);
      && PipelineTheory.NoPanic(c.plan) && c.failAt < |c.plan| && Pipeline.Expected(c.plan[..c.failAt]) <= out
  {
    hide Chunks, AllFit, JoinedChunks, PipelineTheory.NoPanic, Pipeline.Expected;
    var cs := Turns(whole, size, n, max, headroom);
    var k := |cs| - 1;
    ConfigurationFits(whole, size, n, max, headroom);
    LastDoesNotFit(cs);
    JoinedIsExpected(cs[..k]);
    assert PlanOf(cs) == PlanOf(cs[..k]) + Unread(1);
    NoPanicUnread(PlanOf(cs[..k]), 1);
    assert Configuration(whole, size, n, max, headroom).plan[..k] == PlanOf(cs[..k]);
  }

  lemma LastDoesNotFit(cs: seq<Turn>)
    requires cs != [] && AllFit(cs[..|cs| - 1]) && cs[|cs| - 1].CarryTooLong?
    ensures Fitting(cs) == |cs| - 1
  {
    var k := Fitting(cs);
    assert forall i :: 0 <= i < |cs| - 1 ==> cs[..|cs| - 1][i] == cs[i];
  }

  /** For a file of one stream that `decompress` accepts, with chosen starts among the blocks it visits,
      the pipeline writes what `decompress` returns if all carries fit; if one does not, the process aborts
      with a beginning of it. */
  lemma PipelineIsDecompress(whole: seq<Byte>, size: nat, n: nat, max: nat, headroom: nat, ts: seq<Pipeline.Thread>, end: Pipeline.State)
    requires size >= 1 && n >= 1 && |whole| >= 4 && AllSplit(Turns(whole, size, n, max, headroom))
    requires OneStream(whole, max)
    requires ChosenAmong(ChosenStarts(whole, 0, 4, size, n, max), Sequential(BitsOf(whole), 32, max).starts)
    ensures var c := Configuration(whole, size, n, max, headroom);
      Pipeline.Run(c, Pipeline.Start(c), ts) == Some(end) && PipelineTheory.Stuck(c, end) ==>
      Ends(4 <= headroom && CarriesFit(KeptStarts(whole, 0, 4, size, n, max), 4, size, headroom), end, Flatten(Sequential(BitsOf(whole), 32, max).texts))
  {
    hide BitsOf, Chunks, AllSplit, JoinedChunks, PipelineTheory.Stuck, Pipeline.Run, Pipeline.Final, AfterFinal, TextsFit, Flatten, Sequential, ChosenStarts, ChosenAmong, AllVisited, Walk, Position, KeptStarts, CarriesFit, Configuration;
    StreamPosition(whole, max);
    PositionInside(whole, 0, 4, 32);
    ChosenVisited(BitsOf(whole), 32, ChosenStarts(whole, 0, 4, size, n, max), max);
    WholeStream(whole, max);
    PipelineDecodesFile(whole, 32, size, n, max, headroom, ts, end);
  }

  /** A file of one stream that `decompress` accepts, with texts that fit the block buffers. */
  ghost predicate OneStream(whole: seq<Byte>, max: nat)
  {
    && |whole| >= 4
    && Sequential(BitsOf(whole), 32, max).Blocks? && Sequential(BitsOf(whole), 32, max).starts != []
    && TextsFit(Sequential(BitsOf(whole), 32, max).texts, max)
    && AfterFinal(BitsOf(whole), EndMarker(BitsOf(whole), 32, max)).Stop?
  }

  lemma WholeStream(whole: seq<Byte>, max: nat)
    requires OneStream(whole, max)
    ensures 32 <= |BitsOf(whole)|
    ensures Walk(BitsOf(whole), 32, |BitsOf(whole)|, max) == Segment(Flatten(Sequential(BitsOf(whole), 32, max).texts))
  {
    hide BitsOf, Walk, TextsFit, Flatten, Sequential, AfterFinal;
    WalkIsSequential(BitsOf(whole), 32, max);
    WalkAtEnd(BitsOf(whole), 32, max);
    var out := Flatten(Sequential(BitsOf(whole), 32, max).texts);
    assert out + [] == out;
  }

  /** For a file of several streams, split at true block starts, the pipeline writes the texts of all of them
      if all carries fit; if one does not, the process aborts with a beginning of them. */
  lemma PipelineDecodesStreams(ms: seq<MultiStream.Member>, tail: seq<Byte>, size: nat, n: nat, headroom: nat,
                               ts: seq<Pipeline.Thread>, end: Pipeline.State)
    requires size >= 1 && n >= 1 && ms != [] && ms[0].level <= 9 && ms[0].plans != []
    requires MultiStream.ValidMembers(ms, 100_000 * ms[0].level) && MultiStream.MembersFit(ms, 100_000 * ms[0].level)
    requires !MultiStream.HeaderFollows(tail)
    requires var whole, max := MultiStream.Joined(ms, 100_000 * ms[0].level) + tail, 100_000 * ms[0].level;
      && |whole| >= 4 && 32 <= |BitsOf(whole)|
      && AllSplit(Turns(whole, size, n, max, headroom))
      && AllVisited(BitsOf(whole), 32, ChosenStarts(whole, 0, 4, size, n, max), max)
    ensures var whole, max := MultiStream.Joined(ms, 100_000 * ms[0].level) + tail, 100_000 * ms[0].level;
      var c := Configuration(whole, size, n, max, headroom);
      Pipeline.Run(c, Pipeline.Start(c), ts) == Some(end) && PipelineTheory.Stuck(c, end) ==>
      Ends(4 <= headroom && CarriesFit(KeptStarts(whole, 0, 4, size, n, max), 4, size, headroom), end, MultiStream.AllText(ms))
  {
    hide BitsOf, Chunks, AllSplit, PipelineTheory.Stuck, Pipeline.Run, Pipeline.Final, ChosenStarts, AllVisited, Walk, Position, KeptStarts, CarriesFit, Configuration,
      MultiStream.Joined, MultiStream.ValidMembers, MultiStream.MembersFit, MultiStream.AllText, MultiStream.HeaderFollows;
    var max := 100_000 * ms[0].level;
    MultiStream.StreamsInverse(ms, tail);
    MultiStream.StreamsPosition(ms, tail);
    PipelineDecodesFile(MultiStream.Joined(ms, max) + tail, 32, size, n, max, headroom, ts, end);
  }

  /** The program as it is shipped on a file of one stream, with blocks at most 1 MiB apart: with 2 to 6 workers
      every interleaving aborts if the file is longer than a chunk, and with 8 to 199 every interleaving
      ends with the output. */
  lemma ShippedPipeline(whole: seq<Byte>, n: nat, max: nat, d: nat, ts: seq<Pipeline.Thread>, end: Pipeline.State)
    requires Ordinary(whole, max, d) && 1 <= d <= MIB && OneStream(whole, max)
    requires (2 <= n <= 6 && 4 + CHUNK_SIZE <= |whole|) || 8 <= n <= 199
    requires ChosenAmong(ChosenStarts(whole, 0, 4, CHUNK_SIZE, n, max), Sequential(BitsOf(whole), 32, max).starts)
    ensures var c := Configuration(whole, CHUNK_SIZE, n, max, CARRY_HEADROOM);
      Pipeline.Run(c, Pipeline.Start(c), ts) == Some(end) && PipelineTheory.Stuck(c, end) ==>
      Ends(n >= 8, end, Flatten(Sequential(BitsOf(whole), 32, max).texts))
  {
    hide BitsOf, Chunks, AllSplit, AllFit, PipelineTheory.Stuck, Pipeline.Run, Pipeline.Final, AfterFinal, TextsFit, Flatten, Sequential, ChosenStarts, ChosenAmong, KeptStarts, CarriesFit, Configuration, Ordinary, Position;
    ShippedHeadroom(whole, n, max, d);
    OneTooLong(Turns(whole, CHUNK_SIZE, n, max, CARRY_HEADROOM));
    StreamPosition(whole, max);
    assert whole[0..4] == whole[..4];
    AllFitIff(whole, 0, 4, 32, CHUNK_SIZE, n, max, CARRY_HEADROOM);
    PipelineIsDecompress(whole, CHUNK_SIZE, n, max, CARRY_HEADROOM, ts, end);
  }

  lemma OneTooLong(cs: seq<Turn>)
    ensures |cs| == 2 && cs[1].CarryTooLong? ==> !AllFit(cs)
  {
  }

  /** Blocks that overflow their buffers, in fewer segments of a file than there are workers, the first of
      them in chunk `k`: every interleaving ends in a state where no thread can move.  It is a hang, neither
      shut down nor aborted, exactly when six split chunks from `k` on come before the last chunk, or before
      the one whose carry does not fit; otherwise the process aborts.  In both cases nothing is written of
      chunk `k` or behind it. */
  lemma OverflowHangs(whole: seq<Byte>, size: nat, n: nat, max: nat, headroom: nat, k: nat, g: nat, S: set<PipelineInvariant.Token>,
                      ts: seq<Pipeline.Thread>, end: Pipeline.State)
    requires size >= 1 && |whole| >= 4
    requires var c, cs := Configuration(whole, size, n, max, headroom), Turns(whole, size, n, max, headroom);
      && k < |cs| && cs[k].Worked? && g < |cs[k].outs| && cs[k].outs[g].Panic?
      && PipelineTheory.NoPanic(PlanOf(cs[..k]))
      && PipelineHang.PanicsWithin(Pipeline.Jobs(c.plan), S) && |S| < n
    ensures var c, cs := Configuration(whole, size, n, max, headroom), Turns(whole, size, n, max, headroom);
      Pipeline.Run(c, Pipeline.Start(c), ts) == Some(end) && PipelineTheory.Stuck(c, end) ==>
      && |ts| <= PipelineTheory.Bound(c)
      && (!Pipeline.Final(end) && !end.aborted <==> PipelineHang.Starves(c, k))
      && (end.aborted <==> !PipelineHang.Starves(c, k))
      && end.written <= Pipeline.Expected(PlanOf(cs[..k]))
  {
    hide Chunks, AllFit, PipelineTheory.Stuck, Pipeline.Run, Pipeline.Final, PipelineTheory.Bound, PipelineTheory.NoPanic, PipelineHang.HoldsAllSlots, PipelineHang.PanicsWithin, Pipeline.Jobs, PipelineInvariant.JobsBefore, Pipeline.Expected;
    var c, cs := Configuration(whole, size, n, max, headroom), Turns(whole, size, n, max, headroom);
    ConfigurationFits(whole, size, n, max, headroom);
    assert c.plan[..k] == PlanOf(cs[..k]);
    if Pipeline.Run(c, Pipeline.Start(c), ts) == Some(end) && PipelineTheory.Stuck(c, end) {
      PipelineHang.HangsIff(c, ts, end, k, g, S);
    }
  }
}
