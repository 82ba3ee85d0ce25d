/** The threads of `lbunzip2` (`src/bin/lbunzip2.rs`): a reader, the main thread, the workers, the
    collector and the writer, joined by bounded channels.

    A labelled transition system in which the label names the thread that moves.  Every thread is
    sequential, so a thread's next step is a function of the state; a step is one channel operation
    or a piece of work between two of them.  A receive from an empty channel and a send on a full one
    block; a receive fails only when the channel is empty and all its senders are gone.  The slots are
    numbered buffers whose contents change when the reader fills them.

    A worker whose segment overflows its block buffer panics: its thread ends and its result never
    comes.  The main thread panics, and the process ends with it, when it posts work and all workers have
    ended so, when it joins a worker that has, or when the carry does not fit the room in front of the
    chunk it has received. */
module Pipeline {
  import opened Wrappers
  import opened Bits
  import opened Lists

  const SLOTS: nat := 6

  type Bytes = seq<Byte>

  /** What decoding a segment comes to: its output, or a panic that ends the worker. */
  type Outcome = Option<Bytes>

  /** What `split_chunk` and `decode_segment` make of each chunk of the file, in reading order: the
      outcomes of its segments, or nothing when the chunk is not split. */
  type Plan = seq<Option<seq<Outcome>>>

  /** The number of workers, what becomes of the chunks, and in front of which chunk the carry does not
      fit: none if the number is not one of a chunk.  Behind that one the plan does not matter. */
  datatype Config = Config(workers: nat, plan: Plan, failAt: nat)

  datatype Filled = Filled(slot: nat, last: bool)

  datatype Item = Item(chunk: nat, seg: nat, slot: nat)

  datatype Message = NewSlot(chunk: nat, slot: nat, count: nat) | Result(chunk: nat, seg: nat, out: Bytes)

  datatype InFlight = InFlight(chunk: nat, slot: nat, count: nat, results: seq<Option<Bytes>>, done: nat)

  datatype Reader = Receiving | Sending(slot: nat) | ReaderDone

  datatype Main =
    | Waiting
    | Returning(slot: nat, last: bool)
    | Announcing(slot: nat, last: bool, count: nat)
    | Posting(slot: nat, last: bool, count: nat, seg: nat)
    | MainDone

  datatype Worker = Idle | Busy(item: Item) | Lost(item: Item) | Stopped

  datatype Collector =
    | Listening
    | Flushing(closing: bool)
    | Writing(slot: nat, pending: seq<Option<Bytes>>, closing: bool)
    | Recycling(slot: nat, closing: bool)
    | CollectorDone

  datatype State = State(
    contents: map<nat, nat>,        // which chunk of the file each slot holds
    free: seq<nat>,                 // the slot return channel
    lost: seq<nat>,                 // slots dropped because the reader is gone
    reader: Reader,
    read: nat,                      // chunks the reader has passed on
    filled: seq<Filled>,
    main: Main,
    taken: nat,                     // chunks the main thread has received
    chunkId: nat,
    work: seq<Item>,
    workers: seq<Worker>,
    inbox: seq<Message>,            // the collector's channel
    collector: Collector,
    inFlight: seq<InFlight>,
    nextWrite: nat,
    toWriter: seq<Bytes>,
    writerDone: bool,
    written: Bytes,
    aborted: bool)                  // the main thread has panicked, and the process with it

  datatype Thread = TheReader | TheMain | AWorker(i: nat) | TheCollector | TheWriter

  function Start(c: Config): State
  {
    State(map[], [0, 1, 2, 3, 4, 5], [], Receiving, 0, [], Waiting, 0, 0, [],
          seq(c.workers, i => Idle), [], Listening, [], 0, [], false, [], false)
  }

  /** All worker threads have ended, regularly or by a panic. */
  predicate AllEnded(ws: seq<Worker>)
  {
    forall i :: 0 <= i < |ws| ==> ws[i].Stopped? || ws[i].Lost?
  }

  predicate Final(s: State)
  {
    s.reader.ReaderDone? && s.main.MainDone? && AllEnded(s.workers) && s.collector.CollectorDone? && s.writerDone
  }

  // ---------------------------------------------------------------------------------------------
  // The reader
  // ---------------------------------------------------------------------------------------------

  /** The reader's end of the return channel goes, and with it whatever lies in the channel. */
  function ReaderExits(s: State, also: seq<nat>): State
  {
    s.(reader := ReaderDone, free := [], lost := s.lost + s.free + also)
  }

  function ReaderStep(c: Config, s: State): Option<State>
  {
    match s.reader
    case Receiving =>
      if s.free != [] then
        var slot := s.free[0];
        Some(s.(free := s.free[1..], contents := s.contents[slot := s.read], reader := Sending(slot)))
      else if s.main.MainDone? && s.collector.CollectorDone? then Some(ReaderExits(s, []))
      else None
    case Sending(slot) =>
      if s.main.MainDone? then Some(ReaderExits(s, [slot]))
      else if |s.filled| < SLOTS then
        var last := s.read + 1 == |c.plan|;
        var sent := s.(filled := s.filled + [Filled(slot, last)], read := s.read + 1);
        Some(if last then ReaderExits(sent, []) else sent.(reader := Receiving))
      else None
    case ReaderDone => None
  }

  /** Sending a slot back: it is lost when the reader is gone, and otherwise waits for room. */
  function Return(s: State, slot: nat): Option<State>
  {
    if s.reader.ReaderDone? then Some(s.(lost := s.lost + [slot]))
    else if |s.free| < SLOTS then Some(s.(free := s.free + [slot]))
    else None
  }

  // ---------------------------------------------------------------------------------------------
  // The main thread
  // ---------------------------------------------------------------------------------------------

  function Next(last: bool): Main
  {
    if last then MainDone else Waiting
  }

  /** What splitting the chunk in a slot comes to. */
  function SplitSlot(c: Config, s: State, slot: nat): Option<seq<Outcome>>
  {
    if slot in s.contents && s.contents[slot] < |c.plan| then c.plan[s.contents[slot]] else None
  }

  function MainStep(c: Config, s: State): Option<State>
  {
    match s.main
    case Waiting =>
      if s.filled != [] && s.taken == c.failAt then Some(s.(aborted := true))
      else if s.filled != [] then
        var m := s.filled[0];
        var split := SplitSlot(c, s, m.slot);
        Some(s.(filled := s.filled[1..], taken := s.taken + 1,
                main := if split.Some? then Announcing(m.slot, m.last, |split.value|) else Returning(m.slot, m.last)))
      else if s.reader.ReaderDone? then Some(s.(main := MainDone))
      else None
    case Returning(slot, last) =>
      (match Return(s, slot)
       case Some(s') => Some(s'.(main := Next(last)))
       case None => None)
    case Announcing(slot, last, count) =>
      if |s.inbox| < 4 * c.workers then
        Some(s.(inbox := s.inbox + [NewSlot(s.chunkId, slot, count)], main := Posting(slot, last, count, 0)))
      else None
    case Posting(slot, last, count, seg) =>
      if seg >= count then Some(s.(chunkId := s.chunkId + 1, main := Next(last)))
      else if AllEnded(s.workers) then Some(s.(aborted := true))
      else if |s.work| < 2 * c.workers then
        Some(s.(work := s.work + [Item(s.chunkId, seg, slot)], main := Posting(slot, last, count, seg + 1)))
      else None
    case MainDone => if JoinFails(s.workers) then Some(s.(aborted := true)) else None
  }

  /** Behind its loop the main thread joins the workers one by one, and the join of a lost one fails. */
  predicate JoinFails(ws: seq<Worker>)
  {
    ws != [] && (ws[0].Lost? || (ws[0].Stopped? && JoinFails(ws[1..])))
  }

  // ---------------------------------------------------------------------------------------------
  // The workers
  // ---------------------------------------------------------------------------------------------

  /** `decode_segment` on the data a slot holds at this moment. */
  function DecodeSlot(c: Config, s: State, slot: nat, seg: nat): Outcome
  {
    var split := SplitSlot(c, s, slot);
    if split.Some? && seg < |split.value| then split.value[seg] else Some([])
  }

  function WorkerStep(c: Config, s: State, i: nat): Option<State>
  {
    if i >= |s.workers| then None
    else
      match s.workers[i]
      case Idle =>
        if s.work != [] then Some(s.(work := s.work[1..], workers := s.workers[i := Busy(s.work[0])]))
        else if s.main.MainDone? then Some(s.(workers := s.workers[i := Stopped]))
        else None
      case Busy(item) =>
        (match DecodeSlot(c, s, item.slot, item.seg)
         case None => Some(s.(workers := s.workers[i := Lost(item)]))
         case Some(out) =>
           if |s.inbox| < 4 * c.workers then
             Some(s.(inbox := s.inbox + [Result(item.chunk, item.seg, out)], workers := s.workers[i := Idle]))
           else None)
      case Lost(_) => None
      case Stopped => None
  }

  // ---------------------------------------------------------------------------------------------
  // The collector and the writer
  // ---------------------------------------------------------------------------------------------

  /** `apply_result`: a result that finds no slot is dropped. */
  function Applied(fs: seq<InFlight>, chunk: nat, seg: nat, out: Bytes): (r: seq<InFlight>)
    ensures |r| == |fs|
  {
    if fs == [] then []
    else if fs[0].chunk == chunk then
      if seg < |fs[0].results| then
        [fs[0].(results := fs[0].results[seg := Some(out)], done := fs[0].done + 1)] + fs[1..]
      else fs
    else [fs[0]] + Applied(fs[1..], chunk, seg, out)
  }

  /** The index of the first entry for a chunk, or the number of entries. */
  function Position(fs: seq<InFlight>, chunk: nat): (i: nat)
    ensures i <= |fs| && (i < |fs| ==> fs[i].chunk == chunk)
    ensures forall j :: 0 <= j < i ==> fs[j].chunk != chunk
  {
    if fs == [] || fs[0].chunk == chunk then 0 else 1 + Position(fs[1..], chunk)
  }

  function Delivered(s: State, m: Message): seq<InFlight>
  {
    match m
    case NewSlot(chunk, slot, count) => s.inFlight + [InFlight(chunk, slot, count, seq(count, i => None), 0)]
    case Result(chunk, seg, out) => Applied(s.inFlight, chunk, seg, out)
  }

  function ListenStep(s: State): Option<State>
  {
    if s.inbox != [] then
      Some(s.(inbox := s.inbox[1..], inFlight := Delivered(s, s.inbox[0]), collector := Flushing(false)))
    else if s.main.MainDone? && AllEnded(s.workers) then Some(s.(collector := Flushing(true)))
    else None
  }

  /** One turn of the loop of `flush_completed`. */
  function FlushStep(s: State, closing: bool): State
  {
    var i := Position(s.inFlight, s.nextWrite);
    if i == |s.inFlight| || s.inFlight[i].done < s.inFlight[i].count then
      s.(collector := if closing then CollectorDone else Listening)
    else
      s.(inFlight := s.inFlight[..i] + s.inFlight[i + 1..],
         collector := Writing(s.inFlight[i].slot, s.inFlight[i].results, closing))
  }

  /** Empty outputs are not sent. */
  function WriteStep(s: State, slot: nat, pending: seq<Option<Bytes>>, closing: bool): Option<State>
  {
    if pending == [] then Some(s.(collector := Recycling(slot, closing)))
    else if pending[0].None? || pending[0].value == [] then Some(s.(collector := Writing(slot, pending[1..], closing)))
    else if |s.toWriter| < SLOTS then
      Some(s.(toWriter := s.toWriter + [pending[0].value], collector := Writing(slot, pending[1..], closing)))
    else None
  }

  function RecycleStep(s: State, slot: nat, closing: bool): Option<State>
  {
    match Return(s, slot)
    case Some(s') => Some(s'.(nextWrite := s'.nextWrite + 1, collector := Flushing(closing)))
    case None => None
  }

  function CollectorStep(s: State): Option<State>
  {
    match s.collector
    case Listening => ListenStep(s)
    case Flushing(closing) => Some(FlushStep(s, closing))
    case Writing(slot, pending, closing) => WriteStep(s, slot, pending, closing)
    case Recycling(slot, closing) => RecycleStep(s, slot, closing)
    case CollectorDone => None
  }

  function WriterStep(s: State): Option<State>
  {
    if s.writerDone then None
    else if s.toWriter != [] then Some(s.(toWriter := s.toWriter[1..], written := s.written + s.toWriter[0]))
    else if s.collector.CollectorDone? then Some(s.(writerDone := true))
    else None
  }

  // ---------------------------------------------------------------------------------------------
  // Runs
  // ---------------------------------------------------------------------------------------------

  /** The step of a thread, if it can move. */
  function Fire(c: Config, s: State, t: Thread): Option<State>
  {
    if s.aborted then None
    else
      match t
      case TheReader => ReaderStep(c, s)
      case TheMain => MainStep(c, s)
      case AWorker(i) => WorkerStep(c, s, i)
      case TheCollector => CollectorStep(s)
      case TheWriter => WriterStep(s)
  }

  /** The state an interleaving leads to, if every thread can move when its turn comes. */
  function Run(c: Config, s: State, ts: seq<Thread>): Option<State>
    decreases |ts|
  {
    if ts == [] then Some(s)
    else
      match Fire(c, s, ts[0])
      case Some(s') => Run(c, s', ts[1..])
      case None => None
  }

  /** What the writer should receive: the outputs of all segments, chunk by chunk and in order. */
  function Expected(plan: Plan): Bytes
  {
    Flat(Jobs(plan))
  }

  /** The chunks that are split; a chunk's position among them is its `chunk_id`. */
  function Jobs(plan: Plan): seq<seq<Outcome>>
  {
    Collect(plan, Given)
  }

  function Flat(jobs: seq<seq<Outcome>>): Bytes
  {
    Collect(jobs, Joined)
  }

  function Joined(outs: seq<Outcome>): Bytes
  {
    Collect(outs, Present)
  }

  function Given(o: Option<seq<Outcome>>): seq<seq<Outcome>>
  {
    if o.Some? then [o.value] else []
  }

  function Present(o: Outcome): Bytes
  {
    if o.Some? then o.value else []
  }
}
