/** `decompress_parallel` (`src/parallel.rs`) with its `par_map` as interleaved workers: whatever the
    interleaving, the results are those of decoding the blocks one by one. */
module ParallelTheory {
  import opened Wrappers
  import opened Bits
  import opened ScanTheory
  import opened BlockSpec
  import opened BlockRoundTrip
  import opened StreamTheory
  import ParMap

  type Slots = seq<Option<Parse<seq<Byte>>>>

  predicate Filled(slots: Slots)
  {
    forall i :: 0 <= i < |slots| ==> slots[i].Some?
  }

  /** The results in slot order: the texts, or the first failure. */
  function Assembled(slots: Slots, starts: seq<nat>): (r: Walked)
    requires |slots| == |starts| && Filled(slots)
    ensures r.Blocks? ==> |r.texts| == |slots|
  {
    if slots == [] then Blocks([], [])
    else
      match slots[0].value
      case Err(e) => Broken(InBlock(e))
      case Oversubscribed => Unmodelled
      case Ok(d, _) =>
        match Assembled(slots[1..], starts[1..])
        case Blocks(texts, _) => Blocks([d] + texts, starts)
        case Broken(e) => Broken(e)
        case Unmodelled => Unmodelled
  }

  /** The workers' function decodes the block at the given index. */
  ghost predicate DecodesBlocks(f: nat -> Parse<seq<Byte>>, bits: Bitstring, starts: seq<nat>, max: nat)
  {
    forall i :: 0 <= i < |starts| ==> starts[i] + 48 <= |bits| && f(i) == AllocBlock(bits, starts[i] + 48, max)
  }

  lemma {:induction false} AssembledIsSeparate(slots: Slots, bits: Bitstring, starts: seq<nat>, max: nat)
    requires |slots| == |starts| && Filled(slots)
    requires forall i :: 0 <= i < |starts| ==> starts[i] + 48 <= |bits| && slots[i].value == AllocBlock(bits, starts[i] + 48, max)
    ensures Assembled(slots, starts) == Separate(bits, starts, max)
    decreases |slots|
  {
    hide AllocBlock;
    if slots != [] { AssembledIsSeparate(slots[1..], bits, starts[1..], max); }
  }

  /** For every interleaving of the workers that has ended, the slots are filled, and in order they are
      what decoding the blocks one after the other gives, failures included. */
  lemma EveryRunDecodesAll(bits: Bitstring, starts: seq<nat>, max: nat, workers: nat, f: nat -> Parse<seq<Byte>>, run: seq<ParMap.State<Parse<seq<Byte>>>>)
    requires DecodesBlocks(f, bits, starts, max)
    requires workers >= 1 && ParMap.IsRun(f, run) && ParMap.Init(|starts|, workers, run[0]) && ParMap.Final(run[|run| - 1])
    ensures var slots := run[|run| - 1].slots;
      |slots| == |starts| && Filled(slots) && Assembled(slots, starts) == Separate(bits, starts, max)
  {
    hide AllocBlock, ParMap.Init, ParMap.Final, Separate;
    ParMap.EveryInterleaving(f, |starts|, workers, run);
    AssembledIsSeparate(run[|run| - 1].slots, bits, starts, max);
  }

  /** Whenever `decompress` succeeds and the scan finds exactly the blocks it visits, the slots of every
      interleaving hold its texts in order. */
  lemma EveryRunIsSequential(bits: Bitstring, len: nat, p: nat, max: nat, threads: nat, workers: nat,
                             f: nat -> Parse<seq<Byte>>, run: seq<ParMap.State<Parse<seq<Byte>>>>)
    requires |bits| == 8 * len && p <= |bits| && Sequential(bits, p, max).Blocks?
    requires ScanParallel(bits, len, threads) == Sequential(bits, p, max).starts
    requires DecodesBlocks(f, bits, ScanParallel(bits, len, threads), max)
    requires workers >= 1 && ParMap.IsRun(f, run) && ParMap.Final(run[|run| - 1])
    requires ParMap.Init(|ScanParallel(bits, len, threads)|, workers, run[0])
    ensures var slots, starts := run[|run| - 1].slots, ScanParallel(bits, len, threads);
      |slots| == |starts| && Filled(slots) && Assembled(slots, starts) == Sequential(bits, p, max)
  {
    hide ScanParallel, Sequential, AllocBlock, ParMap.IsRun, ParMap.Init, ParMap.Final, Separate, DecodesBlocks;
    ParallelIsSequential(bits, len, p, max, threads);
    EveryRunDecodesAll(bits, ScanParallel(bits, len, threads), max, workers, f, run);
  }
}
