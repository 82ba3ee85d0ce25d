/** The symbol stage of a block: move-to-front indices with runs of the front symbol written in
    bijective base 2 (RUNA, RUNB), as a state machine on plain sequences, and the compressor's side.

    Symbols 0 and 1 are RUNA and RUNB, symbol `k >= 2` is move-to-front index `k - 1`, and the last
    symbol of the alphabet ends the block. */
module SymbolTheory {
  import opened Bits
  import opened Errors
  import opened Mtf
  import RleTheory

  const MAX_BLOCKSIZE: nat := 900_000

  datatype Stage = Stage(mtf: seq<Byte>, out: seq<Byte>, repeat: nat, power: nat)
  {
    /** The invariant that keeps the 32-bit counters from overflowing. */
    predicate Valid(max: nat)
    {
      && |mtf| == 256
      && |out| <= max
      && repeat <= MAX_BLOCKSIZE
      && (repeat > 0 ==> power <= repeat + 1)
    }

    /** The value of the next run digit. */
    function Weight(): nat
    {
      if repeat == 0 then 1 else power
    }

    /** The output once the pending run has been written. */
    function Flushed(): seq<Byte>
      requires |mtf| == 256
    {
      out + RleTheory.Repeat(mtf[0], repeat)
    }
  }

  datatype Outcome = More(stage: Stage) | Done(out: seq<Byte>) | Fail(error: BlockError)

  /** The effect of one symbol. */
  function Step(st: Stage, sym: nat, eob: nat, max: nat): (r: Outcome)
    requires st.Valid(max) && sym <= eob <= 257
    ensures r.More? ==> r.stage.Valid(max)
    ensures r.Done? ==> |r.out| <= max
  {
    if sym < 2 then
      var repeat := st.repeat + st.Weight() * (sym + 1);
      if repeat > MAX_BLOCKSIZE then Fail(RepeatTooLarge)
      else More(st.(repeat := repeat, power := 2 * st.Weight()))
    else if st.repeat > 0 && |st.out| + st.repeat > max then Fail(ExceedsBlock)
    else if sym == eob then Done(st.Flushed())
    else if |st.Flushed()| >= max then Fail(ExceedsBlock)
    else More(Stage(ToFront(st.mtf, sym - 1), st.Flushed() + [st.mtf[sym - 1]], 0, st.power))
  }

  /** The effect of a sequence of symbols. */
  function Steps(st: Stage, syms: seq<nat>, eob: nat, max: nat): (r: Outcome)
    requires st.Valid(max) && eob <= 257 && forall i :: 0 <= i < |syms| ==> syms[i] <= eob
    ensures r.More? ==> r.stage.Valid(max)
    decreases |syms|
  {
    if syms == [] then More(st)
    else
      var r := Step(st, syms[0], eob, max);
      if r.More? then Steps(r.stage, syms[1..], eob, max) else r
  }

  // ---------------------------------------------------------------------------------------------
  // The compressor's side
  // ---------------------------------------------------------------------------------------------

  /** A run length in bijective base 2, lowest digit first. */
  function RunDigits(r: nat): (d: seq<nat>)
    ensures |d| <= r
    ensures forall i :: 0 <= i < |d| ==> d[i] < 2
  {
    if r == 0 then []
    else if r % 2 == 1 then [0] + RunDigits(r / 2)
    else [1] + RunDigits(r / 2 - 1)
  }

  /** How many bytes at the front of `l` equal `b`. */
  function LeadRun(l: seq<Byte>, b: Byte): (r: nat)
    ensures r <= |l| && l[..r] == RleTheory.Repeat(b, r)
    ensures r < |l| ==> l[r] != b
  {
    if l == [] || l[0] != b then 0
    else
      var r := LeadRun(l[1..], b);
      assert l[..r + 1] == [b] + l[1..][..r];
      r + 1
  }

  predicate Drawn(l: seq<Byte>, list: seq<Byte>, n: nat)
    requires n <= |list|
  {
    forall i :: 0 <= i < |l| ==> l[i] in list[..n]
  }

  /** The symbols for `l`, for a front list whose first `n` elements are the bytes in use. */
  function Encode(list: seq<Byte>, n: nat, l: seq<Byte>): (syms: seq<nat>)
    requires 0 < n <= |list| <= 256 && Drawn(l, list, n)
    ensures |syms| <= |l| + 1
    ensures forall i :: 0 <= i < |syms| ==> syms[i] <= n + 1
    decreases |l|
  {
    var r := LeadRun(l, list[0]);
    if r == |l| then RunDigits(r) + [n + 1]
    else
      var k := IndexInPrefix(list, n, l[r]);
      DrawnAfter(l, list, n, r, k);
      RunDigits(r) + [k + 1] + Encode(ToFront(list, k), n, l[r + 1..])
  }

  function IndexInPrefix(list: seq<Byte>, n: nat, b: Byte): (k: nat)
    requires n <= |list| && b in list[..n]
    ensures k < n && list[k] == b
    ensures k == 0 ==> list[0] == b
  {
    assert list[..n][IndexOf(list[..n], b)] == b;
    IndexOf(list[..n], b)
  }

  lemma DrawnAfter(l: seq<Byte>, list: seq<Byte>, n: nat, r: nat, k: nat)
    requires k < n <= |list| && Drawn(l, list, n) && r < |l|
    ensures Drawn(l[r + 1..], ToFront(list, k), n)
  {
    ToFrontKeepsPrefix(list, k, n);
    var rest := l[r + 1..];
    forall i | 0 <= i < |rest|
      ensures rest[i] in ToFront(list, k)[..n]
    {
      assert rest[i] == l[r + 1 + i] && rest[i] in list[..n];
      assert rest[i] in multiset(list[..n]);
    }
  }

  // ---------------------------------------------------------------------------------------------
  // Decoding inverts encoding
  // ---------------------------------------------------------------------------------------------

  /** Reading the digits of a run adds its length, scaled by the current weight. */
  lemma {:induction false} StepsRun(st: Stage, r: nat, rest: seq<nat>, eob: nat, max: nat) returns (end: Stage)
    requires st.Valid(max) && eob <= 257 && eob >= 1 && forall i :: 0 <= i < |rest| ==> rest[i] <= eob
    requires st.repeat + st.Weight() * r <= MAX_BLOCKSIZE
    ensures end.Valid(max) && end.mtf == st.mtf && end.out == st.out && end.repeat == st.repeat + st.Weight() * r
    ensures Steps(st, RunDigits(r) + rest, eob, max) == Steps(end, rest, eob, max)
    decreases r
  {
    hide Step, Steps, RunDigits;
    var syms := RunDigits(r) + rest;
    if r == 0 {
      NoDigits(rest);
      RunValue(st.Weight(), 0, 0, 0);
      end := st;
    } else {
      var d, r' := FirstDigit(r, rest);
      RunValue(st.Weight(), d, r', r);
      var st' := RunStep(st, d, eob, max);
      StepsMore(st, syms, eob, max, st');
      end := StepsRun(st', r', rest, eob, max);
    }
  }

  lemma NoDigits(rest: seq<nat>)
    ensures RunDigits(0) + rest == rest
  {
  }

  /** The first digit of a run, and the run that is left at twice the weight. */
  lemma FirstDigit(r: nat, rest: seq<nat>) returns (d: nat, r': nat)
    requires r > 0
    ensures d < 2 && r == (d + 1) + 2 * r' && r' < r
    ensures RunDigits(r) + rest == [d] + (RunDigits(r') + rest)
  {
    d, r' := 1 - r % 2, if r % 2 == 1 then r / 2 else r / 2 - 1;
    assert RunDigits(r) == [d] + RunDigits(r');
  }

  lemma RunValue(w: nat, d: nat, r': nat, r: nat)
    ensures r == (d + 1) + 2 * r' ==> w * r == w * (d + 1) + (2 * w) * r'
    ensures (2 * w) * r' >= 0 && w * 0 == 0
  {
    if r == (d + 1) + 2 * r' { Distribute(w, d + 1, r'); }
    MulNonneg(2 * w, r');
  }

  /** A run symbol adds its weight to the pending run and doubles the weight. */
  lemma RunStep(st: Stage, d: nat, eob: nat, max: nat) returns (st': Stage)
    requires st.Valid(max) && d < 2 && 1 <= eob <= 257 && st.repeat + st.Weight() * (d + 1) <= MAX_BLOCKSIZE
    ensures st'.Valid(max) && Step(st, d, eob, max) == More(st')
    ensures st'.mtf == st.mtf && st'.out == st.out && st'.repeat == st.repeat + st.Weight() * (d + 1) && st'.Weight() == 2 * st.Weight()
  {
    st' := st.(repeat := st.repeat + st.Weight() * (d + 1), power := 2 * st.Weight());
  }

  lemma StepsMore(st: Stage, syms: seq<nat>, eob: nat, max: nat, st': Stage)
    requires st.Valid(max) && eob <= 257 && syms != [] && forall i :: 0 <= i < |syms| ==> syms[i] <= eob
    requires Step(st, syms[0], eob, max) == More(st')
    ensures st'.Valid(max) && Steps(st, syms, eob, max) == Steps(st', syms[1..], eob, max)
  {
    hide Step;
  }

  lemma Distribute(w: nat, a: nat, b: nat)
    ensures w * (a + 2 * b) == w * a + (2 * w) * b
  {
  }

  lemma MulNonneg(a: nat, b: nat)
    ensures a * b >= 0
  {
  }

  /** An index symbol writes the pending run and the byte at the index. */
  lemma StepsIndex(st: Stage, k: nat, n: nat, rest: seq<nat>, max: nat)
    requires st.Valid(max) && 0 < k < n <= 256 && |st.out| + st.repeat < max
    requires forall i :: 0 <= i < |rest| ==> rest[i] <= n + 1
    ensures Steps(st, [k + 1] + rest, n + 1, max)
         == Steps(Stage(ToFront(st.mtf, k), st.Flushed() + [st.mtf[k]], 0, st.power), rest, n + 1, max)
  {
    hide RleTheory.Repeat;
    assert ([k + 1] + rest)[1..] == rest;
  }

  lemma StepsEnd(st: Stage, n: nat, max: nat)
    requires st.Valid(max) && 0 < n <= 256 && |st.out| + st.repeat <= max
    ensures Steps(st, [n + 1], n + 1, max) == Done(st.Flushed())
  {
    hide RleTheory.Repeat;
  }

  lemma SplitAround(o: seq<Byte>, l: seq<Byte>, r: nat)
    requires r < |l|
    ensures o + l == (o + l[..r] + [l[r]]) + l[r + 1..]
  {
    assert l == l[..r] + [l[r]] + l[r + 1..];
  }

  /** The symbols of `l`: the digits of its leading run, then the end or an index symbol and the rest. */
  lemma EncodeSplit(list: seq<Byte>, n: nat, l: seq<Byte>)
    requires 0 < n <= |list| <= 256 && Drawn(l, list, n)
    ensures var r := LeadRun(l, list[0]);
      && (r == |l| ==> Encode(list, n, l) == RunDigits(r) + [n + 1])
      && (r < |l| ==>
            var k := IndexInPrefix(list, n, l[r]);
            && Drawn(l[r + 1..], ToFront(list, k), n)
            && Encode(list, n, l) == RunDigits(r) + ([k + 1] + Encode(ToFront(list, k), n, l[r + 1..])))
  {
    hide RunDigits, ToFront;
    var r := LeadRun(l, list[0]);
    if r < |l| {
      var k := IndexInPrefix(list, n, l[r]);
      DrawnAfter(l, list, n, r, k);
      var rest := Encode(ToFront(list, k), n, l[r + 1..]);
      assert RunDigits(r) + [k + 1] + rest == RunDigits(r) + ([k + 1] + rest);
    }
  }

  /** The symbol stage inverts move-to-front with runs: from any point between runs, the symbols for
      `l` append exactly `l` to the output and end the block. */
  lemma {:induction false} StepsEncode(st: Stage, n: nat, l: seq<Byte>, max: nat)
    requires st.Valid(max) && st.repeat == 0 && 0 < n <= 256 && Drawn(l, st.mtf, n)
    requires |st.out| + |l| <= max <= MAX_BLOCKSIZE
    ensures Steps(st, Encode(st.mtf, n, l), n + 1, max) == Done(st.out + l)
    decreases |l|
  {
    hide Steps, Step, ToFront, IndexInPrefix, Encode, LeadRun, Drawn, RunDigits;
    var r := LeadRun(l, st.mtf[0]);
    EncodeSplit(st.mtf, n, l);
    if r == |l| {
      var end := StepsRun(st, r, [n + 1], n + 1, max);
      StepsEnd(end, n, max);
      assert l == l[..r];
    } else {
      var k := IndexInPrefix(st.mtf, n, l[r]);
      var end := StepsRun(st, r, [k + 1] + Encode(ToFront(st.mtf, k), n, l[r + 1..]), n + 1, max);
      StepsIndex(end, k, n, Encode(ToFront(st.mtf, k), n, l[r + 1..]), max);
      var next := Stage(ToFront(st.mtf, k), st.out + l[..r] + [l[r]], 0, end.power);
      StepsEncode(next, n, l[r + 1..], max);
      SplitAround(st.out, l, r);
    }
  }

  // ---------------------------------------------------------------------------------------------
  // What the stage keeps
  // ---------------------------------------------------------------------------------------------

  /** The first `n` entries of the list stay a permutation of the bytes in use, and only these are
      written. */
  ghost predicate Front(st: Stage, n: nat, used: seq<Byte>)
  {
    && 0 < n == |used| <= 256 == |st.mtf|
    && multiset(st.mtf[..n]) == multiset(used)
    && (forall i :: 0 <= i < |st.out| ==> st.out[i] in used)
  }

  lemma FrontMember(st: Stage, n: nat, used: seq<Byte>, k: nat)
    requires Front(st, n, used) && k < n
    ensures st.mtf[k] in used
  {
    assert st.mtf[..n][k] == st.mtf[k];
    assert st.mtf[k] in multiset(st.mtf[..n]);
  }

  lemma StepKeepsFront(st: Stage, sym: nat, n: nat, used: seq<Byte>, max: nat)
    requires st.Valid(max) && Front(st, n, used) && sym <= n + 1
    ensures Step(st, sym, n + 1, max).More? ==> Front(Step(st, sym, n + 1, max).stage, n, used)
    ensures Step(st, sym, n + 1, max).Done? ==> forall b :: b in Step(st, sym, n + 1, max).out ==> b in used
  {
    hide ToFront;
    FrontMember(st, n, used, 0);
    if 2 <= sym <= n {
      FrontMember(st, n, used, sym - 1);
      ToFrontKeepsPrefix(st.mtf, sym - 1, n);
    }
  }

  /** Over any run of the stage: the list's front stays a permutation and the output draws on the
      bytes in use. */
  lemma {:induction false} StepsKeepFront(st: Stage, syms: seq<nat>, n: nat, used: seq<Byte>, max: nat)
    requires st.Valid(max) && Front(st, n, used) && forall i :: 0 <= i < |syms| ==> syms[i] <= n + 1
    ensures Steps(st, syms, n + 1, max).More? ==> Front(Steps(st, syms, n + 1, max).stage, n, used)
    ensures Steps(st, syms, n + 1, max).Done? ==> forall b :: b in Steps(st, syms, n + 1, max).out ==> b in used
    decreases |syms|
  {
    if syms != [] {
      StepKeepsFront(st, syms[0], n, used, max);
      var r := Step(st, syms[0], n + 1, max);
      if r.More? { StepsKeepFront(r.stage, syms[1..], n, used, max); }
    }
  }

  // ---------------------------------------------------------------------------------------------
  // What the symbols mean
  // ---------------------------------------------------------------------------------------------

  /** The list stays in the order of the last uses in what is written, a pending run included. */
  lemma {:induction false} StepsByRecency(st: Stage, syms: seq<nat>, n: nat, used: seq<Byte>, max: nat)
    requires st.Valid(max) && 0 < n == |used| <= 256 && forall i :: 0 <= i < |syms| ==> syms[i] <= n + 1
    requires ByRecency(used, st.out, st.mtf[..n])
    ensures ByRecency(used, st.Flushed(), st.mtf[..n])
    ensures var r := Steps(st, syms, n + 1, max);
      r.More? ==> ByRecency(used, r.stage.out, r.stage.mtf[..n]) && ByRecency(used, r.stage.Flushed(), r.stage.mtf[..n])
    decreases |syms|
  {
    hide Step, ByRecency;
    FlushedByRecency(used, st.out, st.mtf[..n], st.repeat);
    if syms != [] {
      StepByRecency(st, syms[0], n, used, max);
      var r := Step(st, syms[0], n + 1, max);
      if r.More? { StepsByRecency(r.stage, syms[1..], n, used, max); }
    }
  }

  lemma StepByRecency(st: Stage, sym: nat, n: nat, used: seq<Byte>, max: nat)
    requires st.Valid(max) && 0 < n == |used| <= 256 && sym <= n + 1
    requires ByRecency(used, st.out, st.mtf[..n]) && ByRecency(used, st.Flushed(), st.mtf[..n])
    ensures var r := Step(st, sym, n + 1, max); r.More? ==> ByRecency(used, r.stage.out, r.stage.mtf[..n])
  {
    hide ByRecency, RleTheory.Repeat;
    if 2 <= sym <= n {
      ToFrontByRecency(used, st.Flushed(), st.mtf[..n], sym - 1);
      assert ToFront(st.mtf, sym - 1)[..n] == ToFront(st.mtf[..n], sym - 1);
    }
  }

  /** Writing the front element again changes no order. */
  lemma {:induction false} FlushedByRecency(used: seq<Byte>, out: seq<Byte>, list: seq<Byte>, r: nat)
    requires ByRecency(used, out, list) && list != []
    ensures ByRecency(used, out + RleTheory.Repeat(list[0], r), list)
    decreases r
  {
    hide ByRecency;
    if r == 0 {
      assert out + RleTheory.Repeat(list[0], 0) == out;
    } else {
      FlushedByRecency(used, out, list, r - 1);
      var before := out + RleTheory.Repeat(list[0], r - 1);
      ToFrontByRecency(used, before, list, 0);
      assert ToFront(list, 0) == list;
      assert before + [list[0]] == out + RleTheory.Repeat(list[0], r);
    }
  }

  /** The number that run digits stand for: digit 0 counts once, digit 1 twice, times 2^i in place `i`. */
  function RunOf(d: seq<nat>): (r: nat)
  {
    if d == [] then 0
    else
      var m := |d| - 1;
      RunOf(d[..m]) + Pow2(m) * (d[m] + 1)
  }

  lemma {:induction false} RunOfCons(d: seq<nat>)
    requires d != []
    ensures RunOf(d) == (d[0] + 1) + 2 * RunOf(d[1..])
    decreases |d|
  {
    var m := |d| - 1;
    if m == 0 {
      assert d[..0] == [] && d[1..] == [];
    } else {
      RunOfCons(d[..m]);
      assert d[..m][1..] == d[1..][..m - 1] && d[1..][m - 1] == d[m];
      assert Pow2(m) == 2 * Pow2(m - 1);
      MulDouble(d[m] + 1, Pow2(m - 1));
    }
  }

  /** The digits of a run come to their number, which must not pass 900000. */
  lemma {:induction false} StepsDigits(st: Stage, d: seq<nat>, rest: seq<nat>, eob: nat, max: nat) returns (end: Stage)
    requires st.Valid(max) && 1 <= eob <= 257 && (forall i :: 0 <= i < |d| ==> d[i] < 2) && forall i :: 0 <= i < |rest| ==> rest[i] <= eob
    ensures end.Valid(max) && end.mtf == st.mtf && end.out == st.out
    ensures st.repeat + st.Weight() * RunOf(d) <= 900_000 ==>
      end.repeat == st.repeat + st.Weight() * RunOf(d) && Steps(st, d + rest, eob, max) == Steps(end, rest, eob, max)
    ensures st.repeat + st.Weight() * RunOf(d) > 900_000 ==> Steps(st, d + rest, eob, max) == Fail(RepeatTooLarge)
    decreases |d|
  {
    hide Step, Steps, RunOf;
    var syms := d + rest;
    if d == [] {
      NoRun(rest);
      RunValue(st.Weight(), 0, 0, 0);
      end := st;
    } else {
      RunOfCons(d);
      var more := RunOf(d[1..]);
      RunValue(st.Weight(), d[0], more, RunOf(d));
      assert syms[1..] == d[1..] + rest;
      DigitStep(st, d[0], eob, max);
      if st.repeat + st.Weight() * (d[0] + 1) <= MAX_BLOCKSIZE {
        var st' := RunStep(st, d[0], eob, max);
        StepsMore(st, syms, eob, max, st');
        end := StepsDigits(st', d[1..], rest, eob, max);
      } else {
        StepsStop(st, syms, eob, max);
        end := st;
      }
    }
  }

  lemma NoRun(rest: seq<nat>)
    ensures RunOf([]) == 0 && [] + rest == rest
  {
  }

  lemma DigitStep(st: Stage, d: nat, eob: nat, max: nat)
    requires st.Valid(max) && d < 2 && 1 <= eob <= 257
    ensures st.repeat + st.Weight() * (d + 1) > 900_000 ==> Step(st, d, eob, max) == Fail(RepeatTooLarge)
  {
  }

  lemma StepsStop(st: Stage, syms: seq<nat>, eob: nat, max: nat)
    requires st.Valid(max) && eob <= 257 && syms != [] && forall i :: 0 <= i < |syms| ==> syms[i] <= eob
    requires !Step(st, syms[0], eob, max).More?
    ensures Steps(st, syms, eob, max) == Step(st, syms[0], eob, max)
  {
    hide Step;
  }

  /** What an index symbol and the end symbol do, and when they are too much for the block. */
  lemma StepCases(st: Stage, sym: nat, n: nat, max: nat)
    requires st.Valid(max) && 0 < n <= 256 && 2 <= sym <= n + 1
    ensures var r, total := Step(st, sym, n + 1, max), |st.out| + st.repeat;
      && (sym <= n ==>
            (total >= max ==> r == Fail(ExceedsBlock)) &&
            (total < max ==> r.More? && r.stage.out == st.Flushed() + [st.mtf[sym - 1]] && r.stage.repeat == 0
                             && r.stage.mtf[0] == st.mtf[sym - 1]
                             && (forall i :: 0 < i < sym ==> r.stage.mtf[i] == st.mtf[i - 1])
                             && (forall i :: sym <= i < 256 ==> r.stage.mtf[i] == st.mtf[i])))
      && (sym == n + 1 ==> r == if total > max then Fail(ExceedsBlock) else Done(st.Flushed()))
  {
    hide RleTheory.Repeat;
  }
}
