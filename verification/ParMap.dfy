/** The work-stealing parallel map (`src/par.rs`) as interleaved steps of its workers.

    Workers share a counter.  A worker claims the next index with one atomic add; if the index is in
    range it computes the function there and stores the result in the slot of that index, otherwise it
    exits.  Claiming and storing are atomic steps, in any order among the workers. */
module ParMap {
  import opened Wrappers

  datatype Worker = Claiming | Running(i: nat) | Exited

  datatype State<T> = State(next: nat, slots: seq<Option<T>>, workers: seq<Worker>)

  predicate Init<T(==)>(n: nat, threads: nat, s: State<T>)
  {
    && s.next == 0
    && |s.slots| == n && (forall i :: 0 <= i < n ==> s.slots[i] == None)
    && |s.workers| == threads && (forall w :: 0 <= w < threads ==> s.workers[w] == Claiming)
  }

  /** Worker `w` takes its next step. */
  function Step<T>(f: nat -> T, s: State<T>, w: nat): (s': State<T>)
    requires w < |s.workers| && s.workers[w] != Exited
    requires s.workers[w].Running? ==> s.workers[w].i < |s.slots|
  {
    match s.workers[w]
    case Claiming =>
      s.(next := s.next + 1, workers := s.workers[w := if s.next >= |s.slots| then Exited else Running(s.next)])
    case Running(i) =>
      s.(slots := s.slots[i := Some(f(i))], workers := s.workers[w := Claiming])
  }

  ghost predicate Next<T>(f: nat -> T, s: State<T>, s': State<T>)
  {
    exists w: nat :: w < |s.workers| && s.workers[w] != Exited && (s.workers[w].Running? ==> s.workers[w].i < |s.slots|)
      && s' == Step(f, s, w)
  }

  predicate Final<T>(s: State<T>)
  {
    forall w :: 0 <= w < |s.workers| ==> s.workers[w] == Exited
  }

  /** Every claimed index is running in exactly one worker or stored with the right value; no other
      index has been touched. */
  ghost predicate Inv<T>(f: nat -> T, s: State<T>)
  {
    && (forall w :: 0 <= w < |s.workers| && s.workers[w].Running? ==>
          s.workers[w].i < |s.slots| && s.workers[w].i < s.next && s.slots[s.workers[w].i].None?)
    && (forall w, v :: 0 <= w < v < |s.workers| && s.workers[w].Running? && s.workers[v].Running? ==>
          s.workers[w].i != s.workers[v].i)
    && (forall i :: 0 <= i < |s.slots| && s.slots[i].Some? ==> i < s.next && s.slots[i].value == f(i))
    && (forall i: nat :: i < |s.slots| && i < s.next && s.slots[i].None? ==> RunsAt(s, i))
    && ((exists w :: 0 <= w < |s.workers| && s.workers[w] == Exited) ==> s.next >= |s.slots|)
  }

  ghost predicate RunsAt<T>(s: State<T>, i: nat)
  {
    exists w :: 0 <= w < |s.workers| && s.workers[w] == Running(i)
  }

  lemma StepKeepsInv<T>(f: nat -> T, s: State<T>, w: nat)
    requires Inv(f, s) && w < |s.workers| && s.workers[w] != Exited
    ensures Inv(f, Step(f, s, w))
  {
    var s' := Step(f, s, w);
    forall i: nat | i < |s'.slots| && i < s'.next && s'.slots[i].None?
      ensures RunsAt(s', i)
    {
      if s.workers[w] == Claiming && i == s.next {
        assert s'.workers[w] == Running(i);
      } else {
        assert RunsAt(s, i);
        var v :| 0 <= v < |s.workers| && s.workers[v] == Running(i);
        assert s'.workers[v] == Running(i);
      }
    }
  }

  // ---------------------------------------------------------------------------------------------
  // Progress
  // ---------------------------------------------------------------------------------------------

  function Weight(w: Worker): nat
  {
    match w
    case Claiming => 1
    case Running(_) => 2
    case Exited => 0
  }

  function Weights(ws: seq<Worker>): nat
  {
    if ws == [] then 0 else Weights(ws[..|ws| - 1]) + Weight(ws[|ws| - 1])
  }

  /** How many steps are left. */
  function Left<T>(s: State<T>): nat
  {
    2 * (if s.next < |s.slots| then |s.slots| - s.next else 0) + Weights(s.workers)
  }

  lemma {:induction false} WeightsUpdate(ws: seq<Worker>, k: nat, w: Worker)
    requires k < |ws|
    ensures Weights(ws[k := w]) == Weights(ws) - Weight(ws[k]) + Weight(w)
  {
    var m := |ws| - 1;
    if k < m {
      WeightsUpdate(ws[..m], k, w);
      assert ws[k := w][..m] == ws[..m][k := w];
    } else {
      assert ws[k := w][..m] == ws[..m];
    }
  }

  /** Every step, of whichever worker, leaves exactly one step less to do. */
  lemma StepProgress<T>(f: nat -> T, s: State<T>, w: nat)
    requires Inv(f, s) && w < |s.workers| && s.workers[w] != Exited
    ensures Left(Step(f, s, w)) == Left(s) - 1
  {
    var worker := Step(f, s, w).workers[w];
    WeightsUpdate(s.workers, w, worker);
  }

  lemma {:induction false} NoStepsLeft(ws: seq<Worker>)
    ensures Weights(ws) == 0 <==> forall w :: 0 <= w < |ws| ==> ws[w] == Exited
  {
    if ws != [] {
      var m := |ws| - 1;
      NoStepsLeft(ws[..m]);
      assert forall w :: 0 <= w < m ==> ws[..m][w] == ws[w];
    }
  }

  // ---------------------------------------------------------------------------------------------
  // Runs
  // ---------------------------------------------------------------------------------------------

  ghost predicate IsRun<T>(f: nat -> T, run: seq<State<T>>)
  {
    run != [] && forall k :: 0 <= k < |run| - 1 ==> Next(f, run[k], run[k + 1])
  }

  lemma {:induction false} RunKeepsInv<T>(f: nat -> T, n: nat, threads: nat, run: seq<State<T>>, k: nat)
    requires IsRun(f, run) && Init(n, threads, run[0]) && k < |run|
    ensures Inv(f, run[k]) && |run[k].slots| == n && |run[k].workers| == threads
    ensures Left(run[k]) + k == Left(run[0])
  {
    if k > 0 {
      hide Inv, Next, Left;
      RunKeepsInv(f, n, threads, run, k - 1);
      assert Next(f, run[k - 1], run[k]);
      NextKeeps(f, run[k - 1], run[k]);
    }
  }

  lemma NextKeeps<T>(f: nat -> T, s: State<T>, s': State<T>)
    requires Inv(f, s) && Next(f, s, s')
    ensures Inv(f, s') && |s'.slots| == |s.slots| && |s'.workers| == |s.workers| && Left(s') + 1 == Left(s)
  {
    hide Inv, Left;
    var w: nat :| w < |s.workers| && s.workers[w] != Exited && (s.workers[w].Running? ==> s.workers[w].i < |s.slots|) && s' == Step(f, s, w);
    StepKeepsInv(f, s, w);
    StepProgress(f, s, w);
  }

  /** The map over all indices, in order. */
  function MapAll<T>(f: nat -> T, n: nat): (r: seq<T>)
    ensures |r| == n && forall i :: 0 <= i < n ==> r[i] == f(i)
  {
    seq(n, i requires 0 <= i < n => f(i))
  }

  /** A claimed slot is filled or its index is running. */
  lemma EmptyRuns<T>(f: nat -> T, s: State<T>, i: nat)
    requires Inv(f, s) && i < |s.slots| && i < s.next
    ensures s.slots[i].Some? || RunsAt(s, i)
  {
    hide RunsAt;
  }

  lemma FinalRuns<T>(s: State<T>, i: nat)
    requires Final(s)
    ensures !RunsAt(s, i)
  {
  }

  /** Whatever the interleaving: the workers never get stuck before all have exited, and when they
      have, slot `i` holds the function's value at `i`, for every index and with none left out. */
  lemma EveryInterleaving<T>(f: nat -> T, n: nat, threads: nat, run: seq<State<T>>)
    requires threads >= 1 && IsRun(f, run) && Init(n, threads, run[0])
    ensures var s := run[|run| - 1];
      && (!Final(s) ==> exists s' :: Next(f, s, s'))
      && (Final(s) ==> |s.slots| == n && forall i :: 0 <= i < n ==> s.slots[i] == Some(MapAll(f, n)[i]))
  {
    var last := |run| - 1;
    var s := run[last];
    RunKeepsInv(f, n, threads, run, last);
    if !Final(s) {
      var w :| 0 <= w < |s.workers| && s.workers[w] != Exited;
      assert Next(f, s, Step(f, s, w));
    } else {
      assert s.workers[0] == Exited;
      forall i | 0 <= i < n
        ensures s.slots[i] == Some(f(i))
      {
        EmptyRuns(f, s, i);
        FinalRuns(s, i);
      }
    }
  }

  lemma {:induction false} WeightsOfStart(ws: seq<Worker>)
    requires forall w :: 0 <= w < |ws| ==> ws[w] == Claiming
    ensures Weights(ws) == |ws|
  {
    if ws != [] { WeightsOfStart(ws[..|ws| - 1]); }
  }

  /** Every run ends: it has at most `2n + threads` steps, and exactly that many when it is finished. */
  lemma RunsAreBounded<T>(f: nat -> T, n: nat, threads: nat, run: seq<State<T>>)
    requires threads >= 1 && IsRun(f, run) && Init(n, threads, run[0])
    ensures |run| - 1 <= 2 * n + threads
    ensures Final(run[|run| - 1]) <==> |run| - 1 == 2 * n + threads
  {
    var last := |run| - 1;
    var s := run[last];
    RunKeepsInv(f, n, threads, run, last);
    WeightsOfStart(run[0].workers);
    NoStepsLeft(s.workers);
    if Final(s) { assert s.workers[0] == Exited; }
  }
}
