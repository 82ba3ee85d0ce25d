/** Sequences rearranged by an injective sequence of indices. */
module Permutations {

  predicate Injective<A(==)>(t: seq<A>)
  {
    forall i, j :: 0 <= i < j < |t| ==> t[i] != t[j]
  }

  function Elements<A(!new)>(t: seq<A>): (r: set<A>)
    ensures forall x :: x in r <==> x in t
  {
    if t == [] then {} else
      assert t == t[..|t| - 1] + [t[|t| - 1]];
      Elements(t[..|t| - 1]) + {t[|t| - 1]}
  }

  function Range(n: nat): (r: set<nat>)
    ensures forall x: nat :: x in r <==> x < n
    ensures |r| == n
  {
    if n == 0 then {} else Range(n - 1) + {n - 1}
  }

  lemma {:induction false} InjectiveCardinality<A(!new)>(t: seq<A>)
    requires Injective(t)
    ensures |Elements(t)| == |t|
  {
    if t != [] {
      var init, last := t[..|t| - 1], t[|t| - 1];
      InjectiveCardinality(init);
      assert last !in init;
    }
  }

  lemma {:induction false} CardinalityMonotone<A>(a: set<A>, b: set<A>)
    requires a <= b
    ensures |a| <= |b|
  {
    if a != {} {
      var x :| x in a;
      CardinalityMonotone(a - {x}, b - {x});
    }
  }

  /** An injective map of a finite range into itself hits every value. */
  lemma Surjective(t: seq<nat>, v: nat)
    requires Injective(t) && (forall i :: 0 <= i < |t| ==> t[i] < |t|) && v < |t|
    ensures v in t
  {
    if v !in t {
      InjectiveCardinality(t);
      CardinalityMonotone(Elements(t), Range(|t|) - {v});
    }
  }

  /** Taking the element at `k` out of a sequence takes it out of the multiset. */
  lemma RemoveAt<A>(a: seq<A>, k: nat)
    requires k < |a|
    ensures multiset(a) == multiset(a[..k] + a[k + 1..]) + multiset{a[k]}
  {
    assert a == a[..k] + [a[k]] + a[k + 1..];
  }

  lemma Cancel<A>(p: multiset<A>, q: multiset<A>, x: A)
    requires p + multiset{x} == q + multiset{x}
    ensures p == q
  {
    assert p == (p + multiset{x}) - multiset{x};
    assert q == (q + multiset{x}) - multiset{x};
  }

  function Permuted<A>(a: seq<A>, t: seq<nat>): (r: seq<A>)
    requires forall i :: 0 <= i < |t| ==> t[i] < |a|
    ensures |r| == |t| && forall i :: 0 <= i < |t| ==> r[i] == a[t[i]]
  {
    seq(|t|, i requires 0 <= i < |t| => a[t[i]])
  }

  lemma {:induction false} PermutedMultiset<A>(a: seq<A>, t: seq<nat>)
    requires |t| == |a| && Injective(t) && forall i :: 0 <= i < |t| ==> t[i] < |a|
    ensures multiset(Permuted(a, t)) == multiset(a)
  {
    hide Permuted, Injective;
    if a != [] {
      var m := |a| - 1;
      Surjective(t, m);
      var k :| 0 <= k < |t| && t[k] == m;
      var t' := t[..k] + t[k + 1..];
      InjectiveRemove(t, k, t');
      PermutedMultiset(a[..m], t');
      PermutedRemove(a, t, k, t');
      LastApart(a);
    } else {
      assert Permuted(a, t) == [];
    }
  }

  lemma LastApart<A>(a: seq<A>)
    requires a != []
    ensures multiset(a) == multiset(a[..|a| - 1]) + multiset{a[|a| - 1]}
  {
    RemoveAt(a, |a| - 1);
    assert a[..|a| - 1] + a[|a|..] == a[..|a| - 1];
  }

  lemma InjectiveRemove(t: seq<nat>, k: nat, t': seq<nat>)
    requires Injective(t) && k < |t| && t[k] == |t| - 1 && t' == t[..k] + t[k + 1..]
    requires forall i :: 0 <= i < |t| ==> t[i] < |t|
    ensures Injective(t') && forall i :: 0 <= i < |t'| ==> t'[i] < |t| - 1
  {
    assert forall i :: 0 <= i < |t'| ==> t'[i] == t[if i < k then i else i + 1];
  }

  lemma PermutedRemove<A>(a: seq<A>, t: seq<nat>, k: nat, t': seq<nat>)
    requires |t| == |a| && (forall i :: 0 <= i < |t| ==> t[i] < |a|)
    requires k < |t| && t[k] == |a| - 1
    requires t' == t[..k] + t[k + 1..] && forall i :: 0 <= i < |t'| ==> t'[i] < |a| - 1
    ensures multiset(Permuted(a, t)) == multiset(Permuted(a[..|a| - 1], t')) + multiset{a[|a| - 1]}
  {
    var r := Permuted(a, t);
    RemoveAt(r, k);
    assert Permuted(a[..|a| - 1], t') == r[..k] + r[k + 1..];
  }
}
