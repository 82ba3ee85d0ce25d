/** Joining what the elements of a list contribute. */
module Lists {
  /** What every element contributes, in order. */
  function Collect<T, U>(q: seq<T>, f: T -> seq<U>): seq<U>
  {
    if q == [] then [] else f(q[0]) + Collect(q[1..], f)
  }

  lemma {:induction false} CollectAppend<T, U>(a: seq<T>, b: seq<T>, f: T -> seq<U>)
    ensures Collect(a + b, f) == Collect(a, f) + Collect(b, f)
    decreases |a|
  {
    if a == [] {
      assert a + b == b;
    } else {
      CollectAppend(a[1..], b, f);
      assert (a + b)[0] == a[0] && (a + b)[1..] == a[1..] + b;
    }
  }

  lemma CollectNone<T, U>(f: T -> seq<U>)
    ensures Collect([], f) == []
  {
  }

  lemma CollectOne<T, U>(x: T, f: T -> seq<U>)
    ensures Collect([x], f) == f(x)
  {
    assert [x][1..] == [];
    assert f(x) + [] == f(x);
  }

  lemma CollectPush<T, U>(a: seq<T>, x: T, f: T -> seq<U>)
    ensures Collect(a + [x], f) == Collect(a, f) + f(x)
  {
    CollectAppend(a, [x], f);
    CollectOne(x, f);
  }

  lemma CollectPop<T, U>(a: seq<T>, f: T -> seq<U>)
    requires a != []
    ensures Collect(a, f) == f(a[0]) + Collect(a[1..], f)
  {
  }

  lemma CollectSplit<T, U>(a: seq<T>, i: nat, f: T -> seq<U>)
    requires i < |a|
    ensures Collect(a, f) == Collect(a[..i], f) + f(a[i]) + Collect(a[i + 1..], f)
  {
    hide Collect;
    CollectPush(a[..i], a[i], f);
    CollectAppend(a[..i] + [a[i]], a[i + 1..], f);
    SplitAround(a, i);
  }

  lemma SplitAround<T>(a: seq<T>, i: nat)
    requires i < |a|
    ensures (a[..i] + [a[i]]) + a[i + 1..] == a
  {
  }

  function Whole<A>(s: seq<A>): seq<A>
  {
    s
  }

  /** The lists joined in order. */
  function Flatten<A>(ss: seq<seq<A>>): (r: seq<A>)
  {
    Collect(ss, Whole)
  }

  lemma {:induction false} FlattenMember<A(!new)>(ss: seq<seq<A>>)
    ensures forall x :: x in Flatten(ss) <==> exists i :: 0 <= i < |ss| && x in ss[i]
    decreases |ss|
  {
    if ss != [] {
      var first, rest := ss[0], ss[1..];
      FlattenMember(rest);
      FlattenCons(first, rest);
      assert ss == [first] + rest;
      forall x
        ensures x in Flatten(ss) <==> exists i :: 0 <= i < |ss| && x in ss[i]
      {
        if x in Flatten(rest) {
          var i :| 0 <= i < |rest| && x in rest[i];
          assert x in ss[i + 1];
        }
        if x in first { assert x in ss[0]; }
      }
    }
  }

  lemma FlattenAppend<A>(a: seq<seq<A>>, b: seq<seq<A>>)
    ensures Flatten(a + b) == Flatten(a) + Flatten(b)
  {
    CollectAppend(a, b, Whole);
  }

  lemma FlattenNothing<A>()
    ensures Flatten<A>([]) == []
  {
  }

  lemma FlattenOne<A>(x: seq<A>)
    ensures Flatten([x]) == x
  {
    CollectOne(x, Whole);
  }

  lemma FlattenCons<A>(x: seq<A>, b: seq<seq<A>>)
    ensures Flatten([x] + b) == x + Flatten(b)
  {
    FlattenAppend([x], b);
    FlattenOne(x);
  }
}
