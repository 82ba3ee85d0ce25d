/** Move-to-front decoding (`src/mtf.rs`). */
module Mtf {
  import opened Bits

  /** The list with its element at `k` moved to the front. */
  function ToFront(list: seq<Byte>, k: nat): (r: seq<Byte>)
    requires k < |list|
    ensures |r| == |list| && r[0] == list[k]
  {
    [list[k]] + list[..k] + list[k + 1..]
  }

  /** Where `b` first stands in the list: the compressor's index for `b`. */
  function IndexOf(list: seq<Byte>, b: Byte): (k: nat)
    requires b in list
    ensures k < |list| && list[k] == b && b !in list[..k]
  {
    if list[0] == b then 0
    else
      assert list == [list[0]] + list[1..];
      assert list[..1 + IndexOf(list[1..], b)] == [list[0]] + list[1..][..IndexOf(list[1..], b)];
      1 + IndexOf(list[1..], b)
  }

  lemma ToFrontKeepsMultiset(list: seq<Byte>, k: nat)
    requires k < |list|
    ensures multiset(ToFront(list, k)) == multiset(list)
  {
    assert list == list[..k] + [list[k]] + list[k + 1..];
  }

  /** Moving one of the first `n` elements permutes these and leaves the rest of the list alone. */
  lemma ToFrontKeepsPrefix(list: seq<Byte>, k: nat, n: nat)
    requires k < n <= |list|
    ensures multiset(ToFront(list, k)[..n]) == multiset(list[..n])
    ensures ToFront(list, k)[n..] == list[n..]
  {
    assert ToFront(list, k)[..n] == ToFront(list[..n], k);
    ToFrontKeepsMultiset(list[..n], k);
  }

  /** Moving to the front, entry by entry: the entries before `k` move up by one, those behind it stay. */
  lemma ToFrontEntries(list: seq<Byte>, k: nat)
    requires k < |list|
    ensures ToFront(list, k)[0] == list[k]
    ensures forall i :: 0 < i <= k ==> ToFront(list, k)[i] == list[i - 1]
    ensures forall i :: k < i < |list| ==> ToFront(list, k)[i] == list[i]
  {
  }

  // ---------------------------------------------------------------------------------------------
  // The order of the list
  // ---------------------------------------------------------------------------------------------

  /** When `b` was last used: the number of uses up to that one, or 0 if it has not been used. */
  function LastUse(uses: seq<Byte>, b: Byte): (n: nat)
    ensures n <= |uses| && (n > 0 ==> uses[n - 1] == b) && forall i :: n <= i < |uses| ==> uses[i] != b
  {
    if uses == [] then 0
    else if uses[|uses| - 1] == b then |uses|
    else LastUse(uses[..|uses| - 1], b)
  }

  /** `a` was used after the last use of `b`; of two that have not been used, `a` stood before `b` at the
      beginning. */
  predicate MoreRecent(first: seq<Byte>, uses: seq<Byte>, a: Byte, b: Byte)
  {
    || LastUse(uses, a) > LastUse(uses, b)
    || (LastUse(uses, a) == LastUse(uses, b) == 0 && exists i, j :: 0 <= i < j < |first| && first[i] == a && first[j] == b)
  }

  predicate Distinct(s: seq<Byte>)
  {
    forall i, j :: 0 <= i < j < |s| ==> s[i] != s[j]
  }

  /** The list holds the elements of `first` in the order of their last uses, the most recent in front. */
  predicate ByRecency(first: seq<Byte>, uses: seq<Byte>, list: seq<Byte>)
  {
    && Distinct(first) && |list| == |first| && (forall i :: 0 <= i < |list| ==> list[i] in first)
    && forall i, j :: 0 <= i < j < |list| ==> MoreRecent(first, uses, list[i], list[j])
  }

  lemma NothingUsedYet(first: seq<Byte>)
    requires Distinct(first)
    ensures ByRecency(first, [], first)
  {
  }

  lemma RecentIsStrict(first: seq<Byte>, uses: seq<Byte>, a: Byte, b: Byte)
    requires Distinct(first) && MoreRecent(first, uses, a, b)
    ensures a != b
  {
  }

  /** One more use puts its element in front of all others and leaves their order alone. */
  lemma RecentAfter(first: seq<Byte>, uses: seq<Byte>, u: Byte, a: Byte, b: Byte)
    ensures b != u ==> MoreRecent(first, uses + [u], u, b)
    ensures a != u && b != u && MoreRecent(first, uses, a, b) ==> MoreRecent(first, uses + [u], a, b)
  {
    assert (uses + [u])[..|uses|] == uses;
  }

  /** Decoding an index keeps the order: the element at the index is used once more. */
  lemma ToFrontByRecency(first: seq<Byte>, uses: seq<Byte>, list: seq<Byte>, k: nat)
    requires ByRecency(first, uses, list) && k < |list|
    ensures ByRecency(first, uses + [list[k]], ToFront(list, k))
  {
    hide MoreRecent, ToFront;
    var u, r := list[k], ToFront(list, k);
    ToFrontEntries(list, k);
    forall i | 0 <= i < |r|
      ensures r[i] in first && (i > 0 ==> r[i] != u)
    {
      if 0 < i <= k { RecentIsStrict(first, uses, list[i - 1], u); }
      if k < i { RecentIsStrict(first, uses, u, list[i]); }
    }
    forall i, j | 0 <= i < j < |r|
      ensures MoreRecent(first, uses + [u], r[i], r[j])
    {
      RecentAfter(first, uses, u, r[i], r[j]);
      if i > 0 {
        var i', j' := if i <= k then i - 1 else i, if j <= k then j - 1 else j;
        assert r[i] == list[i'] && r[j] == list[j'];
      }
    }
  }

  /** The index of an element is the number of others used after it: this fixes the list. */
  lemma RecencyIsUnique(first: seq<Byte>, uses: seq<Byte>, a: seq<Byte>, b: seq<Byte>)
    requires ByRecency(first, uses, a) && ByRecency(first, uses, b)
    ensures a == b
  {
    hide MoreRecent;
    DistinctByRecency(first, uses, a);
    DistinctByRecency(first, uses, b);
    SameMembers(a, first);
    SameMembers(b, first);
    SameOrder(first, uses, a, b);
  }

  lemma DistinctByRecency(first: seq<Byte>, uses: seq<Byte>, list: seq<Byte>)
    requires ByRecency(first, uses, list)
    ensures Distinct(list)
  {
    hide MoreRecent;
    forall i, j | 0 <= i < j < |list|
      ensures list[i] != list[j]
    {
      RecentIsStrict(first, uses, list[i], list[j]);
    }
  }

  /** Two orders of the same elements by one strict order are the same. */
  lemma {:induction false} SameOrder(first: seq<Byte>, uses: seq<Byte>, a: seq<Byte>, b: seq<Byte>)
    requires Distinct(first) && Distinct(a) && Distinct(b) && |a| == |b|
    requires forall x :: x in a <==> x in b
    requires forall i, j :: 0 <= i < j < |a| ==> MoreRecent(first, uses, a[i], a[j])
    requires forall i, j :: 0 <= i < j < |b| ==> MoreRecent(first, uses, b[i], b[j])
    ensures a == b
    decreases |a|
  {
    hide MoreRecent;
    if a != [] {
      if a[0] != b[0] {
        assert a[0] in b && b[0] in a;
        var i :| 0 <= i < |b| && b[i] == a[0];
        var j :| 0 <= j < |a| && a[j] == b[0];
        NotBoth(first, uses, a[0], b[0]);
      }
      assert a == [a[0]] + a[1..] && b == [b[0]] + b[1..];
      forall x
        ensures x in a[1..] <==> x in b[1..]
      {
        assert x in a <==> x in b;
      }
      SameOrder(first, uses, a[1..], b[1..]);
    }
  }

  lemma NotBoth(first: seq<Byte>, uses: seq<Byte>, a: Byte, b: Byte)
    requires Distinct(first) && MoreRecent(first, uses, a, b)
    ensures !MoreRecent(first, uses, b, a)
  {
    hide LastUse;
  }

  /** A list without repetitions drawn from one of the same length has all its elements. */
  lemma {:induction false} SameMembers(a: seq<Byte>, b: seq<Byte>)
    requires Distinct(a) && |a| == |b| && forall i :: 0 <= i < |a| ==> a[i] in b
    ensures forall x :: x in a <==> x in b
    decreases |a|
  {
    if a != [] {
      var j :| 0 <= j < |b| && b[j] == a[0];
      var rest := b[..j] + b[j + 1..];
      forall i | 0 <= i < |a| - 1
        ensures a[1..][i] in rest
      {
        var m :| 0 <= m < |b| && b[m] == a[i + 1];
        assert m != j;
        if m < j { assert rest[m] == b[m]; } else { assert rest[m - 1] == b[m]; }
      }
      SameMembers(a[1..], rest);
      assert a == [a[0]] + a[1..];
      assert b == b[..j] + [b[j]] + b[j + 1..];
    }
  }

  class MtfDecoder {
    const symbols: array<Byte>

    /** `with_symbols`. */
    constructor WithSymbols(list: seq<Byte>)
      requires |list| == 256
      ensures fresh(symbols) && symbols.Length == 256 && symbols[..] == list
    {
      symbols := new Byte[256](i requires 0 <= i < 256 => list[i]);
      new;
      assert symbols[..] == list;
    }

    /** `decode`: the symbol at `n`, which moves to the front; those before it move up by one, and the
        others stay where they are. */
    method Decode(n: Byte) returns (b: Byte)
      requires symbols.Length == 256
      modifies symbols
      ensures b == old(symbols[..])[n]
      ensures symbols[0] == b
      ensures forall i :: 0 < i <= n ==> symbols[i] == old(symbols[i - 1])
      ensures forall i :: n < i < 256 ==> symbols[i] == old(symbols[i])
      ensures symbols[..] == ToFront(old(symbols[..]), n)
    {
      b := symbols[n];
      if n == 0 {
        assert symbols[..] == ToFront(symbols[..], 0);
        return;
      }
      if n == 1 {
        symbols[1] := symbols[0];
        symbols[0] := b;
        assert symbols[..] == ToFront(old(symbols[..]), 1);
        return;
      }
      CopyWithin(symbols, n);
      symbols[0] := b;
      assert symbols[..] == ToFront(old(symbols[..]), n);
    }

    /** `first`. */
    method First() returns (b: Byte)
      requires symbols.Length == 256
      ensures b == symbols[..][0]
    {
      b := symbols[0];
    }
  }

  /** `copy_within(..n, 1)`: the first `n` elements move up by one. */
  method CopyWithin(a: array<Byte>, n: nat)
    requires n < a.Length
    modifies a
    ensures forall i :: 0 < i <= n ==> a[i] == old(a[i - 1])
    ensures forall i :: 0 <= i < a.Length && !(0 < i <= n) ==> a[i] == old(a[i])
  {
    var i := n;
    while i > 0
      invariant 0 <= i <= n
      invariant forall j :: i < j <= n ==> a[j] == old(a[j - 1])
      invariant forall j :: 0 <= j < a.Length && !(i < j <= n) ==> a[j] == old(a[j])
    {
      a[i] := a[i - 1];
      i := i - 1;
    }
  }
}
