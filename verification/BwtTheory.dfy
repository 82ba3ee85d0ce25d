/** The Burrows-Wheeler transform and why the T-vector inverts it.

    A text of `n` bytes has `n` rotations.  Its matrix lists them in lexicographic order; the
    transform is the matrix's last column with the index of a row that equals the text.  Equal
    rotations (a periodic text has them) may stand in any order among themselves, so everything
    below is about the rows as strings and never about which rotation a row came from. */
module BwtTheory {
  import opened Bits
  import opened Permutations

  // ---------------------------------------------------------------------------------------------
  // Lexicographic order
  // ---------------------------------------------------------------------------------------------

  predicate LexLe(a: seq<Byte>, b: seq<Byte>)
  {
    a == [] || (b != [] && (a[0] < b[0] || (a[0] == b[0] && LexLe(a[1..], b[1..]))))
  }

  lemma {:induction false} LexTotal(a: seq<Byte>, b: seq<Byte>)
    ensures LexLe(a, b) || LexLe(b, a)
  {
    if a != [] && b != [] && a[0] == b[0] { LexTotal(a[1..], b[1..]); }
  }

  lemma {:induction false} LexAntisymmetric(a: seq<Byte>, b: seq<Byte>)
    requires LexLe(a, b) && LexLe(b, a)
    ensures a == b
  {
    if a != [] {
      LexAntisymmetric(a[1..], b[1..]);
      assert a == [a[0]] + a[1..] && b == [b[0]] + b[1..];
    }
  }

  lemma {:induction false} LexTransitive(a: seq<Byte>, b: seq<Byte>, c: seq<Byte>)
    requires LexLe(a, b) && LexLe(b, c)
    ensures LexLe(a, c)
  {
    if a != [] && a[0] == b[0] == c[0] { LexTransitive(a[1..], b[1..], c[1..]); }
  }

  /** Dropping the last byte of two equally long strings keeps their order. */
  lemma {:induction false} LexInit(a: seq<Byte>, b: seq<Byte>)
    requires |a| == |b| > 0 && LexLe(a, b)
    ensures LexLe(a[..|a| - 1], b[..|b| - 1])
  {
    if |a| > 1 && a[0] == b[0] {
      LexInit(a[1..], b[1..]);
      assert a[..|a| - 1][1..] == a[1..][..|a| - 2];
      assert b[..|b| - 1][1..] == b[1..][..|b| - 2];
    }
  }

  // ---------------------------------------------------------------------------------------------
  // Rotations and the matrix
  // ---------------------------------------------------------------------------------------------

  function RotateLeft(r: seq<Byte>): (t: seq<Byte>)
    requires r != []
  {
    r[1..] + [r[0]]
  }

  function RotateRight(r: seq<Byte>): (t: seq<Byte>)
    ensures |t| == |r|
  {
    if r == [] then [] else [r[|r| - 1]] + r[..|r| - 1]
  }

  function Rotation(s: seq<Byte>, k: nat): (t: seq<Byte>)
    requires k <= |s|
    ensures |t| == |s|
  {
    s[k..] + s[..k]
  }

  function Rotations(s: seq<Byte>): (rows: seq<seq<Byte>>)
    ensures |rows| == |s|
  {
    seq(|s|, k requires 0 <= k < |s| => Rotation(s, k))
  }

  predicate Sorted(rows: seq<seq<Byte>>)
  {
    forall i, j :: 0 <= i < j < |rows| ==> LexLe(rows[i], rows[j])
  }

  /** `rows` is the sorted rotation matrix of `s`. */
  ghost predicate IsMatrix(rows: seq<seq<Byte>>, s: seq<Byte>)
  {
    && |rows| == |s|
    && (forall i :: 0 <= i < |rows| ==> |rows[i]| == |s|)
    && multiset(rows) == multiset(Rotations(s))
    && Sorted(rows)
  }

  function LastColumn(rows: seq<seq<Byte>>): (l: seq<Byte>)
    requires forall i :: 0 <= i < |rows| ==> rows[i] != []
    ensures |l| == |rows|
  {
    seq(|rows|, i requires 0 <= i < |rows| => rows[i][|rows[i]| - 1])
  }

  /** `last` and `origPtr` are a Burrows-Wheeler transform of `s`. */
  ghost predicate IsBwt(s: seq<Byte>, last: seq<Byte>, origPtr: nat)
  {
    exists rows :: IsMatrix(rows, s) && last == LastColumn(rows) && origPtr < |rows| && rows[origPtr] == s
  }

  // ---------------------------------------------------------------------------------------------
  // Counting: where a stable sort of the last column puts each position
  // ---------------------------------------------------------------------------------------------

  function Count(l: seq<Byte>, b: int): (n: nat)
    ensures n <= |l|
  {
    if l == [] then 0 else Count(l[..|l| - 1], b) + Bit(l[|l| - 1] == b)
  }

  function Less(l: seq<Byte>, b: int): (n: nat)
    ensures n <= |l|
  {
    if l == [] then 0 else Less(l[..|l| - 1], b) + Bit(l[|l| - 1] < b)
  }

  /** The rank of position `i` in a stable sort of `l`. */
  function Target(l: seq<Byte>, i: nat): (t: nat)
    requires i < |l|
  {
    Less(l, l[i]) + Count(l[..i], l[i])
  }

  lemma {:induction false} LessNext(l: seq<Byte>, a: int, b: int)
    requires a < b
    ensures Less(l, a) + Count(l, a) <= Less(l, b) <= |l|
    ensures b == a + 1 ==> Less(l, a) + Count(l, a) == Less(l, b)
  {
    if l != [] { LessNext(l[..|l| - 1], a, b); }
  }

  lemma {:induction false} CountPrefix(l: seq<Byte>, i: nat, j: nat, b: int)
    requires i < j <= |l| && l[i] == b
    ensures Count(l[..i], b) < Count(l[..j], b)
    decreases j
  {
    assert l[..j][..j - 1] == l[..j - 1];
    if i < j - 1 { CountPrefix(l, i, j - 1, b); }
  }

  lemma TargetMonotone(l: seq<Byte>, i: nat, j: nat)
    requires i < |l| && j < |l| && (l[i] < l[j] || (l[i] == l[j] && i < j))
    ensures Target(l, i) < Target(l, j)
  {
    if l[i] < l[j] {
      CountPrefix(l, i, |l|, l[i]);
      assert l[..|l|] == l;
      LessNext(l, l[i], l[j]);
    } else {
      CountPrefix(l, i, j, l[i]);
    }
  }

  lemma TargetInjective(l: seq<Byte>, i: nat, j: nat)
    requires i < |l| && j < |l| && i != j
    ensures Target(l, i) != Target(l, j)
  {
    hide Target;
    if l[i] < l[j] || (l[i] == l[j] && i < j) {
      TargetMonotone(l, i, j);
    } else {
      TargetMonotone(l, j, i);
    }
  }

  lemma TargetBound(l: seq<Byte>, i: nat)
    requires i < |l|
    ensures Target(l, i) < |l|
  {
    CountPrefix(l, i, |l|, l[i]);
    assert l[..|l|] == l;
    var b: int := l[i];
    LessNext(l, b, b + 1);
  }

  function MapRotate(rows: seq<seq<Byte>>): (r: seq<seq<Byte>>)
    ensures |r| == |rows|
    ensures forall i :: 0 <= i < |rows| ==> r[i] == RotateRight(rows[i])
  {
    seq(|rows|, i requires 0 <= i < |rows| => RotateRight(rows[i]))
  }

  lemma {:induction false} MapRotateMultiset(a: seq<seq<Byte>>, b: seq<seq<Byte>>)
    requires multiset(a) == multiset(b)
    ensures multiset(MapRotate(a)) == multiset(MapRotate(b))
    decreases |a|
  {
    assert |a| == |multiset(a)| == |multiset(b)| == |b|;
    if a != [] {
      var m := |a| - 1;
      RemoveAt(a, m);
      assert a[..m] + a[m + 1..] == a[..m];
      assert a[m] in multiset(b);
      var k :| 0 <= k < |b| && b[k] == a[m];
      RemoveAt(b, k);
      var b' := b[..k] + b[k + 1..];
      Cancel(multiset(a[..m]), multiset(b'), a[m]);
      MapRotateMultiset(a[..m], b');
      MapRotateRemove(a, m);
      MapRotateRemove(b, k);
    }
  }

  lemma MapRotateRemove(a: seq<seq<Byte>>, k: nat)
    requires k < |a|
    ensures multiset(MapRotate(a)) == multiset(MapRotate(a[..k] + a[k + 1..])) + multiset{RotateRight(a[k])}
  {
    var f := MapRotate(a);
    RemoveAt(f, k);
    assert MapRotate(a[..k] + a[k + 1..]) == f[..k] + f[k + 1..];
  }

  lemma {:induction false} SortedUnique(a: seq<seq<Byte>>, b: seq<seq<Byte>>)
    requires Sorted(a) && Sorted(b) && multiset(a) == multiset(b)
    ensures a == b
    decreases |a|
  {
    assert |a| == |multiset(a)| == |multiset(b)| == |b|;
    if a != [] {
      FirstLe(a, b);
      FirstLe(b, a);
      LexAntisymmetric(a[0], b[0]);
      RemoveFirst(a);
      RemoveFirst(b);
      Cancel(multiset(a[1..]), multiset(b[1..]), a[0]);
      SortedUnique(a[1..], b[1..]);
    }
  }

  lemma RemoveFirst(a: seq<seq<Byte>>)
    requires a != []
    ensures a == [a[0]] + a[1..] && multiset(a) == multiset(a[1..]) + multiset{a[0]}
    ensures Sorted(a) ==> Sorted(a[1..])
  {
    assert a == [a[0]] + a[1..];
  }

  lemma FirstLe(a: seq<seq<Byte>>, b: seq<seq<Byte>>)
    requires a != [] && b != [] && Sorted(a) && multiset(a) == multiset(b)
    ensures LexLe(a[0], b[0])
  {
    assert b[0] in multiset(a);
    var j :| 0 <= j < |a| && a[j] == b[0];
    LexTotal(a[0], a[0]);
  }

  // ---------------------------------------------------------------------------------------------
  // The T-vector
  // ---------------------------------------------------------------------------------------------

  function Targets(l: seq<Byte>): (t: seq<nat>)
    ensures |t| == |l| && forall i :: 0 <= i < |l| ==> t[i] == Target(l, i)
  {
    seq(|l|, i requires 0 <= i < |l| => Target(l, i))
  }

  lemma TargetsPermute(l: seq<Byte>)
    ensures Injective(Targets(l)) && forall i :: 0 <= i < |l| ==> Targets(l)[i] < |l|
  {
    var t := Targets(l);
    forall i | 0 <= i < |l|
      ensures t[i] < |l|
    {
      TargetBound(l, i);
    }
    forall i, j | 0 <= i < j < |l|
      ensures t[i] != t[j]
    {
      TargetInjective(l, i, j);
    }
  }

  /** `t` is the inverse of the stable sort: entry `j` is the position of the `j`-th smallest byte. */
  ghost predicate IsTVector(l: seq<Byte>, t: seq<nat>)
  {
    && |t| == |l|
    && (forall j {:trigger t[j]} :: 0 <= j < |t| ==> t[j] < |l| && Target(l, t[j]) == j)
    && (forall i {:trigger Target(l, i)} :: 0 <= i < |l| ==> Target(l, i) < |t| && t[Target(l, i)] == i)
  }

  ghost function PositionOfRank(l: seq<Byte>, j: nat): (i: nat)
    requires j < |l|
    ensures i < |l| && Target(l, i) == j
  {
    TargetsPermute(l);
    Surjective(Targets(l), j);
    var i :| 0 <= i < |Targets(l)| && Targets(l)[i] == j;
    i
  }

  ghost function TVector(l: seq<Byte>): (t: seq<nat>)
    ensures IsTVector(l, t)
  {
    TargetsPermute(l);
    var t := seq(|l|, j requires 0 <= j < |l| => PositionOfRank(l, j));
    assert forall i :: 0 <= i < |l| ==> t[Target(l, i)] == i by {
      forall i | 0 <= i < |l|
        ensures Target(l, i) < |l| && t[Target(l, i)] == i
      {
        TargetBound(l, i);
        if t[Target(l, i)] != i { TargetInjective(l, i, t[Target(l, i)]); }
      }
    }
    t
  }

  lemma TVectorInjective(l: seq<Byte>, t: seq<nat>)
    requires IsTVector(l, t)
    ensures Injective(t)
  {
    forall i, j | 0 <= i < j < |t|
      ensures t[i] != t[j]
    {
      assert Target(l, t[i]) == i && Target(l, t[j]) == j;
    }
  }

  /** Following T once turns a row of the matrix into its left rotation. */
  lemma TVectorRotates(s: seq<Byte>, rows: seq<seq<Byte>>, t: seq<nat>, j: nat)
    requires IsMatrix(rows, s) && IsTVector(LastColumn(rows), t) && j < |rows|
    ensures rows[j] == RotateRight(rows[t[j]]) && rows[t[j]] == RotateLeft(rows[j])
  {
    ShiftedIsMatrix(s, rows, t);
    assert rows[j] == Permuted(MapRotate(rows), t)[j];
    RotateBack(rows[t[j]]);
  }

  /** Rotating row `t[j]` right for every `j` lists the matrix again. */
  lemma ShiftedIsMatrix(s: seq<Byte>, rows: seq<seq<Byte>>, t: seq<nat>)
    requires IsMatrix(rows, s) && IsTVector(LastColumn(rows), t)
    ensures Permuted(MapRotate(rows), t) == rows
  {
    ShiftedSorted(s, rows, t);
    TVectorInjective(LastColumn(rows), t);
    PermutedMultiset(MapRotate(rows), t);
    MapRotateMultiset(rows, Rotations(s));
    RotationsClosed(s);
    SortedUnique(Permuted(MapRotate(rows), t), rows);
  }

  lemma ShiftedSorted(s: seq<Byte>, rows: seq<seq<Byte>>, t: seq<nat>)
    requires IsMatrix(rows, s) && IsTVector(LastColumn(rows), t)
    ensures Sorted(Permuted(MapRotate(rows), t))
  {
    var l := LastColumn(rows);
    var shifted := Permuted(MapRotate(rows), t);
    forall i, j | 0 <= i < j < |shifted|
      ensures LexLe(shifted[i], shifted[j])
    {
      var a, b := t[i], t[j];
      assert Target(l, a) == i && Target(l, b) == j;
      if l[b] < l[a] || (l[b] == l[a] && b < a) {
        TargetMonotone(l, b, a);
      } else if l[a] == l[b] {
        assert a != b;
        LexInit(rows[a], rows[b]);
        assert shifted[i][1..] == rows[a][..|s| - 1] && shifted[j][1..] == rows[b][..|s| - 1];
      }
    }
  }

  /** Rotating every rotation right only moves the list round by one. */
  lemma RotationsClosed(s: seq<Byte>)
    ensures multiset(MapRotate(Rotations(s))) == multiset(Rotations(s))
  {
    if s != [] {
      RotationsShift(s, Rotations(s));
      MoveRound(Rotations(s));
    }
  }

  lemma RotationsShift(s: seq<Byte>, rs: seq<seq<Byte>>)
    requires s != [] && rs == Rotations(s)
    ensures MapRotate(rs) == [rs[|rs| - 1]] + rs[..|rs| - 1]
  {
    var n, fs := |s|, MapRotate(rs);
    forall k | 0 <= k < n
      ensures fs[k] == rs[if k == 0 then n - 1 else k - 1]
    {
      RotateRotation(s, k);
    }
  }

  lemma RotateRotation(s: seq<Byte>, k: nat)
    requires k < |s|
    ensures RotateRight(Rotation(s, k)) == Rotation(s, if k == 0 then |s| - 1 else k - 1)
  {
    if k == 0 {
      var m := |s| - 1;
      assert Rotation(s, 0) == s[..m] + [s[m]];
      RotateRightAppend(s[..m], s[m]);
      assert Rotation(s, m) == [s[m]] + s[..m];
    } else {
      var rest := s[k..] + s[..k - 1];
      assert Rotation(s, k) == rest + [s[k - 1]];
      RotateRightAppend(rest, s[k - 1]);
      assert Rotation(s, k - 1) == [s[k - 1]] + rest;
    }
  }

  lemma RotateRightAppend(a: seq<Byte>, x: Byte)
    ensures RotateRight(a + [x]) == [x] + a
  {
    assert (a + [x])[..|a|] == a;
  }

  lemma RotateBack(r: seq<Byte>)
    requires r != []
    ensures RotateLeft(RotateRight(r)) == r
  {
    assert RotateRight(r)[1..] == r[..|r| - 1];
  }

  lemma MoveRound<A>(a: seq<A>)
    requires a != []
    ensures multiset([a[|a| - 1]] + a[..|a| - 1]) == multiset(a)
  {
    assert a == a[..|a| - 1] + [a[|a| - 1]];
  }

  // ---------------------------------------------------------------------------------------------
  // The chase
  // ---------------------------------------------------------------------------------------------

  /** The `n` bytes met when following T from `pos`. */
  function Chase(l: seq<Byte>, t: seq<nat>, pos: nat, n: nat): (r: seq<Byte>)
    requires |t| == |l| && (forall j :: 0 <= j < |t| ==> t[j] < |l|) && pos < |l|
    ensures |r| == n
    decreases n
  {
    if n == 0 then [] else [l[pos]] + Chase(l, t, t[pos], n - 1)
  }

  lemma {:induction false} ChaseRow(s: seq<Byte>, rows: seq<seq<Byte>>, t: seq<nat>, j: nat, m: nat)
    requires IsMatrix(rows, s) && IsTVector(LastColumn(rows), t) && j < |rows| && m <= |s|
    ensures Chase(LastColumn(rows), t, t[j], m) == rows[j][..m]
    decreases m
  {
    if m > 0 {
      var r := rows[j];
      TVectorRotates(s, rows, t, j);
      ChaseRow(s, rows, t, t[j], m - 1);
      assert RotateLeft(r)[..m - 1] == r[1..m];
      assert r[..m] == [r[0]] + r[1..m];
    }
  }

  /** The chase from the successor of the text's row gives the text back. */
  lemma ChaseInvertsBwt(s: seq<Byte>, last: seq<Byte>, origPtr: nat, t: seq<nat>)
    requires IsBwt(s, last, origPtr) && IsTVector(last, t)
    ensures origPtr < |last| == |s| && Chase(last, t, t[origPtr], |s|) == s
  {
    var rows :| IsMatrix(rows, s) && last == LastColumn(rows) && origPtr < |rows| && rows[origPtr] == s;
    ChaseRow(s, rows, t, origPtr, |s|);
  }

  // ---------------------------------------------------------------------------------------------
  // Every nonempty text has a transform
  // ---------------------------------------------------------------------------------------------

  function InsertRow(r: seq<Byte>, rows: seq<seq<Byte>>): (out: seq<seq<Byte>>)
    requires Sorted(rows)
    ensures Sorted(out) && multiset(out) == multiset(rows) + multiset{r}
  {
    if rows == [] then [r]
    else if LexLe(r, rows[0]) then
      RowInFront(r, rows);
      [r] + rows
    else
      LexTotal(r, rows[0]);
      var rest := InsertRow(r, rows[1..]);
      RowBehind(r, rows, rest);
      [rows[0]] + rest
  }

  lemma RowInFront(r: seq<Byte>, rows: seq<seq<Byte>>)
    requires Sorted(rows) && rows != [] && LexLe(r, rows[0])
    ensures Sorted([r] + rows)
  {
    forall i | 0 < i < |rows|
      ensures LexLe(r, rows[i])
    {
      LexTransitive(r, rows[0], rows[i]);
    }
  }

  lemma RowBehind(r: seq<Byte>, rows: seq<seq<Byte>>, rest: seq<seq<Byte>>)
    requires Sorted(rows) && rows != [] && LexLe(rows[0], r)
    requires Sorted(rest) && multiset(rest) == multiset(rows[1..]) + multiset{r}
    ensures Sorted([rows[0]] + rest) && multiset([rows[0]] + rest) == multiset(rows) + multiset{r}
  {
    hide LexLe;
    assert rows == [rows[0]] + rows[1..];
    forall i | 0 <= i < |rest|
      ensures LexLe(rows[0], rest[i])
    {
      assert rest[i] in multiset(rest);
    }
  }

  function SortRows(rows: seq<seq<Byte>>): (out: seq<seq<Byte>>)
    ensures Sorted(out) && multiset(out) == multiset(rows)
  {
    if rows == [] then []
    else
      assert rows == [rows[0]] + rows[1..];
      InsertRow(rows[0], SortRows(rows[1..]))
  }

  lemma BwtExists(s: seq<Byte>) returns (last: seq<Byte>, origPtr: nat)
    requires s != []
    ensures IsBwt(s, last, origPtr)
  {
    var rots := Rotations(s);
    var rows := SortRows(rots);
    assert |rows| == |multiset(rows)| == |multiset(rots)| == |s|;
    forall i | 0 <= i < |rows|
      ensures |rows[i]| == |s|
    {
      assert rows[i] in multiset(rots);
    }
    assert rots[0] == s;
    assert s in multiset(rows);
    origPtr :| 0 <= origPtr < |rows| && rows[origPtr] == s;
    last := LastColumn(rows);
  }
}
