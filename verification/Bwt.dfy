/** The in-place inverse Burrows-Wheeler transform (`src/bwt.rs`).

    An entry of `tt` is a `u32`: a byte of the last column in the low 8 bits, the next index of the
    chase in the upper 24. */
module Bwt {
  import opened Bits
  import opened BwtTheory

  /** The low bytes of the entries. */
  function Column(ts: seq<U32>): (l: seq<Byte>)
    ensures |l| == |ts| && forall i :: 0 <= i < |ts| ==> l[i] == ts[i] % 256
  {
    seq(|ts|, i requires 0 <= i < |ts| => ts[i] % 256)
  }

  /** The entries hold the bytes `l` and the indices `t`. */
  ghost predicate Packed(ts: seq<U32>, l: seq<Byte>, t: seq<nat>)
  {
    |ts| == |l| == |t| && forall j :: 0 <= j < |ts| ==> ts[j] == l[j] + 256 * t[j]
  }

  /** `counts` is the histogram of `l`. */
  predicate IsHistogram(counts: seq<nat>, l: seq<Byte>)
  {
    |counts| == 256 && forall b :: 0 <= b < 256 ==> counts[b] == Count(l, b)
  }

  lemma {:induction false} LessZero(l: seq<Byte>)
    ensures Less(l, 0) == 0
  {
    if l != [] { LessZero(l[..|l| - 1]); }
  }

  lemma CountPush(l: seq<Byte>, i: nat, b: int)
    requires i < |l|
    ensures Count(l[..i + 1], b) == Count(l[..i], b) + Bit(l[i] == b)
  {
    assert l[..i + 1][..i] == l[..i];
  }

  /** Storing index `i` above the byte of an entry. */
  lemma StoreIndex(entry: U32, i: nat)
    requires entry < 256 && i < 0x100_0000
    ensures Or32(entry, Shl32(i, 8)) == entry + 256 * i
  {
    hide BitOr;
    assert Pow2(8) == 256;
    BitOrDisjoint(entry, i, 8);
  }

  /** After `b` steps of the first loop the counts below `b` have become cumulative. */
  ghost predicate Summed(c: seq<U32>, l: seq<Byte>, b: nat)
  {
    |c| == 256 && forall v :: 0 <= v < 256 ==> c[v] == if v < b then Less(l, v) else Count(l, v)
  }

  /** Before step `i` of the second loop, counter `b` is the target of the next `b` in the column. */
  ghost predicate Counters(c: seq<U32>, l: seq<Byte>, i: nat)
    requires i <= |l|
  {
    |c| == 256 && forall b :: 0 <= b < 256 ==> c[b] == Less(l, b) + Count(l[..i], b)
  }

  /** Before step `i` of the second loop the indices below `i` have been stored. */
  ghost predicate Stored(ts: seq<U32>, l: seq<Byte>, t: seq<nat>, i: nat)
  {
    |ts| == |l| == |t| && forall j :: 0 <= j < |ts| ==> ts[j] == l[j] + (if t[j] < i then 256 * t[j] else 0)
  }

  lemma StoredStart(ts: seq<U32>, l: seq<Byte>, t: seq<nat>)
    requires (forall i :: 0 <= i < |ts| ==> ts[i] < 256) && l == Column(ts) && |t| == |l|
    ensures Stored(ts, l, t, 0)
  {
  }

  lemma StoredByte(ts: seq<U32>, l: seq<Byte>, t: seq<nat>, i: nat, j: nat)
    requires Stored(ts, l, t, i) && j < |ts|
    ensures ts[j] % 256 == l[j] && (t[j] < i ==> ts[j] / 256 == t[j])
  {
  }

  lemma StoredEnd(ts: seq<U32>, l: seq<Byte>, t: seq<nat>)
    requires IsTVector(l, t) && Stored(ts, l, t, |l|)
    ensures Packed(ts, l, t)
  {
    hide Target;
  }

  lemma CountersStep(c: seq<U32>, l: seq<Byte>, i: nat)
    requires i < |l| < 0x100_0000 && Counters(c, l, i)
    ensures c[l[i]] == Target(l, i) < |l|
    ensures Counters(c[l[i] := c[l[i]] + 1], l, i + 1)
  {
    TargetBound(l, i);
    forall b | 0 <= b < 256
      ensures Count(l[..i + 1], b) == Count(l[..i], b) + Bit(l[i] == b)
    {
      CountPush(l, i, b);
    }
  }

  lemma StoredStep(ts: seq<U32>, l: seq<Byte>, t: seq<nat>, i: nat)
    requires i < |l| < 0x100_0000 && IsTVector(l, t) && Stored(ts, l, t, i)
    ensures Target(l, i) < |l|
    ensures Stored(ts[Target(l, i) := Or32(ts[Target(l, i)], Shl32(i, 8))], l, t, i + 1)
  {
    hide Target, Or32, Shl32;
    var k := Target(l, i);
    assert k < |l| && t[k] == i;
    StoreIndex(ts[k], i);
    forall j | 0 <= j < |l| && j != k
      ensures t[j] != i
    {
      assert Target(l, t[j]) == j;
    }
  }

  /** The first loop: counts become the number of smaller bytes. */
  method CumulativeCounts(c: array<U32>, ghost l: seq<Byte>)
    requires |l| < 0x100_0000 && Summed(c[..], l, 0)
    modifies c
    ensures Counters(c[..], l, 0)
  {
    var sum: U32 := 0;
    LessZero(l);
    for b := 0 to 256
      invariant c.Length == 256 && sum == Less(l, b)
      invariant Summed(c[..], l, b)
    {
      LessNext(l, b, b + 1);
      var count := c[..][b];
      ghost var before := c[..];
      c[b] := sum;
      assert c[..] == before[b := sum];
      sum := sum + count;
    }
  }

  /** Turns the last column into the packed T-vector of that column; the result is the entry point
      of the chase for row `origPtr`. */
  method InverseBwt(tt: array<U32>, origPtr: nat, counts: seq<U32>) returns (tPos: U32)
    requires origPtr < tt.Length < 0x100_0000
    requires forall i :: 0 <= i < tt.Length ==> tt[i] < 256
    requires IsHistogram(counts, Column(tt[..]))
    modifies tt
    ensures Packed(tt[..], Column(old(tt[..])), TVector(Column(old(tt[..]))))
    ensures tPos == TVector(Column(old(tt[..])))[origPtr]
  {
    hide Target, Or32, Shl32, Stored, Counters, Count, Less;
    ghost var l := Column(tt[..]);
    ghost var t := TVector(l);
    var c := new U32[256](i requires 0 <= i < 256 => counts[i]);
    assert c[..] == counts;
    CumulativeCounts(c, l);
    StoredStart(tt[..], l, t);
    for i := 0 to tt.Length
      invariant Counters(c[..], l, i) && Stored(tt[..], l, t, i)
    {
      var b := tt[i] % 256;
      StoredByte(tt[..], l, t, i, i);
      assert tt[..][i] == tt[i];
      CountersStep(c[..], l, i);
      StoredStep(tt[..], l, t, i);
      ghost var before, cBefore := tt[..], c[..];
      var k := c[b];
      tt[k] := Or32(tt[k], Shl32(i, 8));
      assert tt[..] == before[k := Or32(before[k], Shl32(i, 8))];
      c[b] := c[b] + 1;
      assert c[..] == cBefore[b := cBefore[b] + 1];
    }
    StoredByte(tt[..], l, t, tt.Length, origPtr);
    StoredEnd(tt[..], l, t);
    assert tt[..][origPtr] == tt[origPtr];
    tPos := tt[origPtr] / 256;
  }

  /** `next_byte`: one step of the chase. */
  method NextByte(tt: array<U32>, tPos: U32, ghost l: seq<Byte>, ghost t: seq<nat>) returns (b: Byte, next: U32)
    requires tPos < tt.Length && Packed(tt[..], l, t)
    ensures b == l[tPos] && next == t[tPos]
  {
    assert tt[..][tPos] == l[tPos] + 256 * t[tPos];
    var entry := tt[tPos];
    b := entry % 256;
    next := entry / 256;
  }

  /** The unfused decode: `n` calls of `next_byte` after `inverse_bwt` give the text back, whatever
      the order among equal rotations, and no index leaves the table. */
  method DecodeText(tt: array<U32>, origPtr: nat, counts: seq<U32>, ghost s: seq<Byte>) returns (text: seq<Byte>)
    requires 0 < tt.Length < 0x100_0000
    requires forall i :: 0 <= i < tt.Length ==> tt[i] < 256
    requires IsHistogram(counts, Column(tt[..])) && IsBwt(s, Column(tt[..]), origPtr)
    modifies tt
    ensures text == s
  {
    hide IsBwt, IsHistogram, Target, Packed, TVector;
    ghost var l := Column(tt[..]);
    ghost var t := TVector(l);
    ChaseInvertsBwt(s, l, origPtr, t);
    var tPos: U32 := InverseBwt(tt, origPtr, counts);
    ghost var packed := tt[..];
    text := [];
    for k := 0 to tt.Length
      invariant tPos < tt.Length && tt[..] == packed
      invariant text + Chase(l, t, tPos, tt.Length - k) == s
    {
      ghost var before := tPos;
      var b;
      b, tPos := NextByte(tt, tPos, l, t);
      ghost var rest := Chase(l, t, tPos, tt.Length - (k + 1));
      assert Chase(l, t, before, tt.Length - k) == [b] + rest;
      assert text + ([b] + rest) == (text + [b]) + rest;
      text := text + [b];
    }
  }
}
