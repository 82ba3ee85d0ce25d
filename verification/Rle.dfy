/** Run-length expansion fused with the pointer chase (`rle2_decode_alloc` and `rle2_decode_into` in
    `src/block.rs`).

    The first form writes into a vector whose capacity is followed here, once as the library guarantees it
    and once as it grows; a write behind that, of which the code notices nothing, becomes the result
    `None`.  The second form writes into a caller's buffer, and its overflow assertions, which abort the
    thread, become the result `None`. */
module Rle {
  import opened Wrappers
  import opened Bits
  import opened BwtTheory
  import opened Bwt
  import opened RleTheory

  /** A table the chase can run on. */
  ghost predicate ChaseTable(ts: seq<U32>, l: seq<Byte>, t: seq<nat>)
  {
    Packed(ts, l, t) && forall j :: 0 <= j < |t| ==> t[j] < |l|
  }

  /** The entry at `pos` gives the next byte of the chase and where it goes on. */
  lemma ChaseStep(ts: seq<U32>, l: seq<Byte>, t: seq<nat>, pos: nat, n: nat)
    requires ChaseTable(ts, l, t) && pos < |ts| && n > 0
    ensures ts[pos] % 256 == l[pos] && ts[pos] / 256 == t[pos] < |ts|
    ensures Chase(l, t, pos, n) == [l[pos]] + Chase(l, t, t[pos], n - 1)
  {
  }

  lemma DecodeCount(st: RunState, b: Byte, rest: seq<Byte>)
    requires st.repeats == 3
    ensures DecodeFrom(st, [b] + rest) == Repeat(st.last, b) + DecodeFrom(st.Reset(), rest)
  {
    assert ([b] + rest)[1..] == rest;
  }

  lemma DecodeLiteral(st: RunState, b: Byte, rest: seq<Byte>)
    requires st.repeats != 3
    ensures DecodeFrom(st, [b] + rest) == [b] + DecodeFrom(st.Push(b), rest)
  {
    assert ([b] + rest)[1..] == rest;
  }

  lemma AppendMiddle(a: seq<Byte>, b: seq<Byte>, c: seq<Byte>)
    ensures a + (b + c) == (a + b) + c
  {
  }

  lemma CountAppends(out: seq<Byte>, st: RunState, b: Byte, rest: seq<Byte>)
    requires st.repeats == 3
    ensures out + DecodeFrom(st, [b] + rest) == (out + Repeat(st.last, b)) + DecodeFrom(st.Reset(), rest)
  {
    hide DecodeFrom, Repeat;
    DecodeCount(st, b, rest);
    AppendMiddle(out, Repeat(st.last, b), DecodeFrom(st.Reset(), rest));
  }

  lemma LiteralAppends(out: seq<Byte>, st: RunState, b: Byte, rest: seq<Byte>)
    requires st.repeats != 3
    ensures out + DecodeFrom(st, [b] + rest) == (out + [b]) + DecodeFrom(st.Push(b), rest)
  {
    hide DecodeFrom;
    DecodeLiteral(st, b, rest);
    AppendMiddle(out, [b], DecodeFrom(st.Push(b), rest));
  }

  /** The allocating form: the expansion, if and only if every write lies inside the vector. */
  method Rle2DecodeAlloc(tt: array<U32>, start: U32, growth: Growth, ghost l: seq<Byte>, ghost t: seq<nat>)
      returns (r: Option<seq<Byte>>)
    requires start < tt.Length && ChaseTable(tt[..], l, t)
    ensures var x := Chase(l, t, start, tt.Length);
      r == if Inside(growth, x) then Some(Decode(x)) else None
  {
    hide DecodeFrom, InsideFrom, Chase;
    var n := tt.Length;
    var capacity: nat := n + n / 4;
    var output: seq<Byte> := [];
    var tPos: U32 := start;
    var hasLast, last: Byte, repeats: nat := false, 0, 0;
    ghost var text := Chase(l, t, start, n);
    ghost var todo := text;
    assert [] + DecodeFrom(START, todo) == DecodeFrom(START, todo);
    for k := 0 to n
      invariant tPos < n && todo == Chase(l, t, tPos, n - k)
      invariant output + DecodeFrom(RunState(hasLast, last, repeats), todo) == Decode(text)
      invariant InsideFrom(growth, RunState(hasLast, last, repeats), |output|, capacity, todo) == Inside(growth, text)
    {
      ghost var st := RunState(hasLast, last, repeats);
      ChaseStep(tt[..], l, t, tPos, n - k);
      assert tt[..][tPos] == tt[tPos];
      var entry := tt[tPos];
      var b := entry % 256;
      tPos := entry / 256;
      todo := Chase(l, t, tPos, n - k - 1);
      if repeats == 3 {
        CountAppends(output, st, b, todo);
        CountStep(growth, st, |output|, capacity, b, todo);
        if |output| + b > capacity {
          capacity := Grown(growth, capacity, |output| + b);
        }
        output := output + Repeat(last, b);
        repeats, hasLast := 0, false;
      } else {
        LiteralAppends(output, st, b, todo);
        LiteralStep(growth, st, |output|, capacity, b, todo);
        repeats := if hasLast && last == b then repeats + 1 else 0;
        last, hasLast := b, true;
        if |output| >= capacity {
          return None;
        }
        output := output + [b];
      }
    }
    assert todo == [] by { assert |todo| == 0; }
    Finished(growth, RunState(hasLast, last, repeats), |output|, capacity);
    assert output + [] == output;
    r := Some(output);
  }

  lemma Finished(growth: Growth, st: RunState, len: nat, capacity: nat)
    ensures DecodeFrom(st, []) == [] && InsideFrom(growth, st, len, capacity, [])
  {
  }

  lemma DecodeEmpty(st: RunState)
    ensures DecodeFrom(st, []) == []
  {
  }

  /** Appending `add` to the first `len` elements of a buffer. */
  lemma BufferAppend(before: seq<Byte>, after: seq<Byte>, len: nat, add: seq<Byte>)
    requires |before| == |after| && len + |add| <= |before|
    requires forall i :: 0 <= i < len ==> after[i] == before[i]
    requires forall i :: len <= i < len + |add| ==> after[i] == add[i - len]
    ensures after[..len + |add|] == before[..len] + add
  {
  }

  lemma TableRange(table: seq<U32>, l: seq<Byte>, t: seq<nat>, start: nat)
    requires ChaseTable(table, l, t) && start < |table|
    ensures |l| == |t| == |table| && forall j :: 0 <= j < |t| ==> t[j] < |l|
  {
  }

  lemma RepeatAll(b: Byte, n: nat)
    ensures |Repeat(b, n)| == n && forall i :: 0 <= i < n ==> Repeat(b, n)[i] == b
  {
  }

  lemma DecodeStart(x: seq<Byte>)
    ensures Decode(x) == DecodeFrom(START, x)
  {
    hide DecodeFrom;
  }

  /** The buffer form agrees with the allocating form exactly when the buffer holds the output, and
      aborts otherwise.  What lies behind the output is untouched. */
  method Rle2DecodeInto(tt: array<U32>, start: U32, out: array<Byte>, ghost l: seq<Byte>, ghost t: seq<nat>)
      returns (written: Option<nat>)
    requires start < tt.Length && ChaseTable(tt[..], l, t)
    modifies out
    ensures var d := Decode(Chase(l, t, start, tt.Length));
      && written == (if |d| <= out.Length then Some(|d|) else None)
      && (written.Some? ==> out[..|d|] == d && out[|d|..] == old(out[..])[|d|..])
  {
    hide DecodeFrom, Chase, Decode, ChaseTable, Repeat;
    TableRange(tt[..], l, t, start);
    DecodeStart(Chase(l, t, start, tt.Length));
    var n := tt.Length;
    ghost var table := tt[..];
    var tPos: U32 := start;
    var outLen: nat := 0;
    var hasLast, last: Byte, repeats: nat := false, 0, 0;
    ghost var text := Chase(l, t, start, n);
    ghost var todo := text;
    assert out[..0] + DecodeFrom(START, todo) == DecodeFrom(START, todo);
    for k := 0 to n
      invariant tPos < n && todo == Chase(l, t, tPos, n - k)
      invariant 0 <= outLen <= out.Length && tt[..] == table
      invariant out[..outLen] + DecodeFrom(RunState(hasLast, last, repeats), todo) == Decode(text)
      invariant forall i :: outLen <= i < out.Length ==> out[i] == old(out[..])[i]
    {
      ghost var st, before := RunState(hasLast, last, repeats), out[..];
      ChaseStep(table, l, t, tPos, n - k);
      assert tt[..][tPos] == tt[tPos];
      var entry := tt[tPos];
      var b := entry % 256;
      tPos := entry / 256;
      todo := Chase(l, t, tPos, n - k - 1);
      if repeats == 3 {
        var count := b;
        CountAppends(before[..outLen], st, b, todo);
        if outLen + count > out.Length {
          return None;
        }
        forall i | outLen <= i < outLen + count {
          out[i] := last;
        }
        RepeatAll(last, b);
        BufferAppend(before, out[..], outLen, Repeat(last, b));
        outLen := outLen + count;
        repeats, hasLast := 0, false;
      } else {
        LiteralAppends(before[..outLen], st, b, todo);
        repeats := if hasLast && last == b then repeats + 1 else 0;
        last, hasLast := b, true;
        if outLen >= out.Length {
          return None;
        }
        out[outLen] := b;
        BufferAppend(before, out[..], outLen, [b]);
        outLen := outLen + 1;
      }
    }
    assert todo == [] by { assert |todo| == 0; }
    DecodeEmpty(RunState(hasLast, last, repeats));
    written := Some(outLen);
  }
}
