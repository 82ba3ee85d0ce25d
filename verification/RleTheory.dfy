/** The byte-level run-length code of bzip2: a run of four equal bytes is followed by a count byte.

    `Decode` is the decoder's state machine on plain byte strings, `Encode` the compressor's side. */
module RleTheory {
  import opened Bits

  /** What the decoder remembers: the previous byte, if it may start a run, and how many times it has
      been repeated since it first occurred. */
  datatype RunState = RunState(hasLast: bool, last: Byte, repeats: nat)
  {
    predicate Valid()
    {
      repeats <= 3 && (!hasLast ==> repeats == 0)
    }

    /** How many equal literals stand at the end of what has been read. */
    function Level(): nat
    {
      if hasLast then repeats + 1 else 0
    }

    /** The state after a literal byte. */
    function Push(b: Byte): RunState
    {
      RunState(true, b, if hasLast && last == b then repeats + 1 else 0)
    }

    /** The state after a count byte. */
    function Reset(): RunState
    {
      RunState(false, last, 0)
    }
  }

  const START := RunState(false, 0, 0)

  function Repeat(b: Byte, n: nat): (r: seq<Byte>)
    ensures |r| == n
  {
    seq(n, _ => b)
  }

  function DecodeFrom(st: RunState, x: seq<Byte>): (out: seq<Byte>)
    decreases |x|
  {
    if x == [] then []
    else if st.repeats == 3 then Repeat(st.last, x[0]) + DecodeFrom(st.Reset(), x[1..])
    else [x[0]] + DecodeFrom(st.Push(x[0]), x[1..])
  }

  function Decode(x: seq<Byte>): (out: seq<Byte>)
  {
    DecodeFrom(START, x)
  }

  // ---------------------------------------------------------------------------------------------
  // The encoder and the round trip
  // ---------------------------------------------------------------------------------------------

  /** The length of the run at the front of `d`, at most `max`. */
  function RunLength(d: seq<Byte>, max: nat): (n: nat)
    requires d != [] && max >= 1
    ensures 1 <= n <= |d| && n <= max && d[..n] == Repeat(d[0], n)
    ensures n < max && n < |d| ==> d[n] != d[0]
  {
    if |d| == 1 || max == 1 || d[1] != d[0] then 1
    else
      var m := RunLength(d[1..], max - 1);
      assert d[..m + 1] == [d[0]] + d[1..][..m];
      1 + m
  }

  /** A run of `n` bytes: up to three as they are, four to 255 as four bytes and a count. */
  function EncodeRun(b: Byte, n: nat): (x: seq<Byte>)
    requires 1 <= n <= 255
  {
    if n < 4 then Repeat(b, n) else Repeat(b, 4) + [n - 4]
  }

  function Encode(d: seq<Byte>): (x: seq<Byte>)
    decreases |d|
  {
    if d == [] then []
    else
      var n := RunLength(d, 255);
      EncodeRun(d[0], n) + Encode(d[n..])
  }

  /** `d` does not continue the run the decoder is in. */
  predicate Fresh(st: RunState, d: seq<Byte>)
  {
    st.Valid() && st.repeats < 3 && (d != [] && st.hasLast ==> d[0] != st.last)
  }

  /** Up to four equal literals are copied and raise the level. */
  lemma {:induction false} DecodeLiterals(st: RunState, b: Byte, k: nat, rest: seq<Byte>)
    requires st.Valid() && (st.hasLast && st.last == b ==> k + st.repeats <= 3)
    requires st.repeats < 3 && k <= 4 && k >= 1
    ensures var first := if st.hasLast && st.last == b then st.repeats + k else k - 1;
      DecodeFrom(st, Repeat(b, k) + rest) == Repeat(b, k) + DecodeFrom(RunState(true, b, first), rest)
    decreases k
  {
    var x := Repeat(b, k) + rest;
    assert x[0] == b && x[1..] == Repeat(b, k - 1) + rest;
    if k == 1 {
      assert x[1..] == rest;
      assert Repeat(b, 1) == [b];
    } else {
      DecodeLiterals(st.Push(b), b, k - 1, rest);
      assert [b] + Repeat(b, k - 1) == Repeat(b, k);
      var tail := DecodeFrom(RunState(true, b, if st.hasLast && st.last == b then st.repeats + k else k - 1), rest);
      assert [b] + (Repeat(b, k - 1) + tail) == ([b] + Repeat(b, k - 1)) + tail;
    }
  }

  lemma DecodeRun(st: RunState, b: Byte, n: nat, rest: seq<Byte>)
    requires Fresh(st, [b]) && 1 <= n <= 255
    ensures DecodeFrom(st, EncodeRun(b, n) + rest)
         == Repeat(b, n) + DecodeFrom(AfterRun(b, n), rest)
  {
    if n < 4 {
      DecodeLiterals(st, b, n, rest);
    } else {
      var counted := [n - 4] + rest;
      assert EncodeRun(b, n) + rest == Repeat(b, 4) + counted;
      DecodeLiterals(st, b, 4, counted);
      assert counted[1..] == rest;
      var tail := DecodeFrom(RunState(false, b, 0), rest);
      assert Repeat(b, 4) + (Repeat(b, n - 4) + tail) == (Repeat(b, 4) + Repeat(b, n - 4)) + tail;
      assert Repeat(b, 4) + Repeat(b, n - 4) == Repeat(b, n);
    }
  }

  /** The state after a run of `n` bytes has been encoded and decoded. */
  function AfterRun(b: Byte, n: nat): RunState
    requires n >= 1
  {
    if n < 4 then RunState(true, b, n - 1) else RunState(false, b, 0)
  }

  lemma FreshAfterRun(d: seq<Byte>)
    requires d != []
    ensures Fresh(AfterRun(d[0], RunLength(d, 255)), d[RunLength(d, 255)..])
  {
  }

  lemma {:induction false} DecodeEncodeFrom(st: RunState, d: seq<Byte>)
    requires Fresh(st, d)
    ensures DecodeFrom(st, Encode(d)) == d
    decreases |d|
  {
    if d != [] {
      var b, n := d[0], RunLength(d, 255);
      FreshAfterRun(d);
      DecodeRun(st, b, n, Encode(d[n..]));
      assert DecodeFrom(st, Encode(d)) == Repeat(b, n) + d[n..] by {
        hide Fresh, RunLength, EncodeRun, DecodeFrom;
        DecodeEncodeFrom(AfterRun(b, n), d[n..]);
      }
      assert d == d[..n] + d[n..];
    }
  }

  /** Decoding inverts encoding, on every byte string. */
  lemma DecodeEncode(d: seq<Byte>)
    ensures Decode(Encode(d)) == d
  {
    DecodeEncodeFrom(START, d);
  }

  lemma EncodeNonempty(d: seq<Byte>)
    requires d != []
    ensures Encode(d) != []
  {
  }

  /** The first byte always goes out, so nonempty input gives nonempty output. */
  lemma DecodeNonempty(x: seq<Byte>)
    requires x != []
    ensures Decode(x) != []
  {
  }

  // ---------------------------------------------------------------------------------------------
  // How long the output can be
  // ---------------------------------------------------------------------------------------------

  /** The longest output of `n` input bytes: 259 bytes for every five, one for each left over. */
  function MaxLength(n: nat): nat
  {
    259 * (n / 5) + n % 5
  }

  lemma MaxLengthSteps(n: nat)
    ensures MaxLength(n + 1) >= MaxLength(n) + 1
    ensures MaxLength(n + 5) == MaxLength(n) + 259
  {
  }

  lemma {:induction false} MaxLengthGrows(n: nat, j: nat)
    ensures MaxLength(n + j) >= MaxLength(n) + j
  {
    if j > 0 {
      MaxLengthGrows(n, j - 1);
      MaxLengthSteps(n + j - 1);
    }
  }

  lemma {:induction false} LengthBoundFrom(st: RunState, x: seq<Byte>)
    requires st.Valid()
    ensures |DecodeFrom(st, x)| + st.Level() <= MaxLength(|x| + st.Level())
    decreases |x|
  {
    var j := st.Level();
    if x == [] {
    } else if st.repeats == 3 {
      LengthBoundFrom(st.Reset(), x[1..]);
      MaxLengthSteps(|x| - 1);
    } else {
      LengthBoundFrom(st.Push(x[0]), x[1..]);
      if st.Push(x[0]).Level() != j + 1 {
        MaxLengthGrows(|x|, j);
      }
    }
  }

  /** The input of `n` bytes with the longest output. */
  function Worst(n: nat): (x: seq<Byte>)
    ensures |x| == n
  {
    if n < 5 then Repeat(0, n) else [0, 0, 0, 0, 255] + Worst(n - 5)
  }

  lemma {:induction false} WorstLength(n: nat, last: Byte)
    ensures |DecodeFrom(RunState(false, last, 0), Worst(n))| == MaxLength(n)
    decreases n
  {
    var st := RunState(false, last, 0);
    if n == 0 {
    } else if n < 5 {
      DecodeLiterals(st, 0, n, []);
      assert Repeat(0, n) + [] == Repeat(0, n);
    } else {
      var rest := Worst(n - 5);
      assert [0, 0, 0, 0, 255] == Repeat(0, 4) + [255];
      var counted: seq<Byte> := [255] + rest;
      assert Worst(n) == Repeat(0, 4) + counted;
      DecodeLiterals(st, 0, 4, counted);
      assert counted[1..] == rest;
      WorstLength(n - 5, 0);
      MaxLengthSteps(n - 5);
    }
  }

  /** The bound holds for every input and is reached for every input length. */
  lemma LengthBound(x: seq<Byte>)
    ensures |Decode(x)| <= MaxLength(|x|)
    ensures |Decode(Worst(|x|))| == MaxLength(|x|)
  {
    LengthBoundFrom(START, x);
    WorstLength(|x|, 0);
  }

  /** An output buffer of `m + m / 4` bytes holds the output of every block of at most `m` bytes
      exactly when `m < 5`; for every larger block size some block overflows it. */
  lemma QuarterHeadroom(m: nat)
    ensures (forall x: seq<Byte> :: |x| <= m ==> |Decode(x)| <= m + m / 4) <==> m < 5
  {
    if m < 5 {
      forall x: seq<Byte> | |x| <= m
        ensures |Decode(x)| <= m + m / 4
      {
        LengthBound(x);
      }
    } else {
      LengthBound(Worst(m));
      assert |Worst(m)| <= m;
    }
  }

  // ---------------------------------------------------------------------------------------------
  // The vector that grows
  // ---------------------------------------------------------------------------------------------

  /** The decoder's state behind a string. */
  function After(st: RunState, x: seq<Byte>): RunState
    decreases |x|
  {
    if x == [] then st else After(if st.repeats == 3 then st.Reset() else st.Push(x[0]), x[1..])
  }

  lemma {:induction false} DecodeAppend(st: RunState, x: seq<Byte>, y: seq<Byte>)
    ensures DecodeFrom(st, x + y) == DecodeFrom(st, x) + DecodeFrom(After(st, x), y)
    ensures After(st, x + y) == After(After(st, x), y)
    decreases |x|
  {
    if x == [] {
      assert x + y == y;
    } else {
      assert (x + y)[0] == x[0] && (x + y)[1..] == x[1..] + y;
      DecodeAppend(if st.repeats == 3 then st.Reset() else st.Push(x[0]), x[1..], y);
    }
  }

  /** The capacity `rle2_decode_alloc` begins with for `n` input bytes. */
  function Room(n: nat): nat
  {
    n + n / 4
  }

  /** What capacity a vector has after reserving: as much as was asked for, which is what the library
      guarantees, or the double of the old one if that is more, which is what it does. */
  datatype Growth = Guaranteed | Doubling

  function Grown(g: Growth, cap: nat, need: nat): nat
  {
    if g.Doubling? && 2 * cap > need then 2 * cap else need
  }

  /** Every write lies inside the vector, which holds `len` bytes and has room for `cap`.  Room is
      reserved in front of a repetition and never in front of a literal. */
  predicate InsideFrom(g: Growth, st: RunState, len: nat, cap: nat, x: seq<Byte>)
    decreases |x|
  {
    if x == [] then true
    else if st.repeats == 3 then
      InsideFrom(g, st.Reset(), len + x[0], if len + x[0] > cap then Grown(g, cap, len + x[0]) else cap, x[1..])
    else len < cap && InsideFrom(g, st.Push(x[0]), len + 1, cap, x[1..])
  }

  predicate Inside(g: Growth, x: seq<Byte>)
  {
    InsideFrom(g, START, 0, Room(|x|), x)
  }

  /** The byte at `i` is a literal. */
  predicate IsLiteral(x: seq<Byte>, i: nat)
    requires i < |x|
  {
    After(START, x[..i]).repeats != 3
  }

  /** The string without its last byte if that is a count. */
  function WithoutLastCount(x: seq<Byte>): (y: seq<Byte>)
    ensures |y| <= |x| && y == x[..|y|]
  {
    if x != [] && !IsLiteral(x, |x| - 1) then x[..|x| - 1] else x
  }

  lemma DecodePrefix(x: seq<Byte>, i: nat)
    requires i < |x|
    ensures |Decode(x[..i + 1])| == |Decode(x[..i])| + (if IsLiteral(x, i) then 1 else x[i])
    ensures |Decode(x[..i + 1])| <= |Decode(x)|
  {
    assert x[..i + 1] == x[..i] + [x[i]];
    DecodeAppend(START, x[..i], [x[i]]);
    assert x == x[..i + 1] + x[i + 1..];
    DecodeAppend(START, x[..i + 1], x[i + 1..]);
  }

  /** When room is reserved, the vector is full behind the repetition: with the guaranteed capacity the
      writes stay inside exactly when every literal falls into the room of the beginning. */
  lemma {:induction false} LiteralsInside(x: seq<Byte>, k: nat, cap: nat)
    requires k <= |x| && (cap == Room(|x|) || |Decode(x[..k])| >= cap >= Room(|x|))
    ensures InsideFrom(Guaranteed, After(START, x[..k]), |Decode(x[..k])|, cap, x[k..])
       <==> forall i :: k <= i < |x| && IsLiteral(x, i) ==> |Decode(x[..i])| < Room(|x|)
    decreases |x| - k
  {
    hide Decode, After, IsLiteral;
    if k < |x| {
      var st, len := After(START, x[..k]), |Decode(x[..k])|;
      var next := if IsLiteral(x, k) then cap else if len + x[k] > cap then len + x[k] else cap;
      DecodePrefix(x, k);
      NextState(x, k);
      LiteralsInside(x, k + 1, next);
    }
  }

  lemma NextState(x: seq<Byte>, k: nat)
    requires k < |x|
    ensures x[k..][0] == x[k] && x[k..][1..] == x[k + 1..]
    ensures IsLiteral(x, k) <==> After(START, x[..k]).repeats != 3
    ensures After(START, x[..k + 1])
         == if IsLiteral(x, k) then After(START, x[..k]).Push(x[k]) else After(START, x[..k]).Reset()
  {
    assert x[..k + 1] == x[..k] + [x[k]];
    DecodeAppend(START, x[..k], [x[k]]);
    assert [x[k]][1..] == [];
  }

  /** So exactly when the expansion of everything but a last count fits into a quarter more than the
      string is long. */
  lemma InsideIff(x: seq<Byte>)
    ensures Inside(Guaranteed, x) <==> forall i :: 0 <= i < |x| && IsLiteral(x, i) ==> |Decode(x[..i])| < Room(|x|)
    ensures Inside(Guaranteed, x) <==> |Decode(WithoutLastCount(x))| <= Room(|x|)
  {
    hide Decode, IsLiteral, InsideFrom;
    Beginning(x);
    LiteralsInside(x, 0, Room(|x|));
    var y := WithoutLastCount(x);
    LiteralLast(x);
    if |Decode(y)| <= Room(|x|) {
      forall i | 0 <= i < |x| && IsLiteral(x, i)
        ensures |Decode(x[..i])| < Room(|x|)
      {
        DecodePrefix(x, i);
        LiteralInPrefix(x, |y|, i);
      }
    }
  }

  lemma Beginning(x: seq<Byte>)
    ensures x[..0] == [] && x[0..] == x && After(START, []) == START && Decode([]) == []
  {
  }

  /** The last byte of the rest is a literal. */
  lemma LiteralLast(x: seq<Byte>)
    ensures var y := WithoutLastCount(x);
      && (y != [] ==> IsLiteral(x, |y| - 1) && |Decode(y)| == |Decode(x[..|y| - 1])| + 1)
      && (forall i :: 0 <= i < |x| && IsLiteral(x, i) ==> i < |y|)
  {
    hide Decode;
    var y := WithoutLastCount(x);
    if y != [] {
      if |y| < |x| { CountFollowsLiteral(x, |x| - 1); }
      DecodePrefix(x, |y| - 1);
    }
  }

  /** In front of a count stands a literal. */
  lemma CountFollowsLiteral(x: seq<Byte>, k: nat)
    requires 0 < k < |x| && !IsLiteral(x, k)
    ensures IsLiteral(x, k - 1)
  {
    NextState(x, k - 1);
  }

  lemma LiteralInPrefix(x: seq<Byte>, n: nat, i: nat)
    requires i < n <= |x|
    ensures |Decode(x[..i + 1])| <= |Decode(x[..n])|
  {
    DecodePrefix(x[..n], i);
    assert x[..n][..i + 1] == x[..i + 1];
  }

  /** In particular when the whole expansion fits. */
  lemma InsideIfFits(x: seq<Byte>)
    requires |Decode(x)| <= Room(|x|)
    ensures Inside(Guaranteed, x)
  {
    hide Decode, IsLiteral;
    InsideIff(x);
    var y := WithoutLastCount(x);
    if y != [] { DecodePrefix(x, |y| - 1); }
    Beginning(x);
  }

  /** Whatever more capacity the vector gets does no harm. */
  lemma {:induction false} MoreRoom(g: Growth, st: RunState, len: nat, cap: nat, more: nat, x: seq<Byte>)
    requires InsideFrom(Guaranteed, st, len, cap, x) && cap <= more
    ensures InsideFrom(g, st, len, more, x)
    decreases |x|
  {
    if x != [] {
      if st.repeats == 3 {
        var need := len + x[0];
        MoreRoom(g, st.Reset(), need, if need > cap then need else cap, if need > more then Grown(g, more, need) else more, x[1..]);
      } else {
        MoreRoom(g, st.Push(x[0]), len + 1, cap, more, x[1..]);
      }
    }
  }

  // ---------------------------------------------------------------------------------------------
  // Strings at the limits
  // ---------------------------------------------------------------------------------------------

  /** `n` bytes without runs. */
  function Alternating(n: nat): (x: seq<Byte>)
    ensures |x| == n
  {
    seq(n, i => 2 + i % 2)
  }

  /** A text for which the vector is too short: a run of 255 bytes, and 100 bytes without runs. */
  function RunAndMore(): (d: seq<Byte>)
    ensures |d| == 355
  {
    Repeat(1, 255) + Alternating(100)
  }

  lemma {:induction false} EncodeAlternating(k: nat)
    requires k <= 100
    ensures Encode(Alternating(100)[k..]) == Alternating(100)[k..]
    decreases 100 - k
  {
    if k < 100 {
      var d := Alternating(100)[k..];
      assert RunLength(d, 255) == 1;
      assert d[1..] == Alternating(100)[k + 1..];
      EncodeAlternating(k + 1);
      assert Repeat(d[0], 1) == [d[0]];
      assert d == [d[0]] + d[1..];
    }
  }

  lemma {:induction false} LongRun(b: Byte, n: nat, rest: seq<Byte>, max: nat)
    requires 1 <= max <= n && (rest != [] ==> rest[0] != b)
    ensures RunLength(Repeat(b, n) + rest, max) == max
    decreases max
  {
    var d := Repeat(b, n) + rest;
    if max > 1 {
      assert d[1..] == Repeat(b, n - 1) + rest;
      LongRun(b, n - 1, rest, max - 1);
    }
  }

  /** Its run-length form has 105 bytes, so the vector begins with 131.  Behind the run it has the
      255 bytes that were reserved, or 262 if its capacity was doubled, and the other bytes are written
      behind its end. */
  lemma RunAndMoreOverruns(g: Growth)
    ensures |Encode(RunAndMore())| == 105 && !Inside(g, Encode(RunAndMore()))
  {
    hide Encode, InsideFrom, RunLength;
    var d, y := RunAndMore(), Alternating(100);
    LongRun(1, 255, y, 255);
    assert d[255..] == y && y[0..] == y;
    EncodeAlternating(0);
    EncodeStep(d, 255);
    Overrun(g, y);
  }

  lemma EncodeStep(d: seq<Byte>, n: nat)
    requires d != [] && RunLength(d, 255) == n == 255
    ensures Encode(d) == [d[0], d[0], d[0], d[0], 251] + Encode(d[255..])
  {
    assert EncodeRun(d[0], n) == [d[0], d[0], d[0], d[0], 251];
  }

  lemma Overrun(g: Growth, y: seq<Byte>)
    requires y == Alternating(100)
    ensures !Inside(g, [1, 1, 1, 1, 251] + y)
  {
    hide InsideFrom;
    var cap := if g.Doubling? then 262 else 255;
    Literals(g, RunState(false, 1, 0), 255, cap, y, 0);
    assert y[0..] == y;
    CountStep(g, RunState(true, 1, 3), 4, 131, 251, y);
    LiteralStep(g, RunState(true, 1, 2), 3, 131, 1, [251] + y);
    LiteralStep(g, RunState(true, 1, 1), 2, 131, 1, [1] + ([251] + y));
    LiteralStep(g, RunState(true, 1, 0), 1, 131, 1, [1] + ([1] + ([251] + y)));
    LiteralStep(g, START, 0, 131, 1, [1] + ([1] + ([1] + ([251] + y))));
    assert [1, 1, 1, 1, 251] + y == [1] + ([1] + ([1] + ([1] + ([251] + y))));
  }

  lemma LiteralStep(g: Growth, st: RunState, len: nat, cap: nat, b: Byte, rest: seq<Byte>)
    requires st.repeats != 3
    ensures InsideFrom(g, st, len, cap, [b] + rest) <==> len < cap && InsideFrom(g, st.Push(b), len + 1, cap, rest)
  {
    assert ([b] + rest)[1..] == rest;
  }

  lemma CountStep(g: Growth, st: RunState, len: nat, cap: nat, b: Byte, rest: seq<Byte>)
    requires st.repeats == 3
    ensures InsideFrom(g, st, len, cap, [b] + rest)
         == InsideFrom(g, st.Reset(), len + b, if len + b > cap then Grown(g, cap, len + b) else cap, rest)
  {
    assert ([b] + rest)[1..] == rest;
  }

  /** Literals that do not repeat are written one behind the other, and the room ends before they do. */
  lemma {:induction false} Literals(g: Growth, st: RunState, len: nat, cap: nat, y: seq<Byte>, k: nat)
    requires y == Alternating(100) && k < 100 && st.repeats == 0 && (st.hasLast ==> st.last != y[k])
    requires len <= cap < len + (100 - k)
    ensures !InsideFrom(g, st, len, cap, y[k..])
    decreases 100 - k
  {
    if len < cap {
      assert y[k..][1..] == y[k + 1..];
      Literals(g, st.Push(y[k]), len + 1, cap, y, k + 1);
    }
  }

  /** Runs whose expansion takes exactly a quarter more than they do. */
  function Tight(k: nat): (x: seq<Byte>)
    ensures |x| == 5 * k
  {
    if k == 0 then [] else Tight(k - 1) + Group(if k % 4 == 0 then 3 else 2)
  }

  function Group(count: Byte): (x: seq<Byte>)
    ensures |x| == 5
  {
    [0, 0, 0, 0, count]
  }

  lemma GroupExpands(count: Byte)
    ensures Decode(Group(count)) == Repeat(0, 4 + count) && After(START, Group(count)) == START
    ensures After(START, Group(count)[..4]).repeats == 3 && Decode(Group(count)[..4]) == Repeat(0, 4)
  {
    assert Group(count) == Repeat(0, 4) + [count];
    assert Group(count)[..4] == Repeat(0, 4) + [];
    DecodeLiterals(START, 0, 4, [count]);
    DecodeLiterals(START, 0, 4, []);
    var x: seq<Byte> := [0, 0, 0, 0];
    assert x[1..] == [0, 0, 0] && x[1..][1..] == [0, 0] && x[1..][1..][1..] == [0] && x[1..][1..][1..][1..] == [];
    assert Group(count)[..4] == x;
    DecodeAppend(START, x, [count]);
    assert Group(count) == x + [count];
  }

  lemma RoomSteps(k: nat)
    ensures Room(5 * k) == 6 * k + k / 4
    ensures k > 0 ==> Room(5 * k) == Room(5 * (k - 1)) + if k % 4 == 0 then 7 else 6
  {
  }

  lemma {:induction false} TightLength(k: nat)
    ensures |Decode(Tight(k))| == Room(5 * k) && After(START, Tight(k)) == START
  {
    hide DecodeFrom, After, Group, Room;
    Beginning([]);
    RoomSteps(k);
    if k > 0 {
      TightLength(k - 1);
      GroupExpands(if k % 4 == 0 then 3 else 2);
      DecodeAppend(START, Tight(k - 1), Group(if k % 4 == 0 then 3 else 2));
    }
  }

  /** A string of at most `m` bytes for which the vector is long enough, with an expansion longer than
      `m` bytes and a quarter: all its excess lies in its last count. */
  function Overlong(m: nat): (x: seq<Byte>)
    requires m >= 5
    ensures 0 < |x| <= m
  {
    Tight(m / 5 - 1) + Group(255)
  }

  lemma OverlongInside(m: nat)
    requires m >= 5
    ensures Inside(Guaranteed, Overlong(m)) && |Decode(Overlong(m))| > m + m / 4
  {
    hide Decode, After, IsLiteral, Inside, InsideFrom, WithoutLastCount;
    var k := m / 5 - 1;
    var t := Tight(k);
    TightLength(k);
    InsideIff(Overlong(m));
    LastGroup(t, 255);
  }

  lemma LastGroup(t: seq<Byte>, count: Byte)
    requires After(START, t) == START
    ensures |Decode(t + Group(count))| == |Decode(t)| + 4 + count
    ensures |Decode(WithoutLastCount(t + Group(count)))| == |Decode(t)| + 4
  {
    hide DecodeFrom, After, Group;
    var x := t + Group(count);
    GroupExpands(count);
    DecodeAppend(START, t, Group(count));
    DecodeAppend(START, t, Group(count)[..4]);
    assert x[..|x| - 1] == t + Group(count)[..4];
  }
}
