/** The canonical prefix code of a list of code lengths.

    Symbols are ordered by length and then by number; each takes the next code of its length (the
    rule of section 3.2.2 of RFC 1951).  Seen on 20-bit windows, the word of the `i`-th symbol covers
    the interval from `Start(i)` to `Start(i + 1)`, of width 2^(20 - length); everything else follows
    from these intervals being consecutive. */
module CanonicalCodes {
  import opened Bits
  import opened CodeBooks

  const MAX_LEN: nat := 20

  datatype Entry = Entry(sym: nat, len: nat)

  type Order = seq<Entry>

  predicate Before(a: Entry, b: Entry)
  {
    a.len < b.len || (a.len == b.len && a.sym < b.sym)
  }

  /** Strictly sorted, with lengths the format allows. */
  predicate Canonical(order: Order)
  {
    && (forall i :: 0 <= i < |order| ==> 1 <= order[i].len <= MAX_LEN)
    && (forall i, j :: 0 <= i < j < |order| ==> Before(order[i], order[j]))
  }

  // ---------------------------------------------------------------------------------------------
  // From lengths to the sorted order
  // ---------------------------------------------------------------------------------------------

  predicate ValidLengths(lengths: seq<nat>)
  {
    forall i :: 0 <= i < |lengths| ==> lengths[i] <= MAX_LEN
  }

  /** The symbols with a nonzero length, in symbol order. */
  function Used(lengths: seq<nat>): (r: seq<Entry>)
    requires ValidLengths(lengths)
    ensures |r| <= |lengths|
    ensures forall e :: e in r <==> 0 <= e.sym < |lengths| && lengths[e.sym] == e.len && e.len > 0
    ensures forall i, j :: 0 <= i < j < |r| ==> r[i].sym < r[j].sym
  {
    if lengths == [] then []
    else
      var n := |lengths| - 1;
      if lengths[n] > 0 then Used(lengths[..n]) + [Entry(n, lengths[n])] else Used(lengths[..n])
  }

  lemma ConsCanonical(x: Entry, order: Order)
    requires Canonical(order) && 1 <= x.len <= MAX_LEN && forall y :: y in order ==> Before(x, y)
    ensures Canonical([x] + order)
  {
  }

  lemma FirstBefore(x: Entry, order: Order)
    requires Canonical(order) && order != [] && (Before(x, order[0]) || x == order[0])
    ensures forall y :: y in order && y != x ==> Before(x, y)
  {
  }

  function Insert(e: Entry, order: Order): (r: Order)
    requires Canonical(order) && 1 <= e.len <= MAX_LEN && e !in order
    ensures Canonical(r) && |r| == |order| + 1
    ensures forall x :: x in r <==> x == e || x in order
  {
    hide Canonical;
    if order == [] then
      ConsCanonical(e, []);
      assert [e] + [] == [e];
      [e]
    else if Before(e, order[0]) then
      FirstBefore(e, order);
      ConsCanonical(e, order);
      [e] + order
    else
      RestCanonical(order);
      var rest := Insert(e, order[1..]);
      assert order == [order[0]] + order[1..];
      ConsCanonical(order[0], rest);
      [order[0]] + rest
  }

  lemma RestCanonical(order: Order)
    requires Canonical(order)
    ensures Canonical([])
    ensures order != [] ==> Canonical(order[1..]) && 1 <= order[0].len <= MAX_LEN && forall y :: y in order[1..] ==> Before(order[0], y)
  {
  }

  /** The library sort by length, then symbol. */
  function SortByLength(s: seq<Entry>): (r: Order)
    requires forall i :: 0 <= i < |s| ==> 1 <= s[i].len <= MAX_LEN
    requires forall i, j :: 0 <= i < j < |s| ==> s[i] != s[j]
    ensures Canonical(r) && |r| == |s|
    ensures forall x :: x in r <==> x in s
  {
    if s == [] then []
    else
      var init, last := s[..|s| - 1], s[|s| - 1];
      assert s == init + [last];
      assert last !in init;
      Insert(last, SortByLength(init))
  }

  function OrderOf(lengths: seq<nat>): (order: Order)
    requires ValidLengths(lengths)
    ensures Canonical(order) && |order| <= |lengths|
    ensures forall e :: e in order <==> 0 <= e.sym < |lengths| && lengths[e.sym] == e.len && e.len > 0
  {
    SortByLength(Used(lengths))
  }

  // ---------------------------------------------------------------------------------------------
  // Intervals
  // ---------------------------------------------------------------------------------------------

  function Width(len: nat): (w: nat)
    requires len <= MAX_LEN
    ensures w > 0
  {
    Pow2(MAX_LEN - len)
  }

  /** The Kraft sum of the first `i` symbols, in units of 2^-20. */
  function Start(order: Order, i: nat): (s: nat)
    requires Canonical(order) && i <= |order|
  {
    if i == 0 then 0 else Start(order, i - 1) + Width(order[i - 1].len)
  }

  /** The code is not oversubscribed. */
  predicate Kraft(order: Order)
    requires Canonical(order)
  {
    Start(order, |order|) <= Pow2(MAX_LEN)
  }

  /** Every window is covered. */
  predicate Complete(order: Order)
    requires Canonical(order)
  {
    Start(order, |order|) == Pow2(MAX_LEN)
  }

  /** The code number of the `i`-th symbol, as the program computes it. */
  function CodeNum(order: Order, i: nat): (c: nat)
    requires Canonical(order) && i < |order|
  {
    if i == 0 then 0 else (CodeNum(order, i - 1) + 1) * Pow2(order[i].len - order[i - 1].len)
  }

  function Word(order: Order, i: nat): (w: Bitstring)
    requires Canonical(order) && i < |order|
    ensures |w| == order[i].len
  {
    ToBits(CodeNum(order, i), order[i].len)
  }

  /** The words of the first `n` symbols. */
  function BookTo(order: Order, n: nat): (book: Book)
    requires Canonical(order) && n <= |order|
    ensures |book| == n
    ensures forall i :: 0 <= i < n ==> book[i] == Code(order[i].sym, Word(order, i))
  {
    seq(n, i requires 0 <= i < n => Code(order[i].sym, Word(order, i)))
  }

  function BookOf(order: Order): (book: Book)
    requires Canonical(order)
  {
    BookTo(order, |order|)
  }

  lemma {:induction false} StartMonotone(order: Order, i: nat, j: nat)
    requires Canonical(order) && i <= j <= |order|
    ensures Start(order, i) <= Start(order, j)
    decreases j
  {
    if i < j { StartMonotone(order, i, j - 1); }
  }

  /** The code number scaled to 20 bits is where the interval starts. */
  lemma {:induction false} CodeStart(order: Order, i: nat)
    requires Canonical(order) && i < |order|
    ensures CodeNum(order, i) * Width(order[i].len) == Start(order, i)
    ensures (CodeNum(order, i) + 1) * Width(order[i].len) == Start(order, i + 1)
  {
    if i > 0 {
      CodeStart(order, i - 1);
      var a, b := order[i - 1].len, order[i].len;
      assert a <= b by { assert Before(order[i - 1], order[i]); }
      Pow2Add(b - a, MAX_LEN - b);
      Rescale(CodeNum(order, i - 1) + 1, Pow2(b - a), Width(b));
    }
    Distributes(CodeNum(order, i), Width(order[i].len));
  }

  lemma Rescale(x: nat, p: nat, w: nat)
    ensures (x * p) * w == x * (p * w)
  {
  }

  lemma CodeFits(order: Order, i: nat)
    requires Canonical(order) && Kraft(order) && i < |order|
    ensures CodeNum(order, i) + 1 <= Pow2(order[i].len) <= Pow2(MAX_LEN)
    ensures Value(Word(order, i)) == CodeNum(order, i)
  {
    hide Start, CodeNum, Pow2;
    var len := order[i].len;
    CodeStart(order, i);
    StartMonotone(order, i + 1, |order|);
    Pow2Add(len, MAX_LEN - len);
    CancelFactor(CodeNum(order, i) + 1, Pow2(len), Width(len));
    Pow2Mono(len, MAX_LEN);
    ValueOfToBits(CodeNum(order, i), len);
  }

  lemma CancelFactor(a: nat, b: nat, w: nat)
    requires w > 0 && a * w <= b * w
    ensures a <= b
  {
    assert (a - b) * w == a * w - b * w;
    if a > b { MulAtLeast(a - b, w); }
  }

  /** A window begins with the word of the `i`-th symbol exactly when its value lies in the symbol's
      interval. */
  lemma WordInterval(order: Order, i: nat, w: Bitstring)
    requires Canonical(order) && Kraft(order) && i < |order| && |w| == MAX_LEN
    ensures Word(order, i) <= w <==> Start(order, i) <= Value(w) < Start(order, i + 1)
  {
    hide Start, CodeNum, Pow2, ToBits, Value;
    CodeFits(order, i);
    CodeStart(order, i);
    PrefixInterval(Word(order, i), w);
  }

  /** A word padded with zeros to a window. */
  function Window(order: Order, i: nat): (w: Bitstring)
    requires Canonical(order) && i < |order|
    ensures |w| == MAX_LEN && Word(order, i) <= w
  {
    Word(order, i) + Zeros(MAX_LEN - order[i].len)
  }

  lemma WindowValue(order: Order, i: nat)
    requires Canonical(order) && Kraft(order) && i < |order|
    ensures Value(Window(order, i)) == Start(order, i)
  {
    CodeFits(order, i);
    CodeStart(order, i);
    ValueConcat(Word(order, i), Zeros(MAX_LEN - order[i].len));
    ValueZeros(MAX_LEN - order[i].len);
  }

  lemma WordsApart(order: Order, i: nat, j: nat)
    requires Canonical(order) && Kraft(order) && i < |order| && j < |order| && i != j
    ensures !(Word(order, i) <= Word(order, j))
  {
    hide Start, Word, Value, Pow2;
    if Word(order, i) <= Word(order, j) {
      var w := Window(order, j);
      PrefixTransitive(Word(order, i), Word(order, j), w);
      WordInterval(order, i, w);
      WordInterval(order, j, w);
      if i < j { StartMonotone(order, i + 1, j); } else { StartMonotone(order, j + 1, i); }
    }
  }

  /** Under Kraft the canonical code is prefix-free. */
  lemma CanonicalPrefixFree(order: Order)
    requires Canonical(order) && Kraft(order)
    ensures PrefixFree(BookOf(order))
  {
    hide Word;
    var book := BookOf(order);
    forall i, j | 0 <= i < |book| && 0 <= j < |book| && i != j
      ensures !(book[i].word <= book[j].word)
    {
      WordsApart(order, i, j);
    }
  }

  /** The words inserted so far and the next one are apart. */
  lemma BookToPrefixFree(order: Order, n: nat)
    requires Canonical(order) && Kraft(order) && n <= |order|
    ensures PrefixFree(BookTo(order, n))
    ensures n < |order| ==> !Extends(BookTo(order, n), Word(order, n))
    ensures n < |order| ==> forall i :: 0 <= i < n ==> !(Word(order, i) <= Word(order, n))
  {
    hide Word, Kraft;
    CanonicalPrefixFree(order);
    var book, all := BookTo(order, n), BookOf(order);
    assert forall i :: 0 <= i < n ==> book[i] == all[i];
    if n < |order| {
      assert all[n].word == Word(order, n);
    }
  }

  // ---------------------------------------------------------------------------------------------
  // Completeness
  // ---------------------------------------------------------------------------------------------

  /** The symbol whose interval holds `v`. */
  lemma {:induction false} Covering(order: Order, v: nat, n: nat) returns (i: nat)
    requires Canonical(order) && n <= |order| && v < Start(order, n)
    ensures i < n && Start(order, i) <= v < Start(order, i + 1)
  {
    if v < Start(order, n - 1) { i := Covering(order, v, n - 1); } else { i := n - 1; }
  }

  /** Every window begins with a codeword exactly when the code is complete. */
  lemma CompleteIff(order: Order)
    requires Canonical(order) && Kraft(order)
    ensures Complete(order) <==>
      forall w: Bitstring :: |w| == MAX_LEN ==> exists i :: 0 <= i < |order| && Word(order, i) <= w
  {
    hide Start, Word, Value, ToBits;
    if Complete(order) {
      forall w: Bitstring | |w| == MAX_LEN
        ensures exists i :: 0 <= i < |order| && Word(order, i) <= w
      {
        var i := Covering(order, Value(w), |order|);
        WordInterval(order, i, w);
      }
    } else {
      var v := Start(order, |order|);
      var w := ToBits(v, MAX_LEN);
      ValueOfToBits(v, MAX_LEN);
      forall i | 0 <= i < |order|
        ensures !(Word(order, i) <= w)
      {
        WordInterval(order, i, w);
        StartMonotone(order, i + 1, |order|);
      }
    }
  }

  // ---------------------------------------------------------------------------------------------
  // How many trie nodes the words need
  // ---------------------------------------------------------------------------------------------

  function ZeroCount(w: Bitstring): (n: nat)
    ensures n <= |w|
  {
    if w == [] then 0 else ZeroCount(w[..|w| - 1]) + Bit(!w[|w| - 1])
  }

  lemma ZeroCountAppend(w: Bitstring, b: bool)
    ensures ZeroCount(w + [b]) == ZeroCount(w) + Bit(!b)
  {
    assert (w + [b])[..|w|] == w;
  }

  lemma {:induction false} ZeroCountZeros(w: Bitstring, m: nat)
    ensures ZeroCount(w + Zeros(m)) == ZeroCount(w) + m
  {
    if m == 0 {
      assert w + Zeros(0) == w;
    } else {
      ZeroCountZeros(w, m - 1);
      assert w + Zeros(m) == (w + Zeros(m - 1)) + [false];
      ZeroCountAppend(w + Zeros(m - 1), false);
    }
  }

  /** `next` keeps the first `d` bits of `prev`, sets bit `d` and clears the rest; `prev` has a 0
      there and no 0 behind it. */
  predicate Succeeds(prev: Bitstring, next: Bitstring, d: nat)
  {
    && |next| == |prev| && d < |prev| && !prev[d]
    && next == prev[..d] + ([true] + Zeros(|prev| - d - 1))
    && ZeroCount(prev) == ZeroCount(prev[..d]) + 1
  }

  /** Adding 1 keeps the bits above the lowest 0, sets that bit and clears the ones below it. */
  lemma {:induction false} Increment(x: nat, l: nat) returns (d: nat)
    requires x + 1 < Pow2(l)
    ensures Succeeds(ToBits(x, l), ToBits(x + 1, l), d)
  {
    hide ToBits, Succeeds;
    ToBitsStep(x, l);
    ToBitsStep(x + 1, l);
    var init := ToBits(x / 2, l - 1);
    if x % 2 == 0 {
      assert (x + 1) / 2 == x / 2;
      d := l - 1;
      LowestZero(init);
    } else {
      assert (x + 1) / 2 == x / 2 + 1;
      d := Increment(x / 2, l - 1);
      CarryOn(init, ToBits(x / 2 + 1, l - 1), d);
    }
  }

  lemma LowestZero(init: Bitstring)
    ensures Succeeds(init + [false], init + [true], |init|)
  {
    assert (init + [false])[..|init|] == init;
    ZeroCountAppend(init, false);
  }

  lemma CarryOn(init: Bitstring, up: Bitstring, d: nat)
    requires Succeeds(init, up, d)
    ensures Succeeds(init + [true], up + [false], d)
  {
    var n := |init| - d;
    assert (init + [true])[..d] == init[..d];
    ZeroCountAppend(init, true);
    assert [true] + Zeros(n) == ([true] + Zeros(n - 1)) + [false];
  }

  /** The next word shares its first `d` bits with the previous one, and the ones after bit `d` are
      zeros that the previous word did not have. */
  lemma NextWord(order: Order, i: nat) returns (d: nat)
    requires Canonical(order) && Kraft(order) && 0 < i < |order|
    ensures d < order[i - 1].len <= order[i].len
    ensures Word(order, i)[..d] == Word(order, i - 1)[..d]
    ensures Word(order, i)[d] && !Word(order, i - 1)[d]
    ensures ZeroCount(Word(order, i)) + 1 == ZeroCount(Word(order, i - 1)) + order[i].len - 1 - d
  {
    var a, b, x := order[i - 1].len, order[i].len, CodeNum(order, i - 1);
    assert a <= b by { assert Before(order[i - 1], order[i]); }
    NextCodeFits(order, i);
    d := Increment(x, a);
    hide Pow2;
    ToBitsShift(x + 1, a, b - a);
    assert Word(order, i) == ToBits(x + 1, a) + Zeros(b - a);
    hide ToBits, Word, CodeNum, Succeeds;
    NextWordShape(Word(order, i - 1), ToBits(x + 1, a), Word(order, i), d, b);
  }

  /** There is room for one more word of the previous length. */
  lemma NextCodeFits(order: Order, i: nat)
    requires Canonical(order) && Kraft(order) && 0 < i < |order|
    ensures CodeNum(order, i - 1) + 1 < Pow2(order[i - 1].len)
  {
    hide Pow2, Start, Kraft;
    var a, b, x := order[i - 1].len, order[i].len, CodeNum(order, i - 1);
    assert a <= b by { assert Before(order[i - 1], order[i]); }
    CodeFits(order, i);
    assert CodeNum(order, i) == (x + 1) * Pow2(b - a);
    Pow2Add(a, b - a);
    BelowProduct(x + 1, Pow2(a), Pow2(b - a));
  }

  lemma BelowProduct(x: nat, a: nat, w: nat)
    requires x * w < a * w
    ensures x < a
  {
    if x >= a { MulMono(a, x, w); }
  }

  lemma NextWordShape(prev: Bitstring, up: Bitstring, next: Bitstring, d: nat, b: nat)
    requires Succeeds(prev, up, d) && |prev| <= b && next == up + Zeros(b - |prev|)
    ensures |next| == b && d < |prev| && next[..d] == prev[..d] && next[d] && !prev[d]
    ensures ZeroCount(next) + 1 == ZeroCount(prev) + b - 1 - d
  {
    hide ZeroCount;
    var head, n := prev[..d], |prev| - d - 1;
    assert Zeros(n) + Zeros(b - |prev|) == Zeros(b - d - 1);
    assert next == (head + [true]) + Zeros(b - d - 1);
    ZeroCountAppend(head, true);
    ZeroCountZeros(head + [true], b - d - 1);
  }

  lemma MulMono(a: nat, b: nat, w: nat)
    requires a <= b
    ensures a * w <= b * w
  {
    assert b * w == a * w + (b - a) * w;
  }

  /** No earlier word agrees with the next word beyond the bits shared with its predecessor. */
  lemma NextWordIsFresh(order: Order, i: nat, d: nat)
    requires Canonical(order) && Kraft(order) && 0 < i < |order|
    requires d < order[i - 1].len <= order[i].len && Word(order, i)[d] != Word(order, i - 1)[d]
    ensures !Extends(BookTo(order, i), Word(order, i)[..d + 1])
  {
    hide Word;
    var u := Word(order, i)[..d + 1];
    var book := BookTo(order, i);
    if Extends(book, u) {
      var j :| 0 <= j < |book| && u <= book[j].word;
      SharedBit(order, i, d, j);
    }
  }

  /** A word that begins like the next word shares the bits with the words between them. */
  lemma SharedBit(order: Order, i: nat, d: nat, j: nat)
    requires Canonical(order) && Kraft(order) && j < i < |order|
    requires d < order[i - 1].len <= order[i].len && Word(order, i)[..d + 1] <= Word(order, j)
    ensures Word(order, i)[d] == Word(order, i - 1)[d]
  {
    hide Word;
    var u := Word(order, i)[..d + 1];
    Between(order, u, j, i - 1, i);
    var mid := Window(order, i - 1);
    assert mid[d] == Word(order, i - 1)[d] && u[d] == Word(order, i)[d];
    assert mid[d] == u[d];
  }

  /** What two words begin with, the windows of all words between them begin with. */
  lemma Between(order: Order, u: Bitstring, j: nat, m: nat, i: nat)
    requires Canonical(order) && Kraft(order) && j <= m <= i < |order|
    requires u <= Word(order, j) && u <= Word(order, i)
    ensures u <= Window(order, m)
  {
    hide Word, Start, Value, Pow2, Kraft;
    var low, mid, high := Window(order, j), Window(order, m), Window(order, i);
    PrefixTransitive(u, Word(order, j), low);
    PrefixTransitive(u, Word(order, i), high);
    WindowValue(order, j);
    WindowValue(order, m);
    WindowValue(order, i);
    StartMonotone(order, j, m);
    StartMonotone(order, m, i);
    PrefixInterval(u, low);
    PrefixInterval(u, mid);
    PrefixInterval(u, high);
  }

  // ---------------------------------------------------------------------------------------------
  // The Kraft sum on the lengths themselves
  // ---------------------------------------------------------------------------------------------

  /** The sum of 2^(20 - length) over the used symbols. */
  function KraftSum(lengths: seq<nat>): (s: nat)
    requires ValidLengths(lengths)
  {
    if lengths == [] then 0
    else
      var n := |lengths| - 1;
      KraftSum(lengths[..n]) + if lengths[n] > 0 then Width(lengths[n]) else 0
  }

  function Total(s: seq<Entry>): (t: nat)
    requires forall i :: 0 <= i < |s| ==> s[i].len <= MAX_LEN
  {
    if s == [] then 0 else Total(s[1..]) + Width(s[0].len)
  }

  lemma {:induction false} TotalAppend(s: seq<Entry>, e: Entry)
    requires (forall i :: 0 <= i < |s| ==> s[i].len <= MAX_LEN) && e.len <= MAX_LEN
    ensures Total(s + [e]) == Total(s) + Width(e.len)
  {
    if s == [] {
      assert Total([e]) == Width(e.len) by { assert [e][1..] == []; }
      assert s + [e] == [e];
    } else {
      TotalAppend(s[1..], e);
      assert (s + [e])[1..] == s[1..] + [e];
    }
  }

  lemma {:induction false} TotalInsert(e: Entry, order: Order)
    requires Canonical(order) && 1 <= e.len <= MAX_LEN && e !in order
    ensures Total(Insert(e, order)) == Total(order) + Width(e.len)
  {
    if order == [] {
    } else if Before(e, order[0]) {
      assert ([e] + order)[1..] == order;
    } else {
      assert order == [order[0]] + order[1..];
      TotalInsert(e, order[1..]);
      var rest := Insert(e, order[1..]);
      assert ([order[0]] + rest)[1..] == rest;
    }
  }

  lemma {:induction false} TotalSort(s: seq<Entry>)
    requires forall i :: 0 <= i < |s| ==> 1 <= s[i].len <= MAX_LEN
    requires forall i, j :: 0 <= i < j < |s| ==> s[i] != s[j]
    ensures Total(SortByLength(s)) == Total(s)
  {
    if s != [] {
      var init, last := s[..|s| - 1], s[|s| - 1];
      assert s == init + [last];
      assert last !in init;
      TotalSort(init);
      TotalInsert(last, SortByLength(init));
      TotalAppend(init, last);
    }
  }

  lemma {:induction false} TotalIsStart(order: Order, i: nat)
    requires Canonical(order) && i <= |order|
    ensures Total(order[..i]) == Start(order, i)
  {
    if i > 0 {
      TotalIsStart(order, i - 1);
      assert order[..i] == order[..i - 1] + [order[i - 1]];
      TotalAppend(order[..i - 1], order[i - 1]);
    }
  }

  lemma {:induction false} TotalUsed(lengths: seq<nat>)
    requires ValidLengths(lengths)
    ensures Total(Used(lengths)) == KraftSum(lengths)
  {
    if lengths != [] {
      var n := |lengths| - 1;
      TotalUsed(lengths[..n]);
      if lengths[n] > 0 { TotalAppend(Used(lengths[..n]), Entry(n, lengths[n])); }
    }
  }

  /** The Kraft inequality can be read off the lengths without sorting them. */
  lemma KraftOfLengths(lengths: seq<nat>)
    requires ValidLengths(lengths)
    ensures Start(OrderOf(lengths), |OrderOf(lengths)|) == KraftSum(lengths)
    ensures Kraft(OrderOf(lengths)) <==> KraftSum(lengths) <= Pow2(MAX_LEN)
  {
    hide Used, SortByLength, KraftSum, Pow2;
    var order := OrderOf(lengths);
    TotalUsed(lengths);
    TotalSort(Used(lengths));
    TotalIsStart(order, |order|);
    assert order[..|order|] == order;
  }

  // ---------------------------------------------------------------------------------------------
  // The rule of RFC 1951
  // ---------------------------------------------------------------------------------------------

  /** How many of the first `n` symbols have codes of this length. */
  function SameLength(lengths: seq<nat>, len: nat, n: nat): (c: nat)
    requires n <= |lengths|
  {
    if n == 0 then 0 else SameLength(lengths, len, n - 1) + if lengths[n - 1] == len then 1 else 0
  }

  /** The first code of each length: twice the first code behind those that are one shorter. */
  function FirstCode(lengths: seq<nat>, len: nat): (c: nat)
  {
    if len <= 1 then 0 else 2 * (FirstCode(lengths, len - 1) + SameLength(lengths, len - 1, |lengths|))
  }

  /** The code of a symbol as section 3.2.2 of RFC 1951 has it: the first of its length, counted on by the
      smaller symbols of that length. */
  function RuleCode(lengths: seq<nat>, sym: nat): (c: nat)
    requires sym < |lengths|
  {
    FirstCode(lengths, lengths[sym]) + SameLength(lengths, lengths[sym], sym)
  }

  /** The book has one word for each symbol with a positive length: of that length, with the code of the
      rule, most significant bit first. */
  predicate FollowsRule(lengths: seq<nat>, book: Book)
  {
    && (forall i :: 0 <= i < |book| ==>
          book[i].sym < |lengths| && |book[i].word| == lengths[book[i].sym] > 0
          && Value(book[i].word) == RuleCode(lengths, book[i].sym))
    && (forall s: nat :: s < |lengths| && lengths[s] > 0 ==> HasSymbol(book, s))
    && (forall i, j :: 0 <= i < j < |book| ==> book[i].sym != book[j].sym)
  }

  /** How many entries have this length and a symbol below `b`. */
  function CountBelow(s: seq<Entry>, len: nat, b: nat): (c: nat)
  {
    if s == [] then 0
    else
      var e := s[|s| - 1];
      CountBelow(s[..|s| - 1], len, b) + if e.len == len && e.sym < b then 1 else 0
  }

  lemma CountAppend(s: seq<Entry>, e: Entry, len: nat, b: nat)
    ensures CountBelow(s + [e], len, b) == CountBelow(s, len, b) + if e.len == len && e.sym < b then 1 else 0
  {
    assert (s + [e])[..|s|] == s;
  }

  lemma {:induction false} CountCons(e: Entry, s: seq<Entry>, len: nat, b: nat)
    ensures CountBelow([e] + s, len, b) == CountBelow(s, len, b) + if e.len == len && e.sym < b then 1 else 0
    decreases |s|
  {
    if s == [] {
      assert [e] + s == [] + [e];
      CountAppend([], e, len, b);
    } else {
      var init, last := s[..|s| - 1], s[|s| - 1];
      CountCons(e, init, len, b);
      assert [e] + s == ([e] + init) + [last];
      CountAppend([e] + init, last, len, b);
    }
  }

  lemma {:induction false} CountInsert(e: Entry, order: Order, len: nat, b: nat)
    requires Canonical(order) && 1 <= e.len <= MAX_LEN && e !in order
    ensures CountBelow(Insert(e, order), len, b) == CountBelow(order, len, b) + if e.len == len && e.sym < b then 1 else 0
  {
    hide CountBelow;
    if order == [] {
      CountCons(e, [], len, b);
      assert [e] + [] == [e];
    } else if Before(e, order[0]) {
      CountCons(e, order, len, b);
    } else {
      CountInsert(e, order[1..], len, b);
      CountCons(order[0], Insert(e, order[1..]), len, b);
      assert order == [order[0]] + order[1..];
      CountCons(order[0], order[1..], len, b);
    }
  }

  lemma {:induction false} CountSort(s: seq<Entry>, len: nat, b: nat)
    requires forall i :: 0 <= i < |s| ==> 1 <= s[i].len <= MAX_LEN
    requires forall i, j :: 0 <= i < j < |s| ==> s[i] != s[j]
    ensures CountBelow(SortByLength(s), len, b) == CountBelow(s, len, b)
  {
    hide Insert;
    if s != [] {
      var init, last := s[..|s| - 1], s[|s| - 1];
      assert s == init + [last] && last !in init;
      CountSort(init, len, b);
      CountInsert(last, SortByLength(init), len, b);
    }
  }

  lemma {:induction false} SamePrefix(lengths: seq<nat>, m: nat, len: nat, n: nat)
    requires n <= m <= |lengths|
    ensures SameLength(lengths[..m], len, n) == SameLength(lengths, len, n)
  {
    if n > 0 { SamePrefix(lengths, m, len, n - 1); }
  }

  lemma NoLengths(len: nat)
    ensures SameLength([], len, 0) == 0
    ensures forall b: nat :: CountBelow(Used([]), len, b) == 0
  {
  }

  lemma SameLengthLast(lengths: seq<nat>, len: nat)
    requires lengths != []
    ensures var n := |lengths| - 1; SameLength(lengths, len, n + 1) == SameLength(lengths, len, n) + if lengths[n] == len then 1 else 0
  {
  }

  lemma UsedLast(lengths: seq<nat>)
    requires ValidLengths(lengths) && lengths != []
    ensures var n := |lengths| - 1;
      Used(lengths) == Used(lengths[..n]) + if lengths[n] > 0 then [Entry(n, lengths[n])] else []
  {
  }

  lemma CountLast(s: seq<Entry>, n: nat, l: nat, len: nat, b: nat)
    ensures CountBelow(s + (if l > 0 then [Entry(n, l)] else []), len, b)
         == CountBelow(s, len, b) + if l > 0 && l == len && n < b then 1 else 0
  {
    hide CountBelow;
    if l > 0 { CountAppend(s, Entry(n, l), len, b); } else { assert s + [] == s; }
  }

  lemma {:induction false} CountUsed(lengths: seq<nat>, len: nat, b: nat)
    requires ValidLengths(lengths) && len > 0
    ensures CountBelow(Used(lengths), len, b) == SameLength(lengths, len, if b <= |lengths| then b else |lengths|)
  {
    hide SameLength, CountBelow, Used;
    if lengths == [] {
      NoLengths(len);
    } else {
      var n := |lengths| - 1;
      SameLengthLast(lengths, len);
      UsedLast(lengths);
      CountUsed(lengths[..n], len, b);
      SamePrefix(lengths, n, len, if b <= n then b else n);
      CountLast(Used(lengths[..n]), n, lengths[n], len, b);
    }
  }

  lemma CountOrder(lengths: seq<nat>, len: nat, b: nat)
    requires ValidLengths(lengths) && len > 0 && b <= |lengths|
    ensures CountBelow(OrderOf(lengths), len, b) == SameLength(lengths, len, b)
  {
    hide Used, SortByLength;
    CountUsed(lengths, len, b);
    CountSort(Used(lengths), len, b);
  }

  /** Behind place `k` nothing counts any more. */
  lemma {:induction false} CountUpTo(order: Order, k: nat, m: nat, len: nat, b: nat)
    requires k <= m <= |order| && forall j :: k <= j < m ==> !(order[j].len == len && order[j].sym < b)
    ensures CountBelow(order[..m], len, b) == CountBelow(order[..k], len, b)
    decreases m
  {
    if k < m {
      CountUpTo(order, k, m - 1, len, b);
      assert order[..m] == order[..m - 1] + [order[m - 1]];
      CountAppend(order[..m - 1], order[m - 1], len, b);
    }
  }

  /** Bounds that no entry tells apart count the same. */
  lemma {:induction false} CountSame(s: seq<Entry>, len: nat, b: nat, b': nat)
    requires forall j :: 0 <= j < |s| && s[j].len == len ==> (s[j].sym < b <==> s[j].sym < b')
    ensures CountBelow(s, len, b) == CountBelow(s, len, b')
  {
    if s != [] { CountSame(s[..|s| - 1], len, b, b'); }
  }

  /** The symbols of its length before place `i` are the smaller ones. */
  lemma CountAtPlace(order: Order, i: nat, n: nat)
    requires Canonical(order) && i < |order| && forall j :: 0 <= j < |order| ==> order[j].sym < n
    ensures CountBelow(order[..i], order[i].len, n) == CountBelow(order, order[i].len, order[i].sym)
  {
    hide CountBelow;
    var len, sym := order[i].len, order[i].sym;
    forall j | i <= j < |order|
      ensures !(order[j].len == len && order[j].sym < sym)
    {
      if i < j { assert Before(order[i], order[j]); }
    }
    CountUpTo(order, i, |order|, len, sym);
    assert order[..|order|] == order;
    forall j | 0 <= j < i
      ensures order[j].len == len ==> order[j].sym < sym
    {
      assert Before(order[j], order[i]);
    }
    CountSame(order[..i], len, sym, n);
  }

  /** From the last code of length `a` to the first of length `b`, when no code has a length between. */
  lemma {:induction false} FirstCodeJump(lengths: seq<nat>, a: nat, b: nat)
    requires 1 <= a < b && forall l :: a < l < b ==> SameLength(lengths, l, |lengths|) == 0
    ensures FirstCode(lengths, b) == (FirstCode(lengths, a) + SameLength(lengths, a, |lengths|)) * Pow2(b - a)
    decreases b
  {
    var x := FirstCode(lengths, a) + SameLength(lengths, a, |lengths|);
    if b == a + 1 {
      assert Pow2(1) == 2;
    } else {
      FirstCodeJump(lengths, a, b - 1);
      assert Pow2(b - a) == 2 * Pow2(b - a - 1);
      MulDouble(x, Pow2(b - a - 1));
    }
  }

  /** The code the program computes by counting up is the code of the rule. */
  lemma {:induction false} CodeFollowsRule(lengths: seq<nat>, i: nat)
    requires ValidLengths(lengths) && i < |OrderOf(lengths)|
    ensures var e := OrderOf(lengths)[i];
      && e.sym < |lengths| && lengths[e.sym] == e.len > 0
      && CodeNum(OrderOf(lengths), i) == RuleCode(lengths, e.sym)
      && CountBelow(OrderOf(lengths)[..i], e.len, |lengths|) == SameLength(lengths, e.len, e.sym)
    decreases i
  {
    hide Used, SortByLength, CountBelow, Pow2, SameLength, FirstCode;
    var order, n := OrderOf(lengths), |lengths|;
    var e := order[i];
    assert forall j :: 0 <= j < |order| ==> order[j] in order;
    CountAtPlace(order, i, n);
    CountOrder(lengths, e.len, e.sym);
    if i == 0 {
      NoneShorter(lengths, e.len);
    } else {
      CodeFollowsRule(lengths, i - 1);
      var a := order[i - 1];
      assert Before(a, e);
      assert order[..i] == order[..i - 1] + [a];
      CountAppend(order[..i - 1], a, e.len, n);
      if a.len == e.len {
        assert Pow2(0) == 1 by { PowZero(); }
      } else {
        CountAppend(order[..i - 1], a, a.len, n);
        AllOfLength(lengths, i, a.len);
        forall l | a.len < l < e.len
          ensures SameLength(lengths, l, n) == 0
        {
          NoneBetween(lengths, i, l);
        }
        FirstCodeJump(lengths, a.len, e.len);
        NothingBefore(order, i, e.len, n);
      }
    }
  }

  lemma PowZero()
    ensures Pow2(0) == 1
  {
  }

  /** When the first entry has length `len`, no code is shorter. */
  lemma {:induction false} NoneShorter(lengths: seq<nat>, len: nat)
    requires ValidLengths(lengths) && OrderOf(lengths) != [] && OrderOf(lengths)[0].len == len
    ensures FirstCode(lengths, len) == 0 && CountBelow([], len, |lengths|) == 0
  {
    hide Used, SortByLength;
    var order := OrderOf(lengths);
    forall l | 0 < l < len
      ensures SameLength(lengths, l, |lengths|) == 0
    {
      forall j | 0 <= j < |order|
        ensures order[j].len != l
      {
        if j > 0 { assert Before(order[0], order[j]); }
      }
      NoneOfLength(lengths, l);
    }
    FirstCodeZero(lengths, len);
  }

  lemma {:induction false} FirstCodeZero(lengths: seq<nat>, len: nat)
    requires forall l :: 0 < l < len ==> SameLength(lengths, l, |lengths|) == 0
    ensures FirstCode(lengths, len) == 0
  {
    if len > 1 { FirstCodeZero(lengths, len - 1); }
  }

  lemma NoneOfLength(lengths: seq<nat>, l: nat)
    requires ValidLengths(lengths) && l > 0 && forall j :: 0 <= j < |OrderOf(lengths)| ==> OrderOf(lengths)[j].len != l
    ensures SameLength(lengths, l, |lengths|) == 0
  {
    hide Used, SortByLength;
    var order := OrderOf(lengths);
    CountOrder(lengths, l, |lengths|);
    CountUpTo(order, 0, |order|, l, |lengths|);
    assert order[..|order|] == order && order[..0] == [];
  }

  lemma NoneBetween(lengths: seq<nat>, i: nat, l: nat)
    requires ValidLengths(lengths) && 0 < i < |OrderOf(lengths)| && OrderOf(lengths)[i - 1].len < l < OrderOf(lengths)[i].len
    ensures SameLength(lengths, l, |lengths|) == 0
  {
    hide Used, SortByLength;
    var order := OrderOf(lengths);
    forall j | 0 <= j < |order|
      ensures order[j].len != l
    {
      if j < i - 1 { assert Before(order[j], order[i - 1]); }
      if j > i { assert Before(order[i], order[j]); }
    }
    NoneOfLength(lengths, l);
  }

  /** Before a longer code all codes of the length before it have been given. */
  lemma AllOfLength(lengths: seq<nat>, i: nat, len: nat)
    requires ValidLengths(lengths) && 0 < i < |OrderOf(lengths)| && len == OrderOf(lengths)[i - 1].len < OrderOf(lengths)[i].len
    ensures CountBelow(OrderOf(lengths)[..i], len, |lengths|) == SameLength(lengths, len, |lengths|)
  {
    hide Used, SortByLength;
    var order := OrderOf(lengths);
    forall j | i <= j < |order|
      ensures order[j].len != len
    {
      if j > i { assert Before(order[i], order[j]); }
    }
    CountUpTo(order, i, |order|, len, |lengths|);
    assert order[..|order|] == order;
    CountOrder(lengths, len, |lengths|);
  }

  lemma NothingBefore(order: Order, i: nat, len: nat, n: nat)
    requires Canonical(order) && 0 < i < |order| && order[i - 1].len < len == order[i].len
    ensures CountBelow(order[..i], len, n) == 0
  {
    forall j | 0 <= j < i
      ensures order[j].len != len
    {
      if j < i - 1 { assert Before(order[j], order[i - 1]); }
    }
    CountUpTo(order, 0, i, len, n);
    assert order[..0] == [];
  }

  /** The canonical book follows the rule of RFC 1951, read off the lengths. */
  lemma BookFollowsRule(lengths: seq<nat>)
    requires ValidLengths(lengths) && KraftSum(lengths) <= Pow2(MAX_LEN)
    ensures FollowsRule(lengths, BookOf(OrderOf(lengths)))
  {
    hide Used, SortByLength, KraftSum, RuleCode, Pow2, Value, HasSymbol, BookTo;
    var book := BookOf(OrderOf(lengths));
    forall i | 0 <= i < |book|
      ensures book[i].sym < |lengths| && |book[i].word| == lengths[book[i].sym] > 0
      ensures Value(book[i].word) == RuleCode(lengths, book[i].sym)
    {
      WordFollowsRule(lengths, i);
    }
    forall s: nat | s < |lengths| && lengths[s] > 0
      ensures HasSymbol(book, s)
    {
      UsedHasWord(lengths, s);
    }
    forall i, j | 0 <= i < j < |book|
      ensures book[i].sym != book[j].sym
    {
      SymbolsDiffer(lengths, i, j);
    }
  }

  lemma WordFollowsRule(lengths: seq<nat>, i: nat)
    requires ValidLengths(lengths) && KraftSum(lengths) <= Pow2(MAX_LEN) && i < |BookOf(OrderOf(lengths))|
    ensures var c := BookOf(OrderOf(lengths))[i];
      c.sym < |lengths| && |c.word| == lengths[c.sym] > 0 && Value(c.word) == RuleCode(lengths, c.sym)
  {
    hide Used, SortByLength, KraftSum, CodeNum, RuleCode, Pow2, Value, Kraft, CountBelow, SameLength;
    KraftOfLengths(lengths);
    CodeFollowsRule(lengths, i);
    CodeFits(OrderOf(lengths), i);
  }

  lemma UsedHasWord(lengths: seq<nat>, s: nat)
    requires ValidLengths(lengths) && s < |lengths| && lengths[s] > 0
    ensures HasSymbol(BookOf(OrderOf(lengths)), s)
  {
    hide Used, SortByLength, Word;
    var order := OrderOf(lengths);
    assert Entry(s, lengths[s]) in order;
    var i :| 0 <= i < |order| && order[i] == Entry(s, lengths[s]);
    assert BookOf(order)[i].sym == s;
  }

  lemma SymbolsDiffer(lengths: seq<nat>, i: nat, j: nat)
    requires ValidLengths(lengths) && i < j < |BookOf(OrderOf(lengths))|
    ensures BookOf(OrderOf(lengths))[i].sym != BookOf(OrderOf(lengths))[j].sym
  {
    hide Used, SortByLength, Word;
    var order := OrderOf(lengths);
    assert Before(order[i], order[j]) && order[i] in order && order[j] in order;
  }

  /** Of two symbols with codes of one length, the smaller has the smaller code. */
  lemma EqualLengths(lengths: seq<nat>, s: nat, s': nat)
    requires s < s' < |lengths| && lengths[s] == lengths[s']
    ensures RuleCode(lengths, s) < RuleCode(lengths, s')
  {
    SameLengthGrows(lengths, lengths[s], s + 1, s');
  }

  lemma {:induction false} SameLengthGrows(lengths: seq<nat>, len: nat, m: nat, n: nat)
    requires m <= n <= |lengths|
    ensures SameLength(lengths, len, m) <= SameLength(lengths, len, n)
    decreases n
  {
    if m < n { SameLengthGrows(lengths, len, m, n - 1); }
  }
}
