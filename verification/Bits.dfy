/** Bit strings, the numbers they denote, and the fixed-width machine words built from them.

    A bit string is a `seq<bool>` read most significant bit first.  A 64-bit register is the bit
    string of its 64 bits; a `u32` value is a natural number below 2^32.  Every wrap-around or
    truncation of the program is written out in the operations below. */
module Bits {
  import opened Wrappers

  type Byte = x: int | 0 <= x < 256

  type Bitstring = seq<bool>

  function Bit(b: bool): (r: nat)
  {
    if b then 1 else 0
  }

  function Pow2(n: nat): (r: nat)
    ensures r > 0
  {
    if n == 0 then 1 else 2 * Pow2(n - 1)
  }

  /** The number a bit string denotes, most significant bit first. */
  function Value(b: Bitstring): (v: nat)
    ensures v < Pow2(|b|)
  {
    if b == [] then 0 else 2 * Value(b[..|b| - 1]) + Bit(b[|b| - 1])
  }

  /** The low `n` bits of `v`, most significant first. */
  function ToBits(v: nat, n: nat): (b: Bitstring)
    ensures |b| == n
  {
    if n == 0 then [] else ToBits(v / 2, n - 1) + [v % 2 == 1]
  }

  function Zeros(n: nat): (b: Bitstring)
    ensures |b| == n && forall i :: 0 <= i < n ==> !b[i]
  {
    seq(n, _ => false)
  }

  function SaturatingSub(a: nat, b: nat): (r: nat)
  {
    if a >= b then a - b else 0
  }

  lemma {:induction false} Pow2Add(m: nat, n: nat)
    ensures Pow2(m + n) == Pow2(m) * Pow2(n)
  {
    if m == 0 {
    } else {
      Pow2Add(m - 1, n);
    }
  }

  lemma Pow2Values()
    ensures Pow2(8) == 0x100 && Pow2(10) == 0x400 && Pow2(16) == 0x1_0000 && Pow2(20) == 0x10_0000
    ensures Pow2(24) == 0x100_0000 && Pow2(32) == 0x1_0000_0000
  {
    assert Pow2(8) == 0x100;
    Pow2Add(2, 8);
    Pow2Add(8, 8);
    Pow2Add(4, 16);
    Pow2Add(8, 16);
    Pow2Add(16, 16);
  }

  lemma {:induction false} Pow2Mono(m: nat, n: nat)
    requires m <= n
    ensures Pow2(m) <= Pow2(n)
  {
    if m < n { Pow2Mono(m, n - 1); }
  }

  lemma ValueAppend(b: Bitstring, last: bool)
    ensures Value(b + [last]) == 2 * Value(b) + Bit(last)
  {
    assert (b + [last])[..|b|] == b;
  }

  /** Writing a number in `n` bits and reading it back gives the number, when it fits. */
  lemma {:induction false} ValueOfToBits(v: nat, n: nat)
    requires v < Pow2(n)
    ensures Value(ToBits(v, n)) == v
  {
    if n == 0 {
    } else {
      hide ToBits, Value, Pow2;
      ToBitsStep(v, n);
      ValueOfToBits(v / 2, n - 1);
      ValueAppend(ToBits(v / 2, n - 1), v % 2 == 1);
      assert v == 2 * (v / 2) + v % 2;
    }
  }

  lemma ToBitsStep(v: nat, n: nat)
    requires 0 < n && v < Pow2(n)
    ensures ToBits(v, n) == ToBits(v / 2, n - 1) + [v % 2 == 1]
    ensures v / 2 < Pow2(n - 1)
  {
  }

  /** Reading a bit string and writing the number in as many bits gives the bit string back. */
  lemma {:induction false} ToBitsOfValue(b: Bitstring)
    ensures ToBits(Value(b), |b|) == b
  {
    if b != [] {
      var init, last := b[..|b| - 1], b[|b| - 1];
      ToBitsOfValue(init);
      assert Value(b) / 2 == Value(init) && Value(b) % 2 == Bit(last);
      assert b == init + [last];
    }
  }

  lemma {:induction false} ValueInjective(a: Bitstring, b: Bitstring)
    requires |a| == |b| && Value(a) == Value(b)
    ensures a == b
  {
    ToBitsOfValue(a);
    ToBitsOfValue(b);
  }

  lemma DivDiv(v: nat, d: nat)
    requires d > 0
    ensures (v / 2) / d == v / (2 * d)
  {
    var q, r := (v / 2) / d, (v / 2) % d;
    assert v == 2 * (q * d + r) + v % 2;
    var s := 2 * r + v % 2;
    assert q * (2 * d) == 2 * (q * d);
    assert v == q * (2 * d) + s && 0 <= s < 2 * d;
    DivUnique(v, 2 * d, q, s);
  }

  lemma DivUnique(v: nat, d: nat, q: nat, s: nat)
    requires d > 0 && v == q * d + s && s < d
    ensures v / d == q && v % d == s
  {
    QuotientUnique(d, q, s, v / d, v % d);
  }

  lemma QuotientUnique(d: nat, q: int, s: int, q': int, s': int)
    requires d > 0 && 0 <= s < d && 0 <= s' < d
    requires q * d + s == q' * d + s'
    ensures q == q' && s == s'
  {
    assert (q - q') * d == s' - s;
    if q - q' >= 1 {
      MulAtLeast(q - q', d);
    } else if q' - q >= 1 {
      MulAtLeast(q' - q, d);
    }
  }

  lemma MulAtLeast(k: int, d: nat)
    requires k >= 1
    ensures k * d >= d
  {
    assert k * d == (k - 1) * d + d;
  }

  lemma MulDouble(b: nat, p: nat)
    ensures b * (2 * p) == 2 * (b * p)
  {
  }

  lemma {:induction false} ValueConcat(a: Bitstring, b: Bitstring)
    ensures Value(a + b) == Value(a) * Pow2(|b|) + Value(b)
  {
    if b == [] {
      assert a + b == a;
    } else {
      var init, last := b[..|b| - 1], b[|b| - 1];
      ValueConcat(a, init);
      assert a + b == (a + init) + [last];
      ValueAppend(a + init, last);
      assert b == init + [last];
      ValueAppend(init, last);
      MulDouble(Value(a), Pow2(|init|));
    }
  }

  /** `u` is a prefix of `w` exactly when `w`'s value lies in the interval that `u` spans. */
  lemma PrefixInterval(u: Bitstring, w: Bitstring)
    requires |u| <= |w|
    ensures u <= w <==> Value(u) * Pow2(|w| - |u|) <= Value(w) < (Value(u) + 1) * Pow2(|w| - |u|)
  {
    hide Value, Pow2;
    var a, b, v := w[..|u|], w[|u|..], Value(w);
    assert w == a + b;
    ValueConcat(a, b);
    IntervalOf(Value(u), Value(a), Value(b), Pow2(|w| - |u|), v);
    SameValue(u, a);
  }

  lemma SameValue(a: Bitstring, b: Bitstring)
    requires |a| == |b|
    ensures Value(a) == Value(b) <==> a == b
  {
    if Value(a) == Value(b) { ValueInjective(a, b); }
  }

  lemma IntervalOf(q: nat, a: nat, b: nat, s: nat, v: nat)
    requires b < s && v == a * s + b
    ensures q * s <= v < (q + 1) * s <==> q == a
  {
    IntervalQuotient(q, a, b, s);
  }

  lemma IntervalQuotient(q: nat, a: nat, b: nat, s: nat)
    requires b < s
    ensures q * s <= a * s + b < (q + 1) * s <==> q == a
  {
    Distributes(q, s);
    if q * s <= a * s + b < q * s + s {
      QuotientUnique(s, q, a * s + b - q * s, a, b);
    }
  }

  lemma Distributes(q: nat, s: nat)
    ensures (q + 1) * s == q * s + s
  {
  }

  lemma {:induction false} ToBitsZeros(n: nat)
    ensures ToBits(0, n) == Zeros(n)
  {
    if n > 0 {
      ToBitsZeros(n - 1);
      assert Zeros(n) == Zeros(n - 1) + [false];
    }
  }

  lemma {:induction false} ValueZeros(n: nat)
    ensures Value(Zeros(n)) == 0
  {
    if n > 0 {
      ValueZeros(n - 1);
      assert Zeros(n)[..n - 1] == Zeros(n - 1);
    }
  }

  /** Shifting left appends zeros. */
  lemma {:induction false} ToBitsShift(v: nat, n: nat, m: nat)
    ensures ToBits(v * Pow2(m), n + m) == ToBits(v, n) + Zeros(m)
  {
    if m == 0 {
      assert ToBits(v, n) + Zeros(0) == ToBits(v, n);
    } else {
      ToBitsShift(v, n, m - 1);
      MulDouble(v, Pow2(m - 1));
      assert Zeros(m) == Zeros(m - 1) + [false];
      assert ToBits(v, n) + Zeros(m) == (ToBits(v, n) + Zeros(m - 1)) + [false];
    }
  }

  /** `(v >> j) & 1` is bit `j` of `v`, counted from the low end. */
  lemma {:induction false} ToBitsIndex(v: nat, n: nat, j: nat)
    requires j < n
    ensures ToBits(v, n)[n - 1 - j] == ((v / Pow2(j)) % 2 == 1)
  {
    if j > 0 {
      ToBitsIndex(v / 2, n - 1, j - 1);
      DivDiv(v, Pow2(j - 1));
    }
  }

  // ---------------------------------------------------------------------------------------------
  // Bytes
  // ---------------------------------------------------------------------------------------------

  function ByteBit(b: Byte, i: nat): (r: bool)
    requires i < 8
  {
    ToBits(b, 8)[i]
  }

  /** The bit string of a byte string. */
  function BitsOf(bytes: seq<Byte>): (b: Bitstring)
    ensures |b| == 8 * |bytes|
  {
    if bytes == [] then [] else BitsOf(bytes[..|bytes| - 1]) + ToBits(bytes[|bytes| - 1], 8)
  }

  lemma {:induction false} BitsOfIndex(bytes: seq<Byte>, k: nat, j: nat)
    requires k < |bytes| && j < 8
    ensures BitsOf(bytes)[8 * k + j] == ByteBit(bytes[k], j)
  {
    if k < |bytes| - 1 {
      BitsOfIndex(bytes[..|bytes| - 1], k, j);
    }
  }

  /** Bytes are read most significant bit first. */
  lemma BitOfByte(bytes: seq<Byte>, k: nat, j: nat)
    requires k < |bytes| && j < 8
    ensures BitsOf(bytes)[8 * k + j] <==> (bytes[k] / Pow2(7 - j)) % 2 == 1
  {
    BitsOfIndex(bytes, k, j);
    ToBitsIndex(bytes[k], 8, 7 - j);
  }

  /** So are numbers. */
  lemma ValueOfFirst(b: Bitstring)
    requires b != []
    ensures Value(b) == (if b[0] then Pow2(|b| - 1) else 0) + Value(b[1..])
  {
    hide Pow2, Value;
    var first := b[..1];
    assert b == first + b[1..];
    ValueConcat(first, b[1..]);
    ValueOfOne(first);
  }

  lemma ValueOfOne(b: Bitstring)
    requires |b| == 1
    ensures Value(b) == if b[0] then 1 else 0
  {
    assert b[..0] == [];
  }

  lemma {:induction false} BitsOfConcat(a: seq<Byte>, b: seq<Byte>)
    ensures BitsOf(a + b) == BitsOf(a) + BitsOf(b)
  {
    hide ToBits;
    if b == [] {
      assert a + b == a;
    } else {
      var init, last := b[..|b| - 1], b[|b| - 1];
      BitsOfConcat(a, init);
      assert a + b == (a + init) + [last];
      assert (a + b)[..|a + b| - 1] == a + init;
      assert (BitsOf(a) + BitsOf(init)) + ToBits(last, 8) == BitsOf(a) + (BitsOf(init) + ToBits(last, 8));
    }
  }

  lemma BitsOfDrop(bytes: seq<Byte>, k: nat)
    requires k <= |bytes|
    ensures BitsOf(bytes[k..]) == BitsOf(bytes)[8 * k..]
  {
    BitsOfParts(bytes, k);
    assert (BitsOf(bytes[..k]) + BitsOf(bytes[k..]))[8 * k..] == BitsOf(bytes[k..]);
  }

  lemma BitsOfTake(bytes: seq<Byte>, k: nat)
    requires k <= |bytes|
    ensures BitsOf(bytes[..k]) == BitsOf(bytes)[..8 * k]
  {
    BitsOfParts(bytes, k);
    assert (BitsOf(bytes[..k]) + BitsOf(bytes[k..]))[..8 * k] == BitsOf(bytes[..k]);
  }

  lemma BitsOfParts(bytes: seq<Byte>, k: nat)
    requires k <= |bytes|
    ensures BitsOf(bytes) == BitsOf(bytes[..k]) + BitsOf(bytes[k..])
  {
    var a, b := bytes[..k], bytes[k..];
    assert bytes == a + b;
    BitsOfConcat(a, b);
  }

  lemma BitsOfSlice(bytes: seq<Byte>, k: nat, m: nat)
    requires k <= m <= |bytes|
    ensures BitsOf(bytes[k..m]) == BitsOf(bytes)[8 * k..8 * m]
  {
    BitsOfTake(bytes, m);
    BitsOfDrop(bytes[..m], k);
    assert bytes[..m][k..] == bytes[k..m];
    assert BitsOf(bytes)[..8 * m][8 * k..] == BitsOf(bytes)[8 * k..8 * m];
  }

  // ---------------------------------------------------------------------------------------------
  // 64-bit registers
  // ---------------------------------------------------------------------------------------------

  /** A `u64` register: its 64 bits, most significant first. */
  type Word64 = w: Bitstring | |w| == 64 witness seq(64, _ => false)

  /** `w << n`, for the shift distances Rust accepts. */
  function Shl(w: Word64, n: nat): (r: Word64)
    requires n < 64
  {
    w[n..] + Zeros(n)
  }

  /** `w >> n`, for the shift distances Rust accepts. */
  function Shr(w: Word64, n: nat): (r: Word64)
    requires n < 64
  {
    Zeros(n) + w[..64 - n]
  }

  /** `a | b`. */
  function Or(a: Word64, b: Word64): (r: Word64)
  {
    seq(64, i requires 0 <= i < 64 => a[i] || b[i])
  }

  /** `byte as u64`. */
  function WordOfByte(b: Byte): (r: Word64)
  {
    Zeros(56) + ToBits(b, 8)
  }

  /** `u64::from_be_bytes` of the eight bytes at `k`. */
  function LoadBigEndian(bytes: seq<Byte>, k: nat): (r: Word64)
    requires k + 8 <= |bytes|
  {
    BitsOf(bytes[k..k + 8])
  }

  /** The number in the top `n` bits of a register is what `w >> (64 - n)` holds. */
  lemma {:induction false} ValueOfShr(w: Word64, n: nat)
    requires 0 < n <= 64
    ensures Value(Shr(w, 64 - n)) == Value(w[..n])
  {
    assert Shr(w, 64 - n) == Zeros(64 - n) + w[..n];
    LeadingZeros(64 - n, w[..n]);
  }

  lemma {:induction false} LeadingZeros(k: nat, b: Bitstring)
    ensures Value(Zeros(k) + b) == Value(b)
  {
    var z := Zeros(k) + b;
    if b != [] {
      LeadingZeros(k, b[..|b| - 1]);
      assert z[..|z| - 1] == Zeros(k) + b[..|b| - 1];
    } else if k > 0 {
      assert z == Zeros(k) && z[..k - 1] == Zeros(k - 1) + [];
      LeadingZeros(k - 1, []);
    }
  }

  // ---------------------------------------------------------------------------------------------
  // Bit strings inside a stream
  // ---------------------------------------------------------------------------------------------

  /** `w` stands in `bits` at position `p`. */
  predicate At(bits: Bitstring, p: nat, w: Bitstring)
  {
    p + |w| <= |bits| && bits[p..p + |w|] == w
  }

  lemma AtSplit(bits: Bitstring, p: nat, a: Bitstring, b: Bitstring)
    ensures At(bits, p, a + b) <==> At(bits, p, a) && At(bits, p + |a|, b)
  {
    if p + |a| + |b| <= |bits| {
      var w := bits[p..p + |a| + |b|];
      assert w[..|a|] == bits[p..p + |a|];
      assert w[|a|..] == bits[p + |a|..p + |a| + |b|];
      assert w == w[..|a|] + w[|a|..];
      if w == a + b {
        assert w[..|a|] == a && w[|a|..] == b;
      }
    }
  }

  /** The number in the `n` bits at `p`, when they are all there. */
  function ReadNum(bits: Bitstring, p: nat, n: nat): (r: Option<nat>)
    requires p <= |bits|
    ensures r.Some? <==> p + n <= |bits|
  {
    if p + n <= |bits| then Some(Value(bits[p..p + n])) else None
  }

  lemma ReadNumAt(bits: Bitstring, p: nat, v: nat, n: nat)
    requires v < Pow2(n) && At(bits, p, ToBits(v, n))
    ensures ReadNum(bits, p, n) == Some(v)
  {
    hide Value, ToBits, Pow2;
    ValueOfToBits(v, n);
  }

  /** The bits of `bits` in `[lo, hi)` reappear in `other`, `d` positions further on. */
  ghost predicate Agree(bits: Bitstring, other: Bitstring, d: int, lo: nat, hi: nat)
  {
    lo <= hi <= |bits| && 0 <= lo + d && hi + d <= |other| &&
    forall i {:trigger bits[i]} :: lo <= i < hi ==> other[i + d] == bits[i]
  }

  lemma AgreeWithin(bits: Bitstring, other: Bitstring, d: int, lo: nat, hi: nat, a: nat, b: nat)
    requires Agree(bits, other, d, lo, hi) && lo <= a <= b <= hi
    ensures Agree(bits, other, d, a, b)
  {
  }

  lemma AgreeSlice(bits: Bitstring, other: Bitstring, d: int, lo: nat, hi: nat, a: nat, b: nat)
    requires Agree(bits, other, d, lo, hi) && lo <= a <= b <= hi
    ensures other[a + d..b + d] == bits[a..b]
  {
    forall i | 0 <= i < b - a
      ensures other[a + d..b + d][i] == bits[a..b][i]
    {
      assert other[(a + i) + d] == bits[a + i];
    }
  }

  // ---------------------------------------------------------------------------------------------
  // 32-bit values
  // ---------------------------------------------------------------------------------------------

  type U32 = x: int | 0 <= x < 0x1_0000_0000

  /** `x << n` on a `u32`: bits shifted out at the top are lost. */
  function Shl32(x: U32, n: nat): (r: U32)
  {
    (x * Pow2(n)) % 0x1_0000_0000
  }

  /** `a | b` on unsigned integers. */
  function BitOr(a: nat, b: nat): (r: nat)
    decreases a + b
  {
    if a == 0 && b == 0 then 0
    else 2 * BitOr(a / 2, b / 2) + (if a % 2 == 1 || b % 2 == 1 then 1 else 0)
  }

  /** ORing values that occupy different bits adds them. */
  lemma BitOrDisjoint(a: nat, b: nat, n: nat)
    requires a < Pow2(n)
    ensures BitOr(a, b * Pow2(n)) == a + b * Pow2(n)
  {
    BitOrShifted(a, b, n);
    ShiftedIsProduct(b, n);
  }

  function Shifted(b: nat, n: nat): nat
  {
    if n == 0 then b else 2 * Shifted(b, n - 1)
  }

  lemma {:induction false} ShiftedIsProduct(b: nat, n: nat)
    ensures Shifted(b, n) == b * Pow2(n)
  {
    if n > 0 { ShiftedIsProduct(b, n - 1); }
  }

  lemma {:induction false} BitOrShifted(a: nat, b: nat, n: nat)
    requires a < Pow2(n)
    ensures BitOr(a, Shifted(b, n)) == a + Shifted(b, n)
  {
    if n == 0 {
      BitOrZero(b);
    } else {
      hide BitOr;
      var h := Shifted(b, n - 1);
      BitOrShifted(a / 2, b, n - 1);
      BitOrHalves(a, h);
      assert a == 2 * (a / 2) + a % 2;
    }
  }

  lemma {:induction false} BitOrCommutes(a: nat, b: nat)
    ensures BitOr(a, b) == BitOr(b, a)
    decreases a + b
  {
    if a != 0 || b != 0 { BitOrCommutes(a / 2, b / 2); }
  }

  lemma BitOrHalves(a: nat, h: nat)
    ensures BitOr(a, 2 * h) == 2 * BitOr(a / 2, h) + a % 2
  {
    assert (2 * h) / 2 == h;
  }

  lemma {:induction false} BitOrZero(b: nat)
    ensures BitOr(0, b) == b
  {
    if b != 0 { BitOrZero(b / 2); }
  }

  lemma {:induction false} BitOrBound(a: nat, b: nat, n: nat)
    requires a < Pow2(n) && b < Pow2(n)
    ensures BitOr(a, b) < Pow2(n)
  {
    if n > 0 && (a != 0 || b != 0) { BitOrBound(a / 2, b / 2, n - 1); }
  }

  /** `a | b` on `u32`. */
  function Or32(a: U32, b: U32): (r: U32)
  {
    Pow2Values();
    BitOrBound(a, b, 32);
    BitOr(a, b)
  }
}
