/** The two 48-bit markers of a bzip2 stream, and how a block magic can overlap itself. */
module Magic {
  import opened Bits

  const BLOCK_MAGIC: nat := 0x3141_5926_5359
  const FINAL_MAGIC: nat := 0x1772_4538_5090

  function MagicBits(): (b: Bitstring)
    ensures |b| == 48
  {
    ToBits(BLOCK_MAGIC, 48)
  }

  /** A block magic stands at bit `p`. */
  predicate MagicAt(bits: Bitstring, p: nat)
  {
    At(bits, p, MagicBits())
  }

  lemma Pow48()
    ensures Pow2(48) == 0x1_0000_0000_0000
  {
    Pow2Values();
    Pow2Add(16, 32);
  }

  /** Comparing 48 bits as a number with the magic compares the bits. */
  lemma MagicByValue(w: Bitstring)
    requires |w| == 48
    ensures Value(w) == BLOCK_MAGIC <==> w == MagicBits()
  {
    Pow48();
    ValueOfToBits(BLOCK_MAGIC, 48);
    SameValue(w, MagicBits());
  }

  // ---------------------------------------------------------------------------------------------
  // Self-overlap
  // ---------------------------------------------------------------------------------------------

  /** The positions of the 1 bits of the magic. */
  predicate One(i: int)
  {
    || i == 2 || i == 3 || i == 7 || i == 9 || i == 15
    || i == 17 || i == 19 || i == 20 || i == 23
    || i == 26 || i == 29 || i == 30
    || i == 33 || i == 35 || i == 38 || i == 39
    || i == 41 || i == 43 || i == 44 || i == 47
  }

  lemma {:induction false} ToBitsConcat(h: nat, l: nat, m: nat, n: nat)
    requires l < Pow2(n)
    ensures ToBits(h * Pow2(n) + l, m + n) == ToBits(h, m) + ToBits(l, n)
  {
    if n == 0 {
      assert ToBits(h, m) + [] == ToBits(h, m);
    } else {
      MulDouble(h, Pow2(n - 1));
      var v := h * Pow2(n) + l;
      assert v / 2 == h * Pow2(n - 1) + l / 2 && v % 2 == l % 2;
      ToBitsConcat(h, l / 2, m, n - 1);
      assert (ToBits(h, m) + ToBits(l / 2, n - 1)) + [l % 2 == 1] == ToBits(h, m) + (ToBits(l / 2, n - 1) + [l % 2 == 1]);
    }
  }

  lemma ByteSplit(h: nat, l: nat, m: nat)
    requires l < 256
    ensures ToBits(256 * h + l, m + 8) == ToBits(h, m) + ToBits(l, 8)
  {
    assert Pow2(8) == 256;
    ToBitsConcat(h, l, m, 8);
  }

  /** The magic as the bytes `1AY&SY`. */
  lemma MagicBytes()
    ensures MagicBits() == ToBits(0x31, 8) + ToBits(0x41, 8) + ToBits(0x59, 8) + ToBits(0x26, 8) + ToBits(0x53, 8) + ToBits(0x59, 8)
  {
    hide ToBits;
    ByteSplit(0x31_4159_2653, 0x59, 40);
    ByteSplit(0x3141_5926, 0x53, 32);
    ByteSplit(0x31_4159, 0x26, 24);
    ByteSplit(0x3141, 0x59, 16);
    ByteSplit(0x31, 0x41, 8);
  }

  /** The end marker as the bytes 17 72 45 38 50 90. */
  lemma FinalBytes()
    ensures ToBits(FINAL_MAGIC, 48)
         == ToBits(0x17, 8) + ToBits(0x72, 8) + ToBits(0x45, 8) + ToBits(0x38, 8) + ToBits(0x50, 8) + ToBits(0x90, 8)
  {
    hide ToBits;
    ByteSplit(0x17_7245_3850, 0x90, 40);
    ByteSplit(0x1772_4538, 0x50, 32);
    ByteSplit(0x17_7245, 0x38, 24);
    ByteSplit(0x1772, 0x45, 16);
    ByteSplit(0x17, 0x72, 8);
  }

  lemma Byte31()
    ensures ToBits(0x31, 8) == [false, false, true, true, false, false, false, true]
  {
  }

  lemma Byte41()
    ensures ToBits(0x41, 8) == [false, true, false, false, false, false, false, true]
  {
  }

  lemma Byte59()
    ensures ToBits(0x59, 8) == [false, true, false, true, true, false, false, true]
  {
  }

  lemma Byte26()
    ensures ToBits(0x26, 8) == [false, false, true, false, false, true, true, false]
  {
  }

  lemma Byte53()
    ensures ToBits(0x53, 8) == [false, true, false, true, false, false, true, true]
  {
  }

  lemma MagicBit(i: nat)
    requires i < 48
    ensures MagicBits()[i] == One(i)
  {
    hide ToBits;
    MagicBytes();
    Byte31();
    Byte41();
    Byte59();
    Byte26();
    Byte53();
    var a, b, c, d, e := ToBits(0x31, 8), ToBits(0x41, 8), ToBits(0x59, 8), ToBits(0x26, 8), ToBits(0x53, 8);
    Six(a, b, c, d, e, c, i);
  }

  lemma Six(a: Bitstring, b: Bitstring, c: Bitstring, d: Bitstring, e: Bitstring, f: Bitstring, i: nat)
    requires |a| == |b| == |c| == |d| == |e| == |f| == 8 && i < 48
    ensures (a + b + c + d + e + f)[i] ==
      if i < 8 then a[i] else if i < 16 then b[i - 8] else if i < 24 then c[i - 16]
      else if i < 32 then d[i - 24] else if i < 40 then e[i - 32] else f[i - 40]
  {
  }

  /** A 1 of the magic that meets a 0 of the copy shifted by `k`, or the other way round. */
  lemma Clash(k: nat) returns (i: nat)
    requires 0 < k < 48 && k != 45
    ensures i + k < 48 && One(i) != One(i + k)
  {
    i := if One(k) then 0 else if One(k + 1) then 1 else if !One(k + 2) then 2
         else if k == 36 then 5 else if k == 27 then 6 else 3;
  }

  /** Two block magics closer than 48 bits are exactly 45 bits apart. */
  lemma OverlapOnlyAt45(bits: Bitstring, p: nat, q: nat)
    requires MagicAt(bits, p) && MagicAt(bits, q) && p < q < p + 48
    ensures q == p + 45
  {
    hide MagicAt, MagicBits, One;
    var k := q - p;
    if k != 45 {
      var i := Clash(k);
      MagicBit(i);
      MagicBit(i + k);
      MagicIndex(bits, p, i + k);
      MagicIndex(bits, q, i);
    }
  }

  lemma MagicIndex(bits: Bitstring, p: nat, i: nat)
    requires MagicAt(bits, p) && i < 48
    ensures p + i < |bits| && bits[p + i] == MagicBits()[i]
  {
    assert bits[p..p + 48][i] == bits[p + i];
  }
}
