/** The buffered bit reader over a byte slice (`src/bitreader.rs`).

    The reader keeps up to 64 bits of the stream in a left-justified register.  The fast refill
    ORs a whole 8-byte load into the register but only counts whole bytes as valid, so the register
    holds bits beyond `bitsInBuf`.  `Valid` says what makes this harmless: such a bit is either 0 or
    already the stream bit that belongs there, so a later refill may OR it in again. */
module BitReaders {
  import opened Wrappers
  import opened Bits

  class BitReader {
    const bytes: seq<Byte>
    var bytePos: nat
    var buf: Word64
    var bitsInBuf: nat

    /** The whole stream as bits. */
    ghost function Stream(): (s: Bitstring)
      ensures |s| == 8 * |bytes|
    {
      BitsOf(bytes)
    }

    ghost predicate Valid()
      reads this
    {
      && bytePos <= |bytes|
      && bitsInBuf <= 64
      && bitsInBuf <= 8 * bytePos
      && RegisterMatches(buf, bitsInBuf, Stream(), 8 * bytePos - bitsInBuf)
    }

    /** The cursor: the position of the next unread bit. */
    ghost function Pos(): (p: nat)
      reads this
      requires Valid()
      ensures p <= |Stream()|
    {
      8 * bytePos - bitsInBuf
    }

    constructor FromBitOffset(bytes: seq<Byte>, bitOffset: nat)
      requires bitOffset <= 8 * |bytes|
      ensures Valid() && this.bytes == bytes && Pos() == bitOffset
    {
      this.bytes := bytes;
      this.bytePos := bitOffset / 8;
      this.buf := Zeros(64);
      this.bitsInBuf := 0;
      new;
      Refill();
      var subBits := bitOffset % 8;
      if subBits > 0 {
        ShiftMatches(buf, bitsInBuf, Stream(), 8 * bytePos - bitsInBuf, subBits);
        buf := Shl(buf, subBits);
        bitsInBuf := SaturatingSub(bitsInBuf, subBits);
      }
    }

    /** `position`. */
    method Position() returns (p: nat)
      requires Valid()
      ensures p == Pos()
    {
      p := bytePos * 8 - bitsInBuf;
    }

    /** `remaining`. */
    method Remaining() returns (n: nat)
      requires Valid()
      ensures n == |Stream()| - Pos()
    {
      n := (|bytes| - bytePos) * 8 + bitsInBuf;
    }

    /** Refilling moves bytes into the register and leaves the cursor where it is; afterwards the
        register holds at least 57 bits or everything that is left. */
    method Refill()
      requires Valid() && bitsInBuf < 64
      modifies this
      ensures Valid() && Pos() == old(Pos())
      ensures bitsInBuf >= 57 || bitsInBuf == |Stream()| - Pos()
      ensures bitsInBuf >= old(bitsInBuf)
    {
      hide RegisterMatches, Or, Shr, Shl, BitsOf, LoadBigEndian, WordOfByte, ToBits;
      ghost var s, p := Stream(), 8 * bytePos - bitsInBuf;
      if bytePos + 8 <= |bytes| {
        var word := LoadBigEndian(bytes, bytePos);
        var loaded := (64 - bitsInBuf) / 8;
        LoadIsStream(bytes, bytePos);
        OrLoad(buf, word, bitsInBuf, bitsInBuf + loaded * 8, s, p);
        buf := Or(buf, Shr(word, bitsInBuf));
        bytePos := bytePos + loaded;
        bitsInBuf := bitsInBuf + loaded * 8;
      } else {
        while bitsInBuf <= 56 && bytePos < |bytes|
          invariant bytePos <= |bytes| && bitsInBuf <= 64
          invariant 8 * bytePos - bitsInBuf == p
          invariant bitsInBuf >= old(bitsInBuf)
          invariant RegisterMatches(buf, bitsInBuf, s, p)
        {
          ByteInStream(bytes, bytePos);
          OrByte(buf, bytes[bytePos], bitsInBuf, s, p);
          buf := Or(buf, Shl(WordOfByte(bytes[bytePos]), 56 - bitsInBuf));
          bytePos := bytePos + 1;
          bitsInBuf := bitsInBuf + 8;
        }
      }
    }

    /** Drop `n` bits that are already in the register: `consume`, and the common part of every
        read. */
    method Consume(n: nat)
      requires Valid() && n <= bitsInBuf && n < 64
      modifies this
      ensures Valid() && Pos() == old(Pos()) + n
      ensures bitsInBuf == old(bitsInBuf) - n
    {
      hide RegisterMatches, BitsOf, Shl;
      ShiftMatches(buf, bitsInBuf, Stream(), 8 * bytePos - bitsInBuf, n);
      buf := Shl(buf, n);
      bitsInBuf := bitsInBuf - n;
    }

    method ReadBit() returns (r: Option<bool>)
      requires Valid()
      modifies this
      ensures Valid()
      ensures old(Pos()) < |Stream()| ==> r == Some(Stream()[old(Pos())]) && Pos() == old(Pos()) + 1
      ensures old(Pos()) == |Stream()| ==> r == None && Pos() == old(Pos())
    {
      if bitsInBuf == 0 {
        Refill();
        if bitsInBuf == 0 {
          return None;
        }
      }
      var bit := Shr(buf, 63);
      assert bit == Zeros(63) + [buf[0]] && Zeros(64) == Zeros(63) + [false];
      assert bit[63] == buf[0];
      Consume(1);
      if bitsInBuf <= 32 {
        Refill();
      }
      r := Some(bit != Zeros(64));
    }

    /** `read_bits`, which `read_u8`, `read_u16`, `read_u32` and `read_u64` call. */
    method ReadBits(n: nat) returns (r: Option<nat>)
      requires Valid() && 1 <= n <= 57
      modifies this
      ensures Valid()
      ensures r == ReadNum(Stream(), old(Pos()), n)
      ensures Pos() == if r.Some? then old(Pos()) + n else old(Pos())
    {
      hide RegisterMatches, BitsOf, Shl, Shr, Value;
      if bitsInBuf < n {
        Refill();
        if bitsInBuf < n {
          return None;
        }
      }
      RegisterTop(buf, bitsInBuf, Stream(), Pos(), n);
      ValueOfShr(buf, n);
      var val := Value(Shr(buf, 64 - n));
      Consume(n);
      if bitsInBuf <= 32 {
        Refill();
      }
      r := Some(val);
    }

    /** `peek`: the next `n` bits as a number, without moving the cursor. */
    method Peek(n: nat) returns (r: Option<nat>)
      requires Valid() && 1 <= n <= 56
      modifies this
      ensures Valid() && Pos() == old(Pos())
      ensures r == ReadNum(Stream(), Pos(), n)
      ensures r.Some? ==> n <= bitsInBuf
    {
      hide RegisterMatches, BitsOf, Shl, Shr, Value;
      if bitsInBuf < n {
        Refill();
        if bitsInBuf < n {
          return None;
        }
      }
      RegisterTop(buf, bitsInBuf, Stream(), Pos(), n);
      ValueOfShr(buf, n);
      r := Some(Value(Shr(buf, 64 - n)));
    }

    /** `skip`: move the cursor by `n` bits, or to the end of the stream. */
    method Skip(n: nat)
      requires Valid() && n < 64
      modifies this
      ensures Valid()
      ensures Pos() == if old(Pos()) + n <= |Stream()| then old(Pos()) + n else |Stream()|
    {
      var remaining := n;
      while remaining > 0
        invariant Valid() && 0 <= remaining <= n
        invariant Pos() + remaining == old(Pos()) + n
      {
        if bitsInBuf == 0 {
          Refill();
          if bitsInBuf == 0 {
            return;
          }
        }
        var take := if remaining <= bitsInBuf then remaining else bitsInBuf;
        Consume(take);
        remaining := remaining - take;
      }
    }
  }

  // ---------------------------------------------------------------------------------------------
  // The register against the stream
  // ---------------------------------------------------------------------------------------------

  /** The top `n` bits of the register are the stream's bits from `p` on; every further bit is 0 or
      the right upcoming bit. */
  ghost predicate RegisterMatches(buf: Word64, n: nat, s: Bitstring, p: nat)
  {
    && n <= 64 && p + n <= |s|
    && (forall i :: 0 <= i < n ==> buf[i] == s[p + i])
    && (forall i :: n <= i < 64 ==> buf[i] ==> p + i < |s| && s[p + i])
  }

  lemma ShiftMatches(buf: Word64, n: nat, s: Bitstring, p: nat, k: nat)
    requires RegisterMatches(buf, n, s, p) && k <= n && k < 64
    ensures RegisterMatches(Shl(buf, k), n - k, s, p + k)
  {
    var w := Shl(buf, k);
    forall i | 0 <= i < 64
      ensures w[i] == if i + k < 64 then buf[i + k] else false
    {
    }
  }

  /** ORing in bits that are 0 or belong to the stream, among them all of `[n, m)`, extends the match
      from `n` to `m` bits. */
  lemma OrMatches(buf: Word64, add: Word64, n: nat, m: nat, s: Bitstring, p: nat)
    requires RegisterMatches(buf, n, s, p) && n <= m <= 64 && p + m <= |s|
    requires forall i :: 0 <= i < n ==> !add[i]
    requires forall i :: n <= i < m ==> add[i] == s[p + i]
    requires forall i :: m <= i < 64 ==> add[i] ==> p + i < |s| && s[p + i]
    ensures RegisterMatches(Or(buf, add), m, s, p)
  {
    var w := Or(buf, add);
    assert forall i :: 0 <= i < 64 ==> w[i] == (buf[i] || add[i]);
  }

  lemma LoadIsStream(bytes: seq<Byte>, k: nat)
    requires k + 8 <= |bytes|
    ensures LoadBigEndian(bytes, k) == BitsOf(bytes)[8 * k..8 * k + 64]
  {
    BitsOfSlice(bytes, k, k + 8);
  }

  /** The counted bits are the stream's next bits. */
  lemma RegisterTop(buf: Word64, n: nat, s: Bitstring, p: nat, k: nat)
    requires RegisterMatches(buf, n, s, p) && k <= n
    ensures buf[..k] == s[p..p + k]
  {
  }

  lemma OrLoad(buf: Word64, word: Word64, n: nat, m: nat, s: Bitstring, p: nat)
    requires n <= m <= 64 && n < 64 && p + n + 64 <= |s| && word == s[p + n..p + n + 64]
    requires RegisterMatches(buf, n, s, p)
    ensures RegisterMatches(Or(buf, Shr(word, n)), m, s, p)
  {
    var add := Shr(word, n);
    forall i | n <= i < 64
      ensures add[i] == s[p + i]
    {
      assert add[i] == word[i - n];
    }
    OrMatches(buf, add, n, m, s, p);
  }

  lemma ByteInStream(bytes: seq<Byte>, k: nat)
    requires k < |bytes|
    ensures BitsOf(bytes)[8 * k..8 * k + 8] == ToBits(bytes[k], 8)
  {
    BitsOfSlice(bytes, k, k + 1);
    var one := bytes[k..k + 1];
    assert one == [bytes[k]] && one[..0] == [];
    assert BitsOf(one) == [] + ToBits(bytes[k], 8);
  }

  lemma OrByte(buf: Word64, byte: Byte, n: nat, s: Bitstring, p: nat)
    requires n <= 56 && p + n + 8 <= |s| && ToBits(byte, 8) == s[p + n..p + n + 8]
    requires RegisterMatches(buf, n, s, p)
    ensures RegisterMatches(Or(buf, Shl(WordOfByte(byte), 56 - n)), n + 8, s, p)
  {
    hide ToBits;
    var add := Shl(WordOfByte(byte), 56 - n);
    ShiftedByte(ToBits(byte, 8), n);
    forall i | n <= i < n + 8
      ensures add[i] == s[p + i]
    {
      assert add[i] == ToBits(byte, 8)[i - n];
    }
    OrMatches(buf, add, n, n + 8, s, p);
  }

  lemma ShiftedByte(b: Bitstring, n: nat)
    requires |b| == 8 && n <= 56
    ensures Shl(Zeros(56) + b, 56 - n) == Zeros(n) + b + Zeros(56 - n)
  {
  }
}
