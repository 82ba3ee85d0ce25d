/** Prefix codes as books of words, and decoding a bit stream by walking a word at a time. */
module CodeBooks {
  import opened Wrappers
  import opened Bits

  datatype Code = Code(sym: nat, word: Bitstring)

  type Book = seq<Code>

  /** No word is empty, and none is a prefix of another (`<=` on sequences is "is a prefix of"). */
  predicate PrefixFree(book: Book)
  {
    && (forall i :: 0 <= i < |book| ==> book[i].word != [])
    && (forall i, j :: 0 <= i < |book| && 0 <= j < |book| && i != j ==> !(book[i].word <= book[j].word))
  }

  /** Some word of the book starts with `u`. */
  predicate Extends(book: Book, u: Bitstring)
  {
    exists i :: 0 <= i < |book| && u <= book[i].word
  }

  predicate IsWord(book: Book, u: Bitstring)
  {
    exists i :: 0 <= i < |book| && book[i].word == u
  }

  predicate HasSymbol(book: Book, sym: nat)
  {
    exists i :: 0 <= i < |book| && book[i].sym == sym
  }

  /** The position of a word in the book. */
  function Find(book: Book, u: Bitstring): (i: nat)
    requires IsWord(book, u)
    ensures i < |book| && book[i].word == u
  {
    if book[0].word == u then 0 else
      var i :| 0 <= i < |book| && book[i].word == u;
      assert book[1..][i - 1].word == u;
      1 + Find(book[1..], u)
  }

  /** Decoding one symbol: take bits until they form a word; when they no longer can, start again
      with the next bit; give up at the end of the stream.  `p` is where the current attempt started
      and `q` the next unread bit. */
  function Walk(book: Book, bits: Bitstring, p: nat, q: nat): (r: Option<(nat, nat)>)
    requires p <= q <= |bits|
    ensures r.Some? ==> q < r.value.1 <= |bits|
    ensures r.Some? ==> HasSymbol(book, r.value.0)
    decreases |bits| - q
  {
    if q == |bits| then None
    else
      var w := bits[p..q + 1];
      if IsWord(book, w) then Some((book[Find(book, w)].sym, q + 1))
      else if Extends(book, w) then Walk(book, bits, p, q + 1)
      else Walk(book, bits, q + 1, q + 1)
  }

  /** The symbol at `p` and the position after it. */
  function Decode(book: Book, bits: Bitstring, p: nat): (r: Option<(nat, nat)>)
    requires p <= |bits|
    ensures r.Some? ==> p < r.value.1 <= |bits|
    ensures r.Some? ==> HasSymbol(book, r.value.0)
  {
    Walk(book, bits, p, p)
  }

  lemma PrefixTransitive(a: Bitstring, b: Bitstring, c: Bitstring)
    requires a <= b && b <= c
    ensures a <= c
  {
  }

  /** The word found for a word of a prefix-free book is that word. */
  lemma FindUnique(book: Book, i: nat)
    requires PrefixFree(book) && i < |book|
    ensures IsWord(book, book[i].word) && Find(book, book[i].word) == i
  {
    var j := Find(book, book[i].word);
    assert book[j].word == book[i].word;
  }

  /** A codeword in the stream decodes to its symbol, and exactly its bits are consumed. */
  lemma {:induction false} WalkWord(book: Book, bits: Bitstring, p: nat, q: nat, i: nat)
    requires PrefixFree(book) && i < |book| && At(bits, p, book[i].word)
    requires p <= q < p + |book[i].word|
    ensures Walk(book, bits, p, q) == Some((book[i].sym, p + |book[i].word|))
    decreases |bits| - q
  {
    hide PrefixFree, IsWord, Extends, At;
    var word, k := book[i].word, q + 1 - p;
    AtPrefix(bits, p, word, k);
    var w := word[..k];
    if k == |word| {
      assert w == word;
      FindUnique(book, i);
    } else {
      ProperPrefixNoWord(book, i, k);
      WalkWord(book, bits, p, q + 1, i);
    }
  }

  lemma AtPrefix(bits: Bitstring, p: nat, word: Bitstring, k: nat)
    requires At(bits, p, word) && k <= |word|
    ensures p + |word| <= |bits| && bits[p..p + k] == word[..k]
  {
    assert bits[p..p + |word|][..k] == bits[p..p + k];
  }

  lemma ProperPrefixNoWord(book: Book, i: nat, k: nat)
    requires PrefixFree(book) && i < |book| && k < |book[i].word|
    ensures Extends(book, book[i].word[..k]) && !IsWord(book, book[i].word[..k])
  {
    var w := book[i].word[..k];
    assert w <= book[i].word;
    PrefixNoWord(book, i, w);
  }

  /** In a prefix-free book a proper prefix of a word is no word. */
  lemma PrefixNoWord(book: Book, i: nat, w: Bitstring)
    requires PrefixFree(book) && i < |book| && w <= book[i].word && w != book[i].word
    ensures !IsWord(book, w)
  {
    forall j | 0 <= j < |book|
      ensures book[j].word != w
    {
      assert j != i ==> !(book[j].word <= book[i].word);
    }
  }

  lemma DecodeWord(book: Book, bits: Bitstring, p: nat, i: nat)
    requires PrefixFree(book) && i < |book| && At(bits, p, book[i].word)
    ensures Decode(book, bits, p) == Some((book[i].sym, p + |book[i].word|))
  {
    WalkWord(book, bits, p, p, i);
  }

  /** The bits from `p` to `q` are the beginning of some word, and no word is the beginning of them. */
  predicate OnTheWay(book: Book, bits: Bitstring, p: nat, q: nat)
    requires p <= q <= |bits|
  {
    forall k :: p < k <= q ==> Extends(book, bits[p..k]) && !IsWord(book, bits[p..k])
  }

  lemma {:induction false} WalkOnTheWay(book: Book, bits: Bitstring, p: nat, q: nat, r: nat)
    requires p <= q <= r <= |bits| && OnTheWay(book, bits, p, r)
    ensures Walk(book, bits, p, q) == Walk(book, bits, p, r)
    decreases r - q
  {
    hide IsWord, Extends;
    if q < r {
      assert Extends(book, bits[p..q + 1]) && !IsWord(book, bits[p..q + 1]);
      WalkOnTheWay(book, bits, p, q + 1, r);
    }
  }

  /** What becomes of bits that are no word: when the stream ends on the way to one, nothing; when a bit
      leads away from all words, the bits up to that one are dropped and decoding begins anew. */
  lemma DecodeNoWord(book: Book, bits: Bitstring, p: nat, q: nat)
    requires p <= q <= |bits| && OnTheWay(book, bits, p, q)
    ensures q == |bits| ==> Decode(book, bits, p) == None
    ensures q < |bits| && !Extends(book, bits[p..q + 1]) && !IsWord(book, bits[p..q + 1]) ==>
      Decode(book, bits, p) == Decode(book, bits, q + 1)
  {
    hide IsWord, Extends, OnTheWay;
    WalkOnTheWay(book, bits, p, p, q);
  }

  /** Where the bits in `[p, hi)` reappear `d` positions further on, decoding that consumes no more
      than these gives the same symbol there; where the whole rest of the stream reappears, it also
      fails there when it fails here. */
  lemma {:induction false} WalkLocal(book: Book, bits: Bitstring, p: nat, q: nat, other: Bitstring, d: int, hi: nat)
    requires p <= q <= hi && Agree(bits, other, d, p, hi)
    ensures var r, r' := Walk(book, bits, p, q), Walk(book, other, p + d, q + d);
      && (r.Some? && r.value.1 <= hi ==> r' == Some((r.value.0, r.value.1 + d)))
      && (r.None? && hi == |bits| && |other| == |bits| + d ==> r'.None?)
    decreases |bits| - q
  {
    hide IsWord, Extends, Find;
    if q < hi {
      AgreeSlice(bits, other, d, p, hi, p, q + 1);
      var w := bits[p..q + 1];
      assert other[p + d..q + d + 1] == w;
      if IsWord(book, w) {
      } else if Extends(book, w) {
        WalkLocal(book, bits, p, q + 1, other, d, hi);
      } else {
        WalkLocal(book, bits, q + 1, q + 1, other, d, hi);
      }
    }
  }
}
