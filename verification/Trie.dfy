/** The node array of the Huffman tree as a trie over a book of words (`src/huffman.rs`). */
module Tries {
  import opened Bits
  import opened CodeBooks

  /** A node: two children, each a node index, `-(symbol + 1)` for a leaf, or 0 for no edge. */
  datatype Node = Node(zero: int, one: int)
  {
    function Child(b: bool): int
    {
      if b then one else zero
    }

    function With(b: bool, v: int): (r: Node)
      ensures r.Child(b) == v && r.Child(!b) == Child(!b)
    {
      if b then this.(one := v) else this.(zero := v)
    }
  }

  const EMPTY := Node(0, 0)

  /** What an edge says about the path that goes through it. */
  ghost predicate EdgeOk(ch: int, w: Bitstring, paths: seq<Bitstring>, book: Book)
  {
    && (ch > 0 ==> ch < |paths| && paths[ch] == w)
    && (ch < 0 ==> exists i :: 0 <= i < |book| && book[i] == Code(-ch - 1, w))
    && (ch == 0 ==> w !in paths && !Extends(book, w))
  }

  /** Node `k` stands for the bit string `paths[k]`, a proper prefix of a word of the book or a prefix
      of `extra`, the part of the word being inserted that already has nodes. */
  ghost predicate Trie(ns: seq<Node>, paths: seq<Bitstring>, book: Book, extra: Bitstring)
  {
    && 1 <= |paths| <= |ns|
    && paths[0] == []
    && (forall a, b :: 0 <= a < b < |paths| ==> paths[a] != paths[b])
    && (forall k :: |paths| <= k < |ns| ==> ns[k] == EMPTY)
    && (forall k :: 0 <= k < |paths| ==> paths[k] <= extra || ProperPrefix(paths[k], book))
    && (forall m {:trigger extra[..m]} :: 0 <= m <= |extra| ==> extra[..m] in paths)
    && (forall k, b {:trigger ns[k].Child(b)} :: 0 <= k < |paths| ==> EdgeOk(ns[k].Child(b), paths[k] + [b], paths, book))
  }

  ghost predicate ProperPrefix(u: Bitstring, book: Book)
  {
    exists i :: 0 <= i < |book| && u <= book[i].word && u != book[i].word
  }

  lemma TrieStart(ns: seq<Node>)
    requires |ns| >= 1 && forall k :: 0 <= k < |ns| ==> ns[k] == EMPTY
    ensures Trie(ns, [[]], [], [])
  {
    var root: Bitstring := [];
    assert root[..0] == root;
    forall b: bool
      ensures EdgeOk(ns[0].Child(b), [] + [b], [[]], [])
    {
    }
  }

  // ---------------------------------------------------------------------------------------------
  // Walking down
  // ---------------------------------------------------------------------------------------------

  /** The child along a bit tells the three cases of the walk apart. */
  lemma WalkStep(ns: seq<Node>, paths: seq<Bitstring>, book: Book, k: nat, b: bool)
    requires Trie(ns, paths, book, []) && PrefixFree(book) && k < |paths|
    ensures var ch, w := ns[k].Child(b), paths[k] + [b];
      && (ch < 0 <==> IsWord(book, w))
      && (ch > 0 <==> !IsWord(book, w) && Extends(book, w))
      && (ch < 0 ==> book[Find(book, w)].sym == -ch - 1)
      && (ch > 0 ==> ch < |paths| && paths[ch] == w)
  {
    var ch, w := ns[k].Child(b), paths[k] + [b];
    assert EdgeOk(ch, w, paths, book);
    if ch > 0 {
      assert paths[ch] <= [] || ProperPrefix(paths[ch], book);
      ProperPrefixIsNoWord(w, book);
    } else if ch < 0 {
      var i :| 0 <= i < |book| && book[i] == Code(-ch - 1, w);
      FindUnique(book, i);
    }
    WordExtends(book, w);
  }

  lemma WordExtends(book: Book, w: Bitstring)
    ensures IsWord(book, w) ==> Extends(book, w)
  {
  }

  lemma ProperPrefixIsNoWord(u: Bitstring, book: Book)
    requires PrefixFree(book) && ProperPrefix(u, book)
    ensures Extends(book, u) && !IsWord(book, u)
  {
    var i :| 0 <= i < |book| && u <= book[i].word && u != book[i].word;
    PrefixNoWord(book, i, u);
  }

  // ---------------------------------------------------------------------------------------------
  // Inserting a word
  // ---------------------------------------------------------------------------------------------

  /** `c` neither extends a word of the book nor is extended by one. */
  ghost predicate Apart(book: Book, c: Bitstring)
  {
    c != [] && !Extends(book, c) && forall i :: 0 <= i < |book| ==> !(book[i].word <= c)
  }

  /** On the way down an unfinished word the edge is a node or missing, never a leaf; it is missing
      exactly when no word of the book goes that way. */
  lemma DescendCases(ns: seq<Node>, paths: seq<Bitstring>, book: Book, c: Bitstring, k: nat, node: nat)
    requires k < |c| && Trie(ns, paths, book, c[..k]) && Apart(book, c)
    requires node < |paths| && paths[node] == c[..k]
    ensures var ch := ns[node].Child(c[k]);
      && ch >= 0
      && (ch > 0 <==> Extends(book, c[..k + 1]))
      && (ch > 0 ==> ch < |paths| && paths[ch] == c[..k + 1])
      && (k + 1 == |c| ==> ch == 0)
  {
    var ch, w := ns[node].Child(c[k]), c[..k] + [c[k]];
    assert w == c[..k + 1];
    assert EdgeOk(ch, w, paths, book);
    LeafIsWord(ch, w, paths, book);
    ApartNoWord(book, c, w);
    if ch > 0 {
      assert paths[ch] <= c[..k] || ProperPrefix(paths[ch], book);
      assert !(w <= c[..k]);
      var i :| 0 <= i < |book| && w <= book[i].word && w != book[i].word;
    }
    if k + 1 == |c| { assert c[..k + 1] == c; }
  }

  lemma LeafIsWord(ch: int, w: Bitstring, paths: seq<Bitstring>, book: Book)
    requires EdgeOk(ch, w, paths, book)
    ensures ch < 0 ==> IsWord(book, w)
  {
  }

  lemma ApartNoWord(book: Book, c: Bitstring, w: Bitstring)
    requires Apart(book, c) && w <= c
    ensures !IsWord(book, w)
  {
    forall i | 0 <= i < |book|
      ensures book[i].word != w
    {
      assert !(book[i].word <= c);
    }
  }

  /** Going down an existing edge. */
  lemma Descend(ns: seq<Node>, paths: seq<Bitstring>, book: Book, c: Bitstring, k: nat, ch: nat)
    requires k < |c| && Trie(ns, paths, book, c[..k])
    requires ch < |paths| && paths[ch] == c[..k + 1]
    ensures Trie(ns, paths, book, c[..k + 1])
  {
    var extra := c[..k + 1];
    forall m | 0 <= m <= |extra|
      ensures extra[..m] in paths
    {
      if m <= k { assert extra[..m] == c[..k][..m]; } else { assert extra[..m] == paths[ch]; }
    }
    forall j | 0 <= j < |paths|
      ensures paths[j] <= extra || ProperPrefix(paths[j], book)
    {
      if paths[j] <= c[..k] { assert c[..k] <= extra; PrefixTransitive(paths[j], c[..k], extra); }
    }
  }

  /** Adding a node below a missing edge. */
  lemma AddNode(ns: seq<Node>, paths: seq<Bitstring>, book: Book, c: Bitstring, k: nat, node: nat)
    requires k < |c| && Trie(ns, paths, book, c[..k]) && Apart(book, c)
    requires node < |paths| < |ns| && paths[node] == c[..k] && ns[node].Child(c[k]) == 0
    ensures Trie(ns[node := ns[node].With(c[k], |paths|)], paths + [c[..k + 1]], book, c[..k + 1])
  {
    var w := c[..k + 1];
    assert w == c[..k] + [c[k]];
    var ns', paths' := ns[node := ns[node].With(c[k], |paths|)], paths + [w];
    hide EdgeOk;
    assert EdgeOk(ns[node].Child(c[k]), paths[node] + [c[k]], paths, book);
    EdgeMissing(paths[node] + [c[k]], paths, book);
    forall j, b | 0 <= j < |paths'|
      ensures EdgeOk(ns'[j].Child(b), paths'[j] + [b], paths', book)
    {
      if j == |paths| {
        AddedNodeEdge(paths, book, c, k, b);
      } else {
        assert EdgeOk(ns[j].Child(b), paths[j] + [b], paths, book);
        if paths[j] + [b] == w { LastBit(paths[j], b, c[..k], c[k]); }
        AddedNodeKeeps(ns[j].Child(b), paths[j] + [b], paths, book, w);
      }
    }
    forall m | 0 <= m <= |w|
      ensures w[..m] in paths'
    {
      if m <= k { assert w[..m] == c[..k][..m]; } else { assert w[..m] == paths'[|paths|]; }
    }
    forall j | 0 <= j < |paths'|
      ensures paths'[j] <= w || ProperPrefix(paths'[j], book)
    {
      if j < |paths| && paths[j] <= c[..k] { assert c[..k] <= w; PrefixTransitive(paths[j], c[..k], w); }
    }
  }

  lemma EdgeMissing(w: Bitstring, paths: seq<Bitstring>, book: Book)
    requires EdgeOk(0, w, paths, book)
    ensures w !in paths && !Extends(book, w)
  {
  }

  /** A node more leaves the other edges right, and makes the edge to it right. */
  lemma AddedNodeKeeps(ch: int, v: Bitstring, paths: seq<Bitstring>, book: Book, w: Bitstring)
    ensures EdgeOk(ch, v, paths, book) && v != w ==> EdgeOk(ch, v, paths + [w], book)
    ensures |paths| > 0 ==> EdgeOk(|paths|, w, paths + [w], book)
  {
  }

  /** Below a fresh node there is nothing yet. */
  lemma AddedNodeEdge(paths: seq<Bitstring>, book: Book, c: Bitstring, k: nat, b: bool)
    requires k < |c| && !Extends(book, c[..k + 1])
    requires forall j :: 0 <= j < |paths| ==> paths[j] <= c[..k] || ProperPrefix(paths[j], book)
    ensures EdgeOk(0, c[..k + 1] + [b], paths + [c[..k + 1]], book)
  {
    var w := c[..k + 1];
    var v := w + [b];
    assert w <= v;
    ExtendsShorter(book, w, v);
    forall j | 0 <= j < |paths|
      ensures paths[j] != v
    {
      LongPath(paths[j], c, k, book);
    }
  }

  lemma ExtendsShorter(book: Book, w: Bitstring, v: Bitstring)
    requires w <= v
    ensures Extends(book, v) ==> Extends(book, w)
  {
    if Extends(book, v) {
      var i :| 0 <= i < |book| && v <= book[i].word;
      PrefixTransitive(w, v, book[i].word);
    }
  }

  lemma LongPath(u: Bitstring, c: Bitstring, k: nat, book: Book)
    requires k <= |c| && (u <= c[..k] || ProperPrefix(u, book))
    ensures |u| > k ==> Extends(book, u)
  {
  }

  lemma LastBit(u: Bitstring, a: bool, v: Bitstring, b: bool)
    requires u + [a] == v + [b]
    ensures u == v && a == b
  {
    assert |u| == |v|;
    assert u == (u + [a])[..|u|] && v == (v + [b])[..|v|];
    assert (u + [a])[|u|] == a && (v + [b])[|v|] == b;
  }

  /** Writing the leaf that ends the word. */
  lemma AddLeaf(ns: seq<Node>, paths: seq<Bitstring>, book: Book, c: Bitstring, node: nat, sym: nat)
    requires Apart(book, c) && Trie(ns, paths, book, c[..|c| - 1])
    requires node < |paths| && paths[node] == c[..|c| - 1] && ns[node].Child(c[|c| - 1]) == 0
    ensures Trie(ns[node := ns[node].With(c[|c| - 1], -(sym + 1))], paths, book + [Code(sym, c)], [])
  {
    hide ProperPrefix, Extends, EdgeOk;
    var last, init := c[|c| - 1], c[..|c| - 1];
    assert c == init + [last];
    var ns', book' := ns[node := ns[node].With(last, -(sym + 1))], book + [Code(sym, c)];
    forall j, b | 0 <= j < |paths|
      ensures EdgeOk(ns'[j].Child(b), paths[j] + [b], paths, book')
    {
      LeafEdge(ns, paths, book, init, last, node, sym, j, b);
    }
    forall j | 0 <= j < |paths|
      ensures paths[j] <= [] || ProperPrefix(paths[j], book')
    {
      LeafPaths(paths[j], book, init, last, sym);
    }
    var root: Bitstring := [];
    assert root[..0] == paths[0];
  }

  lemma LeafEdge(ns: seq<Node>, paths: seq<Bitstring>, book: Book, init: Bitstring, last: bool, node: nat, sym: nat,
                 j: nat, b: bool)
    requires Trie(ns, paths, book, init)
    requires node < |paths| && paths[node] == init && j < |paths|
    ensures EdgeOk(ns[node := ns[node].With(last, -(sym + 1))][j].Child(b), paths[j] + [b], paths, book + [Code(sym, init + [last])])
  {
    hide ProperPrefix, Extends;
    var c := init + [last];
    var book' := book + [Code(sym, c)];
    assert book'[|book|] == Code(sym, c);
    assert EdgeOk(ns[j].Child(b), paths[j] + [b], paths, book);
    if paths[j] + [b] == c {
      LastBit(paths[j], b, init, last);
      assert j == node;
    } else {
      hide EdgeOk;
      LeafElsewhere(ns[j].Child(b), paths[j] + [b], paths, book, init, last, sym);
    }
  }

  /** Edges that do not lead to the new leaf stay right. */
  lemma LeafElsewhere(ch: int, w: Bitstring, paths: seq<Bitstring>, book: Book, init: Bitstring, last: bool, sym: nat)
    requires EdgeOk(ch, w, paths, book) && w != init + [last]
    requires forall m :: 0 <= m <= |init| ==> init[..m] in paths
    ensures EdgeOk(ch, w, paths, book + [Code(sym, init + [last])])
  {
    var c := init + [last];
    var book' := book + [Code(sym, c)];
    if ch < 0 {
      var i :| 0 <= i < |book| && book[i] == Code(-ch - 1, w);
      assert book'[i] == Code(-ch - 1, w);
    }
    ExtendsNew(book, Code(sym, c), w);
    PrefixOnPath(w, init, last, paths);
  }

  lemma ExtendsNew(book: Book, code: Code, w: Bitstring)
    ensures Extends(book + [code], w) ==> Extends(book, w) || w <= code.word
  {
    if Extends(book + [code], w) {
      var i :| 0 <= i < |book + [code]| && w <= (book + [code])[i].word;
    }
  }

  lemma PrefixOnPath(w: Bitstring, init: Bitstring, last: bool, paths: seq<Bitstring>)
    requires forall m :: 0 <= m <= |init| ==> init[..m] in paths
    ensures w <= init + [last] && w != init + [last] ==> w in paths
  {
    if w <= init + [last] && w != init + [last] {
      assert w == init[..|w|];
    }
  }

  /** Every node of the finished insertion stands for a proper prefix of some word. */
  lemma LeafPaths(u: Bitstring, book: Book, init: Bitstring, last: bool, sym: nat)
    requires u <= init || ProperPrefix(u, book)
    ensures ProperPrefix(u, book + [Code(sym, init + [last])])
  {
    var c := init + [last];
    var book' := book + [Code(sym, c)];
    if u <= init {
      assert u <= book'[|book|].word && u != book'[|book|].word;
    } else {
      var i :| 0 <= i < |book| && u <= book[i].word && u != book[i].word;
      assert book'[i] == book[i];
    }
  }
}
