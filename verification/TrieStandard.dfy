/** The nodes of a canonical trie are those of the Yellow Paper, Appendix D: what is written for a set of
    entries depends on whether there are none, one, several with more nibbles in common, or several
    that part (TrieDB.h:833-922, 1068-1195; TrieHash.cpp:27-92). */
module TrieStandard {
  import opened Bytes
  import opened HexPrefix
  import opened Rlp
  import opened Tries
  import opened TrieCanonical
  import opened TrieNodes

  /** n(...) of the standard: a node of 32 bytes or more is replaced by its hash. */
  lemma ReferenceRule(c: Tree)
    requires Shaped(c)
    ensures
      var e := Rlp.Encode(NodeItem(c));
      && Ref(c) == (if |e| < 32 then NodeItem(c) else Data(Keccak(e)))
      && Root(c) == Keccak(e)
  {
  }

  /** No entry at all. */
  lemma EmptyRule(t: Tree)
    requires Canonical(t) && forall q: Key :: Lookup(t, q) == []
    ensures NodeItem(t) == Data([]) && Encoding(t) == [Octet(128)]
  {
    CanonicalUnique(t, Null);
  }

  /** One entry: a pair of the key, marked as the end of it, and the value. */
  lemma LeafRule(t: Tree, k: Key)
    requires Canonical(t) && Lookup(t, k) != [] && forall q: Key :: Lookup(t, q) != [] ==> q == k
    ensures NodeItem(t) == List([Data(OfOctets(HexPrefix.Encode(k, true))), Data(Lookup(t, k))])
  {
    var leaf := Leaf(k, Lookup(t, k));
    assert Lookup(t, k) == Lookup(leaf, k);
    assert forall q: Key :: Lookup(t, q) == Lookup(leaf, q);
    CanonicalUnique(t, leaf);
  }

  /** The subtree holds what the trie holds below the prefix. */
  ghost predicate Holding(c: Tree, t: Tree, pre: Key)
    requires Shaped(t)
  {
    Canonical(c) && forall q: Key :: Lookup(c, q) == Lookup(t, pre + q)
  }

  /** Entries that share the nibbles of `x` and part behind them: a pair of these, not marked, and what
      is below them. */
  lemma ExtensionRule(t: Tree, x: Key, a: Key, b: Key) returns (c: Tree)
    requires Canonical(t) && x != [] && Diverge(a, b) && Lookup(t, x + a) != [] && Lookup(t, x + b) != []
    requires forall q: Key :: Lookup(t, q) != [] ==> x <= q
    ensures Holding(c, t, x)
    ensures NodeItem(t) == List([Data(OfOctets(HexPrefix.Encode(x, false))), Ref(c)])
  {
    PrefixCancels(x, a, b);
    IsExtension(t, x, x + a, x + b);
    StemOf(t, x, a, b);
    c := t.child;
    forall q: Key ensures Lookup(c, q) == Lookup(t, x + q) {
      LookupBelowExt(t.key, c, q);
    }
  }

  /** Only an extension has two keys with nibbles in common to all. */
  lemma IsExtension(t: Tree, x: Key, k: Key, l: Key)
    requires Canonical(t) && x != [] && k != l && Lookup(t, k) != [] && Lookup(t, l) != []
    requires forall q: Key :: Lookup(t, q) != [] ==> x <= q
    ensures t.Ext?
  {
    if t.Branch? {
      var q := Escapes(t, x);
    }
  }

  lemma Escapes(t: Tree, x: Key) returns (q: Key)
    requires Canonical(t) && t.Branch? && x != []
    ensures Lookup(t, q) != [] && !(x <= q)
  {
    var y, z := Diverging(t);
    q := if x <= y then z else y;
  }

  lemma StemOf(t: Tree, x: Key, a: Key, b: Key)
    requires Canonical(t) && t.Ext? && Diverge(a, b) && Lookup(t, x + a) != [] && Lookup(t, x + b) != []
    requires forall q: Key :: Lookup(t, q) != [] ==> x <= q
    ensures t.key == x
  {
    CommonPrefix(t.key, x, a, b);
    var y, z := TwoKeys(t);
    CommonPrefix(x, t.key, y, z);
  }

  /** Entries that part at once: what is below each nibble, and the value of the empty key. */
  lemma BranchRule(t: Tree, a: Key, b: Key) returns (cs: seq<Tree>)
    requires Canonical(t) && Diverge(a, b) && Lookup(t, a) != [] && Lookup(t, b) != []
    ensures NodeItem(t).List? && |NodeItem(t).items| == 17 && NodeItem(t).items[16] == Data(Lookup(t, []))
    ensures |cs| == 16 && forall i: nibble :: Holding(cs[i], t, [i]) && NodeItem(t).items[i] == Ref(cs[i])
  {
    IsBranch(t, a, b);
    cs := t.children;
    forall i: nibble ensures Holding(cs[i], t, [i]) {
      forall q: Key ensures Lookup(cs[i], q) == Lookup(t, [i] + q) {
        LookupBelowBranch(t, i, q);
      }
    }
  }

  lemma IsBranch(t: Tree, a: Key, b: Key)
    requires Canonical(t) && Diverge(a, b) && Lookup(t, a) != [] && Lookup(t, b) != []
    ensures t.Branch?
  {
  }

  /** There are no other cases. */
  lemma CasesComplete(t: Tree) returns (x: Key, a: Key, b: Key)
    requires Canonical(t)
    ensures
      || (forall q: Key :: Lookup(t, q) == [])
      || (Lookup(t, a) != [] && forall q: Key :: Lookup(t, q) != [] ==> q == a)
      || (Diverge(a, b) && Lookup(t, x + a) != [] && Lookup(t, x + b) != []
          && forall q: Key :: Lookup(t, q) != [] ==> x <= q)
  {
    x, a, b := [], [], [];
    if t.Leaf? {
      a := t.key;
    } else if t != Null {
      x := Stem(t);
      a, b := TwoKeys(t);
    }
  }
}
