/** Operations going wrong on real keys.  Removal (TrieDB.h:936-1047): one run for each way in which
    stored keys can clash with the key to remove, and a run with the same keys that goes right.
    Insertion (TrieDB.h:777-922, 1068-1070): a run with an empty value after which a node is lost. */
module TrieFaults {
  import opened Bytes
  import opened Options
  import opened HexPrefix
  import opened Rlp
  import opened Tries
  import opened TrieDelete
  import opened TrieMisreads
  import opened TrieNodes
  import opened TrieStray
  import opened TrieAccounts
  import opened NodeStore
  import opened TrieStore

  /** A trie with two entries holds just these. */
  lemma TwoEntries(a: Key, v: bytes, b: Key, w: bytes)
    requires v != [] && w != [] && a != b
    ensures var t := Insert(Insert(Null, a, v), b, w);
      Canonical(t) && forall q: Key :: Lookup(t, q) == if q == b then w else if q == a then v else []
  {
    var t := Insert(Null, a, v);
    InsertCanonical(Null, a, v);
    InsertCanonical(t, b, w);
    forall q: Key ensures Lookup(Insert(t, b, w), q) == if q == b then w else if q == a then v else [] {
      InsertLookup(Null, a, v, q);
      InsertLookup(t, b, w, q);
    }
  }

  /** Beyond a leaf whose value names nothing in the store. */
  lemma BeyondLeaf(a: Key, v: bytes, k: Key, st: Store)
    requires ProperPrefix(a, k) && v != [] && st.Lookup(ToHash(v)) == []
    ensures Faulty(Insert(Null, a, v), k, st)
  {
    var t := Insert(Null, a, v);
    forall q: Key ensures Lookup(t, q) == if q == a then v else [] {
      InsertLookup(Null, a, v, q);
    }
    assert LeafAt(t, k, a, st);
  }

  /** Where two stored keys part. */
  lemma BeforeFork(k: Key, x: Key, v: bytes, y: Key, w: bytes, st: Store)
    requires x != [] && y != [] && x[0] != y[0] && v != [] && w != []
    ensures Faulty(Insert(Insert(Null, k + x, v), k + y, w), k, st)
  {
    var t := Insert(Insert(Null, k + x, v), k + y, w);
    PrefixCancels(k, x, y);
    TwoEntries(k + x, v, k + y, w);
    assert k != k + x && k != k + y;
    assert ForkAt(t, k, x, y);
  }

  /** Leaving a prefix alone: with a value that is taken for the hash of a node this goes wrong, with
      any other it goes right. */
  lemma LeavingLonely(a: Key, v: bytes, k: Key, w: bytes, st: Store)
    requires ProperPrefix(a, k) && v != [] && w != []
    ensures Faulty(Insert(Insert(Null, a, v), k, w), k, st)
      <==> ReadsAsPair(Afterwards(st, k[|a|..], w, v), v)
  {
    hide ReadsAsPair, Afterwards, AbsentUnder, Insert, Canonical, Lookup;
    var t := Insert(Insert(Null, a, v), k, w);
    TwoEntries(a, v, k, w);
    assert Lookup(t, k) == w && Lookup(t, a) == v;
    assert Stored(t, k);
    forall p: Key ensures !LeafAt(t, k, p, st) {
    }
    if ReadsAsPair(Afterwards(st, k[|a|..], w, v), v) {
      assert LonelyAt(t, k, a, st);
    }
    if p: Key :| LonelyAt(t, k, p, st) {
      assert p == a;
    }
  }

  lemma ShortKeys()
    ensures Nibbles([1]) == [0, 1]
    ensures Nibbles([1, 2]) == [0, 1] + [0, 2] && Nibbles([1, 18]) == [0, 1] + [1, 2]
    ensures ProperPrefix(Nibbles([1]), Nibbles([1, 2]))
  {
    assert Nibbles([1]) == [0, 1];
    assert Nibbles([1, 2]) == [0, 1, 0, 2] && Nibbles([1, 18]) == [0, 1, 1, 2];
  }

  /** Removing 01 02 from a trie that only holds 01. */
  method RemoveBeyondLeaf() returns (ok: bool)
    ensures !ok
  {
    hide Faulty, Delete, Insert, Canonical, Bounded, Encoding, Afterwards, ReadsAsPair;
    hide Accounted, Present, Repaid, StrayNode;
    var db := new OverlayDB(false);
    var trie := new GenericTrieDB(db);
    trie.Init();
    trie.Insert([1], [Octet(7)]);
    ShortKeys();
    db.FindsOnlyDigests(ToHash([Octet(7)]));
    BeyondLeaf(Nibbles([1]), [Octet(7)], Nibbles([1, 2]), db.Content());
    ok := trie.Remove([1, 2]);
  }

  /** Removing 01 from a trie that only holds 01 02 and 01 12. */
  method RemoveBeforeFork() returns (ok: bool)
    ensures !ok
  {
    hide Faulty, Delete, Insert, Canonical, Bounded, Encoding, Afterwards, ReadsAsPair;
    hide Accounted, Present, Repaid, StrayNode;
    var db := new OverlayDB(false);
    var trie := new GenericTrieDB(db);
    trie.Init();
    trie.Insert([1, 2], [Octet(7)]);
    trie.Insert([1, 18], [Octet(7)]);
    ShortKeys();
    BeforeFork([0, 1], [0, 2], [Octet(7)], [1, 2], [Octet(7)], db.Content());
    ok := trie.Remove([1]);
  }

  /** Inserting 01 and 01 02 and removing 01 02 again, with any value for 01: it fails for values of
      more than 32 bytes, and works for any other that is not the hash of a stored string. */
  method RemoveLeavingLonely(v: bytes) returns (ok: bool)
    requires v != [] && |v| <= MAX_VALUE
    ensures |v| > HASH_SIZE ==> !ok
    ensures |v| < HASH_SIZE ==> ok
    ensures |v| == HASH_SIZE && (v[0].Octet? || v != Keccak(v[0].preimage)) ==> ok
  {
    hide Faulty, Delete, Insert, Canonical, Bounded, Encoding, Afterwards, Accounted, Present, Repaid, StrayNode;
    var db := new OverlayDB(false);
    var trie := new GenericTrieDB(db);
    trie.Init();
    trie.Insert([1], v);
    trie.Insert([1, 2], [Octet(7)]);
    ShortKeys();
    var a, k := Nibbles([1]), Nibbles([1, 2]);
    LeavingLonely(a, v, k, [Octet(7)], db.Content());
    AskedBefore(db.Content(), k[|a|..], [Octet(7)], v);
    if |v| < HASH_SIZE || (|v| == HASH_SIZE && (v[0].Octet? || v != Keccak(v[0].preimage))) {
      db.FindsOnlyDigests(ToHash(v));
    }
    ok := trie.Remove([1, 2]);
  }

  // ---------------------------------------------------------------- empty values

  /** A branch with one slot in use: left by an empty value, or made by splitting a leaf. */
  function Single(w: bytes): (f: Tree)
    ensures Shaped(f) && f.Branch?
  {
    Branch(NoChildren()[1 := Leaf([1], w)], [])
  }

  /** The tree before and after the insertion that goes wrong. */
  function Before(w: bytes): (t: Tree)
    ensures Shaped(t) && t.Branch?
  {
    Branch(NoChildren()[0 := Ext([0], Single(w))][1 := Leaf([0, 1, 1], w)], [])
  }

  function After(w: bytes, v: bytes): (t: Tree)
    ensures Shaped(t) && t.Branch?
  {
    assert Shaped(Branch(Single(w).children, v));
    Branch(NoChildren()[0 := Ext([0], Single(w))][1 := Ext([0], Branch(Single(w).children, v))], [])
  }

  lemma SplitLeaf(k: Key, w: bytes, v: bytes)
    requires k != []
    ensures var t := Leaf(k + [1, 1], w);
      Insert(t, k, v) == Ext(k, Branch(Single(w).children, v))
      && StrayNode(t, k) == if Hashed(Single(w)) then Some(Encoding(Single(w))) else None
  {
    var t := Leaf(k + [1, 1], w);
    assert !Direct(t, k);
    SharedPrefixIsLongest(k, t.key);
    CleveInsert(t, k, v);
    var low := Leaf([1, 1], w);
    assert Cleve(t, |k|) == Ext(k, low);
    assert Fork(low) == Single(w);
    SplitInsert(low, [], v);
    hide Encoding;
    assert k[|k|..] == [] && SharedPrefix([], low.key) == 0;
    assert StrayNode(t, k) == StrayNode(Ext(k, low), k) == StrayNode(low, []);
  }

  /** The trees of the run: each step splits a leaf, or starts a new slot. */
  lemma FourSteps(w: bytes, v: bytes)
    ensures var t1 := Leaf([0, 0, 1, 1], w);
      var t2 := Ext([0, 0], Single(w));
      && Insert(Null, [0, 0, 1, 1], w) == t1 && StrayNode(Null, [0, 0, 1, 1]) == None
      && Insert(t1, [0, 0], []) == t2
      && Insert(t2, [1, 0, 1, 1], w) == Before(w) && StrayNode(t2, [1, 0, 1, 1]) == None
      && Insert(Before(w), [1, 0], v) == After(w, v)
      && StrayNode(Before(w), [1, 0]) == if Hashed(Single(w)) then Some(Encoding(Single(w))) else None
  {
    hide Encoding;
    SplitLeaf([0, 0], w, []);
    assert [0, 0] + [1, 1] == [0, 0, 1, 1];
    var t2 := Ext([0, 0], Single(w));
    SharedPrefixIsLongest([1, 0, 1, 1], [0, 0]);
    SplitInsert(t2, [1, 0, 1, 1], w);
    SplitLeaf([0], w, v);
    assert [0] + [1, 1] == [0, 1, 1];
  }

  lemma SingleHashed(w: bytes)
    requires HASH_SIZE <= |w| <= MAX_VALUE
    ensures Hashed(Single(w))
  {
    var leaf := Leaf([1], w);
    var x := NodeItem(leaf);
    assert x == List([KeyItem([1], true), Data(w)]);
    ItemWithin([KeyItem([1], true), Data(w)], 1);
    DataAtLeast(w);
    assert Hashed(leaf) && Ref(leaf) == Data(Keccak(Encoding(leaf)));
    var xs := NodeItem(Single(w)).items;
    assert xs[1] == Ref(leaf);
    ItemWithin(xs, 1);
    DataAtLeast(Keccak(Encoding(leaf)));
  }

  lemma DataAtLeast(b: bytes)
    ensures |Rlp.Encode(Data(b))| >= |b|
  {
  }

  /** A list is at least as long as each of its items. */
  lemma {:induction false} ItemWithin(xs: seq<Item>, i: nat)
    requires i < |xs|
    ensures |Rlp.Encode(List(xs))| >= |EncodeAll(xs)| >= |Rlp.Encode(xs[i])|
  {
    if i > 0 {
      ItemWithin(xs[1..], i - 1);
    }
  }

  lemma OwnExactly(t: Tree, f: Tree)
    requires Shaped(t) && Bounded(t, MAX_KEY) && Shaped(f) && Bounded(f, MAX_KEY) && Hashed(f)
    ensures Own(t, Encoding(f)) == if t == f then 1 else 0
  {
    hide Encoding;
    if Own(t, Encoding(f)) > 0 {
      RootInjective(t, f);
    }
  }

  lemma SingleBounded(w: bytes, v: bytes, room: int)
    requires |w| <= MAX_VALUE && |v| <= MAX_VALUE && room >= 2
    ensures Bounded(Branch(Single(w).children, v), room) && Shaped(Branch(Single(w).children, v))
  {
  }

  lemma AfterBounded(w: bytes, v: bytes)
    requires |w| <= MAX_VALUE && |v| <= MAX_VALUE
    ensures Bounded(After(w, v), MAX_KEY)
    ensures Bounded(Ext([0], Single(w)), MAX_KEY) && Bounded(Ext([0], Branch(Single(w).children, v)), MAX_KEY)
  {
    var a, b := Ext([0], Single(w)), Ext([0], Branch(Single(w).children, v));
    SingleBounded(w, [], MAX_KEY - 2);
    SingleBounded(w, v, MAX_KEY - 2);
    assert Bounded(a, MAX_KEY - 1) && Bounded(b, MAX_KEY - 1);
    BoundedMono(a, MAX_KEY - 1, MAX_KEY);
    BoundedMono(b, MAX_KEY - 1, MAX_KEY);
  }

  /** The branch with one slot occurs once in the last tree. */
  lemma OccursOnce(w: bytes, v: bytes)
    requires HASH_SIZE <= |w| <= MAX_VALUE && v != [] && |v| <= MAX_VALUE
    ensures Occurrences(After(w, v), Encoding(Single(w))) == 1
  {
    hide Encoding, Bounded;
    var f, g := Single(w), Branch(Single(w).children, v);
    var a, b := Ext([0], f), Ext([0], g);
    var cs := NoChildren()[0 := a];
    var n := Encoding(f);
    SingleHashed(w);
    SingleBounded(w, [], MAX_KEY);
    SingleBounded(w, v, MAX_KEY);
    AfterBounded(w, v);
    OwnExactly(f, f);
    OwnExactly(g, f);
    OwnExactly(a, f);
    OwnExactly(b, f);
    RootInjective(After(w, v), f);
    NullInline();
    LeafIsAnother(w, f);
    assert Below(f, n) == BelowAll(f.children, n) && Below(g, n) == BelowAll(g.children, n);
    OneChildBelow(1, Leaf([1], w), n);
    OneChildBelow(0, a, n);
    assert Below(a, n) == 1 && Below(b, n) == 0;
    BelowAllUpdate(cs, 1, b, n);
  }

  /** ... and occurred before. */
  lemma Occurred(w: bytes)
    requires Hashed(Single(w))
    ensures Occurrences(Before(w), Encoding(Single(w))) > 0
  {
    hide Encoding;
    assert Before(w).children[0] == Ext([0], Single(w));
    assert Below(Ext([0], Single(w)), Encoding(Single(w))) > 0;
    BelowBranch(Before(w), 0);
  }

  /** A lost reference was the only one: nothing is counted any more, and a commit writes nothing. */
  lemma NotWritten(m0: Cache, m1: Cache, t: Tree, n: bytes)
    requires Shaped(t) && Filed(m1, map[]) && n != [] && RefCount(m0, n) > 0 && Occurrences(t, n) == 1
    requires Accounted(Repaid(m1, Lost(m0, map[], Some(n))), map[], t)
    ensures RefCount(m1, n) == 0
  {
    RepaidCounts(m1, map[], Some(n));
    hide Occurrences, Repaid, Filed;
    assert RefCount(Repaid(m1, Some(n)), n) == 1;
  }

  lemma Recorded(main: Cache, disk: Disk, t: Tree, n: bytes)
    requires Shaped(t) && Accounted(main, disk, t) && !OnDisk(disk, n)
    ensures RefCount(main, n) == Occurrences(t, n)
  {
  }

  lemma LeafIsAnother(w: bytes, f: Tree)
    requires |w| <= MAX_VALUE && f == Single(w) && Hashed(f)
    ensures Own(Leaf([1], w), Encoding(f)) + Below(Leaf([1], w), Encoding(f)) == 0
  {
    SingleBounded(w, [], MAX_KEY);
    OwnExactly(Leaf([1], w), f);
  }

  lemma AfterLookup(w: bytes, v: bytes)
    ensures Lookup(After(w, v), [0, 0, 1, 1]) == w
  {
    assert [0, 0, 1, 1][1..] == [0, 1, 1] && [0, 1, 1][1..] == [1, 1] && [1, 1][1..] == [1];
    assert Lookup(Single(w), [1, 1]) == Lookup(Leaf([1], w), [1]);
    assert Lookup(Ext([0], Single(w)), [0, 1, 1]) == Lookup(Single(w), [1, 1]);
  }

  lemma RunKeys()
    ensures Nibbles([0, 17]) == [0, 0, 1, 1] && Nibbles([0]) == [0, 0]
    ensures Nibbles([16, 17]) == [1, 0, 1, 1] && Nibbles([16]) == [1, 0]
  {
    assert Nibbles([0, 17]) == [0, 0, 1, 1];
    assert Nibbles([0]) == [0, 0];
    assert Nibbles([16, 17]) == [1, 0, 1, 1];
    assert Nibbles([16]) == [1, 0];
  }

  /** With an empty value for 00, inserting 10 takes away the reference of a node of the trie, and
      after a commit the node is gone, though the value of 00 11 lies below it. */
  method EmptyValueLosesNode(w: bytes, v: bytes) returns (db: OverlayDB, trie: GenericTrieDB, ghost n: bytes)
    requires HASH_SIZE <= |w| <= MAX_VALUE && v != [] && |v| <= MAX_VALUE
    ensures trie.db == db && trie.tree == After(w, v) && trie.root == Root(trie.tree)
    ensures Lookup(trie.tree, Nibbles([0, 17])) == w
    ensures Occurrences(trie.tree, n) == 1 && db.Lookup(Keccak(n)) == []
  {
    hide Insert, Canonical, Bounded, Encoding, StrayNode, Lookup, Nibbles, Single, After, Before, Accounted, Present;
    hide Repaid, Filed, Occurrences;
    n := Encoding(Single(w));
    FourSteps(w, v);
    SingleHashed(w);
    OccursOnce(w, v);
    AfterLookup(w, v);
    RunKeys();
    db := new OverlayDB(true);
    trie := new GenericTrieDB(db);
    trie.Init();
    trie.Insert([0, 17], w);
    trie.Insert([0], []);
    trie.Insert([16, 17], w);
    ghost var m0 := db.main;
    assert RefCount(m0, n) == Occurrences(Before(w), n) by {
      assert !OnDisk(db.disk, n);
      Recorded(m0, db.disk, Before(w), n);
    }
    Occurred(w);
    trie.Insert([16], v);
    NotWritten(m0, db.main, After(w, v), n);
    db.Commit();
    assert !OnDisk(db.disk, n);
  }
}
