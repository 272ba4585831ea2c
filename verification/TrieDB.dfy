/** GenericTrieDB (TrieDB.h:55-299, 777-1195) over the node store: the same operations as in Tries
    and TrieDelete, now on RLP items that refer to each other by hash, inserting nodes into the store
    and removing them as it goes.

    The invariant is conservation of references: for every string not yet written to disk, the
    store's count is the number of times the string occurs as a hashed node in the unfolded tree,
    the root included. */
module TrieStore {
  import opened Bytes
  import opened Options
  import opened HexPrefix
  import opened Rlp
  import opened Tries
  import opened TrieCanonical
  import opened TrieNodes
  import opened TrieDelete
  import opened TrieMisreads
  import opened TrieStray
  import opened NodeStore
  import opened TrieAccounts

  class GenericTrieDB {
    const db: OverlayDB
    var root: bytes
    ghost var tree: Tree

    /** The root leads to the tree, and every reference is accounted for. */
    ghost predicate Consistent()
      reads this, db
    {
      && db.Valid() && Shaped(tree) && Bounded(tree, MAX_KEY)
      && root == Root(tree) && Accounted(db.main, db.disk, tree)
    }

    /** Less than that: every node is there, and counted if the store looks at counts. */
    ghost predicate Reachable()
      reads this, db
    {
      && db.Valid() && Shaped(tree) && Bounded(tree, MAX_KEY) && root == Root(tree)
      && Present(db.main, db.disk, tree) && (db.enforceRefs ==> Accounted(db.main, db.disk, tree))
    }

    lemma ConsistentReachable()
      requires Consistent()
      ensures Reachable()
    {
      AccountedPresent(db.main, db.disk, tree);
    }

    /** ... and the tree is the one the standard asks for. */
    ghost predicate Valid()
      reads this, db
    {
      Consistent() && Canonical(tree)
    }

    constructor (db: OverlayDB)
      ensures this.db == db
    {
      this.db := db;
      root, tree := [], Null;
    }

    /** init: an empty trie; its accounts are exact if the store counts nothing else. */
    method Init()
      requires db.Valid()
      modifies this, db`main
      ensures db.Valid() && tree == Null && root == Root(Null)
      ensures db.main == Inserted(old(db.main), Root(Null), Encoding(Null))
      ensures old(Clean(db.main, db.disk)) ==> Valid() && Reachable()
    {
      if Clean(db.main, db.disk) {
        FirstRoot(db.main, db.disk);
      }
      root := ForceInsertNode(Data([]));
      tree := Null;
    }

    /** Every node of the trie can be looked up. */
    lemma AllResolve()
      requires Reachable()
      ensures forall n :: Occurrences(tree, n) > 0 ==> db.Lookup(Keccak(n)) == n && db.Exists(Keccak(n))
    {
      hide Encoding, Below;
      forall n | Occurrences(tree, n) > 0 ensures db.Lookup(Keccak(n)) == n && db.Exists(Keccak(n)) {
        assert db.enforceRefs ==> OnDisk(db.disk, n) || RefCount(db.main, n) == Occurrences(tree, n);
        db.Resolves(n);
      }
    }

    /** leftOvers: exactly the counted hashes that are not in the trie.  All of them are on disk. */
    method LeftOvers() returns (k: set<bytes>)
      requires Consistent() && Jointed(tree)
      ensures Left(db.main, tree, k)
      ensures k <= db.disk.Keys && (!db.hasDisk ==> k == {})
    {
      hide Accounted, Filed, Left, Masked;
      AccountedCovers(db.main, db.disk, tree);
      k := db.Keys();
      ghost var all := k;
      k := k - {root};
      if root != Keccak(Rlp.Encode(Data([]))) {
        var x := Node(root, tree, MAX_KEY);
        NotEmptyTrie(tree);
        k := DescendList(x, k, false, tree, MAX_KEY);
      } else {
        RootInjective(tree, Null);
      }
      LeftExactly(db.main, tree, all, k);
      LeftOnDisk(db.main, db.disk, tree, k);
    }

    /** descendEntry, descendKey: the walk enters a child, stored or inlined. */
    method DescendEntry(r: Item, mask: set<bytes>, wasExt: bool, ghost c: Tree, ghost room: int) returns (k: set<bytes>)
      requires db.Valid() && Jointed(c) && c != Null && r == Ref(c) && Bounded(c, room) && room <= MAX_KEY
      requires Covers(db.main, db.disk, c, false) && (wasExt ==> c.Branch?)
      ensures Masked(mask, k, c, true)
      decreases c, 2
    {
      RefKinds(c);
      HashedCovered(db.main, db.disk, c);
      hide NodeItem, Ref, Masked, Bounded, Jointed, Encoding;
      if r.Data? {
        var n := Node(r.data, c, room);
        k := DescendList(n, mask - {r.data}, wasExt, c, room);
        MaskedKey(mask, k, c);
      } else {
        k := DescendList(r, mask, wasExt, c, room);
        MaskedInline(mask, k, c);
      }
    }

    /** descendList.  It throws InvalidTrie for a two-item node right below an extension, or for
        anything that is no node: not in a trie that insertion or removal built. */
    method DescendList(r: Item, mask: set<bytes>, wasExt: bool, ghost t: Tree, ghost room: int) returns (k: set<bytes>)
      requires db.Valid() && Jointed(t) && t != Null && r == NodeItem(t) && Bounded(t, room) && room <= MAX_KEY
      requires Covers(db.main, db.disk, t, true) && (wasExt ==> t.Branch?)
      ensures Masked(mask, k, t, false)
      decreases t, 1
    {
      hide NodeItem, Ref, Covers, Masked, Bounded, Jointed;
      ItemShape(t);
      if |r.items| == 2 && !wasExt {
        TwoItemNode(t);
        if IsLeafItem(r) {
          k := mask;
          MaskedLeaf(mask, t);
        } else {
          JointedParts(t, room);
          CoversBelow(db.main, db.disk, t, 0);
          k := DescendEntry(r.items[1], mask, true, t.child, room - |t.key|);
          MaskedExt(mask, k, t);
        }
      } else {
        k := DescendBranch(r, mask, t, room);
      }
    }

    method DescendBranch(r: Item, mask: set<bytes>, ghost t: Tree, ghost room: int) returns (k: set<bytes>)
      requires db.Valid() && Jointed(t) && t.Branch? && r == NodeItem(t) && Bounded(t, room) && room <= MAX_KEY
      requires Covers(db.main, db.disk, t, true)
      ensures Masked(mask, k, t, false)
      decreases t, 0
    {
      hide NodeItem, Ref, Covers, Masked, Bounded, Jointed, BelowAll;
      ghost var cs := t.children;
      BranchItems(t);
      SlotItems(t, r.items);
      k := mask;
      MaskedNone(mask, cs);
      for i: nat := 0 to 16
        invariant MaskedChildren(mask, k, cs[..i])
      {
        if !EmptyItem(r.items[i]) {
          ghost var before := k;
          BranchParts(db.main, db.disk, t, i, room);
          k := DescendEntry(r.items[i], k, false, cs[i], room - 1);
          MaskedAnother(mask, before, k, cs, i);
        } else {
          MaskedNull(k);
          MaskedAnother(mask, k, k, cs, i);
        }
      }
      assert cs[..16] == cs;
      MaskedBranch(mask, k, t);
    }

    /** setRoot, with Verification::Normal or ::Skip; false where it throws RootNotFound. */
    method SetRoot(h: bytes, normal: bool, ghost t: Option<Tree>) returns (ok: bool)
      requires db.Valid()
      requires t.Some? ==> Canonical(t.value) && Bounded(t.value, MAX_KEY) && h == Root(t.value)
      requires t.Some? ==>
        Accounted(db.main, db.disk, t.value) || (t.value == Null && Clean(db.main, db.disk) && !db.Exists(h))
      modifies this, db`main
      ensures db.Valid() && root == h
      ensures !normal || h != Root(Null) ==> db.main == old(db.main)
      ensures ok <==> !normal || h == Root(Null) || old(db.Lookup(h)) != []
      ensures normal && h == Root(Null) ==>
        db.main == if old(db.Exists(h)) then old(db.main) else Inserted(old(db.main), h, Encoding(Null))
      ensures t.Some? ==> tree == t.value && (normal || Accounted(old(db.main), db.disk, t.value) ==> ok && Valid())
    {
      root := h;
      if t.Some? {
        tree := t.value;
        hide Canonical, Bounded, Encoding;
        if Accounted(db.main, db.disk, t.value) {
          AccountedCovers(db.main, db.disk, t.value);
          db.Resolves(Encoding(t.value));
        }
      }
      if !normal {
        return true;
      }
      if h == Keccak(Rlp.Encode(Data([]))) && !db.Exists(h) {
        if t.Some? {
          RootInjective(t.value, Null);
          FirstRoot(db.main, db.disk);
        }
        root := ForceInsertNode(Data([]));
        if t.Some? {
          AccountedCovers(db.main, db.disk, t.value);
          db.Resolves(Encoding(t.value));
        }
      }
      ok := db.Lookup(root) != [];
    }

    /** insert.  The accounts stay exact unless the stray string of TrieStray is a counted node, which
        then loses a reference; never so in a canonical trie.  Only an empty value can make a canonical
        trie one that is not.  Where counts are not enforced, insertion goes on all the same. */
    method Insert(key: seq<octet>, v: bytes)
      requires Reachable() && 2 * |key| <= MAX_KEY && |v| <= MAX_VALUE
      modifies this, db`main
      ensures db.Valid() && tree == Tries.Insert(old(tree), Nibbles(key), v) && root == Root(tree)
      ensures Present(db.main, db.disk, tree) && Bounded(tree, MAX_KEY)
      ensures !db.enforceRefs ==> Reachable()
      ensures old(Consistent()) ==>
        Accounted(Repaid(db.main, Lost(old(db.main), db.disk, StrayNode(old(tree), Nibbles(key)))), db.disk, tree)
      ensures old(Consistent()) ==>
        (Consistent() <==> Lost(old(db.main), db.disk, StrayNode(old(tree), Nibbles(key))) == None)
      ensures old(Valid()) ==> Consistent()
      ensures old(Valid()) ==> (Valid() <==> v != [] || exists x: Key, y: Key :: PartAt(old(tree), Nibbles(key), x, y))
    {
      ghost var t, k := tree, Nibbles(key);
      ghost var u := Tries.Insert(t, k, v);
      if Canonical(t) {
        InsertCanonicalExactly(t, k, v);
      }
      InsertBounded(t, k, v, MAX_KEY);
      PresentUsable(db.Content(), t);
      hide Tries.Insert, NodeItem, StrayNode, Accounted, Canonical, Bounded, Encoding, Usable, Merged, Present, Lost;
      hide Repaid;
      hide Rlp.Encode, Filed, Inserted, Unrooted;
      var x := Node(root, t, MAX_KEY);
      var r := MergeAt(x, root, Nibbles(key), v, false, t, MAX_KEY);
      ghost var m1 := db.main;
      SwapRoot(x, r, t, u);
      InsertedAccounts(old(db.main), m1, db.disk, t, k, v);
    }

    /** What insert and remove do with the new root. */
    method SwapRoot(x: Item, r: Item, ghost t: Tree, ghost u: Tree)
      requires db.Valid() && Shaped(u) && Shaped(t) && root == Root(t) && x == NodeItem(t) && r == NodeItem(u)
      modifies this, db`main
      ensures db.Valid() && tree == u && root == Root(u)
      ensures db.main == Inserted(Unrooted(old(db.main), t), Root(u), Encoding(u))
    {
      KilledCounts(db.main, db.disk, Encoding(t));
      hide NodeItem, Killed, Inserted, Filed;
      if |Rlp.Encode(x)| < HASH_SIZE {
        var _ := db.Kill(root);
      }
      root := ForceInsertNode(r);
      tree := u;
    }

    /** remove.  `false` where the source throws or reads past the end of the key. */
    method Remove(key: seq<octet>) returns (ok: bool)
      requires Valid() && 2 * |key| <= MAX_KEY
      modifies this, db`main
      ensures !ok <==> Faulty(old(tree), Nibbles(key), old(db.Content()))
      ensures match Delete(old(tree), Nibbles(key), old(db.Content()))
        case Unchanged => ok && Valid() && tree == old(tree) && root == old(root) && db.main == old(db.main)
        case Removed(u) => ok && Valid() && tree == u
        case Fault => !ok
    {
      ghost var t, k := tree, Nibbles(key);
      ghost var st := db.Content();
      AccountedCovers(db.main, db.disk, t);
      FaultsExactly(t, k, st);
      if Delete(t, k, st).Removed? {
        DeleteLookup(t, k, [], st);
        DeleteBounded(t, k, MAX_KEY, st);
      }
      hide Delete, Faulty, NodeItem, Covers, Accounted, Canonical, Bounded, Traded;
      var x := Node(root, t, MAX_KEY);
      var o := DeleteAt(x, Nibbles(key), t, MAX_KEY);
      if o.New? {
        ghost var u := Delete(t, k, st).tree;
        RootSwapped(st.main, db.main, db.disk, t, u, None);
        SwapRoot(x, o.item, t, u);
      }
      ok := o != Misreading;
    }

    /** at. */
    method At(key: seq<octet>) returns (v: bytes)
      requires Reachable()
      ensures v == Lookup(tree, Nibbles(key))
    {
      PresentUsable(db.Content(), tree);
      var x := Node(root, tree, MAX_KEY);
      v := AtAux(x, Nibbles(key), tree, MAX_KEY);
    }

    /** atAux. */
    method AtAux(here: Item, k: Key, ghost t: Tree, ghost room: int) returns (v: bytes)
      requires db.Valid() && Shaped(t) && here == NodeItem(t) && Bounded(t, room) && room <= MAX_KEY
      requires Usable(db.Content(), t, true)
      ensures v == Lookup(t, k)
      decreases t, 1
    {
      ItemShape(t);
      if EmptyItem(here) {
        return [];
      }
      if |here.items| == 2 {
        TwoItemNode(t);
        var key := NodeKey(here);
        if key == k && IsLeafItem(here) {
          return here.items[1].data;
        } else if key <= k && !IsLeafItem(here) {
          v := AtExt(here, k, t, room);
        } else {
          return [];
        }
      } else if k == [] {
        BranchItems(t);
        return here.items[16].data;
      } else {
        v := AtBranch(here, k, t, room);
      }
    }

    /** atAux, below an extension. */
    method AtExt(here: Item, k: Key, ghost t: Tree, ghost room: int) returns (v: bytes)
      requires db.Valid() && Shaped(t) && here == NodeItem(t) && Bounded(t, room) && room <= MAX_KEY
      requires t.Ext? && t.key <= k && Usable(db.Content(), t, true)
      ensures v == Lookup(t, k)
      decreases t, 0
    {
      TwoItemNode(t);
      UsableBelow(db.Content(), t, 0);
      hide NodeItem, Ref, Usable, NodeKey, IsLeafItem, KeyItem;
      var n := Deref(here.items[1], t.child, room - |t.key|);
      v := AtAux(n, k[|NodeKey(here)|..], t.child, room - |t.key|);
    }

    /** atAux, below a branch. */
    method AtBranch(here: Item, k: Key, ghost t: Tree, ghost room: int) returns (v: bytes)
      requires db.Valid() && Shaped(t) && here == NodeItem(t) && Bounded(t, room) && room <= MAX_KEY
      requires t.Branch? && k != [] && Usable(db.Content(), t, true)
      ensures v == Lookup(t, k)
      decreases t, 0
    {
      ghost var c := t.children[k[0]];
      hide NodeItem, Ref, Usable, Shaped, Bounded, EmptyItem, Lookup;
      BranchSlotParts(db.Content(), t, k, room);
      if EmptyItem(here.items[k[0]]) {
        return [];
      }
      var n := Deref(here.items[k[0]], c, room - 1);
      v := AtAux(n, k[1..], c, room - 1);
    }

    /** forceInsertNode. */
    method ForceInsertNode(x: Item) returns (h: bytes)
      requires Filed(db.main, db.disk)
      modifies db`main
      ensures h == Keccak(Rlp.Encode(x)) && Filed(db.main, db.disk)
      ensures db.main == Inserted(old(db.main), Keccak(Rlp.Encode(x)), Rlp.Encode(x))
    {
      h := Keccak(Rlp.Encode(x));
      InsertedCounts(db.main, db.disk, Rlp.Encode(x));
      db.Insert(h, Rlp.Encode(x));
    }

    /** killNode: nodes shorter than a hash are not in the store. */
    method KillNode(x: Item, h: bytes)
      modifies db`main
      ensures db.main == if |Rlp.Encode(x)| >= HASH_SIZE then Killed(old(db.main), h) else old(db.main)
    {
      if |Rlp.Encode(x)| >= HASH_SIZE {
        var _ := db.Kill(h);
      }
    }

    /** streamNode. */
    method StreamNode(x: Item, ghost u: Tree) returns (r: Item)
      requires Filed(db.main, db.disk) && Shaped(u) && x == NodeItem(u)
      modifies db`main
      ensures Filed(db.main, db.disk) && r == Ref(u)
      ensures forall n :: RefCount(db.main, n) == RefCount(old(db.main), n) + Own(u, n)
      ensures !Hashed(u) ==> db.main == old(db.main)
      ensures old(db.main).Keys <= db.main.Keys
    {
      if |Rlp.Encode(x)| < HASH_SIZE {
        r := x;
      } else {
        InsertedCounts(db.main, db.disk, Encoding(u));
        var h := ForceInsertNode(x);
        r := Data(h);
      }
    }

    /** place: put the value into an empty node, a leaf or a branch. */
    method Place(orig: Item, k: Key, v: bytes, inLine: bool, ghost t: Tree) returns (r: Item)
      requires db.Valid() && Shaped(t) && orig == NodeItem(t)
      requires t == Null || (t.Leaf? && t.key == k) || (t.Branch? && k == [])
      requires Finds(db.main, db.disk, t, inLine)
      requires inLine ==> !t.Leaf? || !Hashed(t)
      modifies db`main
      ensures db.Valid() && r == NodeItem(Tries.Insert(t, k, v))
      ensures Merged(old(db.main), db.main, db.disk, t, k, v, inLine)
    {
      ghost var m0 := db.main;
      ItemShape(t);
      KillNode(orig, Keccak(Rlp.Encode(orig)));
      PlaceMerged(m0, db.main, db.disk, t, inLine, k, v);
      if EmptyItem(orig) {
        r := List([KeyItem(k, true), Data(v)]);
      } else if |orig.items| == 2 {
        TwoItemNode(t);
        r := List([orig.items[0], Data(v)]);
      } else {
        r := List(orig.items[16 := Data(v)]);
      }
    }

    /** cleve. */
    method CleveNode(orig: Item, s: nat, inLine: bool, ghost t: Tree) returns (r: Item)
      requires db.Valid() && Shaped(t) && TwoItem(t) && orig == NodeItem(t)
      requires 0 < s <= |t.key| && (t.Ext? ==> s < |t.key|)
      requires Finds(db.main, db.disk, t, inLine) && (inLine ==> !Hashed(t))
      modifies db`main
      ensures db.Valid() && r == NodeItem(Cleve(t, s))
      ensures Cut(old(db.main), db.main, db.disk, t, inLine, Cleve(t, s))
    {
      ghost var m0 := db.main;
      ghost var low := Cleve(t, s).child;
      CleveItems(t, s);
      CleveBelow(t, s);
      hide NodeItem, Ref, Own, Below, Released, Held, Encoding, NodeKey, IsLeafItem, KeyItem, Cleve, Rlp.Encode;
      hide Finds, Cut;
      ReleasedFiled(m0, db.disk, t, inLine);
      ReleasedKeys(m0, t, inLine);
      ReleasedIs(m0, t);
      KillNode(orig, Keccak(Rlp.Encode(orig)));
      ghost var m1 := db.main;
      assert m1 == Released(m0, t, inLine);
      var key, leaf := NodeKey(orig), IsLeafItem(orig);
      var bottom := List([KeyItem(key[s..], leaf), orig.items[1]]);
      var x := StreamNode(bottom, low);
      r := List([KeyItem(key[..s], false), x]);
      CutOne(m0, db.main, db.disk, t, inLine, Cleve(t, s), low);
    }

    /** branch. */
    method BranchNode(orig: Item, inLine: bool, ghost t: Tree) returns (r: Item)
      requires db.Valid() && Shaped(t) && TwoItem(t) && orig == NodeItem(t)
      requires Finds(db.main, db.disk, t, inLine) && (inLine ==> !Hashed(t))
      modifies db`main
      ensures db.Valid() && r == NodeItem(Fork(t))
      ensures Cut(old(db.main), db.main, db.disk, t, inLine, Fork(t))
    {
      TwoItemNode(t);
      if NodeKey(orig) == [] {
        ghost var m0 := db.main;
        ReleasedFiled(m0, db.disk, t, inLine);
        KillNode(orig, Keccak(Rlp.Encode(orig)));
        ForkBelow(t);
        CutNone(m0, db.disk, t, inLine, Fork(t));
        r := List(Blanks()[16 := orig.items[1]]);
        ForkItems(t, orig.items[1]);
      } else {
        var x := BranchSlot(orig, inLine, t);
        r := List(Blanks()[NodeKey(orig)[0] := x]);
        ForkItems(t, x);
      }
    }

    /** The slot branch puts to use: the shortened node, or the child of a one-nibble extension. */
    method BranchSlot(orig: Item, inLine: bool, ghost t: Tree) returns (x: Item)
      requires db.Valid() && Shaped(t) && TwoItem(t) && t.key != [] && orig == NodeItem(t)
      requires Finds(db.main, db.disk, t, inLine) && (inLine ==> !Hashed(t))
      modifies db`main
      ensures db.Valid() && x == Ref(Fork(t).children[t.key[0]])
      ensures Cut(old(db.main), db.main, db.disk, t, inLine, Fork(t))
    {
      ghost var m0 := db.main;
      TwoItemNode(t);
      ReleasedFiled(m0, db.disk, t, inLine);
      ReleasedKeys(m0, t, inLine);
      KillNode(orig, Keccak(Rlp.Encode(orig)));
      ghost var m1 := db.main;
      assert m1 == Released(m0, t, inLine);
      ForkBelow(t);
      ghost var low := Fork(t).children[t.key[0]];
      var key, leaf := NodeKey(orig), IsLeafItem(orig);
      if leaf || |key| > 1 {
        TwoItemNode(low);
        hide NodeItem, Below, Own, Ref, Released;
        x := StreamNode(List([KeyItem(key[1..], leaf), orig.items[1]]), low);
        CutOne(m0, db.main, db.disk, t, inLine, Fork(t), low);
      } else {
        x := orig.items[1];
        CutNone(m0, db.disk, t, inLine, Fork(t));
      }
    }

    /** mergeAt.  `inLine` says that the node itself is not in the store: it was written into its
        parent, or has just been made by cleve or branch. */
    method MergeAt(orig: Item, origHash: bytes, k: Key, v: bytes, inLine: bool, ghost t: Tree, ghost room: int)
      returns (r: Item)
      requires db.Valid() && Shaped(t) && orig == NodeItem(t) && origHash == Keccak(Encoding(t))
      requires Bounded(t, room) && |k| <= room <= MAX_KEY && |v| <= MAX_VALUE
      requires Usable(db.Content(), t, inLine)
      requires inLine && Hashed(t) ==> Direct(t, k) && !t.Leaf?
      modifies db`main
      ensures db.Valid() && r == NodeItem(Tries.Insert(t, k, v))
      ensures Merged(old(db.main), db.main, db.disk, t, k, v, inLine)
      decreases |k|, if Direct(t, k) then 0 else 1, 2
    {
      ghost var m0 := db.main;
      ItemShape(t);
      if EmptyItem(orig) {
        r := Place(orig, k, v, inLine, t);
      } else if |orig.items| == 2 {
        TwoItemNode(t);
        var key := NodeKey(orig);
        if key == k && IsLeafItem(orig) {
          r := Place(orig, k, v, inLine, t);
        } else if key <= k && !IsLeafItem(orig) {
          r := MergeExt(orig, origHash, k, v, inLine, t, room);
        } else {
          r := Split(orig, k, v, inLine, t, room);
        }
      } else if k == [] {
        r := Place(orig, k, v, inLine, t);
      } else {
        r := MergeBranch(orig, origHash, k, v, inLine, t, room);
      }
    }

    /** mergeAt, an extension whose key starts the key: move down. */
    method MergeExt(orig: Item, origHash: bytes, k: Key, v: bytes, inLine: bool, ghost t: Tree, ghost room: int)
      returns (r: Item)
      requires db.Valid() && Shaped(t) && orig == NodeItem(t) && origHash == Keccak(Encoding(t))
      requires t.Ext? && t.key <= k
      requires Bounded(t, room) && |k| <= room <= MAX_KEY && |v| <= MAX_VALUE
      requires Usable(db.Content(), t, inLine)
      modifies db`main
      ensures db.Valid() && r == NodeItem(Tries.Insert(t, k, v))
      ensures Merged(old(db.main), db.main, db.disk, t, k, v, inLine)
      decreases |k|, 0, 1
    {
      ghost var m0 := db.main;
      TwoItemNode(t);
      Release(orig, origHash, inLine, t, t.child);
      var rest := k[|NodeKey(orig)|..];
      var x := MergeAtAux(orig.items[1], rest, v, t.child, room - |t.key|);
      MergedExt(m0, db.main, db.disk, t, k, v, inLine, room);
      r := List([orig.items[0], x]);
      TwoItemNode(Tries.Insert(t, k, v));
    }

    /** mergeAt, a branch the key goes on below: delve into the slot of the next nibble. */
    method MergeBranch(orig: Item, origHash: bytes, k: Key, v: bytes, inLine: bool, ghost t: Tree, ghost room: int)
      returns (r: Item)
      requires db.Valid() && Shaped(t) && orig == NodeItem(t) && origHash == Keccak(Encoding(t))
      requires t.Branch? && k != []
      requires Bounded(t, room) && |k| <= room <= MAX_KEY && |v| <= MAX_VALUE
      requires Usable(db.Content(), t, inLine)
      modifies db`main
      ensures db.Valid() && r == NodeItem(Tries.Insert(t, k, v))
      ensures Merged(old(db.main), db.main, db.disk, t, k, v, inLine)
      decreases |k|, 0, 1
    {
      hide Tries.Insert, NodeItem, StrayNode, Released, Held, Own, Below, Ref, Encoding, Merged, MergedBelow, Finds;
      hide Covers;
      ghost var m0 := db.main;
      var n := k[0];
      ghost var c := t.children[n];
      ghost var u := Branch(t.children[n := Tries.Insert(c, k[1..], v)], t.value);
      InsertAtBranch(t, k, v);
      BranchItems(t);
      BelowBranch(t, n);
      Release(orig, origHash, inLine, t, c);
      var x := MergeAtAux(orig.items[n], k[1..], v, c, room - 1);
      MergedBranch(m0, db.main, db.disk, t, k, v, inLine, room);
      r := List(orig.items[n := x]);
      BranchItem(r.items, u);
    }

    /** killNode on the way down: the node goes, what hangs below it stays usable. */
    method Release(orig: Item, origHash: bytes, inLine: bool, ghost t: Tree, ghost c: Tree)
      requires db.Valid() && Shaped(t) && orig == NodeItem(t) && origHash == Keccak(Encoding(t))
      requires Usable(db.Content(), t, inLine)
      requires Shaped(c) && forall n :: Held(c, false, n) <= Below(t, n)
      modifies db`main
      ensures db.Valid() && db.main == Released(old(db.main), t, inLine)
      ensures Usable(db.Content(), c, false)
    {
      ghost var st := db.Content();
      ReleasedFiled(db.main, db.disk, t, inLine);
      ReleasedUsable(st, st.(main := Released(db.main, t, inLine)), t, inLine, c);
      if !inLine {
        KillNode(orig, origHash);
      }
    }

    /** The end of mergeAt's pair case: cleve or branch, then go on in the node that made. */
    method Split(orig: Item, k: Key, v: bytes, inLine: bool, ghost t: Tree, ghost room: int) returns (r: Item)
      requires db.Valid() && Shaped(t) && orig == NodeItem(t) && !Direct(t, k)
      requires Bounded(t, room) && |k| <= room <= MAX_KEY && |v| <= MAX_VALUE
      requires Usable(db.Content(), t, inLine) && (inLine ==> !Hashed(t))
      modifies db`main
      ensures db.Valid() && r == NodeItem(Tries.Insert(t, k, v))
      ensures Merged(old(db.main), db.main, db.disk, t, k, v, inLine)
      decreases |k|, 1, 1
    {
      TwoItemNode(t);
      hide NodeItem, Tries.Insert, Merged, Usable, StrayNode, Bounded;
      var sh := SharedPrefix(k, NodeKey(orig));
      if sh > 0 {
        r := SplitShared(orig, sh, k, v, inLine, t, room);
      } else {
        r := SplitApart(orig, k, v, inLine, t, room);
      }
    }

    method SplitShared(orig: Item, sh: nat, k: Key, v: bytes, inLine: bool, ghost t: Tree, ghost room: int)
      returns (r: Item)
      requires db.Valid() && Shaped(t) && orig == NodeItem(t) && !Direct(t, k)
      requires Bounded(t, room) && |k| <= room <= MAX_KEY && |v| <= MAX_VALUE
      requires Usable(db.Content(), t, inLine) && (inLine ==> !Hashed(t))
      requires sh == SharedPrefix(k, t.key) > 0
      modifies db`main
      ensures db.Valid() && r == NodeItem(Tries.Insert(t, k, v))
      ensures Merged(old(db.main), db.main, db.disk, t, k, v, inLine)
      decreases |k|, 1, 0
    {
      assert Finds(db.main, db.disk, t, inLine);
      hide Usable, Finds, Cut, Merged, Rlp.Encode;
      ghost var m0, st := db.main, db.Content();
      CleveIsDirect(t, k);
      var cleved := CleveNode(orig, sh, inLine, t);
      ghost var m1 := db.main;
      ghost var u := Cleve(t, sh);
      CleveBounded(t, sh, room);
      CutUsable(st, db.Content(), t, inLine, u);
      assert Direct(u, k) && Tries.Insert(t, k, v) == Tries.Insert(u, k, v);
      hide Cleve, Tries.Insert, NodeItem;
      r := MergeAt(cleved, Keccak(Rlp.Encode(cleved)), k, v, true, u, room);
      MergedCleve(m0, m1, db.main, db.disk, t, k, v, inLine, room);
    }

    method SplitApart(orig: Item, k: Key, v: bytes, inLine: bool, ghost t: Tree, ghost room: int) returns (r: Item)
      requires db.Valid() && Shaped(t) && orig == NodeItem(t) && !Direct(t, k)
      requires Bounded(t, room) && |k| <= room <= MAX_KEY && |v| <= MAX_VALUE
      requires Usable(db.Content(), t, inLine) && (inLine ==> !Hashed(t))
      requires SharedPrefix(k, t.key) == 0
      modifies db`main
      ensures db.Valid() && r == NodeItem(Tries.Insert(t, k, v))
      ensures Merged(old(db.main), db.main, db.disk, t, k, v, inLine)
      decreases |k|, 1, 0
    {
      assert Finds(db.main, db.disk, t, inLine);
      hide Usable, Finds, Cut, Merged, Rlp.Encode;
      ghost var m0, st := db.main, db.Content();
      var branched := BranchNode(orig, inLine, t);
      ghost var m1 := db.main;
      ghost var u := Fork(t);
      ForkBounded(t, room);
      CutUsable(st, db.Content(), t, inLine, u);
      assert Direct(u, k) && Tries.Insert(t, k, v) == Tries.Insert(u, k, v);
      hide Fork, Tries.Insert, NodeItem;
      r := MergeAt(branched, Keccak(Rlp.Encode(branched)), k, v, true, u, room);
      MergedFork(m0, m1, db.main, db.disk, t, k, v, inLine, room);
    }

    /** mergeAtAux: go down to a child, which may have to be looked up by its hash. */
    method MergeAtAux(orig: Item, k: Key, v: bytes, ghost c: Tree, ghost room: int) returns (r: Item)
      requires db.Valid() && Shaped(c) && orig == Ref(c)
      requires Bounded(c, room) && |k| <= room <= MAX_KEY && |v| <= MAX_VALUE
      requires Usable(db.Content(), c, false)
      modifies db`main
      ensures db.Valid() && r == Ref(Tries.Insert(c, k, v))
      ensures MergedBelow(old(db.main), db.main, db.disk, c, k, v)
      decreases |k|, 1, 3
    {
      hide NodeItem, Ref, Tries.Insert, StrayNode, Usable, Merged, MergedBelow, Own, Below, Bounded, Rlp.Encode;
      ghost var m0, u := db.main, Tries.Insert(c, k, v);
      var node, removable := Enter(orig, c, room);
      HashedUsable(db.Content(), c);
      var b := MergeAt(node, Keccak(Rlp.Encode(node)), k, v, !removable, c, room);
      ghost var m1 := db.main;
      r := StreamNode(b, u);
      MergedStream(m0, m1, db.main, db.disk, c, k, v, room);
    }

    /** The child's node, and whether it is in the store. */
    method Enter(orig: Item, ghost c: Tree, ghost room: int) returns (node: Item, removable: bool)
      requires db.Valid() && Shaped(c) && orig == Ref(c) && Bounded(c, room) && room <= MAX_KEY
      requires Usable(db.Content(), c, false)
      ensures node == NodeItem(c) && removable == Hashed(c)
    {
      RefKinds(c);
      HashedUsable(db.Content(), c);
      hide NodeItem, Ref, Usable, Bounded, Rlp.Encode, Shaped;
      node, removable := orig, false;
      if orig.Data? && !EmptyItem(orig) {
        node := Node(orig.data, c, room);
        removable := true;
      }
    }

    /** node(h), decoded: a node that is counted or on disk is found under its hash. */
    method Node(h: bytes, ghost t: Tree, ghost room: int) returns (x: Item)
      requires db.Valid() && Shaped(t) && h == Keccak(Encoding(t)) && Bounded(t, room) && room <= MAX_KEY
      requires Resolvable(db.Content(), Encoding(t))
      ensures x == NodeItem(t)
    {
      db.Resolves(Encoding(t));
      NodeSized(t, room);
      DecodeEncode(NodeItem(t));
      x := Decode(db.Lookup(h)).value;
    }

    // -------------------------------------------------------------- removal

    /** uniqueInUse on the items of a branch node. */
    method UniqueInUse(xs: seq<Item>, except: nat, ghost t: Tree) returns (used: nat)
      requires Shaped(t) && t.Branch? && |xs| == 17
      requires forall i: nat :: i <= 16 ==> (EmptyItem(xs[i]) <==> !SlotUsed(t, i))
      ensures used == UniqueSlot(t, except)
    {
      used := NONE;
      for i := 0 to 17
        invariant used == NONE ==> NextUsed(t, except, 0) == NextUsed(t, except, i)
        invariant used != NONE ==> used < i && NextUsed(t, except, 0) == used
        invariant used != NONE ==> NextUsed(t, except, used + 1) == NextUsed(t, except, i)
      {
        if i != except && !EmptyItem(xs[i]) {
          if used == NONE {
            used := i;
          } else {
            return NONE;
          }
        }
      }
    }

    /** deref: the node a reference stands for. */
    method Deref(x: Item, ghost c: Tree, ghost room: int) returns (n: Item)
      requires db.Valid() && Shaped(c) && c != Null && x == Ref(c) && Bounded(c, room) && room <= MAX_KEY
      requires Usable(db.Content(), c, false) || Covers(db.main, db.disk, c, false)
      ensures n == NodeItem(c)
    {
      RefKinds(c);
      if x.List? {
        n := x;
      } else {
        if Covers(db.main, db.disk, c, false) {
          CoversUsable(db.Content(), c, false);
        }
        HashedUsable(db.Content(), c);
        n := Node(x.data, c, room);
      }
    }

    /** isTwoItemNode, graft and merge: put `key` in front of the node `c`, joining it with the key
        of a two-item node, which then leaves the store. */
    method Rejoin(key: Key, x: Item, ghost c: Tree, ghost room: int) returns (r: Item)
      requires db.Valid() && Shaped(c) && c != Null && x == Ref(c) && key != []
      requires Bounded(c, room) && room <= MAX_KEY && Covers(db.main, db.disk, c, false)
      modifies db`main
      ensures db.Valid() && Shaped(Collapse(key, c)) && r == NodeItem(Collapse(key, c))
      ensures Rejoined(old(db.main), db.main, db.disk, c, Collapse(key, c))
    {
      ghost var m0 := db.main;
      var n := Deref(x, c, room);
      ItemShape(c);
      RefKinds(c);
      if |n.items| == 2 {
        TwoItemNode(c);
        ReleasedCounts(m0, db.disk, c, false);
        if x.Data? {
          var _ := db.Kill(x.data);
        }
        assert db.main == Released(m0, c, false);
        r := List([KeyItem(key + NodeKey(n), IsLeafItem(n)), n.items[1]]);
        TwoItemNode(Collapse(key, c));
        GraftedCounts(m0, db.main, db.disk, key, c);
      } else {
        r := List([KeyItem(key, false), x]);
      }
    }

    /** deleteAt. */
    method DeleteAt(orig: Item, k: Key, ghost t: Tree, ghost room: int) returns (o: Reply)
      requires db.Valid() && Canonical(t) && orig == NodeItem(t) && Bounded(t, room) && |k| <= room <= MAX_KEY
      requires Covers(db.main, db.disk, t, false)
      modifies db`main
      ensures db.Valid() && Answers(o, t, k, old(db.Content()), db.main)
      decreases t, 1
    {
      ItemShape(t);
      if EmptyItem(orig) {
        return NotFound;
      }
      if |orig.items| == 2 {
        TwoItemNode(t);
        var key := NodeKey(orig);
        if key == k && IsLeafItem(orig) {
          ReleasedCounts(db.main, db.disk, t, false);
          KillNode(orig, Keccak(Rlp.Encode(orig)));
          return New(Data([]));
        }
        if key <= k {
          if IsLeafItem(orig) {
            // deleteAtAux on the value: looked up as a hash unless it is empty
            var found := !EmptyItem(orig.items[1]) && !AbsentUnder(db.Content(), orig.items[1].data, k[|key|..]);
            return if found then Misreading else NotFound;
          }
          o := DeleteExt(orig, k, t, room);
        } else {
          o := NotFound;
        }
      } else {
        BranchItems(t);
        if k == [] {
          if EmptyItem(orig.items[16]) {
            return Misreading;      // reads a nibble past the end of the key
          }
          o := DeleteValueAt(orig, t, room);
        } else {
          o := DeleteBranch(orig, k, t, room);
        }
      }
    }

    /** deleteAtAux: down to a child, and its replacement as a reference. */
    method DeleteAtAux(orig: Item, k: Key, ghost c: Tree, ghost room: int) returns (o: Reply)
      requires db.Valid() && Canonical(c) && orig == Ref(c) && Bounded(c, room) && |k| <= room <= MAX_KEY
      requires Covers(db.main, db.disk, c, false)
      modifies db`main
      ensures db.Valid() && AnswersRef(o, c, k, old(db.Content()), db.main)
      decreases c, 2
    {
      ghost var st := db.Content();
      RefKinds(c);
      if EmptyItem(orig) {
        return NotFound;
      }
      var n := Deref(orig, c, room);
      o := DeleteAt(n, k, c, room);
      if o.New? {
        NullInline();
        var x := StreamNode(o.item, Delete(c, k, st).tree);
        o := New(x);
      }
    }

    method DeleteExt(orig: Item, k: Key, ghost t: Tree, ghost room: int) returns (o: Reply)
      requires db.Valid() && Canonical(t) && orig == NodeItem(t) && Bounded(t, room) && |k| <= room <= MAX_KEY
      requires Covers(db.main, db.disk, t, false) && t.Ext? && t.key <= k
      modifies db`main
      ensures db.Valid() && Answers(o, t, k, old(db.Content()), db.main)
      decreases t, 0
    {
      ghost var st := db.Content();
      assert st.main == db.main && st.disk == db.disk;
      hide *;
      ghost var m0, c, rest := db.main, t.child, k[|t.key|..];
      TwoItemNode(t);
      DeleteExtStep(t, k, room, st);
      ReplaceBelowExt(m0, db.disk, t);
      o := DeleteAtAux(orig.items[1], k[|NodeKey(orig)|..], c, room - |t.key|);
      PassedOn(o, c, rest, st, db.main, t, k);
      if o.New? {
        ghost var c' := Delete(c, rest, st).tree;
        var r := RebuildExt(orig, o.item, t, c', room, m0);
        o := New(r);
        AnswerAtExt(o, Collapse(t.key, c'), t, k, st, db.main);
      }
    }

    /** deleteAt, the pair case once the child has been replaced. */
    method RebuildExt(orig: Item, x: Item, ghost t: Tree, ghost c': Tree, ghost room: int, ghost m0: Cache)
      returns (r: Item)
      requires db.Valid() && Shaped(t) && t.Ext? && orig == NodeItem(t)
      requires Shaped(c') && c' != Null && x == Ref(c') && Bounded(c', room - |t.key|) && room <= MAX_KEY
      requires Covers(m0, db.disk, t, false) && Replaced(m0, db.main, db.disk, t.child, c')
      modifies db`main
      ensures db.Valid() && Shaped(Collapse(t.key, c')) && r == NodeItem(Collapse(t.key, c'))
      ensures Traded(m0, db.main, db.disk, t, false, Collapse(t.key, c'))
    {
      hide Held, Own, Below, NodeItem, Ref, Collapse, Traded, Replaced, Covers, Rejoined, Bounded, Encoding;
      hide Rlp.Encode, Filed, KeyItem, NodeKey, Shaped;
      ghost var m1 := db.main;
      ExtFacts(t);
      GiveBack(orig, t, t.child, c', m0);
      ghost var m2 := db.main;
      r := Rejoin(NodeKey(orig), x, c', room - |t.key|);
      RejoinedTraded(m0, m1, m2, db.main, db.disk, t, t.child, c', Collapse(t.key, c'));
    }

    /** killNode once a child of the node has been replaced. */
    method GiveBack(orig: Item, ghost t: Tree, ghost c: Tree, ghost c': Tree, ghost m0: Cache)
      requires db.Valid() && Shaped(t) && Shaped(c) && Shaped(c') && orig == NodeItem(t)
      requires Covers(m0, db.disk, t, false) && Replaced(m0, db.main, db.disk, c, c')
      requires forall n :: Held(c, false, n) <= Below(t, n)
      modifies db`main
      ensures db.Valid()
      ensures forall n :: OnDisk(db.disk, n) || RefCount(db.main, n) + Own(t, n) == RefCount(old(db.main), n)
      ensures Covers(db.main, db.disk, c', false)
      ensures db.main == Released(old(db.main), t, false)
    {
      ReplacedThenKilled(m0, db.main, db.disk, t, c, c');
      ReleasedIs(db.main, t);
      hide Held, Own, Below, NodeItem, Released, Replaced, Covers, Encoding, Rlp.Encode, Killed, Filed, Shaped;
      KillNode(orig, Keccak(Rlp.Encode(orig)));
    }

    /** deleteAt, exactly at a branch: take its value out and rejig. */
    method DeleteValueAt(orig: Item, ghost t: Tree, ghost room: int) returns (o: Reply)
      requires db.Valid() && Canonical(t) && orig == NodeItem(t) && Bounded(t, room) && room <= MAX_KEY
      requires Covers(db.main, db.disk, t, false) && t.Branch? && t.value != []
      modifies db`main
      ensures db.Valid() && Answers(o, t, [], old(db.Content()), db.main)
    {
      ghost var m0 := db.main;
      BranchItems(t);
      SlotItems(t, orig.items);
      ReleasedCounts(m0, db.disk, t, false);
      ReleasedIs(m0, t);
      DeletedValue(t, db.Content());
      hide NodeItem, Released, Own, Below, Canonical, Delete, Encoding;
      KillNode(orig, Keccak(Rlp.Encode(orig)));
      ghost var m1 := db.main;
      assert m1 == Released(m0, t, false);
      var used := UniqueInUse(orig.items, 16, t);
      if used < 16 {
        var r := LastSlot(orig.items[used], used, t, room, m0);
        o := New(r);
      } else {
        o := New(List(orig.items[16 := Data([])]));
        BranchItem(o.item.items, Branch(t.children, []));
        ValueTraded(m0, m1, db.disk, t);
      }
    }

    /** ... with one child left. */
    method LastSlot(x: Item, used: nat, ghost t: Tree, ghost room: int, ghost m0: Cache) returns (r: Item)
      requires db.Valid() && Filed(m0, db.disk) && Canonical(t) && t.Branch? && Bounded(t, room) && room <= MAX_KEY
      requires used < 16 && used == UniqueSlot(t, 16) && x == Ref(t.children[used])
      requires Covers(m0, db.disk, t, false) && db.main == Released(m0, t, false)
      modifies db`main
      ensures db.Valid()
      ensures var u := Collapse([used], t.children[used]);
        Shaped(u) && r == NodeItem(u) && Traded(m0, db.main, db.disk, t, false, u)
    {
      ghost var m1, c := db.main, t.children[used];
      OnlyBelow(t, 16, used);
      ReleasedCovers(m0, db.disk, t, false, c);
      assert SlotUsed(t, used);
      hide Released, Own, Below, NodeItem, Ref, UniqueSlot, Collapse, Canonical;
      r := Rejoin([used], x, c, room - 1);
      ShrunkTraded(m0, m1, db.main, db.disk, t, c, Collapse([used], c));
    }

    /** deleteAt, below a branch. */
    method DeleteBranch(orig: Item, k: Key, ghost t: Tree, ghost room: int) returns (o: Reply)
      requires db.Valid() && Canonical(t) && orig == NodeItem(t) && Bounded(t, room) && |k| <= room <= MAX_KEY
      requires Covers(db.main, db.disk, t, false) && t.Branch? && k != []
      modifies db`main
      ensures db.Valid() && Answers(o, t, k, old(db.Content()), db.main)
      decreases t, 0
    {
      ghost var st, m0 := db.Content(), db.main;
      EnterBranch(m0, db.disk, t, k, room);
      hide *;
      ghost var c := t.children[k[0]];
      o := DeleteAtAux(orig.items[k[0]], k[1..], c, room - 1);
      BranchPassedOn(o, st, db.main, t, k, room);
      if o.New? {
        ghost var c' := Delete(c, k[1..], st).tree;
        o := RebuildBranch(orig, k[0], o.item, t, c', room, st);
        AnswerAtBranch(o, c', t, k, room, st, db.main);
      }
    }

    /** deleteAt, the branch case once a child has been replaced. */
    method RebuildBranch(orig: Item, n: nibble, x: Item, ghost t: Tree, ghost c': Tree, ghost room: int,
      ghost st: Store)
      returns (o: Reply)
      requires db.Valid() && Shaped(t) && t.Branch? && orig == NodeItem(t)
      requires Shaped(c') && x == Ref(c') && Bounded(t, room) && Bounded(c', room - 1) && room <= MAX_KEY
      requires st.disk == db.disk && st.hasDisk == db.hasDisk && st.enforceRefs == db.enforceRefs
      requires Covers(st.main, db.disk, t, false) && Replaced(st.main, db.main, db.disk, t.children[n], c')
      requires c' == Null ==> db.main == Released(st.main, t.children[n], false)
      modifies db`main
      ensures db.Valid()
      ensures Shrunk(o, Branch(t.children[n := c'], t.value), GivenBack(st, t.children[n], t), st.main, db.main, t)
    {
      ghost var m0, m1 := st.main, db.main;
      ghost var b := Branch(t.children[n := c'], t.value);
      BranchItems(t);
      BelowBranch(t, n);
      hide NodeItem, Held, Own, Below, Shrink, Filed, Encoding, Ref;
      GiveBack(orig, t, t.children[n], c', m0);
      BranchReplaced(m0, m1, db.main, db.disk, t, n, c');
      ghost var later := db.Content();
      o := ShrinkAt(orig.items[n := x], b, room, m0, t);
      SameShrink(b, n, later, GivenBack(st, t.children[n], t));
    }

    /** The end of deleteAt: a branch that may have been left with one slot. */
    method ShrinkAt(xs: seq<Item>, ghost b: Tree, ghost room: int, ghost m0: Cache, ghost t: Tree) returns (o: Reply)
      requires db.Valid() && Shaped(b) && b.Branch? && Bounded(b, room) && room <= MAX_KEY && Shaped(t)
      requires |xs| == 17 && xs[16] == Data(b.value) && forall i :: 0 <= i < 16 ==> xs[i] == Ref(b.children[i])
      requires Traded(m0, db.main, db.disk, t, false, b)
      requires Covers(db.main, db.disk, b, true)
      modifies db`main
      ensures db.Valid()
      ensures Shrunk(o, b, old(db.Content()), m0, db.main, t)
    {
      hide Own, Below, NodeItem, Ref, UniqueSlot, Collapse, Bounded;
      SlotItems(b, xs);
      var used := UniqueInUse(xs, NONE, b);
      if used == NONE {
        o := New(List(xs));
        BranchItem(xs, b);
      } else if used == 16 {
        o := LastValue(xs[16], b, m0, t);
      } else {
        var r := LastChild(xs[used], used, b, room, m0, t);
        o := New(r);
      }
    }

    /** ... with only its value left: isTwoItemNode looks it up. */
    method LastValue(x: Item, ghost b: Tree, ghost m0: Cache, ghost t: Tree) returns (o: Reply)
      requires db.Valid() && Shaped(b) && b.Branch? && Shaped(t)
      requires UniqueSlot(b, NONE) == 16 && x == Data(b.value)
      requires Traded(m0, db.main, db.disk, t, false, b)
      ensures o == if ReadsAsPair(db.Content(), b.value) then Misreading else New(NodeItem(Leaf([], b.value)))
      ensures Traded(m0, db.main, db.disk, t, false, Leaf([], b.value))
    {
      OnlyBelow(b, NONE, 16);
      SlotTraded(m0, db.main, db.disk, t, b, Leaf([], b.value));
      if ReadsAsPair(db.Content(), x.data) {
        return Misreading;
      }
      o := New(List([KeyItem([], true), x]));
    }

    /** ... with one child left. */
    method LastChild(x: Item, used: nat, ghost b: Tree, ghost room: int, ghost m0: Cache, ghost t: Tree)
      returns (r: Item)
      requires db.Valid() && Shaped(b) && b.Branch? && Bounded(b, room) && room <= MAX_KEY && Shaped(t)
      requires used < 16 && used == UniqueSlot(b, NONE) && x == Ref(b.children[used])
      requires Traded(m0, db.main, db.disk, t, false, b) && Covers(db.main, db.disk, b, true)
      modifies db`main
      ensures db.Valid()
      ensures var u := Collapse([used], b.children[used]);
        Shaped(u) && u != Null && r == NodeItem(u) && Traded(m0, db.main, db.disk, t, false, u)
    {
      ghost var m2, c := db.main, b.children[used];
      assert SlotUsed(b, used);
      OnlyBelow(b, NONE, used);
      hide Own, Below, NodeItem, Ref, UniqueSlot, Collapse;
      r := Rejoin([used], x, c, room - 1);
      LastRejoined(m0, m2, db.main, db.disk, t, b, c, Collapse([used], c));
    }
  }
}
