/** Whole runs of a trie over a store with a disk: updates and removals of keys of one length, as in
    SpecificTrieDB and the hashed tries, between commits and rollbacks (TrieDB.h, OverlayDB.cpp).  The
    caller keeps the root of the last commit and returns to it after a rollback. */
module TrieSession {
  import opened Bytes
  import opened Options
  import opened HexPrefix
  import opened Tries
  import opened TrieCanonical
  import opened TrieDelete
  import opened TrieNodes
  import opened NodeStore
  import opened TrieAccounts
  import opened TrieStore

  datatype Step = Put(key: seq<octet>, value: bytes) | Erase(key: seq<octet>) | Commit | Rollback

  /** What the map should be now, and what it was at the last commit. */
  datatype Maps = Maps(now: map<Key, bytes>, saved: map<Key, bytes>)

  function After(m: Maps, s: Step): Maps {
    match s
    case Put(k, v) => Maps(m.now[Nibbles(k) := v], m.saved)
    case Erase(k) => Maps(m.now - {Nibbles(k)}, m.saved)
    case Commit => Maps(m.now, m.now)
    case Rollback => Maps(m.saved, m.saved)
  }

  function AfterAll(m: Maps, ss: seq<Step>): Maps {
    if ss == [] then m else After(AfterAll(m, ss[..|ss| - 1]), ss[|ss| - 1])
  }

  predicate Fits(s: Step, width: nat) {
    match s
    case Put(k, v) => |k| == width && v != [] && |v| <= MAX_VALUE
    case Erase(k) => |k| == width
    case _ => true
  }

  /** Keys of one length, values that are values. */
  ghost predicate Uniform(m: map<Key, bytes>, width: nat) {
    forall k :: k in m ==> |k| == 2 * width && m[k] != []
  }

  lemma UniformApart(t: Tree, m: map<Key, bytes>, width: nat, k: Key)
    requires Shaped(t) && Holds(t, m) && Uniform(m, width) && |k| == 2 * width
    ensures Apart(t, k)
  {
    forall q: Key | Stored(t, q) && q != k ensures !(q <= k) && !(k <= q) {
      assert Lookup(t, q) == At(m, q);
    }
  }

  lemma PutHolds(t: Tree, m: map<Key, bytes>, k: Key, v: bytes)
    requires Shaped(t) && Holds(t, m)
    ensures Holds(Insert(t, k, v), m[k := v])
  {
    forall q: Key ensures Lookup(Insert(t, k, v), q) == At(m[k := v], q) {
      InsertLookup(t, k, v, q);
      assert Lookup(t, q) == At(m, q);
    }
  }

  lemma EraseHolds(t: Tree, m: map<Key, bytes>, k: Key, st: Store)
    requires Canonical(t) && Holds(t, m) && Apart(t, k)
    ensures !Delete(t, k, st).Fault?
    ensures Delete(t, k, st).Unchanged? ==> Holds(t, m - {k})
    ensures Delete(t, k, st).Removed? ==> Shaped(Delete(t, k, st).tree) && Holds(Delete(t, k, st).tree, m - {k})
  {
    DeleteRefines(t, k, [], st);
    forall q: Key ensures
      var u := if Delete(t, k, st).Removed? then Delete(t, k, st).tree else t;
      Lookup(u, q) == At(m - {k}, q)
    {
      DeleteRefines(t, k, q, st);
      assert Lookup(t, q) == At(m, q);
    }
  }

  class Session {
    const trie: GenericTrieDB
    const db: OverlayDB
    const width: nat
    var savedRoot: bytes
    ghost var savedTree: Tree
    ghost var maps: Maps

    ghost predicate Valid()
      reads this, trie, db
    {
      && trie.db == db && db.hasDisk && 2 * width <= MAX_KEY
      && trie.Valid() && Holds(trie.tree, maps.now) && Uniform(maps.now, width)
      && Canonical(savedTree) && Bounded(savedTree, MAX_KEY) && savedRoot == Root(savedTree)
      && Holds(savedTree, maps.saved) && Uniform(maps.saved, width)
      && (Durable(db.disk, savedTree) || savedTree == Null)
    }

    constructor (width: nat)
      requires 2 * width <= MAX_KEY
      ensures Valid() && fresh(trie) && fresh(db) && maps == Maps(map[], map[])
    {
      var store := new OverlayDB(true);
      var t := new GenericTrieDB(store);
      t.Init();
      trie, db, this.width := t, store, width;
      savedRoot, savedTree, maps := t.root, Null, Maps(map[], map[]);
    }

    method Update(k: seq<octet>, v: bytes)
      requires Valid() && |k| == width && v != [] && |v| <= MAX_VALUE
      modifies trie, db`main
      ensures trie.Valid() && Holds(trie.tree, maps.now[Nibbles(k) := v])
    {
      trie.ConsistentReachable();
      hide Holds, Canonical, Bounded, Insert, Repaid, Lost, Accounted, Present;
      PutHolds(trie.tree, maps.now, Nibbles(k), v);
      trie.Insert(k, v);
    }

    method Do(s: Step)
      requires Valid() && Fits(s, width)
      modifies this, trie, db`main, db`disk
      ensures Valid() && maps == After(old(maps), s)
    {
      match s
      case Put(k, v) =>
        Update(k, v);
        maps := After(maps, s);
      case Erase(k) =>
        UniformApart(trie.tree, maps.now, width, Nibbles(k));
        EraseHolds(trie.tree, maps.now, Nibbles(k), db.Content());
        var _ := trie.Remove(k);
        maps := After(maps, s);
      case Commit =>
        CommitAll();
      case Rollback =>
        RollBack();
    }

    method CommitAll()
      requires Valid()
      modifies this, db`main, db`disk
      ensures Valid() && maps == After(old(maps), Commit)
      ensures Durable(db.disk, trie.tree)
    {
      ghost var m0, d0 := db.main, db.disk;
      db.Commit();
      CommitKeeps(m0, d0, db.disk, trie.tree);
      savedRoot, savedTree := trie.root, trie.tree;
      maps := After(maps, Commit);
    }

    method RollBack()
      requires Valid()
      modifies this, trie, db`main
      ensures Valid() && maps == After(old(maps), Rollback)
      ensures trie.tree == old(savedTree)
    {
      db.Rollback();
      if Durable(db.disk, savedTree) {
        DurableAccounted(db.disk, savedTree);
      }
      var _ := trie.SetRoot(savedRoot, true, Some(savedTree));
      maps := After(maps, Rollback);
    }

    /** Any run: the trie always holds exactly the map of the run, every node of it can be looked up,
        and a rollback brings back exactly the map of the last commit. */
    method Run(ss: seq<Step>)
      requires Valid() && forall i :: 0 <= i < |ss| ==> Fits(ss[i], width)
      modifies this, trie, db`main, db`disk
      ensures Valid() && maps == AfterAll(old(maps), ss)
      ensures forall n :: Occurrences(trie.tree, n) > 0 ==> db.Lookup(Keccak(n)) == n
    {
      for i := 0 to |ss|
        invariant Valid() && maps == AfterAll(old(maps), ss[..i])
      {
        assert ss[..i + 1][..i] == ss[..i];
        Do(ss[i]);
      }
      assert ss[..|ss|] == ss;
      trie.AllResolve();
    }

    /** at. */
    method Get(key: seq<octet>) returns (v: bytes)
      requires Valid()
      ensures v == At(maps.now, Nibbles(key))
    {
      v := trie.At(key);
    }

    /** The root says which map is held, whatever steps led to it. */
    lemma RootIsTheMaps(t: Tree)
      requires Valid() && Canonical(t) && Bounded(t, MAX_KEY)
      ensures trie.root == Root(t) <==> Holds(t, maps.now)
    {
      RootInjective(trie.tree, t);
      if Holds(t, maps.now) {
        forall k: Key ensures Lookup(trie.tree, k) == Lookup(t, k) {
          assert Lookup(t, k) == At(maps.now, k);
        }
        CanonicalUnique(trie.tree, t);
      }
    }
  }
}
