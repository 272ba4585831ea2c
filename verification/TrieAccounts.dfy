/** The accounts of the trie: how the items of a node relate to its tree, and what each step of an
    insertion or a removal does to the reference counts of the node store. */
module TrieAccounts {
  import opened Bytes
  import opened Options
  import opened HexPrefix
  import opened Rlp
  import opened Tries
  import opened TrieCanonical
  import opened TrieNodes
  import opened TrieDelete
  import opened TrieMisreads
  import opened TrieStray
  import opened NodeStore

  // ---------------------------------------------------------------- reading nodes

  /** keyOf a two-item node. */
  function NodeKey(x: Item): Key {
    if x.List? && |x.items| == 2 && x.items[0].Data? && AllOctets(x.items[0].data)
    then KeyOf(ToOctets(x.items[0].data)).View()
    else []
  }

  predicate IsLeafItem(x: Item) {
    x.List? && |x.items| == 2 && x.items[0].Data? && x.items[0].data != []
    && AllOctets(x.items[0].data) && IsLeaf(ToOctets(x.items[0].data))
  }

  lemma TwoItemNode(t: Tree)
    requires Shaped(t) && TwoItem(t)
    ensures var x := NodeItem(t);
      x == List([KeyItem(t.key, t.Leaf?), if t.Leaf? then Data(t.value) else Ref(t.child)])
      && NodeKey(x) == t.key && (IsLeafItem(x) <==> t.Leaf?)
  {
    var e := HexPrefix.Encode(t.key, t.Leaf?);
    OctetsRoundTrip(e);
    KeyOfEncode(t.key, t.Leaf?);
  }

  /** RLP::isEmpty. */
  predicate EmptyItem(x: Item) {
    x == Data([]) || x == List([])
  }

  lemma ItemShape(t: Tree)
    requires Shaped(t)
    ensures EmptyItem(NodeItem(t)) <==> t == Null
    ensures t != Null ==> NodeItem(t).List? && (|NodeItem(t).items| == if TwoItem(t) then 2 else 17)
  {
    NodeKinds(t);
  }

  // ---------------------------------------------------------------- counting

  /** How often `n` must be counted for a node that is about to be replaced: for the node itself,
      unless it is written into its parent or is not in the store yet, and for what hangs below. */
  function Held(t: Tree, inLine: bool, n: bytes): nat
    requires Shaped(t)
  {
    (if inLine then 0 else Own(t, n)) + Below(t, n)
  }

  /** Enough references are counted for the node and everything below it. */
  ghost predicate Covers(main: Cache, disk: Disk, t: Tree, inLine: bool)
    requires Shaped(t)
  {
    forall n :: OnDisk(disk, n) || RefCount(main, n) >= Held(t, inLine, n)
  }

  /** Whatever the counts, the strings of the node are there. */
  ghost predicate Finds(main: Cache, disk: Disk, t: Tree, inLine: bool)
    requires Shaped(t)
  {
    forall n :: Held(t, inLine, n) > 0 ==> OnDisk(disk, n) || Keccak(n) in main
  }

  /** What insertion and lookup need of a store: counts only if it looks at them. */
  ghost predicate Usable(st: Store, t: Tree, inLine: bool)
    requires Shaped(t)
  {
    Finds(st.main, st.disk, t, inLine) && (st.enforceRefs ==> Covers(st.main, st.disk, t, inLine))
  }

  lemma CoversUsable(st: Store, t: Tree, inLine: bool)
    requires Shaped(t) && Covers(st.main, st.disk, t, inLine)
    ensures Usable(st, t, inLine)
  {
    hide Held;
  }

  /** The references of the old node were given back and those below the new one taken; the new
      node itself is still to be stored by the caller. */
  ghost predicate Traded(m0: Cache, m1: Cache, disk: Disk, t: Tree, inLine: bool, u: Tree)
    requires Shaped(t) && Shaped(u)
  {
    forall n :: OnDisk(disk, n) || RefCount(m1, n) + Held(t, inLine, n) == RefCount(m0, n) + Below(u, n)
  }

  /** The same for a child: its old reference is replaced by a reference to the new node. */
  ghost predicate Replaced(m0: Cache, m1: Cache, disk: Disk, t: Tree, u: Tree)
    requires Shaped(t) && Shaped(u)
  {
    forall n :: OnDisk(disk, n) || RefCount(m1, n) + Held(t, false, n) == RefCount(m0, n) + Held(u, false, n)
  }

  /** The string that loses a reference when the stray string `n` is removed, if any. */
  function Lost(main: Cache, disk: Disk, n: Option<bytes>): Option<bytes> {
    if n.Some? && !OnDisk(disk, n.value) && RefCount(main, n.value) > 0 then n else None
  }

  /** The cache with that reference put back. */
  function Repaid(main: Cache, lost: Option<bytes>): Cache {
    if lost.Some? then Inserted(main, Keccak(lost.value), lost.value) else main
  }

  lemma RepaidCounts(main: Cache, disk: Disk, lost: Option<bytes>)
    requires Filed(main, disk) && lost != Some([])
    ensures Filed(Repaid(main, lost), disk)
    ensures forall n :: RefCount(Repaid(main, lost), n) == RefCount(main, n) + if lost == Some(n) then 1 else 0
  {
    if lost.Some? {
      InsertedCounts(main, disk, lost.value);
    }
  }

  /** Giving back the nodes on the way does not touch the stray string. */
  lemma LostBelow(m0: Cache, disk: Disk, t: Tree, k: Key, inLine: bool, room: int)
    requires Shaped(t) && Bounded(t, room) && room <= MAX_KEY && Filed(m0, disk)
    ensures Lost(Released(m0, t, inLine), disk, StrayNode(t, k)) == Lost(m0, disk, StrayNode(t, k))
  {
    KilledCounts(m0, disk, Encoding(t));
    hide Encoding, StrayNode, Killed;
    if StrayNode(t, k).Some? {
      StrayNotSelf(t, k, room);
    }
  }

  lemma ReleasedCounts(main: Cache, disk: Disk, t: Tree, spare: bool)
    requires Shaped(t) && Filed(main, disk) && Covers(main, disk, t, spare)
    ensures Filed(Released(main, t, spare), disk)
    ensures forall n ::
      OnDisk(disk, n) || RefCount(Released(main, t, spare), n) + Held(t, spare, n) - Below(t, n) == RefCount(main, n)
    ensures forall n :: RefCount(Released(main, t, spare), n) <= RefCount(main, n)
  {
    KilledCounts(main, disk, Encoding(t));
    hide Encoding, Below;
    assert OnDisk(disk, Encoding(t)) || RefCount(main, Encoding(t)) >= Held(t, spare, Encoding(t));
  }

  // ---------------------------------------------------------------- the accounts of an insertion

  /** Giving back a node uncovers nothing below it. */
  lemma ReleasedCovers(main: Cache, disk: Disk, t: Tree, spare: bool, c: Tree)
    requires Shaped(t) && Filed(main, disk) && Covers(main, disk, t, spare) && Shaped(c)
    requires forall n :: Held(c, false, n) <= Below(t, n)
    ensures Covers(Released(main, t, spare), disk, c, false)
  {
    ReleasedCounts(main, disk, t, spare);
    hide Released, Own, Below;
  }

  /** ... nor does it make anything disappear. */
  lemma ReleasedUsable(st: Store, later: Store, t: Tree, spare: bool, c: Tree)
    requires Shaped(t) && Filed(st.main, st.disk) && Usable(st, t, spare) && Shaped(c)
    requires later == st.(main := Released(st.main, t, spare)) && forall n :: Held(c, false, n) <= Below(t, n)
    ensures Usable(later, c, false)
  {
    hide Own, Below, Killed, Filed;
    ReleasedKeys(st.main, t, spare);
    if st.enforceRefs {
      ReleasedCovers(st.main, st.disk, t, spare, c);
    }
    hide Released, Covers;
  }

  lemma ReleasedFiled(main: Cache, disk: Disk, t: Tree, spare: bool)
    requires Shaped(t) && Filed(main, disk)
    ensures Filed(Released(main, t, spare), disk)
  {
    KilledCounts(main, disk, Encoding(t));
  }

  lemma ReleasedKeys(main: Cache, t: Tree, spare: bool)
    requires Shaped(t)
    ensures Released(main, t, spare).Keys == main.Keys
  {
  }

  lemma ExtTraded(m0: Cache, m2: Cache, disk: Disk, t: Tree, inLine: bool, c: Tree)
    requires Shaped(t) && t.Ext? && Shaped(Ext(t.key, c)) && Filed(m0, disk) && Covers(m0, disk, t, inLine)
    requires Replaced(Released(m0, t, inLine), m2, disk, t.child, c)
    ensures Traded(m0, m2, disk, t, inLine, Ext(t.key, c))
  {
    ReleasedCounts(m0, disk, t, inLine);
    hide Released, Own;
  }

  lemma BelowBranch(t: Tree, i: nat)
    requires Shaped(t) && t.Branch? && i < 16
    ensures forall n :: Held(t.children[i], false, n) <= Below(t, n)
  {
    NullInline();
    forall n ensures Held(t.children[i], false, n) <= Below(t, n) {
      BelowAllUpdate(t.children, i, Null, n);
    }
  }

  /** Inserting below a branch changes one of its slots. */
  lemma InsertAtBranch(t: Tree, k: Key, v: bytes)
    requires Shaped(t) && t.Branch? && k != []
    ensures var c := t.children[k[0]];
      Tries.Insert(t, k, v) == Branch(t.children[k[0] := Tries.Insert(c, k[1..], v)], t.value)
      && StrayNode(t, k) == StrayNode(c, k[1..])
  {
  }

  lemma BranchTraded(m0: Cache, m2: Cache, disk: Disk, t: Tree, inLine: bool, i: nat, c: Tree)
    requires Shaped(t) && t.Branch? && i < 16 && Shaped(c) && Filed(m0, disk) && Covers(m0, disk, t, inLine)
    requires Replaced(Released(m0, t, inLine), m2, disk, t.children[i], c)
    ensures Traded(m0, m2, disk, t, inLine, Branch(t.children[i := c], t.value))
  {
    ReleasedCounts(m0, disk, t, inLine);
    forall n ensures Below(Branch(t.children[i := c], t.value), n) + Held(t.children[i], false, n)
                     == Below(t, n) + Held(c, false, n) {
      BelowAllUpdate(t.children, i, c, n);
    }
    hide Released, Own, Below;
  }

  /** A node and the branch that would be made of it are different strings. */
  lemma ForkIsAnotherString(t: Tree, f: Tree)
    requires Shaped(t) && TwoItem(t) && Bounded(t, MAX_KEY) && Shaped(f) && f.Branch? && Bounded(f, MAX_KEY)
    ensures Encoding(t) != Encoding(f)
  {
    RootInjective(t, f);
  }

  /** deleteAt's answer: the empty byte string, the new node, or an exception. */
  datatype Reply = NotFound | New(item: Item) | Misreading

  ghost predicate Answers(o: Reply, t: Tree, k: Key, st: Store, m1: Cache)
    requires Shaped(t)
  {
    match Delete(t, k, st)
    case Unchanged => o == NotFound && m1 == st.main
    case Fault => o == Misreading
    case Removed(u) =>
      Shaped(u) && o == New(NodeItem(u)) && Traded(st.main, m1, st.disk, t, false, u)
      && (u == Null ==> m1 == Released(st.main, t, false))
  }

  ghost predicate AnswersRef(o: Reply, t: Tree, k: Key, st: Store, m1: Cache)
    requires Shaped(t)
  {
    match Delete(t, k, st)
    case Unchanged => o == NotFound && m1 == st.main
    case Fault => o == Misreading
    case Removed(u) =>
      Shaped(u) && o == New(Ref(u)) && Replaced(st.main, m1, st.disk, t, u)
      && (u == Null ==> m1 == Released(st.main, t, false))
  }

  /** The answer for a node whose child was replaced, leaving the branch `b`. */
  ghost predicate Shrunk(o: Reply, b: Tree, later: Store, m0: Cache, m1: Cache, t: Tree)
    requires b.Branch? && |b.children| == 16 && Shaped(t)
  {
    match Shrink(b, later)
    case Removed(u) => Shaped(u) && u != Null && o == New(NodeItem(u)) && Traded(m0, m1, later.disk, t, false, u)
    case _ => o == Misreading
  }

  lemma PlaceTraded(m0: Cache, m1: Cache, disk: Disk, t: Tree, inLine: bool, k: Key, v: bytes)
    requires Shaped(t) && Filed(m0, disk)
    requires t == Null || (t.Leaf? && t.key == k) || (t.Branch? && k == [])
    requires Covers(m0, disk, t, inLine)
    requires inLine ==> !t.Leaf? || !Hashed(t)
    requires m1 == Released(m0, t, false)
    ensures Filed(m1, disk)
    ensures Traded(m0, Repaid(m1, Lost(m0, disk, StrayAt(t, k, inLine))), disk, t, inLine, Insert(t, k, v))
  {
    PlaceBelow(t, k, v, inLine);
    hide Insert, Below, Killed, StrayAt, Encoding;
    if inLine && Hashed(t) {
      KilledCounts(m0, disk, Encoding(t));
      RepaidCounts(m1, disk, Lost(m0, disk, Some(Encoding(t))));
    } else if inLine {
      assert m1 == m0;
    } else {
      ReleasedCounts(m0, disk, t, false);
    }
  }

  lemma PlaceBelow(t: Tree, k: Key, v: bytes, inLine: bool)
    requires Shaped(t) && (t == Null || (t.Leaf? && t.key == k) || (t.Branch? && k == []))
    requires inLine ==> !t.Leaf? || !Hashed(t)
    ensures forall n :: Below(Insert(t, k, v), n) == Below(t, n)
    ensures StrayAt(t, k, inLine) == if inLine && Hashed(t) then Some(Encoding(t)) else None
  {
    NullInline();
  }

  /** The new node has one new child, with the old node's children below it. */
  lemma SplitTraded(m0: Cache, m1: Cache, m2: Cache, disk: Disk, t: Tree, inLine: bool, u: Tree, low: Tree)
    requires Shaped(t) && Shaped(u) && Shaped(low) && Filed(m0, disk) && Covers(m0, disk, t, inLine)
    requires m1 == Released(m0, t, inLine)
    requires forall n :: RefCount(m2, n) == RefCount(m1, n) + Own(low, n)
    requires forall n :: Below(u, n) == Own(low, n) + Below(t, n)
    ensures Traded(m0, m2, disk, t, inLine, u)
  {
    ReleasedCounts(m0, disk, t, inLine);
    hide Released, Own, Below;
  }

  lemma CleveBelow(t: Tree, s: nat)
    requires Shaped(t) && TwoItem(t) && 0 < s <= |t.key| && (t.Ext? ==> s < |t.key|)
    ensures var c := Cleve(t, s); Shaped(c.child) && forall n :: Below(c, n) == Own(c.child, n) + Below(t, n)
  {
    hide Own;
  }

  lemma SameBelowTraded(m0: Cache, m1: Cache, disk: Disk, t: Tree, inLine: bool, u: Tree)
    requires Shaped(t) && Shaped(u) && Filed(m0, disk) && Covers(m0, disk, t, inLine)
    requires m1 == Released(m0, t, inLine)
    requires forall n :: Below(u, n) == Below(t, n)
    ensures Traded(m0, m1, disk, t, inLine, u)
  {
    ReleasedCounts(m0, disk, t, inLine);
    hide Released, Own, Below;
  }

  lemma ForkBelow(t: Tree)
    requires Shaped(t) && TwoItem(t)
    ensures t.key == [] ==> forall n :: Below(Fork(t), n) == Below(t, n)
    ensures t.key != [] && (t.Leaf? || |t.key| > 1) ==>
      forall n :: Below(Fork(t), n) == Own(Fork(t).children[t.key[0]], n) + Below(t, n)
    ensures t.key != [] && t.Ext? && |t.key| == 1 ==> forall n :: Below(Fork(t), n) == Below(t, n)
  {
    if t.key == [] {
      forall n ensures Below(Fork(t), n) == Below(t, n) {
        BelowNoChildren(n);
      }
    } else {
      var low := Fork(t).children[t.key[0]];
      forall n ensures Below(Fork(t), n) == Own(low, n) + Below(low, n) {
        OneChildBelow(t.key[0], low, n);
      }
    }
  }

  lemma OneChildBelow(i: nibble, c: Tree, n: bytes)
    requires Shaped(c)
    ensures BelowAll(NoChildren()[i := c], n) == Own(c, n) + Below(c, n)
  {
    BelowNoChildren(n);
    NullInline();
    BelowAllUpdate(NoChildren(), i, c, n);
  }

  /** A branch node, item by item. */
  lemma BranchItem(xs: seq<Item>, t: Tree)
    requires Shaped(t) && t.Branch? && |xs| == 17 && xs[16] == Data(t.value)
    requires forall i :: 0 <= i < 16 ==> xs[i] == Ref(t.children[i])
    ensures List(xs) == NodeItem(t)
  {
    assert NodeItem(t) == List(Refs(t.children) + [Data(t.value)]);
    hide NodeItem, Ref;
    assert xs == Refs(t.children) + [Data(t.value)];
  }

  lemma BranchItems(t: Tree)
    requires Shaped(t) && t.Branch?
    ensures var x := NodeItem(t);
      x.List? && |x.items| == 17 && x.items[16] == Data(t.value)
      && forall i :: 0 <= i < 16 ==> x.items[i] == Ref(t.children[i])
  {
  }

  lemma ForkItems(t: Tree, x: Item)
    requires Shaped(t) && TwoItem(t)
    requires t.key == [] ==> x == Data(t.value)
    requires t.key != [] ==> x == Ref(Fork(t).children[t.key[0]])
    ensures NodeItem(Fork(t)) == List(Blanks()[if t.key == [] then 16 else t.key[0] := x])
  {
    NullInline();
    hide NodeItem, Ref;
    BranchItem(Blanks()[if t.key == [] then 16 else t.key[0] := x], Fork(t));
  }

  /** Seventeen empty slots. */
  function Blanks(): (xs: seq<Item>)
    ensures |xs| == 17 && forall i :: 0 <= i < 17 ==> xs[i] == Data([])
  {
    seq(17, _ => Data([]))
  }

  // ---------------------------------------------------------------- splitting, then going on

  /** The string a call of mergeAt may wrongly ask to remove. */
  function StrayAt(t: Tree, k: Key, inLine: bool): Option<bytes>
    requires Shaped(t)
  {
    if inLine && Hashed(t) && t.Branch? && k == [] then Some(Encoding(t)) else StrayNode(t, k)
  }

  lemma TradedCovers(m0: Cache, m1: Cache, disk: Disk, t: Tree, inLine: bool, u: Tree)
    requires Shaped(t) && Shaped(u) && Covers(m0, disk, t, inLine) && Traded(m0, m1, disk, t, inLine, u)
    ensures Covers(m1, disk, u, true)
  {
    hide Own, Below;
  }

  lemma TradedTwice(m0: Cache, m1: Cache, m2: Cache, disk: Disk, t: Tree, inLine: bool, u: Tree, w: Tree)
    requires Shaped(t) && Shaped(u) && Shaped(w)
    requires Traded(m0, m1, disk, t, inLine, u) && Traded(m1, m2, disk, u, true, w)
    ensures Traded(m0, m2, disk, t, inLine, w)
  {
    hide Own, Below;
  }

  lemma LostTraded(m0: Cache, m1: Cache, disk: Disk, t: Tree, inLine: bool, u: Tree, n: bytes)
    requires Shaped(t) && Shaped(u) && Traded(m0, m1, disk, t, inLine, u)
    requires n != Encoding(t) && Below(u, n) == Below(t, n)
    ensures Lost(m1, disk, Some(n)) == Lost(m0, disk, Some(n))
  {
    hide Encoding, Below;
  }

  lemma CleveLost(m0: Cache, m1: Cache, disk: Disk, t: Tree, k: Key, inLine: bool)
    requires Shaped(t) && !Direct(t, k) && SharedPrefix(k, t.key) > 0 && Bounded(t, MAX_KEY)
    requires t.Ext? ==> SharedPrefix(k, t.key) < |t.key|
    requires Traded(m0, m1, disk, t, inLine, Cleve(t, SharedPrefix(k, t.key)))
    ensures Lost(m1, disk, StrayAt(Cleve(t, SharedPrefix(k, t.key)), k, true)) == Lost(m0, disk, StrayNode(t, k))
  {
    hide Traded, Own, Below, Encoding, StrayNode, StrayAt;
    CleveStray(t, k);
    if StrayNode(t, k).Some? {
      var n := StrayNode(t, k).value;
      StrayNotSelf(t, k, MAX_KEY);
      CleveKeeps(t, SharedPrefix(k, t.key), n);
      LostTraded(m0, m1, disk, t, inLine, Cleve(t, SharedPrefix(k, t.key)), n);
    }
  }

  lemma CleveKeeps(t: Tree, s: nat, n: bytes)
    requires Shaped(t) && TwoItem(t) && 0 < s <= |t.key| && (t.Ext? ==> s < |t.key|) && Bounded(t, MAX_KEY)
    requires n == Encoding(Fork(Cleve(t, s).child))
    ensures Below(Cleve(t, s), n) == Below(t, n)
  {
    var c := Cleve(t, s);
    var low := c.child;
    CleveBounded(t, s, MAX_KEY);
    BoundedMono(low, MAX_KEY - |c.key|, MAX_KEY);
    ForkBounded(low, MAX_KEY);
    ForkIsAnotherString(low, Fork(low));
    CleveBelow(t, s);
    hide Encoding, Below, Bounded;
  }

  lemma CleveStray(t: Tree, k: Key)
    requires Shaped(t) && !Direct(t, k) && SharedPrefix(k, t.key) > 0
    requires t.Ext? ==> SharedPrefix(k, t.key) < |t.key|
    ensures var c := Cleve(t, SharedPrefix(k, t.key));
      StrayAt(c, k, true) == StrayNode(t, k)
      && (StrayNode(t, k).Some? ==> StrayNode(t, k).value == Encoding(Fork(c.child)))
  {
    CleveInsert(t, k, []);
    var s := SharedPrefix(k, t.key);
    var c := Cleve(t, s);
    hide Encoding;
    assert StrayNode(t, k) == StrayNode(c, k);
    assert StrayNode(c, k) == StrayNode(c.child, k[s..]);
  }

  lemma ForkLost(m0: Cache, m1: Cache, disk: Disk, t: Tree, k: Key, inLine: bool)
    requires Shaped(t) && !Direct(t, k) && SharedPrefix(k, t.key) == 0 && Bounded(t, MAX_KEY)
    requires Traded(m0, m1, disk, t, inLine, Fork(t))
    ensures Lost(m1, disk, StrayAt(Fork(t), k, true)) == Lost(m0, disk, StrayNode(t, k))
  {
    hide Traded, Own, Below, Encoding;
    SplitInsert(t, k, []);
    var f := Fork(t);
    if k == [] && Hashed(f) {
      StrayNotSelf(t, k, MAX_KEY);
      ForkKeeps(t);
      LostTraded(m0, m1, disk, t, inLine, f, Encoding(f));
    } else if k != [] {
      assert StrayNode(f, k) == StrayNode(Null, k[1..]) == None;
    }
  }

  lemma ForkKeeps(t: Tree)
    requires Shaped(t) && TwoItem(t) && t.key != [] && Bounded(t, MAX_KEY)
    ensures Below(Fork(t), Encoding(Fork(t))) == Below(t, Encoding(Fork(t)))
  {
    var f := Fork(t);
    ForkBounded(t, MAX_KEY);
    ForkBelow(t);
    var low := f.children[t.key[0]];
    if TwoItem(low) {
      BoundedMono(low, MAX_KEY - 1, MAX_KEY);
      ForkIsAnotherString(low, f);
    }
    hide Encoding, Below, Bounded;
  }

  // ---------------------------------------------------------------- mergeAt, step by step

  /** Nothing disappeared, and what hangs below the new node is there. */
  ghost predicate Kept(m0: Cache, m1: Cache, disk: Disk, u: Tree, inLine: bool)
    requires Shaped(u)
  {
    m0.Keys <= m1.Keys && Finds(m1, disk, u, inLine)
  }

  /** cleve and branch. */
  ghost predicate Cut(m0: Cache, m1: Cache, disk: Disk, t: Tree, inLine: bool, u: Tree)
    requires Shaped(t) && Shaped(u)
  {
    Kept(m0, m1, disk, u, true) && (Covers(m0, disk, t, inLine) ==> Traded(m0, m1, disk, t, inLine, u))
  }

  /** mergeAt on `t`: if there were enough references, they are exact but for the one that was lost. */
  ghost predicate Merged(m0: Cache, m1: Cache, disk: Disk, t: Tree, k: Key, v: bytes, inLine: bool)
    requires Shaped(t)
  {
    && Kept(m0, m1, disk, Insert(t, k, v), true)
    && (Covers(m0, disk, t, inLine) ==>
      Traded(m0, Repaid(m1, Lost(m0, disk, StrayAt(t, k, inLine))), disk, t, inLine, Insert(t, k, v)))
  }

  /** mergeAtAux. */
  ghost predicate MergedBelow(m0: Cache, m1: Cache, disk: Disk, c: Tree, k: Key, v: bytes)
    requires Shaped(c)
  {
    && Kept(m0, m1, disk, Insert(c, k, v), false)
    && (Covers(m0, disk, c, false) ==>
      Replaced(m0, Repaid(m1, Lost(m0, disk, StrayNode(c, k))), disk, c, Insert(c, k, v)))
  }

  lemma PlaceMerged(m0: Cache, m1: Cache, disk: Disk, t: Tree, inLine: bool, k: Key, v: bytes)
    requires Shaped(t) && Filed(m0, disk) && Finds(m0, disk, t, inLine)
    requires t == Null || (t.Leaf? && t.key == k) || (t.Branch? && k == [])
    requires inLine ==> !t.Leaf? || !Hashed(t)
    requires m1 == Released(m0, t, false)
    ensures Filed(m1, disk) && Merged(m0, m1, disk, t, k, v, inLine)
  {
    hide Covers, Traded, Insert, Below, Killed, Own, Filed, Lost, Repaid, StrayAt, Encoding, Hashed;
    ReleasedKeys(m0, t, false);
    KilledCounts(m0, disk, Encoding(t));
    PlaceBelow(t, k, v, inLine);
    if Covers(m0, disk, t, inLine) {
      PlaceTraded(m0, m1, disk, t, inLine, k, v);
    }
  }

  /** The new node has one new child, with the old node's children below it. */
  lemma CutOne(m0: Cache, m2: Cache, disk: Disk, t: Tree, inLine: bool, u: Tree, low: Tree)
    requires Shaped(t) && Shaped(u) && Shaped(low) && Filed(m0, disk) && Finds(m0, disk, t, inLine)
    requires m0.Keys <= m2.Keys && forall n :: RefCount(m2, n) == RefCount(Released(m0, t, inLine), n) + Own(low, n)
    requires forall n :: Below(u, n) == Own(low, n) + Below(t, n)
    ensures Cut(m0, m2, disk, t, inLine, u)
  {
    hide Covers, Traded, Released, Own, Below, Filed, Finds, RefCount, Held;
    CutFinds(m0, m2, disk, t, inLine, u, low);
    if Covers(m0, disk, t, inLine) {
      SplitTraded(m0, Released(m0, t, inLine), m2, disk, t, inLine, u, low);
    }
  }

  lemma CutFinds(m0: Cache, m2: Cache, disk: Disk, t: Tree, inLine: bool, u: Tree, low: Tree)
    requires Shaped(t) && Shaped(u) && Shaped(low) && Finds(m0, disk, t, inLine) && m0.Keys <= m2.Keys
    requires forall n :: RefCount(m2, n) == RefCount(Released(m0, t, inLine), n) + Own(low, n)
    requires forall n :: Below(u, n) == Own(low, n) + Below(t, n)
    ensures Finds(m2, disk, u, true)
  {
    hide Released, Own, Below;
    forall n | Held(u, true, n) > 0 ensures OnDisk(disk, n) || Keccak(n) in m2 {
      if Own(low, n) > 0 {
        assert RefCount(m2, n) > 0;
      } else {
        assert Held(t, inLine, n) > 0;
      }
    }
  }

  lemma CutNone(m0: Cache, disk: Disk, t: Tree, inLine: bool, u: Tree)
    requires Shaped(t) && Shaped(u) && Filed(m0, disk) && Finds(m0, disk, t, inLine)
    requires forall n :: Below(u, n) == Below(t, n)
    ensures Cut(m0, Released(m0, t, inLine), disk, t, inLine, u)
  {
    hide Covers, Traded, Released, Own, Below, Filed;
    ReleasedKeys(m0, t, inLine);
    if Covers(m0, disk, t, inLine) {
      SameBelowTraded(m0, Released(m0, t, inLine), disk, t, inLine, u);
    }
  }

  lemma CutUsable(st: Store, later: Store, t: Tree, inLine: bool, u: Tree)
    requires Shaped(t) && Shaped(u) && Usable(st, t, inLine) && later == st.(main := later.main)
    requires Cut(st.main, later.main, st.disk, t, inLine, u)
    ensures Usable(later, u, true)
  {
    hide Covers, Traded, Finds;
    if st.enforceRefs {
      TradedCovers(st.main, later.main, st.disk, t, inLine, u);
    }
  }

  lemma MergedExt(m0: Cache, m2: Cache, disk: Disk, t: Tree, k: Key, v: bytes, inLine: bool, room: int)
    requires Shaped(t) && t.Ext? && t.key <= k && Bounded(t, room) && room <= MAX_KEY && Filed(m0, disk)
    requires MergedBelow(Released(m0, t, inLine), m2, disk, t.child, k[|t.key|..], v)
    ensures Merged(m0, m2, disk, t, k, v, inLine)
  {
    hide Covers, Traded, Replaced, Released, Lost, Repaid, Encoding, Own;
    var rest := k[|t.key|..];
    LostBelow(m0, disk, t, k, inLine, room);
    ReleasedKeys(m0, t, inLine);
    ExtBelow(t);
    assert StrayAt(t, k, inLine) == StrayNode(t, k) == StrayNode(t.child, rest);
    assert Insert(t, k, v) == Ext(t.key, Insert(t.child, rest, v));
    ExtBelow(Insert(t, k, v));
    hide Insert, StrayNode, StrayAt, Below;
    if Covers(m0, disk, t, inLine) {
      ReleasedCovers(m0, disk, t, inLine, t.child);
      ExtTraded(m0, Repaid(m2, Lost(m0, disk, StrayNode(t, k))), disk, t, inLine, Insert(t.child, rest, v));
    }
  }

  lemma MergedBranch(m0: Cache, m2: Cache, disk: Disk, t: Tree, k: Key, v: bytes, inLine: bool, room: int)
    requires Shaped(t) && t.Branch? && k != [] && Bounded(t, room) && room <= MAX_KEY && Filed(m0, disk)
    requires Finds(m0, disk, t, inLine)
    requires MergedBelow(Released(m0, t, inLine), m2, disk, t.children[k[0]], k[1..], v)
    ensures Merged(m0, m2, disk, t, k, v, inLine)
  {
    hide Covers, Traded, Replaced, Released, Lost, Repaid, Encoding, Own, StrayNode, Insert;
    var c, c' := t.children[k[0]], Insert(t.children[k[0]], k[1..], v);
    LostBelow(m0, disk, t, k, inLine, room);
    ReleasedKeys(m0, t, inLine);
    InsertAtBranch(t, k, v);
    BelowBranch(t, k[0]);
    BranchFinds(m0, m2, disk, t, inLine, k[0], c');
    if Covers(m0, disk, t, inLine) {
      ReleasedCovers(m0, disk, t, inLine, c);
      BranchTraded(m0, Repaid(m2, Lost(m0, disk, StrayNode(t, k))), disk, t, inLine, k[0], c');
    }
  }

  lemma BranchFinds(m0: Cache, m2: Cache, disk: Disk, t: Tree, inLine: bool, i: nat, c: Tree)
    requires Shaped(t) && t.Branch? && i < 16 && Shaped(c) && Finds(m0, disk, t, inLine)
    requires m0.Keys <= m2.Keys && Finds(m2, disk, c, false)
    ensures Finds(m2, disk, Branch(t.children[i := c], t.value), true)
  {
    forall n ensures Below(Branch(t.children[i := c], t.value), n) + Held(t.children[i], false, n)
                     == Below(t, n) + Held(c, false, n) {
      BelowAllUpdate(t.children, i, c, n);
    }
    hide Own, Below;
  }

  /** Cleve or branch, then mergeAt on the node that made. */
  lemma MergedSplit(m0: Cache, m1: Cache, m2: Cache, disk: Disk, t: Tree, k: Key, v: bytes, inLine: bool, u: Tree)
    requires Shaped(t) && Shaped(u) && !Direct(t, k) && Cut(m0, m1, disk, t, inLine, u)
    requires Merged(m1, m2, disk, u, k, v, true) && Insert(t, k, v) == Insert(u, k, v)
    requires Traded(m0, m1, disk, t, inLine, u) ==>
      Lost(m1, disk, StrayAt(u, k, true)) == Lost(m0, disk, StrayNode(t, k))
    ensures Merged(m0, m2, disk, t, k, v, inLine)
  {
    assert StrayAt(t, k, inLine) == StrayNode(t, k);
    hide Covers, Traded, Finds, Lost, Repaid, Insert, StrayNode, StrayAt;
    if Covers(m0, disk, t, inLine) {
      TradedCovers(m0, m1, disk, t, inLine, u);
      TradedTwice(m0, m1, Repaid(m2, Lost(m0, disk, StrayNode(t, k))), disk, t, inLine, u, Insert(u, k, v));
    }
  }

  lemma MergedCleve(m0: Cache, m1: Cache, m2: Cache, disk: Disk, t: Tree, k: Key, v: bytes, inLine: bool, room: int)
    requires Shaped(t) && !Direct(t, k) && SharedPrefix(k, t.key) > 0 && Bounded(t, room) && room <= MAX_KEY
    requires t.Ext? ==> SharedPrefix(k, t.key) < |t.key|
    requires var u := Cleve(t, SharedPrefix(k, t.key));
      Cut(m0, m1, disk, t, inLine, u) && Merged(m1, m2, disk, u, k, v, true)
    ensures Merged(m0, m2, disk, t, k, v, inLine)
  {
    hide Cut, Merged, Traded, Bounded;
    var u := Cleve(t, SharedPrefix(k, t.key));
    BoundedMono(t, room, MAX_KEY);
    if Traded(m0, m1, disk, t, inLine, u) {
      CleveLost(m0, m1, disk, t, k, inLine);
    }
    MergedSplit(m0, m1, m2, disk, t, k, v, inLine, u);
  }

  lemma MergedFork(m0: Cache, m1: Cache, m2: Cache, disk: Disk, t: Tree, k: Key, v: bytes, inLine: bool, room: int)
    requires Shaped(t) && !Direct(t, k) && SharedPrefix(k, t.key) == 0 && Bounded(t, room) && room <= MAX_KEY
    requires Cut(m0, m1, disk, t, inLine, Fork(t)) && Merged(m1, m2, disk, Fork(t), k, v, true)
    ensures Merged(m0, m2, disk, t, k, v, inLine)
  {
    hide Cut, Merged, Traded, Bounded;
    BoundedMono(t, room, MAX_KEY);
    if Traded(m0, m1, disk, t, inLine, Fork(t)) {
      ForkLost(m0, m1, disk, t, k, inLine);
    }
    MergedSplit(m0, m1, m2, disk, t, k, v, inLine, Fork(t));
  }

  lemma StreamKept(m0: Cache, m1: Cache, m2: Cache, disk: Disk, u: Tree)
    requires Shaped(u) && Kept(m0, m1, disk, u, true) && m1.Keys <= m2.Keys
    requires forall n :: RefCount(m2, n) == RefCount(m1, n) + Own(u, n)
    ensures Kept(m0, m2, disk, u, false)
  {
    hide Own, Below;
    forall n | Own(u, n) > 0 ensures Keccak(n) in m2 {
      assert RefCount(m2, n) > 0;
    }
  }

  lemma MergedStream(m0: Cache, m1: Cache, m2: Cache, disk: Disk, c: Tree, k: Key, v: bytes, room: int)
    requires Shaped(c) && Bounded(c, room) && room <= MAX_KEY && Filed(m1, disk) && Filed(m2, disk)
    requires Merged(m0, m1, disk, c, k, v, !Hashed(c)) && m1.Keys <= m2.Keys
    requires forall n :: RefCount(m2, n) == RefCount(m1, n) + Own(Insert(c, k, v), n)
    ensures MergedBelow(m0, m2, disk, c, k, v)
  {
    hide Traded, Replaced, Repaid, Insert, StrayNode, StrayAt, Encoding, Own, Below, Covers, Filed, Kept, RefCount;
    StraySame(c, k);
    StrayLong(c, k, room);
    StreamKept(m0, m1, m2, disk, Insert(c, k, v));
    if Covers(m0, disk, c, false) {
      HashedCovered(m0, disk, c);
      StreamedReplaced(m0, m1, m2, disk, c, !Hashed(c), Insert(c, k, v), Lost(m0, disk, StrayNode(c, k)));
    }
  }

  lemma StrayLong(t: Tree, k: Key, room: int)
    requires Shaped(t) && Bounded(t, room) && room <= MAX_KEY
    ensures StrayNode(t, k).Some? ==> |StrayNode(t, k).value| >= HASH_SIZE && StrayNode(t, k).value != Encoding(t)
  {
    if StrayNode(t, k).Some? {
      var f := StrayIsFork(t, k, room);
      StrayNotSelf(t, k, room);
    }
  }

  // ---------------------------------------------------------------- the accounts of a removal

  /** The reference to `c` was replaced by what hangs below `u`. */
  ghost predicate Rejoined(m0: Cache, m1: Cache, disk: Disk, c: Tree, u: Tree)
    requires Shaped(c) && Shaped(u)
  {
    forall n :: OnDisk(disk, n) || RefCount(m1, n) + Held(c, false, n) == RefCount(m0, n) + Below(u, n)
  }

  lemma GraftedCounts(m0: Cache, m1: Cache, disk: Disk, key: Key, c: Tree)
    requires Shaped(c) && TwoItem(c) && key != [] && Filed(m0, disk) && Covers(m0, disk, c, false)
    requires m1 == Released(m0, c, false)
    ensures Shaped(Collapse(key, c)) && Rejoined(m0, m1, disk, c, Collapse(key, c))
  {
    ReleasedCounts(m0, disk, c, false);
    assert forall n :: Below(Collapse(key, c), n) == Below(c, n);
    hide Released, Own, Below;
  }

  lemma ReplaceBelowExt(main: Cache, disk: Disk, t: Tree)
    requires Shaped(t) && t.Ext? && Covers(main, disk, t, false)
    ensures Covers(main, disk, t.child, false)
  {
    hide Own;
  }

  /** A node can be given back once a child has been replaced. */
  lemma ReplacedThenKilled(m0: Cache, m1: Cache, disk: Disk, t: Tree, c: Tree, c': Tree)
    requires Shaped(t) && Shaped(c) && Shaped(c') && Filed(m1, disk)
    requires Covers(m0, disk, t, false) && Replaced(m0, m1, disk, c, c')
    requires forall n :: Held(c, false, n) <= Below(t, n)
    ensures Filed(Released(m1, t, false), disk)
    ensures forall n :: OnDisk(disk, n) || RefCount(Released(m1, t, false), n) + Own(t, n) == RefCount(m1, n)
    ensures Covers(Released(m1, t, false), disk, c', false)
  {
    forall n ensures OnDisk(disk, n) || RefCount(m1, n) >= Held(c', false, n) + Own(t, n) {
      assert OnDisk(disk, n) || RefCount(m0, n) >= Held(t, false, n);
    }
    OwnReleased(m1, disk, t);
    hide Encoding, Below, Own, Released, Filed;
  }

  lemma OwnReleased(m: Cache, disk: Disk, t: Tree)
    requires Shaped(t) && Filed(m, disk)
    requires forall n :: OnDisk(disk, n) || RefCount(m, n) >= Own(t, n)
    ensures Filed(Released(m, t, false), disk)
    ensures forall n :: OnDisk(disk, n) || RefCount(Released(m, t, false), n) + Own(t, n) == RefCount(m, n)
  {
    KilledCounts(m, disk, Encoding(t));
    assert OnDisk(disk, Encoding(t)) || RefCount(m, Encoding(t)) >= Own(t, Encoding(t));
    hide Encoding, Killed, Filed;
  }

  lemma ExtBelow(t: Tree)
    requires Shaped(t) && t.Ext?
    ensures Shaped(t.child) && forall n :: Held(t.child, false, n) == Below(t, n)
  {
    hide Own;
  }

  /** What hung below the node was only `c`; now only what hangs below `u` is counted. */
  lemma RejoinedTraded(m0: Cache, m1: Cache, m2: Cache, m3: Cache, disk: Disk, t: Tree, c: Tree, c': Tree, u: Tree)
    requires Shaped(t) && Shaped(c) && Shaped(c') && Shaped(u)
    requires Replaced(m0, m1, disk, c, c')
    requires forall n :: OnDisk(disk, n) || RefCount(m2, n) + Own(t, n) == RefCount(m1, n)
    requires Rejoined(m2, m3, disk, c', u)
    requires forall n :: Held(c, false, n) == Below(t, n)
    ensures Traded(m0, m3, disk, t, false, u)
  {
    hide Own, Below;
  }

  lemma ReleasedIs(m: Cache, t: Tree)
    requires Shaped(t)
    ensures Released(m, t, false) == if |Rlp.Encode(NodeItem(t))| >= HASH_SIZE
      then Killed(m, Keccak(Rlp.Encode(NodeItem(t)))) else m
  {
  }

  lemma {:induction false} DeletedShaped(t: Tree, k: Key, st: Store)
    requires Canonical(t) && Delete(t, k, st).Removed?
    ensures Shaped(Delete(t, k, st).tree) && (t.Branch? ==> Delete(t, k, st).tree != Null)
  {
    DeleteLookup(t, k, [], st);
    hide Delete, Lookup;
  }

  lemma ExtParts(t: Tree, room: int)
    requires Canonical(t) && t.Ext? && Bounded(t, room)
    ensures Canonical(t.child) && t.child.Branch? && Bounded(t.child, room - |t.key|)
  {
  }

  /** What a parent makes of a child's answer. */
  lemma PassedOn(o: Reply, c: Tree, rest: Key, st: Store, m1: Cache, t: Tree, k: Key)
    requires Shaped(c) && Shaped(t) && AnswersRef(o, c, rest, st, m1)
    requires Delete(c, rest, st).Removed? || Delete(t, k, st) == Delete(c, rest, st)
    ensures o.New? <==> Delete(c, rest, st).Removed?
    ensures o.New? ==> Shaped(Delete(c, rest, st).tree) && o.item == Ref(Delete(c, rest, st).tree)
    ensures o.New? ==> Replaced(st.main, m1, st.disk, c, Delete(c, rest, st).tree)
    ensures o.New? && Delete(c, rest, st).tree == Null ==> m1 == Released(st.main, c, false)
    ensures !o.New? ==> Answers(o, t, k, st, m1)
  {
    hide Delete, Ref, Replaced, Shaped;
  }

  lemma AnswerAtExt(o: Reply, u: Tree, t: Tree, k: Key, st: Store, m1: Cache)
    requires Shaped(t) && Shaped(u) && u != Null && Delete(t, k, st) == Removed(u)
    requires o == New(NodeItem(u)) && Traded(st.main, m1, st.disk, t, false, u)
    ensures Answers(o, t, k, st, m1)
  {
    hide Delete, Traded, NodeItem;
  }

  /** What the recursion of deleteAt needs to know about the child, and what it makes of the answer. */
  lemma {:induction false} DeleteExtStep(t: Tree, k: Key, room: int, st: Store)
    requires Canonical(t) && t.Ext? && t.key <= k && Bounded(t, room) && |k| <= room
    ensures Canonical(t.child) && Bounded(t.child, room - |t.key|)
    ensures match Delete(t.child, k[|t.key|..], st)
      case Removed(c) => Shaped(c) && c != Null && Bounded(c, room - |t.key|)
        && Delete(t, k, st) == Removed(Collapse(t.key, c))
      case o => Delete(t, k, st) == o
    ensures forall c: Tree :: Collapse(t.key, c) != Null
    decreases t, 0
  {
    hide Shrink, AbsentUnder, UniqueSlot;
    var rest := k[|t.key|..];
    ExtParts(t, room);
    assert forall c: Tree :: Collapse(t.key, c) != Null;
    hide Canonical, Bounded, Collapse;
    if Delete(t.child, rest, st).Removed? {
      DeletedShaped(t.child, rest, st);
      DeleteBounded(t.child, rest, room - |t.key|, st);
    }
  }

  lemma {:induction false} DeleteBranchStep(t: Tree, k: Key, room: int, st: Store)
    requires Canonical(t) && t.Branch? && k != [] && Bounded(t, room) && |k| <= room
    ensures var c := t.children[k[0]];
      Canonical(c) && Bounded(c, room - 1)
      && match Delete(c, k[1..], st)
         case Removed(c') => Shaped(c') && Bounded(c', room - 1)
           && Delete(t, k, st) == Shrink(Branch(t.children[k[0] := c'], t.value), GivenBack(st, c, t))
         case o => Delete(t, k, st) == o
    decreases t, 0
  {
    hide Shrink;
    if Delete(t.children[k[0]], k[1..], st).Removed? {
      DeleteBounded(t.children[k[0]], k[1..], room - 1, st);
    }
  }

  lemma EnterBranch(main: Cache, disk: Disk, t: Tree, k: Key, room: int)
    requires Canonical(t) && t.Branch? && k != [] && Bounded(t, room) && |k| <= room && Covers(main, disk, t, false)
    ensures |t.children| == 16 && Shaped(t)
    ensures NodeItem(t).List? && |NodeItem(t).items| == 17 && NodeItem(t).items[k[0]] == Ref(t.children[k[0]])
    ensures Canonical(t.children[k[0]]) && Bounded(t.children[k[0]], room - 1)
    ensures Covers(main, disk, t.children[k[0]], false)
  {
    BranchItems(t);
    ReplaceBelowBranch(main, disk, t, k[0]);
    hide NodeItem, Covers, Ref;
  }

  lemma BranchPassedOn(o: Reply, st: Store, m1: Cache, t: Tree, k: Key, room: int)
    requires Canonical(t) && t.Branch? && k != [] && Bounded(t, room) && |k| <= room
    requires AnswersRef(o, t.children[k[0]], k[1..], st, m1)
    ensures !o.New? ==> Answers(o, t, k, st, m1)
    ensures o.New? ==> Delete(t.children[k[0]], k[1..], st).Removed?
    ensures o.New? ==>
      var c := Delete(t.children[k[0]], k[1..], st).tree;
      Shaped(c) && Bounded(c, room - 1) && o.item == Ref(c) && Replaced(st.main, m1, st.disk, t.children[k[0]], c)
      && (c == Null ==> m1 == Released(st.main, t.children[k[0]], false))
  {
    DeleteBranchStep(t, k, room, st);
    hide Canonical, Bounded, Delete, Answers, AnswersRef, Replaced, Ref, Shrink;
    PassedOn(o, t.children[k[0]], k[1..], st, m1, t, k);
  }

  lemma AnswerAtBranch(o: Reply, c: Tree, t: Tree, k: Key, room: int, st: Store, m1: Cache)
    requires Canonical(t) && t.Branch? && k != [] && Bounded(t, room) && |k| <= room
    requires Delete(t.children[k[0]], k[1..], st) == Removed(c)
    requires Shrunk(o, Branch(t.children[k[0] := c], t.value), GivenBack(st, t.children[k[0]], t), st.main, m1, t)
    ensures Answers(o, t, k, st, m1)
  {
    DeleteBranchStep(t, k, room, st);
    hide Canonical, Bounded, Delete, Shrink, Traded, NodeItem, Shaped;
  }

  /** The store only matters where a value is left alone, and then nothing but the child and the
      branch has been given back. */
  lemma SameShrink(b: Tree, n: nibble, later: Store, asked: Store)
    requires b.Branch? && |b.children| == 16 && (b.children[n] == Null ==> later == asked)
    ensures Shrink(b, later) == Shrink(b, asked)
  {
    if UniqueSlot(b, NONE) == 16 {
      assert Only(b, NONE, 16) && !SlotUsed(b, n);
    }
  }

  lemma CollapseBounded(key: Key, c: Tree, room: int)
    requires Shaped(c) && c != Null && key != [] && |key| <= room && Bounded(c, room - |key|)
    ensures Shaped(Collapse(key, c)) && Bounded(Collapse(key, c), room)
  {
    if c.Ext? {
      assert room - |key| - |c.key| == room - |key + c.key|;
    }
  }

  lemma ShrinkBounded(b: Tree, room: int, st: Store)
    requires Shaped(b) && b.Branch? && Bounded(b, room) && Shrink(b, st).Removed? && room >= 1
    ensures Shaped(Shrink(b, st).tree) && Bounded(Shrink(b, st).tree, room)
  {
    var used := UniqueSlot(b, NONE);
    if used < 16 {
      assert Only(b, NONE, used);
      CollapseBounded([used], b.children[used], room);
    }
  }

  lemma {:induction false} DeleteBounded(t: Tree, k: Key, room: int, st: Store)
    requires Canonical(t) && Bounded(t, room) && Delete(t, k, st).Removed? && room >= |k|
    ensures Shaped(Delete(t, k, st).tree) && Bounded(Delete(t, k, st).tree, room)
    decreases t, 1
  {
    hide Shrink, AbsentUnder, UniqueSlot, Collapse, GivenBack;
    if t.Ext? {
      DeleteExtStep(t, k, room, st);
      hide Delete;
      CollapseBounded(t.key, Delete(t.child, k[|t.key|..], st).tree, room);
    } else if t.Branch? && k != [] {
      DeleteBranchStep(t, k, room, st);
      hide Delete;
      ShrinkBounded(Branch(t.children[k[0] := Delete(t.children[k[0]], k[1..], st).tree], t.value), room,
        GivenBack(st, t.children[k[0]], t));
    } else if t.Branch? {
      DeleteValueBounded(t, room, st);
    }
  }

  lemma {:induction false} MinRoom(t: Tree, room: int)
    requires Canonical(t) && t != Null && Bounded(t, room)
    ensures room >= if t.Leaf? then 0 else 1
  {
    if t.Branch? {
      var i: nat, j: nat :| i < j <= 16 && SlotUsed(t, i) && SlotUsed(t, j);
      MinRoom(t.children[i], room - 1);
    }
  }

  lemma DeleteValueBounded(t: Tree, room: int, st: Store)
    requires Canonical(t) && t.Branch? && Bounded(t, room) && t.value != []
    ensures Delete(t, [], st).Removed?
    ensures Shaped(Delete(t, [], st).tree) && Bounded(Delete(t, [], st).tree, room)
  {
    MinRoom(t, room);
    var used := UniqueSlot(t, 16);
    if used < 16 {
      assert Only(t, 16, used);
      CollapseBounded([used], t.children[used], room);
    }
  }

  lemma SlotItems(t: Tree, xs: seq<Item>)
    requires Shaped(t) && t.Branch? && |xs| == 17 && xs[16] == Data(t.value)
    requires forall i :: 0 <= i < 16 ==> xs[i] == Ref(t.children[i])
    ensures forall i: nat :: i <= 16 ==> (EmptyItem(xs[i]) <==> !SlotUsed(t, i))
  {
    forall i: nat | i < 16 ensures EmptyItem(xs[i]) <==> !SlotUsed(t, i) {
      RefKinds(t.children[i]);
      NodeKinds(t.children[i]);
    }
  }

  /** With one slot in use, all references below a branch are below that slot. */
  lemma OnlyBelow(t: Tree, except: nat, i: nat)
    requires Shaped(t) && t.Branch? && (except == 16 || except == NONE) && Only(t, except, i)
    ensures i < 16 ==> forall n :: Below(t, n) == Held(t.children[i], false, n)
    ensures i == 16 ==> forall n :: Below(t, n) == 0
  {
    forall j: nat | j < 16 && j != i ensures t.children[j] == Null {
      assert !SlotUsed(t, j);
    }
    NullInline();
    if i < 16 {
      forall n ensures Below(t, n) == Held(t.children[i], false, n) {
        BelowAllUpdate(t.children, i, Null, n);
        BelowAllNulls(t.children[i := Null], n);
      }
    } else {
      forall n ensures Below(t, n) == 0 {
        BelowAllNulls(t.children, n);
      }
    }
  }

  lemma ShrunkTraded(m0: Cache, m1: Cache, m2: Cache, disk: Disk, t: Tree, c: Tree, u: Tree)
    requires Shaped(t) && Shaped(c) && Shaped(u) && Filed(m0, disk) && Covers(m0, disk, t, false)
    requires m1 == Released(m0, t, false) && Rejoined(m1, m2, disk, c, u)
    requires forall n :: Below(t, n) == Held(c, false, n)
    ensures Traded(m0, m2, disk, t, false, u)
  {
    ReleasedCounts(m0, disk, t, false);
    hide Released, Own, Below;
  }

  lemma ValueTraded(m0: Cache, m1: Cache, disk: Disk, t: Tree)
    requires Shaped(t) && t.Branch? && Filed(m0, disk) && Covers(m0, disk, t, false) && m1 == Released(m0, t, false)
    ensures Traded(m0, m1, disk, t, false, Branch(t.children, []))
  {
    SameBelowTraded(m0, m1, disk, t, false, Branch(t.children, []));
  }

  lemma DeletedValue(t: Tree, st: Store)
    requires Canonical(t) && t.Branch? && t.value != []
    ensures Shaped(t)
    ensures var used := UniqueSlot(t, 16);
      Delete(t, [], st) == Removed(if used < 16 then Collapse([used], t.children[used]) else Branch(t.children, []))
  {
  }

  lemma SlotTraded(m0: Cache, m1: Cache, disk: Disk, t: Tree, b: Tree, u: Tree)
    requires Shaped(t) && Shaped(b) && Shaped(u) && Traded(m0, m1, disk, t, false, b)
    requires forall n :: Below(u, n) == Below(b, n)
    ensures Traded(m0, m1, disk, t, false, u)
  {
    hide Own, Below;
  }

  lemma LastRejoined(m0: Cache, m2: Cache, m3: Cache, disk: Disk, t: Tree, b: Tree, c: Tree, u: Tree)
    requires Shaped(t) && Shaped(b) && Shaped(c) && Shaped(u)
    requires Traded(m0, m2, disk, t, false, b) && Rejoined(m2, m3, disk, c, u)
    requires forall n :: Below(b, n) == Held(c, false, n)
    ensures Traded(m0, m3, disk, t, false, u)
  {
    hide Own, Below;
  }

  lemma ReplaceBelowBranch(main: Cache, disk: Disk, t: Tree, i: nat)
    requires Shaped(t) && t.Branch? && i < 16 && Covers(main, disk, t, false)
    ensures Covers(main, disk, t.children[i], false)
  {
    BelowBranch(t, i);
    hide Own, Below;
  }

  lemma BranchReplaced(m0: Cache, m1: Cache, m2: Cache, disk: Disk, t: Tree, i: nat, c: Tree)
    requires Shaped(t) && t.Branch? && i < 16 && Shaped(c) && Covers(m0, disk, t, false)
    requires Replaced(m0, m1, disk, t.children[i], c)
    requires forall n :: OnDisk(disk, n) || RefCount(m2, n) + Own(t, n) == RefCount(m1, n)
    ensures var b := Branch(t.children[i := c], t.value);
      Shaped(b) && Traded(m0, m2, disk, t, false, b) && Covers(m2, disk, b, true)
  {
    var b := Branch(t.children[i := c], t.value);
    forall n ensures Below(b, n) + Held(t.children[i], false, n) == Below(t, n) + Held(c, false, n) {
      BelowAllUpdate(t.children, i, c, n);
    }
    hide Own, Below;
  }

  lemma HashedCovered(m: Cache, disk: Disk, c: Tree)
    requires Shaped(c) && Covers(m, disk, c, false)
    ensures Hashed(c) ==> OnDisk(disk, Encoding(c)) || RefCount(m, Encoding(c)) > 0
    ensures !Hashed(c) ==> Covers(m, disk, c, true)
  {
    var n := Encoding(c);
    assert OnDisk(disk, n) || RefCount(m, n) >= Held(c, false, n);
    hide Encoding, Below;
  }

  lemma StreamedReplaced(m0: Cache, m1: Cache, m2: Cache, disk: Disk, c: Tree, inLine: bool, u: Tree,
    lost: Option<bytes>)
    requires Shaped(c) && Shaped(u) && inLine == !Hashed(c) && Filed(m1, disk) && Filed(m2, disk)
    requires lost != Some([]) && Traded(m0, Repaid(m1, lost), disk, c, inLine, u)
    requires forall n :: RefCount(m2, n) == RefCount(m1, n) + Own(u, n)
    ensures Replaced(m0, Repaid(m2, lost), disk, c, u)
  {
    RepaidCounts(m1, disk, lost);
    RepaidCounts(m2, disk, lost);
    hide Encoding, Below, Inserted, Filed, Repaid;
  }

  /** A hashed child can be looked up; one that is written into its parent is usable as it is. */
  lemma HashedUsable(st: Store, c: Tree)
    requires Shaped(c) && Usable(st, c, false)
    ensures Hashed(c) ==> Resolvable(st, Encoding(c))
    ensures Usable(st, c, !Hashed(c))
  {
    hide Encoding, Below;
    if st.enforceRefs {
      HashedCovered(st.main, st.disk, c);
    }
    if Hashed(c) {
      assert Held(c, false, Encoding(c)) > 0;
    }
  }

  /** The string can be looked up. */
  ghost predicate Resolvable(st: Store, n: bytes) {
    OnDisk(st.disk, n) || RefCount(st.main, n) > 0 || (!st.enforceRefs && Keccak(n) in st.main)
  }

  lemma UsableBelow(st: Store, t: Tree, i: nat)
    requires Shaped(t) && (t.Ext? || t.Branch?) && i < 16 && Usable(st, t, true)
    ensures var c := if t.Ext? then t.child else t.children[i];
      Usable(st, c, false) && Usable(st, c, true)
  {
    hide Covers, Own, Below;
    if st.enforceRefs {
      CoversBelow(st.main, st.disk, t, i);
    }
    if t.Ext? {
      ExtBelow(t);
    } else {
      BelowBranch(t, i);
    }
  }

  /** A node and the two that cleve makes of it, as items. */
  lemma CleveItems(t: Tree, s: nat)
    requires Shaped(t) && TwoItem(t) && 0 < s <= |t.key| && (t.Ext? ==> s < |t.key|)
    ensures
      var x, low := NodeItem(t), Cleve(t, s).child;
      && Shaped(low) && x.List? && |x.items| == 2 && NodeKey(x) == t.key
      && NodeItem(low) == List([KeyItem(t.key[s..], IsLeafItem(x)), x.items[1]])
      && NodeItem(Cleve(t, s)) == List([KeyItem(t.key[..s], false), Ref(low)])
  {
    TwoItemNode(t);
    TwoItemNode(Cleve(t, s).child);
    TwoItemNode(Cleve(t, s));
    hide NodeItem, KeyItem, IsLeafItem, NodeKey, Ref;
  }

  lemma ExtFacts(t: Tree)
    requires Shaped(t) && t.Ext?
    ensures t.key != [] && NodeKey(NodeItem(t)) == t.key
    ensures Shaped(t.child) && forall n :: Held(t.child, false, n) == Below(t, n)
  {
    TwoItemNode(t);
    ExtBelow(t);
  }

  /** The slot of a branch that a key goes to. */
  lemma BranchSlotParts(st: Store, t: Tree, k: Key, room: int)
    requires Shaped(t) && t.Branch? && k != [] && Bounded(t, room) && Usable(st, t, true)
    ensures
      var x, c := NodeItem(t), t.children[k[0]];
      && x.List? && |x.items| == 17 && x.items[k[0]] == Ref(c) && (EmptyItem(Ref(c)) <==> c == Null)
      && Shaped(c) && Bounded(c, room - 1) && Usable(st, c, false) && Usable(st, c, true)
      && Lookup(t, k) == if c == Null then [] else Lookup(c, k[1..])
  {
    var c := t.children[k[0]];
    BranchItems(t);
    RefKinds(c);
    NodeKinds(c);
    UsableBelow(st, t, k[0]);
    hide Usable, Below;
  }

  lemma StraySame(c: Tree, k: Key)
    requires Shaped(c)
    ensures StrayAt(c, k, !Hashed(c)) == StrayNode(c, k)
  {
  }

  // ---------------------------------------------------------------- the root

  /** How often `n` occurs as a stored node of the trie `t`; the root is always stored. */
  function Occurrences(t: Tree, n: bytes): nat
    requires Shaped(t)
  {
    (if Encoding(t) == n then 1 else 0) + Below(t, n)
  }

  /** Conservation of references. */
  ghost predicate Accounted(main: Cache, disk: Disk, t: Tree)
    requires Shaped(t)
  {
    forall n :: OnDisk(disk, n) || RefCount(main, n) == Occurrences(t, n)
  }

  /** Whatever the counts, every node of the trie is there. */
  ghost predicate Present(main: Cache, disk: Disk, t: Tree)
    requires Shaped(t)
  {
    forall n :: Occurrences(t, n) > 0 ==> OnDisk(disk, n) || Keccak(n) in main
  }

  lemma AccountedPresent(main: Cache, disk: Disk, t: Tree)
    requires Shaped(t) && Accounted(main, disk, t)
    ensures Present(main, disk, t)
  {
    hide Encoding, Below;
    forall n | Occurrences(t, n) > 0 ensures OnDisk(disk, n) || Keccak(n) in main {
      assert OnDisk(disk, n) || RefCount(main, n) == Occurrences(t, n);
    }
  }

  lemma PresentUsable(st: Store, t: Tree)
    requires Shaped(t) && Present(st.main, st.disk, t) && (st.enforceRefs ==> Accounted(st.main, st.disk, t))
    ensures Usable(st, t, false) && Resolvable(st, Encoding(t))
  {
    hide Encoding, Below;
    assert Occurrences(t, Encoding(t)) > 0;
    if st.enforceRefs {
      AccountedCovers(st.main, st.disk, t);
    }
  }

  /** Nothing disappears when the root is exchanged. */
  lemma RootPresent(m0: Cache, m1: Cache, disk: Disk, t: Tree, u: Tree)
    requires Shaped(t) && Shaped(u) && Kept(m0, m1, disk, u, true)
    ensures Present(Inserted(Unrooted(m1, t), Root(u), Encoding(u)), disk, u)
  {
    hide Encoding, Below;
  }

  /** insert as a whole: the nodes are there, and exact accounts stay exact but for a lost reference. */
  lemma InsertedAccounts(m0: Cache, m1: Cache, disk: Disk, t: Tree, k: Key, v: bytes)
    requires Shaped(t) && Bounded(t, MAX_KEY) && Filed(m1, disk) && Merged(m0, m1, disk, t, k, v, false)
    ensures
      var u, lost := Insert(t, k, v), Lost(m0, disk, StrayNode(t, k));
      var m2 := Inserted(Unrooted(m1, t), Root(u), Encoding(u));
      && Present(m2, disk, u)
      && (Accounted(m0, disk, t) ==>
        Accounted(Repaid(m2, lost), disk, u) && (Accounted(m2, disk, u) <==> lost == None)
          && (Canonical(t) ==> lost == None))
  {
    hide Kept, Accounted, Covers, Traded, Repaid, Inserted, Unrooted, Filed, Insert, StrayNode, Encoding, Bounded;
    hide Canonical;
    var u, lost := Insert(t, k, v), Lost(m0, disk, StrayNode(t, k));
    RootPresent(m0, m1, disk, t, u);
    if Accounted(m0, disk, t) {
      AccountedCovers(m0, disk, t);
      StrayLong(t, k, MAX_KEY);
      assert StrayAt(t, k, false) == StrayNode(t, k);
      RootSwapped(m0, m1, disk, t, u, lost);
      RepaidExactly(Inserted(Unrooted(m1, t), Root(u), Encoding(u)), disk, u, lost);
      if Canonical(t) {
        NothingLost(m0, disk, t, k);
      }
    }
  }

  /** Every node of the trie was written to disk. */
  ghost predicate Durable(disk: Disk, t: Tree)
    requires Shaped(t)
  {
    forall n :: Occurrences(t, n) > 0 ==> OnDisk(disk, n)
  }

  /** No references are counted that the disk does not have. */
  ghost predicate Clean(main: Cache, disk: Disk) {
    forall n :: OnDisk(disk, n) || RefCount(main, n) == 0
  }

  lemma AccountedCovers(main: Cache, disk: Disk, t: Tree)
    requires Shaped(t) && Accounted(main, disk, t)
    ensures Covers(main, disk, t, false)
    ensures OnDisk(disk, Encoding(t)) || RefCount(main, Encoding(t)) > 0
  {
    assert OnDisk(disk, Encoding(t)) || RefCount(main, Encoding(t)) == Occurrences(t, Encoding(t));
    hide Encoding, Below;
  }

  lemma NothingLost(main: Cache, disk: Disk, t: Tree, k: Key)
    requires Canonical(t) && Bounded(t, MAX_KEY) && Accounted(main, disk, t)
    ensures Lost(main, disk, StrayNode(t, k)) == None
  {
    if StrayNode(t, k).Some? {
      StrayHarmless(t, k, StrayNode(t, k).value);
    }
    hide StrayNode, Encoding, Below, Canonical, Bounded;
  }

  /** A root too short for mergeAt and deleteAt to have given it back. */
  function Unrooted(m: Cache, t: Tree): Cache
    requires Shaped(t)
  {
    if Hashed(t) then m else Killed(m, Root(t))
  }

  lemma UnrootedCounts(m: Cache, disk: Disk, t: Tree)
    requires Shaped(t) && Filed(m, disk)
    requires OnDisk(disk, Encoding(t)) || RefCount(m, Encoding(t)) + Own(t, Encoding(t)) >= 1
    ensures Filed(Unrooted(m, t), disk)
    ensures forall n :: OnDisk(disk, n)
              || RefCount(Unrooted(m, t), n) + (if Encoding(t) == n then 1 else 0) == RefCount(m, n) + Own(t, n)
  {
    KilledCounts(m, disk, Encoding(t));
    hide Encoding, Killed, Filed;
  }

  /** insert and remove store the new root themselves, and give back an old one that is too short
      for mergeAt and deleteAt to have done so. */
  lemma RootSwapped(m0: Cache, m1: Cache, disk: Disk, t: Tree, u: Tree, lost: Option<bytes>)
    requires Shaped(t) && Shaped(u) && Accounted(m0, disk, t) && Filed(m1, disk)
    requires lost != Some([]) && lost != Some(Encoding(t)) && Traded(m0, Repaid(m1, lost), disk, t, false, u)
    ensures var m2 := Inserted(Unrooted(m1, t), Root(u), Encoding(u));
      Filed(m2, disk) && Accounted(Repaid(m2, lost), disk, u)
  {
    hide Encoding, Own, Below, Unrooted, Inserted, Filed, RefCount, OnDisk, Repaid, Held, Traded, Accounted;
    RepaidCounts(m1, disk, lost);
    AccountedUnrooted(m0, Repaid(m1, lost), disk, t, u);
    UnrootedRepaid(m1, disk, t, lost);
    Rooted(Unrooted(m1, t), disk, u, lost);
  }

  lemma Rooted(w: Cache, disk: Disk, u: Tree, lost: Option<bytes>)
    requires Shaped(u) && Filed(w, disk) && lost != Some([])
    requires forall n :: OnDisk(disk, n) || RefCount(w, n) + (if lost == Some(n) then 1 else 0) == Below(u, n)
    ensures var m2 := Inserted(w, Root(u), Encoding(u));
      Filed(m2, disk) && Accounted(Repaid(m2, lost), disk, u)
  {
    assert Encoding(u) != [];
    hide Encoding, Below, Inserted, Filed, RefCount, OnDisk, Repaid;
    InsertedCounts(w, disk, Encoding(u));
    RepaidCounts(Inserted(w, Root(u), Encoding(u)), disk, lost);
  }

  lemma UnrootedRepaid(m: Cache, disk: Disk, t: Tree, lost: Option<bytes>)
    requires Shaped(t) && Filed(m, disk) && lost != Some([]) && lost != Some(Encoding(t))
    ensures Filed(Unrooted(m, t), disk)
    ensures forall n ::
      RefCount(Unrooted(Repaid(m, lost), t), n) == RefCount(Unrooted(m, t), n) + if lost == Some(n) then 1 else 0
  {
    RepaidCounts(m, disk, lost);
    KilledCounts(m, disk, Encoding(t));
    KilledCounts(Repaid(m, lost), disk, Encoding(t));
    hide Encoding, Killed, Inserted, Filed, Repaid;
  }

  /** The accounts are exact unless a reference was lost. */
  lemma RepaidExactly(main: Cache, disk: Disk, t: Tree, lost: Option<bytes>)
    requires Shaped(t) && Filed(main, disk) && Accounted(Repaid(main, lost), disk, t)
    requires lost.Some? ==> lost.value != [] && !OnDisk(disk, lost.value)
    ensures Accounted(main, disk, t) <==> lost == None
  {
    RepaidCounts(main, disk, lost);
    hide Encoding, Below, Inserted, Filed, Repaid;
    if lost.Some? {
      var n := lost.value;
      assert RefCount(Repaid(main, lost), n) == Occurrences(t, n);
    }
  }

  lemma AccountedUnrooted(m0: Cache, m1: Cache, disk: Disk, t: Tree, u: Tree)
    requires Shaped(t) && Shaped(u) && Accounted(m0, disk, t) && Filed(m1, disk)
    requires Traded(m0, m1, disk, t, false, u)
    ensures Filed(Unrooted(m1, t), disk)
    ensures forall n :: OnDisk(disk, n) || RefCount(Unrooted(m1, t), n) == Below(u, n)
  {
    hide Encoding, Own, Below, Unrooted, Filed, RefCount, OnDisk;
    forall n ensures OnDisk(disk, n) || RefCount(m1, n) + Own(t, n) == Below(u, n) + if Encoding(t) == n then 1 else 0 {
      assert OnDisk(disk, n) || RefCount(m0, n) == Occurrences(t, n);
    }
    UnrootedCounts(m1, disk, t);
  }

  lemma FirstRoot(main: Cache, disk: Disk)
    requires Filed(main, disk) && Clean(main, disk)
    ensures Filed(Inserted(main, Root(Null), Encoding(Null)), disk)
    ensures Accounted(Inserted(main, Root(Null), Encoding(Null)), disk, Null)
  {
    InsertedCounts(main, disk, Encoding(Null));
    hide Encoding, Inserted;
  }

  lemma CoversBelow(main: Cache, disk: Disk, t: Tree, i: nat)
    requires Shaped(t) && (t.Ext? || t.Branch?) && i < 16 && Covers(main, disk, t, true)
    ensures var c := if t.Ext? then t.child else t.children[i];
      Covers(main, disk, c, false) && Covers(main, disk, c, true)
  {
    if t.Ext? {
      ExtBelow(t);
    } else {
      BelowBranch(t, i);
    }
    hide Own, Below;
  }

  // ---------------------------------------------------------------- commit and rollback

  /** commit writes every counted string to disk and forgets the counts. */
  lemma CommitKeeps(m0: Cache, d0: Disk, d1: Disk, t: Tree)
    requires Shaped(t) && Accounted(m0, d0, t)
    requires forall n :: OnDisk(d1, n) <==> OnDisk(d0, n) || RefCount(m0, n) > 0
    ensures Accounted(map[], d1, t) && Durable(d1, t)
  {
    hide Encoding, Below, OnDisk;
    forall n ensures OnDisk(d1, n) || Occurrences(t, n) == 0 {
      assert OnDisk(d0, n) || RefCount(m0, n) == Occurrences(t, n);
    }
  }

  /** What was on disk stays there. */
  lemma DurableAccounted(disk: Disk, t: Tree)
    requires Shaped(t) && Durable(disk, t)
    ensures Accounted(map[], disk, t)
  {
    hide Encoding, Below, OnDisk;
  }

  // ---------------------------------------------------------------- walking the stored nodes

  lemma {:induction false} BelowAllAnother(cs: seq<Tree>, i: nat, n: bytes)
    requires i < |cs| && forall j :: 0 <= j < |cs| ==> Shaped(cs[j])
    ensures BelowAll(cs[..i + 1], n) == BelowAll(cs[..i], n) + Held(cs[i], false, n)
    decreases i
  {
    hide Own, Below;
    assert cs[..i + 1][0] == cs[0];
    if i == 0 {
      assert cs[..1][1..] == [] && cs[..0] == [];
    } else {
      assert cs[..i + 1][1..] == cs[1..][..i] && cs[..i][1..] == cs[1..][..i - 1];
      BelowAllAnother(cs[1..], i - 1, n);
    }
  }

  /** The hashes of the strings that occur in the subtree were taken out of the mask, and no others. */
  ghost predicate Masked(before: set<bytes>, after: set<bytes>, t: Tree, own: bool)
    requires Shaped(t)
  {
    after <= before && forall n :: Keccak(n) in after <==> Keccak(n) in before && Held(t, !own, n) == 0
  }

  ghost predicate MaskedChildren(before: set<bytes>, after: set<bytes>, cs: seq<Tree>)
    requires forall i :: 0 <= i < |cs| ==> Shaped(cs[i])
  {
    after <= before && forall n :: Keccak(n) in after <==> Keccak(n) in before && BelowAll(cs, n) == 0
  }

  lemma MaskedAnother(m0: set<bytes>, m1: set<bytes>, m2: set<bytes>, cs: seq<Tree>, i: nat)
    requires i < |cs| && forall j :: 0 <= j < |cs| ==> Shaped(cs[j])
    requires MaskedChildren(m0, m1, cs[..i]) && Masked(m1, m2, cs[i], true)
    ensures MaskedChildren(m0, m2, cs[..i + 1])
  {
    hide Own, Below, BelowAll;
    forall n ensures Keccak(n) in m2 <==> Keccak(n) in m0 && BelowAll(cs[..i + 1], n) == 0 {
      BelowAllAnother(cs, i, n);
    }
  }

  lemma MaskedNull(m: set<bytes>)
    ensures Masked(m, m, Null, true)
  {
    NullInline();
    hide Encoding;
  }

  lemma MaskedKey(m: set<bytes>, m1: set<bytes>, t: Tree)
    requires Shaped(t) && Hashed(t) && Masked(m - {Keccak(Encoding(t))}, m1, t, false)
    ensures Masked(m, m1, t, true)
  {
    forall n ensures Keccak(n) == Keccak(Encoding(t)) <==> n == Encoding(t) {
      if Keccak(n) == Keccak(Encoding(t)) { KeccakInjective(n, Encoding(t)); }
    }
    hide Encoding, Below;
  }

  lemma MaskedExt(m: set<bytes>, m1: set<bytes>, t: Tree)
    requires Shaped(t) && t.Ext? && Masked(m, m1, t.child, true)
    ensures Masked(m, m1, t, false)
  {
    ExtBelow(t);
    hide Own, Below;
  }

  lemma MaskedLeaf(m: set<bytes>, t: Tree)
    requires t.Leaf?
    ensures Masked(m, m, t, false)
  {
    hide Own;
  }

  lemma MaskedNone(m: set<bytes>, cs: seq<Tree>)
    requires forall j :: 0 <= j < |cs| ==> Shaped(cs[j])
    ensures MaskedChildren(m, m, cs[..0])
  {
  }

  lemma MaskedBranch(m: set<bytes>, m1: set<bytes>, t: Tree)
    requires Shaped(t) && t.Branch? && MaskedChildren(m, m1, t.children)
    ensures Masked(m, m1, t, false)
  {
    hide Own, BelowAll;
  }

  lemma BranchParts(main: Cache, disk: Disk, t: Tree, i: nat, room: int)
    requires Jointed(t) && t.Branch? && i < 16 && Bounded(t, room) && Covers(main, disk, t, true)
    ensures Jointed(t.children[i]) && Bounded(t.children[i], room - 1) && Covers(main, disk, t.children[i], false)
  {
    CoversBelow(main, disk, t, i);
    hide Covers;
  }

  lemma JointedParts(t: Tree, room: int)
    requires Jointed(t) && t.Ext? && Bounded(t, room)
    ensures Jointed(t.child) && t.child.Branch? && Bounded(t.child, room - |t.key|)
  {
  }

  lemma MaskedInline(m: set<bytes>, m1: set<bytes>, t: Tree)
    requires Shaped(t) && !Hashed(t) && Masked(m, m1, t, false)
    ensures Masked(m, m1, t, true)
  {
    hide Encoding, Below;
  }

  lemma NotEmptyTrie(t: Tree)
    requires Shaped(t) && Root(t) != Keccak(Rlp.Encode(Data([])))
    ensures t != Null
  {
  }

  /** What a walk from the root leaves of the counted hashes. */
  ghost predicate Left(main: Cache, t: Tree, k: set<bytes>)
    requires Shaped(t)
  {
    (forall h :: h in k ==> h in main)
    && forall n :: Keccak(n) in k <==> RefCount(main, n) > 0 && Occurrences(t, n) == 0
  }

  lemma LeftExactly(main: Cache, t: Tree, all: set<bytes>, k: set<bytes>)
    requires Shaped(t) && all == set h | h in main && main[h].refs > 0
    requires if t == Null then k == all - {Root(t)} else Masked(all - {Root(t)}, k, t, false)
    ensures Left(main, t, k)
  {
    forall n ensures Keccak(n) in k <==> RefCount(main, n) > 0 && Occurrences(t, n) == 0 {
      if Keccak(n) == Root(t) { KeccakInjective(n, Encoding(t)); }
      assert t == Null ==> Below(t, n) == 0;
      hide Encoding, Below;
    }
    hide Encoding, Below;
  }

  /** A hash that is counted and not met belongs to a string on disk. */
  lemma LeftOnDisk(main: Cache, disk: Disk, t: Tree, k: set<bytes>)
    requires Shaped(t) && Filed(main, disk) && Accounted(main, disk, t) && Left(main, t, k)
    ensures k <= disk.Keys
  {
    hide Encoding, Below;
    forall h | h in k ensures h in disk {
      var n := main[h].value;
      assert h == Keccak(n) && RefCount(main, n) != Occurrences(t, n);
    }
  }
}
