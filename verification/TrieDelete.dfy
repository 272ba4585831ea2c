/** Removal from the trie (TrieDB.h:924-1066, 1129-1165, TrieCommon.cpp:116-128) on trees, the keys
    it is right for, and exactly when it faults, given what the node store holds. */
module TrieDelete {
  import opened Bytes
  import opened HexPrefix
  import opened NodeStore
  import opened Tries
  import opened TrieCanonical
  import opened TrieMisreads
  import opened TrieNodes

  /** deleteAt finds nothing to remove, returns the new node, or misreads its input: it takes a
      leaf's value or a branch's value for a node hash and does not get away with it, or reads past
      the end of the key. */
  datatype Outcome = Unchanged | Removed(tree: Tree) | Fault

  const NONE: nat := 255

  /** Slot `i` is in use, and of the others only `except` may be. */
  ghost predicate Only(t: Tree, except: nat, i: nat)
    requires t.Branch? && |t.children| == 16
  {
    i <= 16 && i != except && SlotUsed(t, i)
    && forall j: nat :: j <= 16 && j != except && j != i ==> !SlotUsed(t, j)
  }

  /** The first slot in use from `i` on, `except` left out; 17 if there is none. */
  function NextUsed(t: Tree, except: nat, i: nat): (r: nat)
    requires t.Branch? && |t.children| == 16 && i <= 17
    ensures i <= r <= 17 && (r <= 16 ==> r != except && SlotUsed(t, r))
    ensures forall j: nat :: i <= j < r && j != except ==> !SlotUsed(t, j)
    decreases 17 - i
  {
    if i == 17 || (i != except && SlotUsed(t, i)) then i else NextUsed(t, except, i + 1)
  }

  /** uniqueInUse: the one slot in use besides `except`, NONE if there is no such or more than one. */
  function UniqueSlot(t: Tree, except: nat): (u: nat)
    requires t.Branch? && |t.children| == 16
    ensures u <= 16 || u == NONE
    ensures forall i: nat :: i <= 16 ==> (u == i <==> Only(t, except, i))
  {
    var f := NextUsed(t, except, 0);
    if f <= 16 && NextUsed(t, except, f + 1) == 17 then f else NONE
  }

  // ---------------------------------------------------------------- collapsing

  /** graft, where isTwoItemNode says it is needed: a two-item node right below an extension. */
  function Collapse(key: Key, c: Tree): Tree {
    match c
    case Leaf(k, v) => Leaf(key + k, v)
    case Ext(k, d) => Ext(key + k, d)
    case _ => Ext(key, c)
  }

  /** killNode on the node `t` unless `spare`. */
  function Released(main: Cache, t: Tree, spare: bool): Cache
    requires Shaped(t)
  {
    if !spare && Hashed(t) then Killed(main, Keccak(Encoding(t))) else main
  }

  /** The store once a child and the branch above it have been given back. */
  function GivenBack(st: Store, c: Tree, t: Tree): Store
    requires Shaped(c) && Shaped(t)
  {
    st.(main := Released(Released(st.main, c, false), t, false))
  }

  /** merge and graft for a branch that may be down to one slot.  isTwoItemNode looks a lonely value
      up as if it were the hash of a node. */
  function Shrink(b: Tree, st: Store): (o: Outcome)
    requires b.Branch? && |b.children| == 16
    ensures !o.Unchanged?
  {
    var used := UniqueSlot(b, NONE);
    if used < 16 then Removed(Collapse([used], b.children[used]))
    else if used == 16 then if ReadsAsPair(st, b.value) then Fault else Removed(Leaf([], b.value))
    else Removed(b)
  }

  /** deleteAt, with the store as it is before. */
  function Delete(t: Tree, k: Key, st: Store): (r: Outcome)
    requires Shaped(t)
  {
    match t
    case Null => Unchanged
    case Leaf(key, v) =>
      if key == k then Removed(Null)
      else if key <= k && v != [] && !AbsentUnder(st, v, k[|key|..]) then Fault
      else Unchanged
    case Ext(key, c) =>
      if key <= k then
        match Delete(c, k[|key|..], st)
        case Removed(c') => Removed(Collapse(key, c'))
        case o => o
      else Unchanged
    case Branch(cs, v) =>
      if k == [] then
        if v == [] then Fault
        else
          var used := UniqueSlot(t, 16);
          if used < 16 then Removed(Collapse([used], cs[used])) else Removed(Branch(cs, []))
      else
        match Delete(cs[k[0]], k[1..], st)
        case Removed(c') => Shrink(Branch(cs[k[0] := c'], v), GivenBack(st, cs[k[0]], t))
        case o => o
  }

  // ---------------------------------------------------------------- removal refines map deletion

  lemma CollapseLookup(key: Key, c: Tree, q: Key)
    requires Canonical(c) && key != [] && c != Null
    ensures Canonical(Collapse(key, c)) && Collapse(key, c) != Null
    ensures Lookup(Collapse(key, c), q) == if key <= q then Lookup(c, q[|key|..]) else []
  {
    if TwoItem(c) {
      var k := c.key;
      if key <= q {
        var r := q[|key|..];
        assert q == key + r;
        assert key + k <= q <==> k <= r;
        assert key + k == q <==> k == r;
        if k <= r && c.Ext? {
          assert r[|k|..] == q[|key + k|..];
        }
      } else {
        assert !(key + k <= q);
      }
    }
  }

  /** A branch that lost a value or a child keeps its map when it shrinks. */
  lemma ShrinkLookup(b: Tree, q: Key, st: Store)
    requires Shaped(b) && b.Branch?
    requires forall i :: 0 <= i < 16 ==> Canonical(b.children[i])
    requires exists i: nat :: i <= 16 && SlotUsed(b, i)
    requires Shrink(b, st).Removed?
    ensures var t := Shrink(b, st).tree; Canonical(t) && t != Null && Lookup(t, q) == Lookup(b, q)
  {
    var used := UniqueSlot(b, NONE);
    if used <= 16 {
      assert Only(b, NONE, used);
      assert used < 16 ==> !SlotUsed(b, 16);
      assert q != [] && q[0] != used ==> !SlotUsed(b, q[0]);
      if used < 16 {
        CollapseLookup([used], b.children[used], q);
        assert [used] <= q <==> q != [] && q[0] == used;
      }
    } else {
      TwoSlotsUnlessUnique(b);
    }
  }

  lemma TwoSlotsUnlessUnique(b: Tree)
    requires b.Branch? && |b.children| == 16
    requires UniqueSlot(b, NONE) == NONE
    requires exists i: nat :: i <= 16 && SlotUsed(b, i)
    ensures TwoSlots(b)
  {
    var i: nat :| i <= 16 && SlotUsed(b, i);
    assert !Only(b, NONE, i);
    var j: nat :| j <= 16 && j != NONE && j != i && SlotUsed(b, j);
    assert i < j || j < i;
  }

  /** What removing `k` should do to the lookup of `q`. */
  ghost predicate Deletes(t: Tree, k: Key, q: Key, st: Store)
    requires Canonical(t)
  {
    match Delete(t, k, st)
    case Unchanged => Lookup(t, k) == []
    case Fault => true
    case Removed(u) =>
      Canonical(u) && Lookup(t, k) != [] && (t.Branch? ==> u != Null)
      && Lookup(u, q) == if q == k then [] else Lookup(t, q)
  }

  /** A removal that reports success has removed exactly that key and left a canonical tree; one
      that reports no change was asked for an absent key. */
  lemma {:induction false} DeleteLookup(t: Tree, k: Key, q: Key, st: Store)
    requires Canonical(t)
    ensures Deletes(t, k, q, st)
    decreases t, 1
  {
    match t
    case Null =>
    case Leaf(key, v) =>
    case Ext(key, c) =>
      DeleteBelowExt(t, k, q, st);
    case Branch(cs, v) =>
      if k == [] {
        if v != [] { DeleteValue(t, q, st); }
      } else {
        DeleteBelowBranch(t, k, q, st);
      }
  }

  lemma {:induction false} DeleteBelowExt(t: Tree, k: Key, q: Key, st: Store)
    requires Canonical(t) && t.Ext?
    ensures Deletes(t, k, q, st)
    decreases t, 0
  {
    var key, c := t.key, t.child;
    if key <= k {
      var k', q' := k[|key|..], if key <= q then q[|key|..] else [];
      DeleteLookup(c, k', q', st);
      hide Canonical;
      assert k == key + k' && (key <= q ==> q == key + q');
      if Delete(c, k', st).Removed? {
        var c' := Delete(c, k', st).tree;
        CollapseLookup(key, c', q);
      }
    }
  }

  lemma {:induction false} DeleteBelowBranch(t: Tree, k: Key, q: Key, st: Store)
    requires Canonical(t) && t.Branch? && k != []
    ensures Deletes(t, k, q, st)
    decreases t, 0
  {
    hide AbsentUnder, ReadsAsPair, UniqueSlot;
    var n, k', q' := k[0], k[1..], if q != [] then q[1..] else [];
    var c := t.children[n];
    DeleteLookup(c, k', q', st);
    assert k == [n] + k' && (q != [] ==> q == [q[0]] + q');
    if Delete(c, k', st).Removed? {
      var b := Branch(t.children[n := Delete(c, k', st).tree], t.value);
      assert forall i: nat :: i <= 16 && i != n ==> SlotUsed(b, i) == SlotUsed(t, i);
      SomeSlotLeft(t, b, n);
      var later := GivenBack(st, c, t);
      if Shrink(b, later).Removed? {
        ShrinkLookup(b, q, later);
        hide Shrink, GivenBack;
        assert Delete(t, k, st) == Shrink(b, later);
      }
    }
  }

  /** Changing one slot of a canonical branch leaves another in use. */
  lemma SomeSlotLeft(t: Tree, b: Tree, n: nat)
    requires Canonical(t) && t.Branch? && b.Branch? && |b.children| == 16 && n <= 16
    requires forall i: nat :: i <= 16 && i != n ==> SlotUsed(b, i) == SlotUsed(t, i)
    ensures exists i: nat :: i <= 16 && i != n && SlotUsed(b, i)
  {
    var i: nat, j: nat :| i < j <= 16 && SlotUsed(t, i) && SlotUsed(t, j);
    var m := if i == n then j else i;
    assert SlotUsed(b, m);
  }

  lemma DeleteValue(t: Tree, q: Key, st: Store)
    requires Canonical(t) && t.Branch? && t.value != []
    ensures Delete(t, [], st).Removed?
    ensures var u := Delete(t, [], st).tree;
      Canonical(u) && u != Null && Lookup(u, q) == if q == [] then [] else Lookup(t, q)
  {
    var b := Branch(t.children, []);
    SameUnique(t, b);
    SomeSlotLeft(t, b, 16);
    hide UniqueSlot;
    assert Delete(t, [], st) == Shrink(b, st);
    ShrinkLookup(b, q, st);
  }

  lemma SameUnique(t: Tree, b: Tree)
    requires t.Branch? && |t.children| == 16 && b == Branch(t.children, [])
    ensures UniqueSlot(b, NONE) == UniqueSlot(t, 16) != 16
    ensures forall i: nat :: i < 16 ==> SlotUsed(b, i) == SlotUsed(t, i)
  {
    assert !SlotUsed(b, 16);
    assert forall i: nat :: i < 16 ==> SlotUsed(b, i) == SlotUsed(t, i);
    assert forall i: nat :: i < 16 ==> Only(b, NONE, i) == Only(t, 16, i);
  }

  // ---------------------------------------------------------------- when removal faults

  predicate ProperPrefix(p: Key, k: Key) {
    p <= k && p != k
  }

  ghost predicate Stored(t: Tree, k: Key)
    requires Shaped(t)
  {
    Lookup(t, k) != []
  }

  /** `p` is a proper prefix of `k` and no other stored key goes on from it: a leaf ends there. */
  ghost predicate LastStop(t: Tree, k: Key, p: Key)
    requires Shaped(t)
  {
    ProperPrefix(p, k) && Stored(t, p) && forall q: Key :: Stored(t, q) && p <= q ==> q == p
  }

  /** ... and its value, looked up as the hash of a node, does not lead to a node without the rest
      of `k`. */
  ghost predicate LeafAt(t: Tree, k: Key, p: Key, st: Store)
    requires Shaped(t)
  {
    LastStop(t, k, p) && !AbsentUnder(st, Lookup(t, p), k[|p|..])
  }

  /** Stored keys fork right behind `k`. */
  ghost predicate ForkAt(t: Tree, k: Key, x: Key, y: Key)
    requires Shaped(t)
  {
    Diverge(x, y) && Stored(t, k + x) && Stored(t, k + y)
  }

  /** A branch with a value and one entry below it. */
  function Pair(rest: Key, entry: bytes, value: bytes): (b: Tree)
    requires rest != []
    ensures Shaped(b) && b.Branch?
  {
    Branch(NoChildren()[rest[0] := Leaf(rest[1..], entry)], value)
  }

  /** The store by the time isTwoItemNode asks about the value of such a branch: the entry's leaf and
      the branch have been given back. */
  function Afterwards(st: Store, rest: Key, entry: bytes, value: bytes): Store
    requires rest != []
  {
    GivenBack(st, Leaf(rest[1..], entry), Pair(rest, entry, value))
  }

  /** Without `k`, its prefix `p` would be left alone in a branch. */
  ghost predicate Lonely(t: Tree, k: Key, p: Key)
    requires Shaped(t)
  {
    ProperPrefix(p, k) && Stored(t, p) && forall q: Key :: Stored(t, q) && p <= q ==> q == p || q == k
  }

  /** ... with a value under which the store holds what isTwoItemNode takes for a two-item node. */
  ghost predicate LonelyAt(t: Tree, k: Key, p: Key, st: Store)
    requires Shaped(t)
  {
    Lonely(t, k, p) && ReadsAsPair(Afterwards(st, k[|p|..], Lookup(t, k), Lookup(t, p)), Lookup(t, p))
  }

  /** The keys removal is wrong for, said of the stored map and of what is looked up in the store. */
  ghost predicate Faulty(t: Tree, k: Key, st: Store)
    requires Shaped(t)
  {
    || (exists p: Key :: LeafAt(t, k, p, st))
    || (!Stored(t, k) && exists x: Key, y: Key :: ForkAt(t, k, x, y))
    || (Stored(t, k) && exists p: Key :: LonelyAt(t, k, p, st))
  }

  /** `c` hangs below the key `pre` of `t`. */
  ghost predicate Hangs(t: Tree, pre: Key, c: Tree)
    requires Shaped(t) && Shaped(c)
  {
    forall q: Key :: Lookup(t, pre + q) == Lookup(c, q)
  }

  lemma Extends(a: Key, q: Key) returns (b: Key)
    requires a <= q
    ensures q == a + b
  {
    b := q[|a|..];
  }

  lemma LastStopHangs(t: Tree, pre: Key, c: Tree, k: Key, p: Key)
    requires Shaped(t) && Shaped(c) && Hangs(t, pre, c)
    ensures LastStop(t, pre + k, pre + p) <==> LastStop(c, k, p)
  {
    hide Lookup, Shaped;
    PrefixCancels(pre, p, k);
    if LastStop(t, pre + k, pre + p) {
      forall q: Key | Stored(c, q) && p <= q ensures q == p {
        PrefixCancels(pre, p, q);
        assert Stored(t, pre + q);
      }
    }
    if LastStop(c, k, p) {
      forall q: Key | Stored(t, q) && pre + p <= q ensures q == pre + p {
        var b := StoredBelow(t, pre, c, p, q);
      }
    }
  }

  lemma StoredBelow(t: Tree, pre: Key, c: Tree, p: Key, q: Key) returns (b: Key)
    requires Shaped(t) && Shaped(c) && Hangs(t, pre, c) && Stored(t, q) && pre + p <= q
    ensures q == pre + (p + b) && p <= p + b && Stored(c, p + b)
  {
    hide Lookup, Shaped;
    b := Extends(pre + p, q);
    AppendAssociates(pre, p, b);
  }

  lemma RestHangs(pre: Key, k: Key, p: Key)
    requires p <= k
    ensures |pre + p| <= |pre + k| && (pre + k)[|pre + p|..] == k[|p|..]
  {
  }

  lemma LeafHangs(t: Tree, pre: Key, c: Tree, k: Key, p: Key, st: Store)
    requires Shaped(t) && Shaped(c) && Hangs(t, pre, c)
    ensures LeafAt(t, pre + k, pre + p, st) <==> LeafAt(c, k, p, st)
  {
    hide Lookup, Shaped, AbsentUnder;
    LastStopHangs(t, pre, c, k, p);
    if LastStop(c, k, p) {
      RestHangs(pre, k, p);
    }
    assert Lookup(t, pre + p) == Lookup(c, p);
  }

  lemma IsLonelyHangs(t: Tree, pre: Key, c: Tree, k: Key, p: Key)
    requires Shaped(t) && Shaped(c) && Hangs(t, pre, c)
    ensures Lonely(t, pre + k, pre + p) <==> Lonely(c, k, p)
  {
    hide Lookup, Shaped;
    PrefixCancels(pre, p, k);
    if Lonely(t, pre + k, pre + p) {
      forall q: Key | Stored(c, q) && p <= q ensures q == p || q == k {
        PrefixCancels(pre, p, q);
        PrefixCancels(pre, k, q);
        assert Stored(t, pre + q);
      }
    }
    if Lonely(c, k, p) {
      forall q: Key | Stored(t, q) && pre + p <= q ensures q == pre + p || q == pre + k {
        var b := StoredBelow(t, pre, c, p, q);
      }
    }
  }

  lemma LonelyHangs(t: Tree, pre: Key, c: Tree, k: Key, p: Key, st: Store)
    requires Shaped(t) && Shaped(c) && Hangs(t, pre, c)
    ensures LonelyAt(t, pre + k, pre + p, st) <==> LonelyAt(c, k, p, st)
  {
    hide Lookup, Shaped, ReadsAsPair, Afterwards;
    IsLonelyHangs(t, pre, c, k, p);
    if Lonely(c, k, p) {
      RestHangs(pre, k, p);
    }
    assert Lookup(t, pre + p) == Lookup(c, p) && Lookup(t, pre + k) == Lookup(c, k);
  }

  lemma ForkHangs(t: Tree, pre: Key, c: Tree, k: Key, x: Key, y: Key)
    requires Shaped(t) && Shaped(c) && Hangs(t, pre, c)
    ensures ForkAt(t, pre + k, x, y) <==> ForkAt(c, k, x, y)
  {
    hide Lookup, Shaped;
    AppendAssociates(pre, k, x);
    AppendAssociates(pre, k, y);
  }

  /** What is faulty below stays faulty above. */
  lemma FaultyUp(t: Tree, pre: Key, c: Tree, k: Key, st: Store)
    requires Shaped(t) && Shaped(c) && Hangs(t, pre, c) && Faulty(c, k, st)
    ensures Faulty(t, pre + k, st)
  {
    hide Lookup, Shaped, LeafAt, ForkAt, LonelyAt;
    if p: Key :| LeafAt(c, k, p, st) {
      LeafHangs(t, pre, c, k, p, st);
    } else if !Stored(c, k) {
      var x: Key, y: Key :| ForkAt(c, k, x, y);
      ForkHangs(t, pre, c, k, x, y);
    } else {
      var p: Key :| LonelyAt(c, k, p, st);
      LonelyHangs(t, pre, c, k, p, st);
    }
  }

  /** ... and what is faulty above is faulty below, unless a key shorter than `pre` is to blame. */
  lemma FaultyDown(t: Tree, pre: Key, c: Tree, k: Key, st: Store)
    requires Shaped(t) && Shaped(c) && Hangs(t, pre, c) && Faulty(t, pre + k, st)
    ensures Faulty(c, k, st)
      || (exists p: Key :: (LeafAt(t, pre + k, p, st) || (Stored(c, k) && LonelyAt(t, pre + k, p, st))) && !(pre <= p))
  {
    hide Lookup, Shaped, LeafAt, ForkAt, LonelyAt;
    if p: Key :| LeafAt(t, pre + k, p, st) {
      if pre <= p {
        var b := Extends(pre, p);
        LeafHangs(t, pre, c, k, b, st);
      }
    } else if !Stored(t, pre + k) {
      var x: Key, y: Key :| ForkAt(t, pre + k, x, y);
      ForkHangs(t, pre, c, k, x, y);
    } else {
      var p: Key :| LonelyAt(t, pre + k, p, st);
      if pre <= p {
        var b := Extends(pre, p);
        LonelyHangs(t, pre, c, k, b, st);
      }
    }
  }

  // ---------------------------------------------------------------- faults, node by node

  lemma FaultLeaf(t: Tree, k: Key, st: Store)
    requires Canonical(t) && t.Leaf?
    ensures Delete(t, k, st).Fault? <==> Faulty(t, k, st)
  {
    if Delete(t, k, st).Fault? {
      assert LeafAt(t, k, t.key, st);
    }
    if x: Key, y: Key :| ForkAt(t, k, x, y) {
      PrefixCancels(k, x, y);
    }
  }

  lemma {:induction false} FaultExt(t: Tree, k: Key, st: Store)
    requires Canonical(t) && t.Ext?
    requires t.key <= k ==> (Delete(t.child, k[|t.key|..], st).Fault? <==> Faulty(t.child, k[|t.key|..], st))
    ensures Delete(t, k, st).Fault? <==> Faulty(t, k, st)
  {
    var key, c := t.key, t.child;
    forall q: Key ensures Lookup(t, key + q) == Lookup(c, q) {
      LookupBelowExt(key, c, q);
    }
    if key <= k {
      var k' := Extends(key, k);
      assert k' == k[|key|..];
      if Faulty(c, k', st) { FaultyUp(t, key, c, k', st); }
      if Faulty(t, k, st) { FaultyDown(t, key, c, k', st); }
    } else if x: Key, y: Key :| ForkAt(t, k, x, y) {
      CommonPrefix(key, k, x, y);
    }
  }

  lemma FaultAtBranch(t: Tree, st: Store)
    requires Canonical(t) && t.Branch?
    ensures Delete(t, [], st).Fault? <==> Faulty(t, [], st)
  {
    if t.value == [] {
      var x, y := Diverging(t);
      assert [] + x == x && [] + y == y;
      assert ForkAt(t, [], x, y);
    }
  }

  /** Removing a key from below a branch faults in the branch itself exactly when it would leave
      the branch's value alone and that value is taken for the hash of a two-item node. */
  lemma {:induction false} ShrinkFault(t: Tree, n: nibble, k: Key, st: Store)
    requires Canonical(t) && t.Branch? && Delete(t.children[n], k, st).Removed?
    ensures
      var b := Branch(t.children[n := Delete(t.children[n], k, st).tree], t.value);
      Shrink(b, GivenBack(st, t.children[n], t)).Fault? <==> LonelyAt(t, [n] + k, [], st)
  {
    hide GivenBack, ReadsAsPair;
    var b := Branch(t.children[n := Delete(t.children[n], k, st).tree], t.value);
    if Only(b, NONE, 16) {
      forall q: Key | Stored(t, q) && q != [] ensures q == [n] + k {
        assert !SlotUsed(b, q[0]);
        OnlyKey(t, n, k, q, st);
      }
      LonelyShape(t, n, k, b, st);
    }
    if Lonely(t, [n] + k, []) {
      forall i: nat | i < 16 ensures !SlotUsed(b, i) {
        if SlotUsed(b, i) {
          var q := OtherKey(t, n, k, i, st);
        }
      }
      LonelyShape(t, n, k, b, st);
    }
  }

  /** A branch that is left without children had just the one entry. */
  lemma {:induction false} LonelyShape(t: Tree, n: nibble, k: Key, b: Tree, st: Store)
    requires Canonical(t) && t.Branch? && Delete(t.children[n], k, st).Removed?
    requires b == Branch(t.children[n := Delete(t.children[n], k, st).tree], t.value)
    requires forall i: nat :: i < 16 ==> !SlotUsed(b, i)
    ensures t.children[n] == Leaf(k, Lookup(t, [n] + k))
    ensures t == Pair([n] + k, Lookup(t, [n] + k), t.value)
  {
    var c := t.children[n];
    DeleteLookup(c, k, [], st);
    LookupBelowBranch(t, n, k);
    assert !SlotUsed(b, n);
    if c.Ext? {
      DeleteLookup(c.child, k[|c.key|..], [], st);
    }
    assert ([n] + k)[1..] == k;
    forall i: nat | i < 16 ensures t.children[i] == NoChildren()[n := c][i] {
      assert !SlotUsed(b, i);
    }
    assert t.children == NoChildren()[n := c];
  }

  lemma {:induction false} OnlyKey(t: Tree, n: nibble, k: Key, q: Key, st: Store)
    requires Canonical(t) && t.Branch? && Delete(t.children[n], k, st).Removed?
    requires Stored(t, q) && q != []
    requires t.children[n := Delete(t.children[n], k, st).tree][q[0]] == Null
    ensures q == [n] + k
  {
    var q' := q[1..];
    DeleteLookup(t.children[n], k, q', st);
    assert Lookup(t, q) == Lookup(t.children[q[0]], q');
    assert q[0] == n;
    assert Lookup(Delete(t.children[n], k, st).tree, q') == [];
    assert q == [q[0]] + q';
  }

  lemma {:induction false} OtherKey(t: Tree, n: nibble, k: Key, i: nibble, st: Store) returns (q: Key)
    requires Canonical(t) && t.Branch? && Delete(t.children[n], k, st).Removed?
    requires t.children[n := Delete(t.children[n], k, st).tree][i] != Null
    ensures Stored(t, q) && q != [] && q != [n] + k
  {
    assert ([n] + k)[0] == n;
    if i == n {
      var c' := Delete(t.children[n], k, st).tree;
      DeleteLookup(t.children[n], k, [], st);
      var q' := SomeKey(c');
      DeleteLookup(t.children[n], k, q', st);
      LookupBelowBranch(t, n, q');
      PrefixCancels([n], q', k);
      q := [n] + q';
    } else {
      q := SomeKeyUnder(t, i);
    }
  }

  /** A branch is never the last stop of all the keys below it. */
  lemma NotLeafAtBranch(t: Tree, k: Key, st: Store)
    requires Canonical(t) && t.Branch?
    ensures !LeafAt(t, k, [], st)
  {
    var x, y := Diverging(t);
    assert Stored(t, x) && Stored(t, y) && [] <= x && [] <= y;
  }

  lemma ShortPrefix(p: Key, n: nibble, k: Key)
    requires p <= [n] + k && !([n] <= p)
    ensures p == []
  {
    assert p == ([n] + k)[..|p|];
  }

  lemma {:induction false} FaultBranch(t: Tree, n: nibble, k: Key, st: Store)
    requires Canonical(t) && t.Branch?
    requires Delete(t.children[n], k, st).Fault? <==> Faulty(t.children[n], k, st)
    ensures Delete(t, [n] + k, st).Fault? <==> Faulty(t, [n] + k, st)
  {
    var c := t.children[n];
    forall q: Key ensures Lookup(t, [n] + q) == Lookup(c, q) {
      LookupBelowBranch(t, n, q);
    }
    assert ([n] + k)[1..] == k;
    DeleteLookup(c, k, [], st);
    if Delete(c, k, st).Removed? {
      ShrinkFault(t, n, k, st);
      assert Delete(t, [n] + k, st)
        == Shrink(Branch(t.children[n := Delete(c, k, st).tree], t.value), GivenBack(st, c, t));
    }
    hide Delete, Lookup, Canonical;
    if Faulty(c, k, st) { FaultyUp(t, [n], c, k, st); }
    if Faulty(t, [n] + k, st) {
      FaultyDown(t, [n], c, k, st);
      NotLeafAtBranch(t, [n] + k, st);
      forall p: Key | ProperPrefix(p, [n] + k) && !([n] <= p) ensures p == [] {
        ShortPrefix(p, n, k);
      }
    }
  }

  /** Removal faults exactly on the keys that are faulty for the stored map. */
  lemma {:induction false} FaultsExactly(t: Tree, k: Key, st: Store)
    requires Canonical(t)
    ensures Delete(t, k, st).Fault? <==> Faulty(t, k, st)
    decreases t
  {
    match t
    case Null =>
    case Leaf(_, _) =>
      FaultLeaf(t, k, st);
    case Ext(key, c) =>
      if key <= k {
        FaultsExactly(c, k[|key|..], st);
      }
      FaultExt(t, k, st);
    case Branch(cs, _) =>
      if k == [] {
        FaultAtBranch(t, st);
      } else {
        FaultsExactly(cs[k[0]], k[1..], st);
        FaultBranch(t, k[0], k[1..], st);
        assert k == [k[0]] + k[1..];
      }
  }

  /** Where counts are not enforced, giving nodes back takes no string away, so the value is looked up
      in the store as it was. */
  lemma AskedBefore(st: Store, rest: Key, entry: bytes, value: bytes)
    requires rest != [] && !st.enforceRefs
    ensures ReadsAsPair(Afterwards(st, rest, entry, value), value) <==> ReadsAsPair(st, value)
  {
    hide Encoding;
    var c, t := Leaf(rest[1..], entry), Pair(rest, entry, value);
    assert forall m: Cache, u: Tree, h :: Shaped(u) ==> (h in Released(m, u, false) <==> h in m);
    assert forall m: Cache, u: Tree, h :: Shaped(u) && h in m ==> Released(m, u, false)[h].value == m[h].value;
    assert Afterwards(st, rest, entry, value).Lookup(ToHash(value)) == st.Lookup(ToHash(value));
  }

  /** No other stored key is a prefix of `k` or has `k` as a prefix: always so for keys of one
      length, as in SpecificTrieDB and the hashed tries. */
  ghost predicate Apart(t: Tree, k: Key)
    requires Shaped(t)
  {
    forall q: Key :: Stored(t, q) && q != k ==> !(q <= k) && !(k <= q)
  }

  /** On such keys removal is total and is map deletion. */
  lemma DeleteRefines(t: Tree, k: Key, q: Key, st: Store)
    requires Canonical(t) && Apart(t, k)
    ensures !Delete(t, k, st).Fault?
    ensures Delete(t, k, st).Unchanged? <==> Lookup(t, k) == []
    ensures Delete(t, k, st).Removed? ==>
      var u := Delete(t, k, st).tree; Canonical(u) && Lookup(u, q) == if q == k then [] else Lookup(t, q)
  {
    FaultsExactly(t, k, st);
    DeleteLookup(t, k, q, st);
    forall x: Key ensures k <= k + x {
    }
  }

  /** Removing a key that was just inserted restores the very tree there was before. */
  lemma InsertThenDelete(t: Tree, k: Key, v: bytes, st: Store)
    requires Canonical(t) && Apart(t, k) && Lookup(t, k) == [] && v != []
    ensures Delete(Insert(t, k, v), k, st) == Removed(t)
  {
    var u := Insert(t, k, v);
    InsertCanonical(t, k, v);
    forall q: Key ensures Lookup(u, q) == if q == k then v else Lookup(t, q) {
      InsertLookup(t, k, v, q);
    }
    assert forall q: Key :: Stored(u, q) && q != k ==> Stored(t, q);
    DeleteRefines(u, k, [], st);
    var w := Delete(u, k, st).tree;
    forall q: Key ensures Lookup(w, q) == Lookup(t, q) {
      DeleteRefines(u, k, q, st);
    }
    CanonicalUnique(w, t);
  }
}
