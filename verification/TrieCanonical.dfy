/** Canonical trees are determined by the map they stand for, so a root cannot depend on the order
    of the operations that led to it. */
module TrieCanonical {
  import opened Bytes
  import opened HexPrefix
  import opened Tries

  ghost predicate SameMap(t: Tree, u: Tree)
    requires Shaped(t) && Shaped(u)
  {
    forall k: Key :: Lookup(t, k) == Lookup(u, k)
  }

  /** A key below slot `i` of a branch; slot 16 is the empty key. */
  predicate Under(k: Key, i: nat) {
    if k == [] then i == 16 else i == k[0]
  }

  /** Nothing in a canonical tree is there without a value below it. */
  lemma {:induction false} SomeKey(t: Tree) returns (k: Key)
    requires Canonical(t) && t != Null
    ensures Lookup(t, k) != []
  {
    match t
    case Leaf(key, _) =>
      k := key;
    case Ext(key, c) =>
      var a := SomeKey(c);
      k := key + a;
      assert k[|key|..] == a;
    case Branch(cs, _) =>
      var i: nat, j: nat :| i < j <= 16 && SlotUsed(t, i) && SlotUsed(t, j);
      k := SomeKeyUnder(t, i);
  }

  lemma {:induction false} SomeKeyUnder(t: Tree, i: nat) returns (k: Key)
    requires Canonical(t) && t.Branch? && i <= 16 && SlotUsed(t, i)
    ensures Lookup(t, k) != [] && Under(k, i)
    decreases t, 0
  {
    if i == 16 {
      k := [];
    } else {
      var a := SomeKey(t.children[i]);
      k := [i] + a;
      assert k[1..] == a;
    }
  }

  /** Different keys with no common prefix. */
  predicate Diverge(x: Key, y: Key) {
    if x == [] || y == [] then x != y else x[0] != y[0]
  }

  lemma CommonPrefix(p: Key, key: Key, x: Key, y: Key)
    requires Diverge(x, y) && p <= key + x && p <= key + y
    ensures p <= key
  {
    var n := if |p| < |key| then |p| else |key|;
    assert p[..n] == (key + x)[..n] == key[..n];
  }

  /** What an extension's keys have in common; nothing for other nodes. */
  function Stem(t: Tree): Key {
    if t.Ext? then t.key else []
  }

  lemma Diverging(t: Tree) returns (x: Key, y: Key)
    requires Canonical(t) && t.Branch?
    ensures Diverge(x, y) && Lookup(t, x) != [] && Lookup(t, y) != []
  {
    var i: nat, j: nat :| i < j <= 16 && SlotUsed(t, i) && SlotUsed(t, j);
    x := SomeKeyUnder(t, i);
    y := SomeKeyUnder(t, j);
  }

  /** A canonical extension or branch has two keys whose longest common prefix is its stem. */
  lemma TwoKeys(t: Tree) returns (x: Key, y: Key)
    requires Canonical(t) && (t.Ext? || t.Branch?)
    ensures Diverge(x, y) && Lookup(t, Stem(t) + x) != [] && Lookup(t, Stem(t) + y) != []
  {
    if t.Branch? {
      x, y := Diverging(t);
      assert [] + x == x && [] + y == y;
    } else {
      x, y := Diverging(t.child);
      LookupBelowExt(t.key, t.child, x);
      LookupBelowExt(t.key, t.child, y);
    }
  }

  lemma LookupBelowExt(key: Key, c: Tree, k: Key)
    requires Shaped(Ext(key, c))
    ensures Lookup(Ext(key, c), key + k) == Lookup(c, k)
  {
    assert (key + k)[|key|..] == k;
  }

  lemma LookupBelowBranch(t: Tree, i: nibble, k: Key)
    requires Shaped(t) && t.Branch?
    ensures Lookup(t, [i] + k) == Lookup(t.children[i], k)
  {
    assert ([i] + k)[1..] == k;
  }

  lemma SameMapNotLeaf(t: Tree, u: Tree)
    requires Canonical(t) && Canonical(u) && SameMap(t, u)
    requires t.Ext? || t.Branch?
    ensures u.Ext? || u.Branch?
  {
    var x, y := TwoKeys(t);
    assert Stem(t) + x != Stem(t) + y by {
      assert (Stem(t) + x)[|Stem(t)|..] == x && (Stem(t) + y)[|Stem(t)|..] == y;
    }
  }

  lemma SameMapStem(t: Tree, u: Tree)
    requires Canonical(t) && Canonical(u) && SameMap(t, u)
    requires (t.Ext? || t.Branch?) && (u.Ext? || u.Branch?)
    ensures Stem(u) <= Stem(t)
  {
    var x, y := TwoKeys(t);
    CommonPrefix(Stem(u), Stem(t), x, y);
  }

  /** Two canonical trees for the same map are the same tree. */
  lemma {:induction false} CanonicalUnique(t: Tree, u: Tree)
    requires Canonical(t) && Canonical(u) && SameMap(t, u)
    ensures t == u
    decreases t
  {
    if t == Null || u == Null {
      if t != Null {
        var k := SomeKey(t);
      }
      if u != Null {
        var k := SomeKey(u);
      }
    } else if t.Leaf? || u.Leaf? {
      if !t.Leaf? { SameMapNotLeaf(t, u); }
      if !u.Leaf? { SameMapNotLeaf(u, t); }
      assert Lookup(t, t.key) == Lookup(u, t.key);
    } else {
      SameMapStem(t, u);
      SameMapStem(u, t);
      if t.Ext? {
        forall k: Key ensures Lookup(t.child, k) == Lookup(u.child, k) {
          LookupBelowExt(t.key, t.child, k);
          LookupBelowExt(u.key, u.child, k);
          assert Lookup(t, t.key + k) == Lookup(u, t.key + k);
        }
        CanonicalUnique(t.child, u.child);
      } else {
        forall i: nibble ensures t.children[i] == u.children[i] {
          forall k: Key ensures Lookup(t.children[i], k) == Lookup(u.children[i], k) {
            LookupBelowBranch(t, i, k);
            LookupBelowBranch(u, i, k);
            assert Lookup(t, [i] + k) == Lookup(u, [i] + k);
          }
          CanonicalUnique(t.children[i], u.children[i]);
        }
        assert t.children == u.children;
        assert Lookup(t, []) == Lookup(u, []);
      }
    }
  }

  // ---------------------------------------------------------------- order of insertion

  datatype Entry = Entry(key: Key, value: bytes)

  /** A run of insertions, first entry first. */
  function InsertAll(t: Tree, es: seq<Entry>): (r: Tree)
    requires Shaped(t)
    ensures Shaped(r)
    decreases |es|
  {
    if es == [] then t
    else var last := es[|es| - 1]; Insert(InsertAll(t, es[..|es| - 1]), last.key, last.value)
  }

  /** The same run on a map. */
  function UpdateAll(m: map<Key, bytes>, es: seq<Entry>): map<Key, bytes>
    decreases |es|
  {
    if es == [] then m
    else var last := es[|es| - 1]; UpdateAll(m, es[..|es| - 1])[last.key := last.value]
  }

  ghost predicate NoEmptyValues(es: seq<Entry>) {
    forall i :: 0 <= i < |es| ==> es[i].value != []
  }

  function At(m: map<Key, bytes>, k: Key): bytes {
    if k in m then m[k] else []
  }

  /** The tree holds exactly the map. */
  ghost predicate Holds(t: Tree, m: map<Key, bytes>)
    requires Shaped(t)
  {
    forall k: Key :: Lookup(t, k) == At(m, k)
  }

  lemma {:induction false} InsertAllHolds(t: Tree, m: map<Key, bytes>, es: seq<Entry>)
    requires Shaped(t) && Holds(t, m)
    ensures Holds(InsertAll(t, es), UpdateAll(m, es))
    ensures Canonical(t) && NoEmptyValues(es) ==> Canonical(InsertAll(t, es))
    decreases |es|
  {
    if es != [] {
      var most, last := es[..|es| - 1], es[|es| - 1];
      InsertAllHolds(t, m, most);
      var u := InsertAll(t, most);
      forall k: Key ensures Lookup(Insert(u, last.key, last.value), k) == At(UpdateAll(m, es), k) {
        InsertLookup(u, last.key, last.value, k);
      }
      if Canonical(t) && NoEmptyValues(es) {
        InsertCanonical(u, last.key, last.value);
      }
    }
  }

  // ---------------------------------------------------------------- trees that insertion builds

  /** An extension always leads to a branch, whatever the values. */
  ghost predicate Jointed(t: Tree): (b: bool)
    ensures b ==> Shaped(t)
  {
    && (t.Ext? ==> t.key != [] && t.child.Branch? && Jointed(t.child))
    && (t.Branch? ==> |t.children| == 16 && forall i :: 0 <= i < |t.children| ==> Jointed(t.children[i]))
  }

  lemma {:induction false} CanonicalJointed(t: Tree)
    requires Canonical(t)
    ensures Jointed(t)
  {
    match t
    case Ext(_, c) => CanonicalJointed(c);
    case Branch(cs, _) =>
      forall i | 0 <= i < |cs| ensures Jointed(cs[i]) {
        CanonicalJointed(cs[i]);
      }
    case _ =>
  }

  lemma SplitInsertJointed(t: Tree, k: Key, v: bytes)
    requires Jointed(t) && !Direct(t, k) && SharedPrefix(k, t.key) == 0
    ensures Insert(t, k, v).Branch? && Jointed(Insert(t, k, v))
  {
    SplitInsert(t, k, v);
  }

  /** Insertion keeps that, empty values or not. */
  lemma {:induction false} InsertJointed(t: Tree, k: Key, v: bytes)
    requires Jointed(t)
    ensures Jointed(Insert(t, k, v))
    decreases t
  {
    if !Direct(t, k) {
      if SharedPrefix(k, t.key) > 0 {
        CleveInsert(t, k, v);
        SplitInsertJointed(Cleve(t, SharedPrefix(k, t.key)).child, k[SharedPrefix(k, t.key)..], v);
      } else {
        SplitInsertJointed(t, k, v);
      }
    } else if t.Ext? {
      InsertJointed(t.child, k[|t.key|..], v);
    } else if t.Branch? && k != [] {
      InsertJointed(t.children[k[0]], k[1..], v);
    }
  }

  // ---------------------------------------------------------------- empty values

  /** A branch with two children lies exactly at `k`. */
  ghost predicate ForksAt(t: Tree, k: Key)
    requires Shaped(t)
  {
    match t
    case Ext(key, c) => key <= k && ForksAt(c, k[|key|..])
    case Branch(cs, _) =>
      if k == [] then exists i: nat, j: nat :: i < j < 16 && SlotUsed(t, i) && SlotUsed(t, j)
      else ForksAt(cs[k[0]], k[1..])
    case _ => false
  }

  /** Stored keys that go on from `k` part at the very next nibble. */
  ghost predicate PartAt(t: Tree, k: Key, x: Key, y: Key)
    requires Shaped(t)
  {
    x != [] && y != [] && x[0] != y[0] && Lookup(t, k + x) != [] && Lookup(t, k + y) != []
  }

  /** Inserting an empty value leaves a canonical tree exactly when a branch is there without it. */
  lemma {:induction false} EmptyInsert(t: Tree, k: Key)
    requires Canonical(t)
    ensures Canonical(Insert(t, k, [])) <==> ForksAt(t, k)
    decreases t
  {
    var u := Insert(t, k, []);
    if !Direct(t, k) {
      EmptySplit(t, k);
    } else if t.Ext? {
      EmptyInsert(t.child, k[|t.key|..]);
    } else if t.Branch? && k == [] {
      assert forall i: nat :: i < 16 ==> SlotUsed(u, i) == SlotUsed(t, i);
      assert !SlotUsed(u, 16);
    } else if t.Branch? {
      EmptyInsert(t.children[k[0]], k[1..]);
      assert u.children == t.children[k[0] := Insert(t.children[k[0]], k[1..], [])];
      var i: nat, j: nat :| i < j <= 16 && SlotUsed(t, i) && SlotUsed(t, j);
      assert SlotUsed(u, i) && SlotUsed(u, j);
      assert Canonical(u) ==> Canonical(u.children[k[0]]);
    }
  }

  /** Splitting a node for an empty value leaves an empty leaf, or a branch with one slot in use. */
  lemma EmptySplit(t: Tree, k: Key)
    requires Canonical(t) && !Direct(t, k)
    ensures !Canonical(Insert(t, k, []))
  {
    var s := SharedPrefix(k, t.key);
    if s > 0 {
      CleveInsert(t, k, []);
      EmptyApart(Cleve(t, s).child, k[s..]);
    } else {
      EmptyApart(t, k);
    }
  }

  lemma EmptyApart(t: Tree, k: Key)
    requires Shaped(t) && !Direct(t, k) && SharedPrefix(k, t.key) == 0
    ensures !Canonical(Insert(t, k, []))
  {
    SplitInsert(t, k, []);
    var u := Insert(t, k, []);
    if k == [] {
      assert forall i: nat :: i <= 16 && i != t.key[0] ==> !SlotUsed(u, i);
    } else {
      assert u.children[k[0]] == Leaf(k[1..], []);
    }
  }

  lemma {:induction false} ForksExactly(t: Tree, k: Key)
    requires Canonical(t)
    ensures ForksAt(t, k) <==> exists x: Key, y: Key :: PartAt(t, k, x, y)
    decreases t
  {
    match t
    case Null =>
    case Leaf(_, _) =>
      if x: Key, y: Key :| PartAt(t, k, x, y) {
        PrefixCancels(k, x, y);
      }
    case Ext(key, c) =>
      if key <= k {
        var rest := k[|key|..];
        ForksExactly(c, rest);
        forall q: Key ensures Lookup(t, key + q) == Lookup(c, q) {
          LookupBelowExt(key, c, q);
        }
        PartBelow(t, key, c, rest);
        assert key + rest == k;
      } else if x: Key, y: Key :| PartAt(t, k, x, y) {
        CommonPrefix(key, k, x, y);
      }
    case Branch(cs, _) =>
      if k != [] {
        var n, rest := k[0], k[1..];
        ForksExactly(cs[n], rest);
        forall q: Key ensures Lookup(t, [n] + q) == Lookup(cs[n], q) {
          LookupBelowBranch(t, n, q);
        }
        PartBelow(t, [n], cs[n], rest);
        assert [n] + rest == k;
      } else {
        ForksHere(t);
      }
  }

  lemma PartBelow(t: Tree, pre: Key, c: Tree, k: Key)
    requires Shaped(t) && Shaped(c) && forall q: Key :: Lookup(t, pre + q) == Lookup(c, q)
    ensures forall x: Key, y: Key :: PartAt(t, pre + k, x, y) <==> PartAt(c, k, x, y)
  {
    hide Lookup, Shaped;
    forall x: Key ensures Lookup(t, pre + k + x) == Lookup(c, k + x) {
      AppendAssociates(pre, k, x);
    }
  }

  lemma SlotOf(t: Tree, x: Key)
    requires Shaped(t) && t.Branch? && x != [] && Lookup(t, x) != []
    ensures SlotUsed(t, x[0])
  {
  }

  lemma ForksHere(t: Tree)
    requires Canonical(t) && t.Branch?
    ensures ForksAt(t, []) <==> exists x: Key, y: Key :: PartAt(t, [], x, y)
  {
    hide Canonical, Lookup;
    if i: nat, j: nat :| i < j < 16 && SlotUsed(t, i) && SlotUsed(t, j) {
      var x := SomeKeyUnder(t, i);
      var y := SomeKeyUnder(t, j);
      assert [] + x == x && [] + y == y;
      assert PartAt(t, [], x, y);
    }
    if x: Key, y: Key :| PartAt(t, [], x, y) {
      assert [] + x == x && [] + y == y;
      SlotOf(t, x);
      SlotOf(t, y);
      assert x[0] < y[0] || y[0] < x[0];
    }
  }

  /** Insertion keeps a tree canonical exactly when the value is not empty, or stored keys that go on
      from the key part right behind it. */
  lemma InsertCanonicalExactly(t: Tree, k: Key, v: bytes)
    requires Canonical(t)
    ensures Canonical(Insert(t, k, v)) <==> v != [] || exists x: Key, y: Key :: PartAt(t, k, x, y)
  {
    if v != [] {
      InsertCanonical(t, k, v);
    } else {
      EmptyInsert(t, k);
      ForksExactly(t, k);
    }
  }

  /** On an untouched trie, for example: looking the key up still agrees with the map, but the tree
      is not the empty one. */
  lemma EmptyValueLeavesATrace(k: Key)
    ensures !Canonical(Insert(Null, k, [])) && SameMap(Insert(Null, k, []), Null)
  {
  }
}
