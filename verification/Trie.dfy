/** The modified Merkle-Patricia tree as a value (Yellow Paper, Appendix D), with the insertion and
    lookup of GenericTrieDB (TrieDB.h:777-922, 1068-1195) on it.  An empty value stands for "no
    value", as in the source, where `at` returns the empty string for a missing key. */
module Tries {
  import opened Bytes
  import opened HexPrefix

  datatype Tree =
    | Null
    | Leaf(key: Key, value: bytes)
    | Ext(key: Key, child: Tree)
    | Branch(children: seq<Tree>, value: bytes)

  /** What every tree the code builds satisfies, canonical or not. */
  ghost predicate Shaped(t: Tree) {
    && (t.Ext? ==> t.key != [] && t.child != Null && Shaped(t.child))
    && (t.Branch? ==> |t.children| == 16 && forall i :: 0 <= i < |t.children| ==> Shaped(t.children[i]))
  }

  function NoChildren(): (cs: seq<Tree>)
    ensures |cs| == 16 && forall i :: 0 <= i < 16 ==> cs[i] == Null
  {
    seq(16, _ => Null)
  }

  predicate TwoItem(t: Tree) {
    t.Leaf? || t.Ext?
  }

  // ---------------------------------------------------------------- lookup

  /** atAux. */
  function Lookup(t: Tree, k: Key): bytes
    requires Shaped(t)
  {
    match t
    case Null => []
    case Leaf(key, v) => if k == key then v else []
    case Ext(key, c) => if key <= k then Lookup(c, k[|key|..]) else []
    case Branch(cs, v) => if k == [] then v else Lookup(cs[k[0]], k[1..])
  }

  // ---------------------------------------------------------------- insertion

  /** cleve: split a two-item node after its first `s` nibbles. */
  function Cleve(t: Tree, s: nat): (r: Tree)
    requires Shaped(t) && TwoItem(t) && 0 < s <= |t.key| && (t.Ext? ==> s < |t.key|)
    ensures Shaped(r) && r.Ext? && r.key == t.key[..s]
  {
    Ext(t.key[..s], if t.Leaf? then Leaf(t.key[s..], t.value) else Ext(t.key[s..], t.child))
  }

  /** branch: turn a two-item node into a branch with one slot in use. */
  function Fork(t: Tree): (r: Tree)
    requires Shaped(t) && TwoItem(t)
    ensures Shaped(r) && r.Branch?
  {
    if t.key == [] then Branch(NoChildren(), t.value)
    else
      var below := if t.Leaf? then Leaf(t.key[1..], t.value)
                   else if |t.key| > 1 then Ext(t.key[1..], t.child)
                   else t.child;
      Branch(NoChildren()[t.key[0] := below], [])
  }

  /** Nodes that mergeAt enters without splitting them first. */
  predicate Direct(t: Tree, k: Key) {
    match t
    case Leaf(key, _) => key == k
    case Ext(key, _) => key <= k
    case _ => true
  }

  lemma CleveIsDirect(t: Tree, k: Key)
    requires Shaped(t) && !Direct(t, k) && SharedPrefix(k, t.key) > 0
    ensures t.Ext? ==> SharedPrefix(k, t.key) < |t.key|
    ensures k[..SharedPrefix(k, t.key)] == t.key[..SharedPrefix(k, t.key)]
  {
    SharedPrefixIsLongest(k, t.key);
    var s := SharedPrefix(k, t.key);
    if s == |t.key| {
      assert t.key[..s] == t.key;
    }
  }

  /** mergeAt. */
  function Insert(t: Tree, k: Key, v: bytes): (r: Tree)
    requires Shaped(t)
    ensures Shaped(r) && r != Null
    ensures t.Branch? ==> r.Branch?
    decreases |k|, if Direct(t, k) then 0 else 1
  {
    if Direct(t, k) then
      match t
      case Null => Leaf(k, v)
      case Leaf(key, _) => Leaf(key, v)
      case Ext(key, c) => Ext(key, Insert(c, k[|key|..], v))
      case Branch(cs, w) =>
        if k == [] then Branch(cs, v)
        else Branch(cs[k[0] := Insert(cs[k[0]], k[1..], v)], w)
    else
      var s := SharedPrefix(k, t.key);
      if s > 0 then
        CleveIsDirect(t, k);
        Insert(Cleve(t, s), k, v)
      else
        Insert(Fork(t), k, v)
  }

  /** What mergeAt makes of a node it has to split at the first nibble. */
  lemma SplitInsert(t: Tree, k: Key, v: bytes)
    requires Shaped(t) && !Direct(t, k) && SharedPrefix(k, t.key) == 0
    ensures Insert(t, k, v) == Insert(Fork(t), k, v)
    ensures var b := Fork(t);
      Insert(t, k, v) ==
        if k == [] then Branch(b.children, v)
        else Branch(b.children[k[0] := Leaf(k[1..], v)], b.value)
    ensures k == [] ==> t.key != [] && Fork(t).value == []
    ensures k != [] ==> Fork(t).children[k[0]] == Null
  {
    SharedPrefixIsLongest(k, t.key);
    var b := Fork(t);
    if k != [] {
      assert t.key == [] || t.key[0] != k[0];
      assert b.children[k[0]] == Null;
      assert Insert(Null, k[1..], v) == Leaf(k[1..], v);
    }
  }

  /** ... and of one that shares its first `s` nibbles with the key. */
  lemma CleveInsert(t: Tree, k: Key, v: bytes)
    requires Shaped(t) && !Direct(t, k) && SharedPrefix(k, t.key) > 0
    ensures var s := SharedPrefix(k, t.key);
      s <= |t.key| && (t.Ext? ==> s < |t.key|) && s <= |k| && k[..s] == t.key[..s]
      && var low := Cleve(t, s).child;
         !Direct(low, k[s..]) && SharedPrefix(k[s..], low.key) == 0
         && Insert(t, k, v) == Ext(t.key[..s], Insert(low, k[s..], v))
  {
    CleveIsDirect(t, k);
    var s := SharedPrefix(k, t.key);
    SharedPrefixIsLongest(k, t.key);
    var c := Cleve(t, s);
    assert Insert(t, k, v) == Insert(c, k, v);
    assert t.key == t.key[..s] + t.key[s..] && k == k[..s] + k[s..];
  }

  // ---------------------------------------------------------------- insertion refines map update

  lemma ForkLookup(t: Tree, k: Key)
    requires Shaped(t) && TwoItem(t)
    ensures Lookup(Fork(t), k) == Lookup(t, k)
  {
    if t.key != [] && k != [] {
      assert t.key == [t.key[0]] + t.key[1..] && k == [k[0]] + k[1..];
      if t.Ext? && t.key <= k {
        assert k[1..][|t.key| - 1..] == k[|t.key|..];
      }
    }
  }

  lemma CleveLookup(t: Tree, s: nat, k: Key)
    requires Shaped(t) && TwoItem(t) && 0 < s <= |t.key| && (t.Ext? ==> s < |t.key|)
    ensures Lookup(Cleve(t, s), k) == Lookup(t, k)
  {
    var a, b := t.key[..s], t.key[s..];
    assert t.key == a + b;
    if a <= k {
      assert k == a + k[s..];
      if t.Ext? && b <= k[s..] {
        assert k[s..][|b|..] == k[|t.key|..];
      }
    }
  }

  /** Inserting is updating the map from keys to values: the key gets its value, no other key
      changes, whatever the keys' lengths and whether one is a prefix of another. */
  lemma {:induction false} InsertLookup(t: Tree, k: Key, v: bytes, q: Key)
    requires Shaped(t)
    ensures Lookup(Insert(t, k, v), q) == if q == k then v else Lookup(t, q)
    decreases |k|, if Direct(t, k) then 0 else 1
  {
    if Direct(t, k) {
      match t
      case Null =>
      case Leaf(_, _) =>
      case Ext(key, c) =>
        if key <= q {
          InsertLookup(c, k[|key|..], v, q[|key|..]);
          assert k == key + k[|key|..] && q == key + q[|key|..];
        }
      case Branch(cs, w) =>
        if k != [] && q != [] && q[0] == k[0] {
          InsertLookup(cs[k[0]], k[1..], v, q[1..]);
          assert k == [k[0]] + k[1..] && q == [q[0]] + q[1..];
        }
    } else {
      var s := SharedPrefix(k, t.key);
      if s > 0 {
        CleveIsDirect(t, k);
        InsertLookup(Cleve(t, s), k, v, q);
        CleveLookup(t, s, q);
      } else {
        InsertLookup(Fork(t), k, v, q);
        ForkLookup(t, q);
      }
    }
  }

  // ---------------------------------------------------------------- canonical trees

  /** Slot 16 of a branch is its value. */
  predicate SlotUsed(t: Tree, i: nat)
    requires t.Branch? && |t.children| == 16 && i <= 16
  {
    if i == 16 then t.value != [] else t.children[i] != Null
  }

  ghost predicate TwoSlots(t: Tree)
    requires t.Branch? && |t.children| == 16
  {
    exists i: nat, j: nat :: i < j <= 16 && SlotUsed(t, i) && SlotUsed(t, j)
  }

  /** The trees the standard allows: no empty values stored, an extension leads to a branch, a
      branch has at least two of its 17 slots in use. */
  ghost predicate Canonical(t: Tree): (b: bool)
    ensures b ==> Shaped(t)
  {
    && (t.Leaf? ==> t.value != [])
    && (t.Ext? ==> t.key != [] && t.child.Branch? && Canonical(t.child))
    && (t.Branch? ==>
      |t.children| == 16 && (forall i :: 0 <= i < |t.children| ==> Canonical(t.children[i])) && TwoSlots(t))
  }

  /** The branch made by splitting a node is canonical once the new entry is in. */
  lemma SplitInsertCanonical(t: Tree, k: Key, v: bytes)
    requires Canonical(t) && !Direct(t, k) && SharedPrefix(k, t.key) == 0 && v != []
    ensures Insert(t, k, v).Branch? && Canonical(Insert(t, k, v))
  {
    SplitInsert(t, k, v);
    var b := Fork(t);
    var r := Insert(t, k, v);
    var old_ := if t.key == [] then 16 else t.key[0];
    var new_ := if k == [] then 16 else k[0];
    assert SlotUsed(b, old_);
    assert SlotUsed(r, old_) && SlotUsed(r, new_) && old_ != new_;
    assert old_ < new_ || new_ < old_;
    forall i | 0 <= i < 16 ensures Canonical(r.children[i]) {
      if i != new_ && i == old_ && t.Leaf? {
        assert r.children[i] == Leaf(t.key[1..], t.value);
      }
    }
  }

  /** The non-canonical nodes cleve and branch make on the way never survive an insertion. */
  lemma {:induction false} InsertCanonical(t: Tree, k: Key, v: bytes)
    requires Canonical(t) && v != []
    ensures Canonical(Insert(t, k, v))
    decreases |k|, if Direct(t, k) then 0 else 1
  {
    if Direct(t, k) {
      match t
      case Null =>
      case Leaf(_, _) =>
      case Ext(key, c) =>
        InsertCanonical(c, k[|key|..], v);
      case Branch(cs, w) =>
        InsertCanonicalBranch(t, k, v);
    } else {
      var s := SharedPrefix(k, t.key);
      if s > 0 {
        CleveInsert(t, k, v);
        SplitInsertCanonical(Cleve(t, s).child, k[s..], v);
      } else {
        SplitInsertCanonical(t, k, v);
      }
    }
  }

  lemma {:induction false} InsertCanonicalBranch(t: Tree, k: Key, v: bytes)
    requires Canonical(t) && v != [] && t.Branch?
    ensures Canonical(Insert(t, k, v))
    decreases |k|, 0, 0
  {
    var r := Insert(t, k, v);
    if k != [] {
      InsertCanonical(t.children[k[0]], k[1..], v);
    }
    var i: nat, j: nat :| i < j <= 16 && SlotUsed(t, i) && SlotUsed(t, j);
    assert SlotUsed(r, i) && SlotUsed(r, j);
  }
}
