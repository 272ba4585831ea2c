/** Tries with empty values.  The code treats values as opaque, so what holds for values that are not
    empty carries over: put a tag in front of every value, build the tree, take the tags off. */
module TrieTags {
  import opened Bytes
  import opened HexPrefix
  import opened Tries
  import opened TrieCanonical

  function Tagged(v: bytes): bytes {
    [Octet(1)] + v
  }

  function Untagged(v: bytes): bytes {
    if v == [] then [] else v[1..]
  }

  /** The tree without the tags. */
  function Strip(t: Tree): (r: Tree)
    ensures Shaped(t) ==> Shaped(r)
    ensures r == Null <==> t == Null
  {
    match t
    case Null => Null
    case Leaf(key, v) => Leaf(key, Untagged(v))
    case Ext(key, c) => Ext(key, Strip(c))
    case Branch(cs, v) => Branch(StripAll(cs), Untagged(v))
  }

  function StripAll(cs: seq<Tree>): (rs: seq<Tree>)
    ensures |rs| == |cs| && forall i :: 0 <= i < |cs| ==> rs[i] == Strip(cs[i])
    ensures (forall i :: 0 <= i < |cs| ==> Shaped(cs[i])) ==> forall i :: 0 <= i < |cs| ==> Shaped(rs[i])
  {
    if cs == [] then [] else [Strip(cs[0])] + StripAll(cs[1..])
  }

  lemma StripSlot(cs: seq<Tree>, i: nat, c: Tree)
    requires i < |cs|
    ensures StripAll(cs[i := c]) == StripAll(cs)[i := Strip(c)]
  {
  }

  lemma StripNone()
    ensures StripAll(NoChildren()) == NoChildren()
  {
  }

  lemma {:induction false} StripLookup(t: Tree, k: Key)
    requires Shaped(t)
    ensures Lookup(Strip(t), k) == Untagged(Lookup(t, k))
  {
    match t
    case Ext(key, c) =>
      if key <= k {
        StripLookup(c, k[|key|..]);
      }
    case Branch(cs, _) =>
      if k != [] {
        StripLookup(cs[k[0]], k[1..]);
      }
    case _ =>
  }

  lemma StripFork(t: Tree)
    requires Shaped(t) && TwoItem(t)
    ensures Strip(Fork(t)) == Fork(Strip(t))
  {
    hide StripAll;
    StripNone();
    if t.key != [] {
      StripSlot(NoChildren(), t.key[0], Fork(t).children[t.key[0]]);
    }
  }

  lemma StripCleve(t: Tree, s: nat)
    requires Shaped(t) && TwoItem(t) && 0 < s <= |t.key| && (t.Ext? ==> s < |t.key|)
    ensures Strip(Cleve(t, s)) == Cleve(Strip(t), s)
  {
  }

  lemma StripBranchInsert(t: Tree, k: Key, v: bytes)
    requires Shaped(t) && t.Branch? && k != []
    requires var c := t.children[k[0]]; Strip(Insert(c, k[1..], Tagged(v))) == Insert(Strip(c), k[1..], v)
    ensures Strip(Insert(t, k, Tagged(v))) == Insert(Strip(t), k, v)
  {
    hide StripAll;
    StripSlot(t.children, k[0], Insert(t.children[k[0]], k[1..], Tagged(v)));
  }

  /** Insertion never looks at a value. */
  lemma {:induction false} StripInsert(t: Tree, k: Key, v: bytes)
    requires Shaped(t)
    ensures Strip(Insert(t, k, Tagged(v))) == Insert(Strip(t), k, v)
    decreases |k|, if Direct(t, k) then 0 else 1
  {
    if Direct(t, k) {
      match t
      case Ext(key, c) =>
        StripInsert(c, k[|key|..], v);
      case Branch(cs, w) =>
        if k != [] {
          StripInsert(cs[k[0]], k[1..], v);
          StripBranchInsert(t, k, v);
        }
      case _ =>
    } else {
      var s := SharedPrefix(k, t.key);
      if s > 0 {
        CleveIsDirect(t, k);
        StripInsert(Cleve(t, s), k, v);
        StripCleve(t, s);
      } else {
        StripInsert(Fork(t), k, v);
        StripFork(t);
      }
    }
  }

  /** Without empty values, taking the tags off leaves a canonical tree. */
  lemma {:induction false} StripCanonical(t: Tree)
    requires Canonical(t) && forall k: Key :: Lookup(t, k) != [] ==> Untagged(Lookup(t, k)) != []
    ensures Canonical(Strip(t))
  {
    var u := Strip(t);
    match t
    case Null =>
    case Leaf(key, _) =>
      assert Lookup(t, key) != [];
    case Ext(key, c) =>
      forall k: Key | Lookup(c, k) != [] ensures Untagged(Lookup(c, k)) != [] {
        LookupBelowExt(key, c, k);
        assert Lookup(t, key + k) != [];
      }
      StripCanonical(c);
    case Branch(cs, v) =>
      forall i: nat | i < 16 ensures Canonical(u.children[i]) {
        forall k: Key | Lookup(cs[i], k) != [] ensures Untagged(Lookup(cs[i], k)) != [] {
          LookupBelowBranch(t, i, k);
          assert Lookup(t, [i] + k) != [];
        }
        StripCanonical(cs[i]);
      }
      assert v == Lookup(t, []);
      var i: nat, j: nat :| i < j <= 16 && SlotUsed(t, i) && SlotUsed(t, j);
      assert SlotUsed(u, i) && SlotUsed(u, j);
  }

  // ---------------------------------------------------------------- runs of insertions

  function TagAll(es: seq<Entry>): (ms: seq<Entry>)
    ensures |ms| == |es| && forall i :: 0 <= i < |es| ==> ms[i] == Entry(es[i].key, Tagged(es[i].value))
  {
    seq(|es|, i requires 0 <= i < |es| => Entry(es[i].key, Tagged(es[i].value)))
  }

  /** A run may be made on tagged values. */
  lemma {:induction false} StripInsertAll(t: Tree, es: seq<Entry>)
    requires Shaped(t)
    ensures Strip(InsertAll(t, TagAll(es))) == InsertAll(Strip(t), es)
    decreases |es|
  {
    if es != [] {
      var most, last := es[..|es| - 1], es[|es| - 1];
      assert TagAll(es)[..|es| - 1] == TagAll(most);
      StripInsertAll(t, most);
      StripInsert(InsertAll(t, TagAll(most)), last.key, last.value);
    }
  }

  function TagMap(m: map<Key, bytes>): map<Key, bytes> {
    map k | k in m :: Tagged(m[k])
  }

  lemma {:induction false} TagUpdates(m: map<Key, bytes>, es: seq<Entry>)
    ensures UpdateAll(TagMap(m), TagAll(es)) == TagMap(UpdateAll(m, es))
    decreases |es|
  {
    if es != [] {
      var most, last := es[..|es| - 1], es[|es| - 1];
      assert TagAll(es)[..|es| - 1] == TagAll(most);
      TagUpdates(m, most);
      assert TagMap(UpdateAll(m, es)) == TagMap(UpdateAll(m, most))[last.key := Tagged(last.value)];
    }
  }

  /** The tagged tree that a run of insertions amounts to. */
  lemma TaggedRun(es: seq<Entry>) returns (u: Tree)
    ensures Canonical(u) && Strip(u) == InsertAll(Null, es) && Holds(u, TagMap(UpdateAll(map[], es)))
  {
    var none: map<Key, bytes> := map[];
    u := InsertAll(Null, TagAll(es));
    assert TagMap(none) == none;
    TagUpdates(none, es);
    InsertAllHolds(Null, none, TagAll(es));
    StripInsertAll(Null, es);
  }

  /** Two runs of insertions that amount to the same map build the same tree, empty values or not:
      the root does not depend on history. */
  lemma HistoryIndependent(a: seq<Entry>, b: seq<Entry>)
    requires UpdateAll(map[], a) == UpdateAll(map[], b)
    ensures InsertAll(Null, a) == InsertAll(Null, b)
  {
    var u := TaggedRun(a);
    var w := TaggedRun(b);
    CanonicalUnique(u, w);
  }
}
