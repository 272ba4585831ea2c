/** mergeAt's last stop may be a branch it made itself, which was never put in the store;
    `place` nevertheless asks for its removal (TrieDB.h:873-886, 1068-1070).  In a canonical trie
    that string is no node at all, so the request finds nothing to remove; once empty values were
    inserted it may be one, which then loses a reference. */
module TrieStray {
  import opened Bytes
  import opened Options
  import opened HexPrefix
  import opened Tries
  import opened TrieNodes

  /** The string `place` wrongly asks to remove when `k` is inserted, if there is one: `k` stops
      inside the key of a two-item node, at its first nibble. */
  function StrayNode(t: Tree, k: Key): (r: Option<bytes>)
    requires Shaped(t)
    decreases |k|, if Direct(t, k) then 0 else 1
  {
    if Direct(t, k) then
      match t
      case Ext(key, c) => StrayNode(c, k[|key|..])
      case Branch(cs, _) => if k == [] then None else StrayNode(cs[k[0]], k[1..])
      case _ => None
    else
      var s := SharedPrefix(k, t.key);
      if s > 0 then
        CleveIsDirect(t, k);
        StrayNode(Cleve(t, s), k)
      else if k == [] && Hashed(Fork(t)) then Some(Encoding(Fork(t)))
      else None
  }

  /** A branch with a single slot in use. */
  lemma ForkNotCanonical(t: Tree)
    requires Shaped(t) && TwoItem(t)
    ensures !Canonical(Fork(t))
  {
    var only := if t.key == [] then 16 else t.key[0];
    forall i: nat | i <= 16 && SlotUsed(Fork(t), i) ensures i == only {
    }
  }

  /** No node of a canonical tree is such a branch. */
  lemma {:induction false} ForkNotBelow(t: Tree, f: Tree, room: int)
    requires Canonical(t) && Bounded(t, room) && room <= MAX_KEY
    requires Shaped(f) && TwoItem(f) && Bounded(Fork(f), MAX_KEY)
    ensures Encoding(t) != Encoding(Fork(f)) && Below(t, Encoding(Fork(f))) == 0
    decreases t, 1
  {
    BoundedMono(t, room, MAX_KEY);
    RootInjective(t, Fork(f));
    ForkNotCanonical(f);
    match t
    case Null =>
    case Leaf(_, _) =>
    case Ext(key, c) =>
      ForkNotBelow(c, f, room - |key|);
    case Branch(cs, _) =>
      ForkNotBelowAll(cs, f, room - 1);
  }

  lemma {:induction false} ForkNotBelowAll(cs: seq<Tree>, f: Tree, room: int)
    requires forall i :: 0 <= i < |cs| ==> Shaped(cs[i]) && Canonical(cs[i]) && Bounded(cs[i], room)
    requires Shaped(f) && TwoItem(f) && Bounded(Fork(f), MAX_KEY) && room <= MAX_KEY
    ensures BelowAll(cs, Encoding(Fork(f))) == 0
    decreases cs, 0
  {
    if cs != [] {
      ForkNotBelow(cs[0], f, room);
      ForkNotBelowAll(cs[1..], f, room);
    }
  }

  /** The length of the longest path. */
  function Height(t: Tree): nat {
    match t
    case Null => 0
    case Leaf(key, _) => |key|
    case Ext(key, c) => |key| + Height(c)
    case Branch(cs, _) => 1 + HeightAll(cs)
  }

  function HeightAll(cs: seq<Tree>): (h: nat)
    ensures forall i :: 0 <= i < |cs| ==> Height(cs[i]) <= h
  {
    if cs == [] then 0
    else var a, b := Height(cs[0]), HeightAll(cs[1..]); if a > b then a else b
  }

  /** The stray string always comes from such a branch, of a node that is no higher than the tree. */
  lemma {:induction false} StrayIsFork(t: Tree, k: Key, room: int) returns (f: Tree)
    requires Shaped(t) && Bounded(t, room) && room <= MAX_KEY && StrayNode(t, k).Some?
    ensures Shaped(f) && TwoItem(f) && Bounded(Fork(f), MAX_KEY) && StrayNode(t, k) == Some(Encoding(Fork(f)))
    ensures f.key != [] && Height(f) <= Height(t) && Hashed(Fork(f))
    decreases |k|, if Direct(t, k) then 0 else 1
  {
    if Direct(t, k) {
      match t
      case Ext(key, c) =>
        f := StrayIsFork(c, k[|key|..], room - |key|);
      case Branch(cs, _) =>
        f := StrayIsFork(cs[k[0]], k[1..], room - 1);
    } else {
      var s := SharedPrefix(k, t.key);
      if s > 0 {
        CleveIsDirect(t, k);
        f := StrayIsFork(Cleve(t, s), k, room);
      } else {
        f := t;
        BoundedMono(t, room, MAX_KEY);
        ForkBounded(t, MAX_KEY);
      }
    }
  }

  /** In a canonical trie nothing is stored under the string that `place` wrongly removes. */
  lemma StrayHarmless(t: Tree, k: Key, n: bytes)
    requires Canonical(t) && Bounded(t, MAX_KEY) && StrayNode(t, k) == Some(n)
    ensures Encoding(t) != n && Below(t, n) == 0
  {
    var f := StrayIsFork(t, k, MAX_KEY);
    ForkNotBelow(t, f, MAX_KEY);
  }

  /** The stray string is never a node on the way down to it. */
  lemma StrayNotSelf(t: Tree, k: Key, room: int)
    requires Shaped(t) && Bounded(t, room) && room <= MAX_KEY && StrayNode(t, k).Some?
    ensures StrayNode(t, k).value != Encoding(t)
  {
    var f := StrayIsFork(t, k, room);
    if Encoding(Fork(f)) == Encoding(t) {
      BoundedMono(t, room, MAX_KEY);
      RootInjective(t, Fork(f));
      var c := t.children[k[0]];
      var g := StrayIsFork(c, k[1..], room - 1);
      RootInjective(t, Fork(g));
      ForkHeight(g);
    }
  }

  /** Only one slot of the branch is in use, and its subtree is lower by one. */
  lemma ForkHeight(f: Tree)
    requires Shaped(f) && TwoItem(f) && f.key != []
    ensures forall i: nat :: i < 16 ==>
      if i == f.key[0] then Height(Fork(f).children[i]) == Height(f) - 1 else Fork(f).children[i] == Null
  {
  }
}
