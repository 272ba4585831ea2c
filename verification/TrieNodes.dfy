/** How a tree is stored (Yellow Paper, Appendix D): every node is an RLP item; a node whose
    encoding is shorter than a hash is written into its parent, any other is replaced there by its
    hash and kept in the node store. */
module TrieNodes {
  import opened Bytes
  import opened HexPrefix
  import opened Rlp
  import opened Tries

  function NodeItem(t: Tree): (x: Item)
    requires Shaped(t)
    decreases t, 2
  {
    match t
    case Null => Data([])
    case Leaf(k, v) => List([KeyItem(k, true), Data(v)])
    case Ext(k, c) => List([KeyItem(k, false), Ref(c)])
    case Branch(cs, v) => List(Refs(cs) + [Data(v)])
  }

  function KeyItem(k: Key, leaf: bool): Item {
    Data(OfOctets(HexPrefix.Encode(k, leaf)))
  }

  function Encoding(t: Tree): bytes
    requires Shaped(t)
    decreases t, 3
  {
    Rlp.Encode(NodeItem(t))
  }

  /** streamNode: what stands for a node inside its parent. */
  function Ref(t: Tree): Item
    requires Shaped(t)
    decreases t, 4
  {
    if |Encoding(t)| < HASH_SIZE then NodeItem(t) else Data(Keccak(Encoding(t)))
  }

  function Refs(cs: seq<Tree>): (xs: seq<Item>)
    requires forall i :: 0 <= i < |cs| ==> Shaped(cs[i])
    ensures |xs| == |cs| && forall i :: 0 <= i < |cs| ==> xs[i] == Ref(cs[i])
    decreases cs, 0
  {
    if cs == [] then [] else [Ref(cs[0])] + Refs(cs[1..])
  }

  predicate Hashed(t: Tree)
    requires Shaped(t)
  {
    |Encoding(t)| >= HASH_SIZE
  }

  // ---------------------------------------------------------------- occurrences of hashed nodes

  /** Is the node itself the string `n`, kept under its hash? */
  function Own(t: Tree, n: bytes): nat
    requires Shaped(t)
  {
    if Hashed(t) && Encoding(t) == n then 1 else 0
  }

  /** How often `n` is referred to by hash strictly below the root of `t`. */
  function Below(t: Tree, n: bytes): nat
    requires Shaped(t)
    decreases t, 0
  {
    match t
    case Ext(_, c) => Own(c, n) + Below(c, n)
    case Branch(cs, _) => BelowAll(cs, n)
    case _ => 0
  }

  function BelowAll(cs: seq<Tree>, n: bytes): nat
    requires forall i :: 0 <= i < |cs| ==> Shaped(cs[i])
    decreases cs, 0
  {
    if cs == [] then 0 else Own(cs[0], n) + Below(cs[0], n) + BelowAll(cs[1..], n)
  }

  lemma {:induction false} BelowAllUpdate(cs: seq<Tree>, i: nat, c: Tree, n: bytes)
    requires forall j :: 0 <= j < |cs| ==> Shaped(cs[j])
    requires i < |cs| && Shaped(c)
    ensures BelowAll(cs[i := c], n) + Own(cs[i], n) + Below(cs[i], n)
      == BelowAll(cs, n) + Own(c, n) + Below(c, n)
    decreases i
  {
    if i == 0 {
      assert cs[0 := c][1..] == cs[1..];
    } else {
      assert cs[i := c][1..] == cs[1..][i - 1 := c];
      BelowAllUpdate(cs[1..], i - 1, c, n);
    }
  }

  lemma {:induction false} BelowAllNulls(cs: seq<Tree>, n: bytes)
    requires forall j :: 0 <= j < |cs| ==> cs[j] == Null
    ensures BelowAll(cs, n) == 0
  {
    if cs != [] {
      NullInline();
      BelowAllNulls(cs[1..], n);
    }
  }

  lemma NullInline()
    ensures NodeItem(Null) == Data([]) && |Encoding(Null)| == 1 && !Hashed(Null) && Ref(Null) == Data([])
  {
  }

  lemma BelowNoChildren(n: bytes)
    ensures BelowAll(NoChildren(), n) == 0
  {
    BelowAllNulls(NoChildren(), n);
  }

  // ---------------------------------------------------------------- sizes

  const MAX_KEY: nat := 0xFFFF_FFFF                // nibble counts are unsigned
  const MAX_VALUE: nat := 0x0100_0000_0000_0000

  /** No path in the tree is longer than `room`, and values keep within memory. */
  ghost predicate Bounded(t: Tree, room: int)
    requires Shaped(t)
  {
    && (t.Leaf? ==> |t.key| <= room && |t.value| <= MAX_VALUE)
    && (t.Ext? ==> |t.key| <= room && Bounded(t.child, room - |t.key|))
    && (t.Branch? ==> |t.value| <= MAX_VALUE)
    && (t.Branch? ==> forall i :: 0 <= i < |t.children| ==> Bounded(t.children[i], room - 1))
  }

  lemma {:induction false} EncodeAllBound(xs: seq<Item>, m: nat)
    requires forall i :: 0 <= i < |xs| ==> |Rlp.Encode(xs[i])| <= m
    ensures |EncodeAll(xs)| <= |xs| * m
  {
    hide Rlp.Encode;
    if xs != [] {
      EncodeAllBound(xs[1..], m);
    }
  }

  lemma DataBound(b: bytes)
    requires |b| < MAX_LENGTH
    ensures |EncodeData(b)| <= |b| + 9
  {
    LengthSizeInRange(|b|);
    hide BigEndian;
  }

  lemma RefBound(t: Tree)
    requires Shaped(t)
    ensures |Rlp.Encode(Ref(t))| <= 33
  {
    HashEncoding(Keccak(Encoding(t)));
    hide Encoding, Keccak, NodeItem;
    if !Hashed(t) {
      InlineEncoding(t);
    }
  }

  lemma InlineEncoding(t: Tree)
    requires Shaped(t) && !Hashed(t)
    ensures Rlp.Encode(Ref(t)) == Encoding(t)
  {
  }

  lemma HashEncoding(h: bytes)
    requires |h| == HASH_SIZE
    ensures |Rlp.Encode(Data(h))| == 33
  {
  }

  /** The encodings of bounded trees keep within the reader's lengths. */
  lemma {:induction false} NodeSized(t: Tree, room: int)
    requires Shaped(t) && Bounded(t, room) && room <= MAX_KEY
    ensures Sized(NodeItem(t))
    decreases t
  {
    match t
    case Null =>
    case Leaf(k, v) =>
      DataBound(OfOctets(HexPrefix.Encode(k, true)));
      DataBound(v);
      PairSized(KeyItem(k, true), Data(v));
    case Ext(k, c) =>
      NodeSized(c, room - |k|);
      DataBound(OfOctets(HexPrefix.Encode(k, false)));
      RefBound(c);
      PairSized(KeyItem(k, false), Ref(c));
    case Branch(cs, v) =>
      BranchSized(t, room);
  }

  lemma PairSized(x: Item, y: Item)
    requires Sized(x) && Sized(y)
    requires |Rlp.Encode(x)| + |Rlp.Encode(y)| < MAX_LENGTH
    ensures Sized(List([x, y]))
  {
    assert [x, y][1..] == [y];
    EncodeOne(y);
  }

  lemma {:induction false} BranchSized(t: Tree, room: int)
    requires Shaped(t) && Bounded(t, room) && room <= MAX_KEY && t.Branch?
    ensures Sized(NodeItem(t))
    decreases t, 0
  {
    var cs, v := t.children, t.value;
    forall i | 0 <= i < 16 ensures Sized(Refs(cs)[i]) && |Rlp.Encode(Refs(cs)[i])| <= 33 {
      NodeSized(cs[i], room - 1);
      RefBound(cs[i]);
    }
    DataBound(v);
    EncodeAllBound(Refs(cs), 33);
    EncodeAllAppend(Refs(cs), [Data(v)]);
    EncodeOne(Data(v));
  }

  lemma {:induction false} BoundedMono(t: Tree, room: int, more: int)
    requires Shaped(t) && Bounded(t, room) && room <= more
    ensures Bounded(t, more)
  {
    match t
    case Null =>
    case Leaf(_, _) =>
    case Ext(k, c) => BoundedMono(c, room - |k|, more - |k|);
    case Branch(cs, _) =>
      forall i | 0 <= i < |cs| ensures Bounded(cs[i], more - 1) {
        BoundedMono(cs[i], room - 1, more - 1);
      }
  }

  lemma ForkBounded(t: Tree, room: int)
    requires Shaped(t) && TwoItem(t) && Bounded(t, room)
    ensures Bounded(Fork(t), room)
  {
  }

  lemma CleveBounded(t: Tree, s: nat, room: int)
    requires Shaped(t) && TwoItem(t) && Bounded(t, room)
    requires 0 < s <= |t.key| && (t.Ext? ==> s < |t.key|)
    ensures Bounded(Cleve(t, s), room)
  {
  }

  lemma {:induction false} InsertBounded(t: Tree, k: Key, v: bytes, room: int)
    requires Shaped(t) && Bounded(t, room) && |k| <= room && |v| <= MAX_VALUE
    ensures Bounded(Insert(t, k, v), room)
    decreases |k|, if Direct(t, k) then 0 else 1
  {
    if Direct(t, k) {
      match t
      case Null =>
      case Leaf(_, _) =>
      case Ext(key, c) =>
        InsertBounded(c, k[|key|..], v, room - |key|);
      case Branch(cs, w) =>
        if k != [] {
          InsertBounded(cs[k[0]], k[1..], v, room - 1);
        }
    } else {
      var s := SharedPrefix(k, t.key);
      if s > 0 {
        CleveIsDirect(t, k);
        InsertBounded(Cleve(t, s), k, v, room);
      } else {
        InsertBounded(Fork(t), k, v, room);
      }
    }
  }

  // ---------------------------------------------------------------- a root stands for one tree

  lemma {:induction false} NodeItemInjective(t: Tree, u: Tree, room: int)
    requires Shaped(t) && Bounded(t, room) && Shaped(u) && Bounded(u, room) && room <= MAX_KEY
    requires NodeItem(t) == NodeItem(u)
    ensures t == u
    decreases t, 0
  {
    match t
    case Null =>
      NodeKinds(u);
    case Leaf(k, v) =>
      NodeKinds(u);
      EncodedKeysInjective(k, true, u.key, u.Leaf?);
    case Ext(k, c) =>
      NodeKinds(u);
      EncodedKeysInjective(k, false, u.key, u.Leaf?);
      RefInjective(c, u.child, room - |k|);
    case Branch(cs, v) =>
      NodeKinds(u);
      var us := u.children;
      assert NodeItem(t).items[16] == Data(v) && NodeItem(u).items[16] == Data(u.value);
      forall i | 0 <= i < 16 ensures cs[i] == us[i] {
        assert NodeItem(t).items[i] == Ref(cs[i]) && NodeItem(u).items[i] == Ref(us[i]);
        RefInjective(cs[i], us[i], room - 1);
      }
  }

  lemma NodeKinds(u: Tree)
    requires Shaped(u)
    ensures match NodeItem(u)
      case Data(_) => u == Null
      case List(xs) =>
        (|xs| == 2 && (u.Leaf? || u.Ext?) && xs[0] == KeyItem(u.key, u.Leaf?))
        || (|xs| == 17 && u.Branch?)
  {
  }

  /** A reference tells whether it is empty, an inlined node or a hash. */
  lemma RefKinds(t: Tree)
    requires Shaped(t)
    ensures match Ref(t)
      case List(_) => t != Null && !Hashed(t) && Ref(t) == NodeItem(t)
      case Data(h) =>
        if |h| == 0 then t == Null && !Hashed(t) && Ref(t) == NodeItem(t)
        else t != Null && Hashed(t) && h == Keccak(Encoding(t))
  {
    NodeKinds(t);
    NullInline();
    hide NodeItem;
  }

  lemma EncodedKeysInjective(k: Key, leaf: bool, k': Key, leaf': bool)
    requires KeyItem(k, leaf) == KeyItem(k', leaf')
    ensures k == k' && leaf == leaf'
  {
    OfOctetsInjective(HexPrefix.Encode(k, leaf), HexPrefix.Encode(k', leaf'));
    HexPrefix.EncodeInjective(k, leaf, k', leaf');
  }

  lemma {:induction false} RefInjective(t: Tree, u: Tree, room: int)
    requires Shaped(t) && Bounded(t, room) && Shaped(u) && Bounded(u, room) && room <= MAX_KEY
    requires Ref(t) == Ref(u)
    ensures t == u
    decreases t, 1
  {
    NodeSized(t, room);
    NodeSized(u, room);
    RefKinds(t);
    RefKinds(u);
    hide NodeItem, Ref, Hashed, Keccak, Rlp.Encode;
    if Hashed(t) {
      KeccakInjective(Encoding(t), Encoding(u));
      Rlp.EncodeInjective(NodeItem(t), NodeItem(u));
    }
    NodeItemInjective(t, u, room);
  }

  function Root(t: Tree): bytes
    requires Shaped(t)
  {
    Keccak(Encoding(t))
  }

  /** Under the ideal hash, equal roots mean equal trees. */
  lemma RootInjective(t: Tree, u: Tree)
    requires Shaped(t) && Bounded(t, MAX_KEY) && Shaped(u) && Bounded(u, MAX_KEY)
    ensures Root(t) == Root(u) <==> t == u
  {
    if Root(t) == Root(u) {
      KeccakInjective(Encoding(t), Encoding(u));
      NodeSized(t, MAX_KEY);
      NodeSized(u, MAX_KEY);
      Rlp.EncodeInjective(NodeItem(t), NodeItem(u));
      NodeItemInjective(t, u, MAX_KEY);
    }
  }
}
