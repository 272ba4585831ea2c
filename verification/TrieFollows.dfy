/** What removal follows a hash to (TrieDB.h:936-940, 947-1066): on the nodes of a trie, reading the
    strings of the store byte by byte finds a key absent exactly when removal on the tree does. */
module TrieFollows {
  import opened Bytes
  import opened Options
  import opened HexPrefix
  import opened Rlp
  import opened RlpViews
  import opened NodeStore
  import opened Tries
  import opened TrieMisreads
  import opened TrieNodes
  import opened TrieDelete
  import opened TrieAccounts

  /** Every stored node below the root of `t` can be looked up. */
  ghost predicate Resolves(st: Store, t: Tree)
    requires Shaped(t)
  {
    forall n :: Below(t, n) > 0 ==> st.Lookup(Keccak(n)) == n
  }

  lemma ChildResolves(st: Store, t: Tree, c: Tree)
    requires Shaped(t) && Shaped(c) && Resolves(st, t)
    requires (t.Ext? && c == t.child) || (t.Branch? && c in t.children)
    ensures Resolves(st, c) && (Hashed(c) ==> st.Lookup(Root(c)) == Encoding(c))
  {
    if t.Ext? {
      ExtBelow(t);
    } else {
      var i :| 0 <= i < 16 && t.children[i] == c;
      BelowBranch(t, i);
    }
    if Hashed(c) {
      assert Held(c, false, Encoding(c)) > 0;
    }
    hide Encoding, Below;
    assert forall n :: Below(c, n) <= Held(c, false, n);
  }

  lemma DataParts(b: bytes)
    requires |b| < MAX_LENGTH
    ensures var y := Rlp.Encode(Data(b));
      Payload(y) == b && !IsList(y) && (IsEmpty(y) <==> b == [])
  {
    var y := Rlp.Encode(Data(b));
    SizeOfEncoding(Data(b), []);
    assert y + [] == y;
    DataRule(b);
    if !(|b| == 1 && OctetBelow(b[0], DATA_IMM_LEN_START)) {
      HeaderReads(|b|, DATA_IMM_LEN_START, DATA_IND_LEN_ZERO, b);
      assert y[PayloadOffset(y)..] == b;
    }
  }

  /** A list that is not empty is none of the two empty items. */
  lemma ListParts(items: seq<Item>)
    requires Sized(List(items)) && items != []
    ensures var d := Rlp.Encode(List(items));
      IsList(d) && !IsEmpty(d) && ActualSize(d) == Some(|d|)
  {
    var d := Rlp.Encode(List(items));
    SizeOfEncoding(List(items), []);
    assert d + [] == d;
    ListRule(items);
    EncodedListScans(items, 0);
    hide Rlp.Encode, EncodeAll;
  }

  /** A value. */
  lemma BelowData(st: Store, v: bytes, k: Key)
    requires |v| < MAX_LENGTH
    ensures AbsentBelow(st, Rlp.Encode(Data(v)), k) <==> v == [] || AbsentUnder(st, v, k)
  {
    DataParts(v);
    hide Rlp.Encode, Payload, AbsentUnder, IsList, IsEmpty;
  }

  /** A reference to a node, inlined or by hash, leads to the node. */
  lemma BelowRef(st: Store, c: Tree, k: Key, room: int)
    requires Shaped(c) && Bounded(c, room) && room <= MAX_KEY && (Hashed(c) ==> st.Lookup(Root(c)) == Encoding(c))
    ensures AbsentBelow(st, Rlp.Encode(Ref(c)), k) <==> Absent(st, Encoding(c), k)
  {
    NodeSized(c, room);
    if c == Null {
      NullInline();
      DataParts([]);
      assert Rlp.Encode(Ref(c)) == Encoding(c);
    } else if Hashed(c) {
      DataParts(Root(c));
      ByHash(st, c, k, room);
    } else {
      NodeListParts(c, room);
    }
  }

  lemma NodeListParts(c: Tree, room: int)
    requires Shaped(c) && Bounded(c, room) && room <= MAX_KEY && c != Null
    ensures IsList(Encoding(c)) && !IsEmpty(Encoding(c)) && ActualSize(Encoding(c)) == Some(|Encoding(c)|)
  {
    NodeSized(c, room);
    ListParts(NodeItem(c).items);
  }

  lemma ByHash(st: Store, c: Tree, k: Key, room: int)
    requires Shaped(c) && Bounded(c, room) && room <= MAX_KEY && c != Null && st.Lookup(Root(c)) == Encoding(c)
    ensures AbsentUnder(st, Root(c), k) <==> Absent(st, Encoding(c), k)
  {
    NodeListParts(c, room);
    hide Absent, Encoding, IsList, IsEmpty, ActualSize;
    assert ToHash(Root(c)) == Root(c);
  }

  /** A two-item node, as deleteAt reads it from its string. */
  lemma PairReads(t: Tree, room: int)
    requires Shaped(t) && TwoItem(t) && Bounded(t, room) && room <= MAX_KEY
    ensures
      var p := Payload(Encoding(t));
      && WellFormedList(Encoding(t)) && Count(p, 0) == 2
      && ItemAt(p, 1) == Rlp.Encode(if t.Leaf? then Data(t.value) else Ref(t.child))
      && Payload(ItemAt(p, 0)) == OfOctets(HexPrefix.Encode(t.key, t.Leaf?))
  {
    var below := if t.Leaf? then Data(t.value) else Ref(t.child);
    var items := [KeyItem(t.key, t.Leaf?), below];
    NodeSized(t, room);
    assert NodeItem(t) == List(items);
    EncodedListScans(items, 0);
    EncodedListScans(items, 1);
    DataParts(OfOctets(HexPrefix.Encode(t.key, t.Leaf?)));
    hide Rlp.Encode, Payload, WellFormedList, Count, ItemAt, HexPrefix.Encode;
  }

  lemma BranchReads(t: Tree, i: nibble, room: int)
    requires Shaped(t) && t.Branch? && Bounded(t, room) && room <= MAX_KEY
    ensures
      var p := Payload(Encoding(t));
      WellFormedList(Encoding(t)) && Count(p, 0) == 17 && ItemAt(p, i) == Rlp.Encode(Ref(t.children[i]))
  {
    NodeSized(t, room);
    var items := Refs(t.children) + [Data(t.value)];
    assert NodeItem(t) == List(items);
    EncodedListScans(items, i);
    hide Rlp.Encode, Payload, WellFormedList, Count, ItemAt, Ref;
  }

  lemma {:induction false} AbsentMeans(st: Store, t: Tree, k: Key, room: int)
    requires Shaped(t) && Bounded(t, room) && room <= MAX_KEY && Resolves(st, t)
    ensures Absent(st, Encoding(t), k) <==> Delete(t, k, st) == Unchanged
    decreases t
  {
    if t == Null {
      DataParts([]);
    } else {
      NodeListParts(t, room);
      if TwoItem(t) {
        PairAbsent(st, t, k, room);
      } else if k != [] {
        BranchAbsent(st, t, k, room);
      } else {
        BranchReads(t, 0, room);
      }
    }
  }

  /** What a two-item node is compared with and where it leads. */
  lemma PairFollowed(st: Store, t: Tree, k: Key, room: int)
    requires Shaped(t) && TwoItem(t) && Bounded(t, room) && room <= MAX_KEY
    ensures Absent(st, Encoding(t), k) <==>
      if t.Leaf? && t.key == k then false
      else t.key <= k ==>
        AbsentBelow(st, Rlp.Encode(if t.Leaf? then Data(t.value) else Ref(t.child)), k[|t.key|..])
  {
    NodeListParts(t, room);
    PairReads(t, room);
    OctetsRoundTrip(HexPrefix.Encode(t.key, t.Leaf?));
    KeyOfEncode(t.key, t.Leaf?);
    hide Encoding, Ref, Rlp.Encode, HexPrefix.Encode, Payload, WellFormedList, Count, ItemAt, IsEmpty, AbsentBelow;
  }

  lemma PairAbsent(st: Store, t: Tree, k: Key, room: int)
    requires Shaped(t) && TwoItem(t) && Bounded(t, room) && room <= MAX_KEY && Resolves(st, t)
    ensures Absent(st, Encoding(t), k) <==> Delete(t, k, st) == Unchanged
    decreases t, 0
  {
    hide Encoding, Rlp.Encode, Absent, AbsentBelow, AbsentUnder, Ref, Resolves;
    PairFollowed(st, t, k, room);
    if t.key <= k {
      var rest := k[|t.key|..];
      if t.Leaf? {
        BelowData(st, t.value, rest);
      } else {
        ChildResolves(st, t, t.child);
        BelowRef(st, t.child, rest, room - |t.key|);
        AbsentMeans(st, t.child, rest, room - |t.key|);
      }
    }
  }

  lemma BranchFollowed(st: Store, t: Tree, k: Key, room: int)
    requires Shaped(t) && t.Branch? && k != [] && Bounded(t, room) && room <= MAX_KEY
    ensures Absent(st, Encoding(t), k) <==> AbsentBelow(st, Rlp.Encode(Ref(t.children[k[0]])), k[1..])
  {
    NodeListParts(t, room);
    BranchReads(t, k[0], room);
    hide Encoding, Ref, Rlp.Encode, Payload, WellFormedList, Count, ItemAt, IsEmpty, AbsentBelow;
  }

  lemma BranchAbsent(st: Store, t: Tree, k: Key, room: int)
    requires Shaped(t) && t.Branch? && k != [] && Bounded(t, room) && room <= MAX_KEY && Resolves(st, t)
    ensures Absent(st, Encoding(t), k) <==> Delete(t, k, st) == Unchanged
    decreases t, 0
  {
    hide Encoding, Rlp.Encode, Absent, AbsentBelow, AbsentUnder, Ref, Resolves, Shrink, GivenBack;
    var c := t.children[k[0]];
    BranchFollowed(st, t, k, room);
    ChildResolves(st, t, c);
    BelowRef(st, c, k[1..], room - 1);
    AbsentMeans(st, c, k[1..], room - 1);
  }

  /** So a value that is the hash of a node of some trie is followed as removal in that trie. */
  lemma UnderMeans(st: Store, t: Tree, k: Key)
    requires Shaped(t) && Bounded(t, MAX_KEY) && Resolves(st, t) && t != Null && st.Lookup(Root(t)) == Encoding(t)
    ensures AbsentUnder(st, Root(t), k) <==> Delete(t, k, st) == Unchanged
    ensures ReadsAsPair(st, Root(t)) <==> TwoItem(t)
  {
    ByHash(st, t, k, MAX_KEY);
    AbsentMeans(st, t, k, MAX_KEY);
    NodeListParts(t, MAX_KEY);
    if TwoItem(t) {
      PairReads(t, MAX_KEY);
    } else {
      BranchReads(t, 0, MAX_KEY);
    }
    assert ToHash(Root(t)) == Root(t);
    hide Absent, AbsentUnder, Encoding, Payload, Count, ActualSize, IsList;
  }
}
