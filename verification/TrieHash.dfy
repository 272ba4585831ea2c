/** The one-pass builder of trie roots (TrieHash.cpp) over a sorted map of nibble keys, writing into
    RLP streams, and its agreement with the incremental trie. */
module TrieHash {
  import opened Bytes
  import opened Options
  import opened HexPrefix
  import opened Rlp
  import opened RlpStreams
  import opened Tries
  import opened TrieCanonical
  import opened TrieTags
  import opened TrieNodes

  /** A std::map: its entries, strictly ascending. */
  ghost predicate Ascending(s: seq<Entry>) {
    forall i, j :: 0 <= i < j < |s| ==> KeyLess(s[i].key, s[j].key)
  }

  /** The entries `b` to `e` all start with `pre`. */
  ghost predicate Sharing(s: seq<Entry>, b: nat, e: nat, pre: Key) {
    b <= e <= |s| && forall i :: b <= i < e ==> pre <= s[i].key
  }

  ghost predicate Fit(s: seq<Entry>) {
    Ascending(s) && forall i :: 0 <= i < |s| ==> |s[i].key| <= MAX_KEY && |s[i].value| <= MAX_VALUE
  }

  /** What the entries `b` to `e` hold for the key `q`, tagged; nothing where there is no such key. */
  function RangeAt(s: seq<Entry>, b: nat, e: nat, q: Key): bytes
    requires b <= e <= |s|
    decreases e - b
  {
    if b == e then [] else if s[b].key == q then Tagged(s[b].value) else RangeAt(s, b + 1, e, q)
  }

  lemma {:induction false} RangeAtFound(s: seq<Entry>, b: nat, e: nat, i: nat)
    requires Ascending(s) && b <= i < e <= |s|
    ensures RangeAt(s, b, e, s[i].key) == Tagged(s[i].value)
    decreases e - b
  {
    if b < i {
      KeyLessAsymmetric(s[b].key, s[i].key);
      RangeAtFound(s, b + 1, e, i);
    }
  }

  lemma {:induction false} RangeAtMissing(s: seq<Entry>, b: nat, e: nat, q: Key)
    requires b <= e <= |s| && forall i :: b <= i < e ==> s[i].key != q
    ensures RangeAt(s, b, e, q) == []
    decreases e - b
  {
    if b < e {
      RangeAtMissing(s, b + 1, e, q);
    }
  }

  lemma {:induction false} RangeAtWithin(s: seq<Entry>, b: nat, lo: nat, hi: nat, e: nat, q: Key)
    requires b <= lo <= hi <= e <= |s|
    requires forall i :: (b <= i < lo || hi <= i < e) ==> s[i].key != q
    ensures RangeAt(s, b, e, q) == RangeAt(s, lo, hi, q)
    decreases e - b
  {
    if b < lo {
      RangeAtWithin(s, b + 1, lo, hi, e, q);
    } else if lo == hi {
      RangeAtMissing(s, b, e, q);
    } else if s[b].key != q {
      RangeAtWithin(s, b + 1, lo + 1, hi, e, q);
    }
  }

  /** The tree holds what the range holds below `pre`. */
  ghost predicate HoldsBelow(t: Tree, s: seq<Entry>, b: nat, e: nat, pre: Key)
    requires Shaped(t) && b <= e <= |s|
  {
    forall k: Key :: Lookup(t, k) == RangeAt(s, b, e, pre + k)
  }

  /** The keys part at the nibble `p`. */
  predicate Part(x: Key, y: Key, p: nat) {
    p <= |x| && p <= |y| && (|x| == p || |y| == p || x[p] != y[p])
  }

  // ---------------------------------------------------------------- streams that build one list

  /** A stream that was told to expect a list of `n` items and has got the first of them. */
  function Partial(n: nat, items: seq<Item>): (s: State)
    requires |items| <= n
    ensures s.Valid()
  {
    if |items| < n then In(Base([]), n - |items|, items) else Base([List(items)])
  }

  const MAX_ITEM: nat := MAX_VALUE + MAX_KEY

  ghost predicate Small(items: seq<Item>) {
    |items| <= 17 && forall i :: 0 <= i < |items| ==> |Rlp.Encode(items[i])| <= MAX_ITEM
  }

  lemma SmallList(items: seq<Item>)
    requires Small(items)
    ensures |EncodeAll(items)| < MAX_LENGTH && |Rlp.Encode(List(items))| < MAX_LENGTH
  {
    EncodeAllBound(items, MAX_ITEM);
    ListSize(items);
    hide Rlp.Encode, EncodeAll;
  }

  lemma ListSize(items: seq<Item>)
    requires |EncodeAll(items)| < MAX_LENGTH
    ensures |Rlp.Encode(List(items))| <= |EncodeAll(items)| + 9
  {
    LengthSizeInRange(|EncodeAll(items)|);
    hide EncodeAll, BigEndian;
  }

  lemma PartialWritten(n: nat, items: seq<Item>)
    requires |items| <= n && Small(items)
    ensures |Partial(n, items).Written()| < MAX_LENGTH
  {
    SmallList(items);
    EncodeOne(List(items));
    InWritten(Base([]), n - |items|, items);
    assert EncodeAll([]) == [];
    hide Rlp.Encode, EncodeAll;
  }

  lemma PartialAdds(n: nat, items: seq<Item>, x: Item)
    requires |items| < n
    ensures Partial(n, items).Room(1) && Partial(n, items).Add([x]) == Partial(n, items + [x])
  {
    assert [] + [List(items + [x])] == [List(items + [x])];
  }

  lemma NextItem(n: nat, items: seq<Item>, x: Item)
    requires |items| < n <= 17 && Small(items) && |Rlp.Encode(x)| <= MAX_ITEM
    ensures Partial(n, items).Room(1) && Partial(n, items).Add([x]) == Partial(n, items + [x])
    ensures Accepts(Partial(n, items), [x]) && Small(items + [x])
  {
    PartialAdds(n, items, x);
    PartialWritten(n, items + [x]) by { hide Rlp.Encode; }
    hide Partial, Rlp.Encode, State.Written, State.Add;
  }

  lemma ItemBound(b: bytes)
    requires |b| < MAX_LENGTH
    ensures |Rlp.Encode(Data(b))| <= |b| + 9
  {
    DataBound(b);
  }

  /** rlp.appendList(n). */
  method Begin(rlp: RlpStream, n: nat)
    requires rlp.Valid() && rlp.state == Base([]) && n > 0
    modifies rlp
    ensures rlp.Valid() && rlp.state == Partial(n, [])
  {
    var _ := rlp.AppendList(n);
  }

  /** rlp << data. */
  method Stream(rlp: RlpStream, data: bytes, n: nat, ghost items: seq<Item>)
    requires rlp.Valid() && |items| < n <= 17 && rlp.state == Partial(n, items) && Small(items)
    requires |Rlp.Encode(Data(data))| <= MAX_ITEM
    modifies rlp
    ensures rlp.Valid() && rlp.state == Partial(n, items + [Data(data)]) && Small(items + [Data(data)])
  {
    NextItem(n, items, Data(data));
    hide Partial, Accepts, Small, Rlp.Encode;
    var _ := rlp.Append(data, false);
  }

  // ---------------------------------------------------------------- the common prefix of a range

  /** The search for sharedPre: the longest prefix the keys of the range have in common. */
  method SharedPre(s: seq<Entry>, b: nat, e: nat, preLen: nat) returns (sharedPre: nat)
    requires b + 1 < e <= |s| && Fit(s) && preLen <= |s[b].key| && Sharing(s, b, e, s[b].key[..preLen])
    ensures preLen <= sharedPre <= |s[b].key| && Sharing(s, b, e, s[b].key[..sharedPre])
    ensures exists w :: b < w < e && Part(s[b].key, s[w].key, sharedPre)
  {
    sharedPre := MAX_KEY;
    ghost var w := b;
    var i := b + 1;
    while i != e && sharedPre != 0
      invariant b < i <= e && preLen <= sharedPre <= MAX_KEY
      invariant w == b ==> i == b + 1 && sharedPre == MAX_KEY
      invariant w != b ==> b < w < e && Part(s[b].key, s[w].key, sharedPre)
      invariant w != b ==> Sharing(s, b, i, s[b].key[..sharedPre])
      decreases e - i
    {
      var first, other := s[b].key, s[i].key;
      var x := if sharedPre < |first| then sharedPre else |first|;
      x := if x < |other| then x else |other|;
      ghost var before := sharedPre;
      assert s[b].key[..preLen] <= other;
      var shared := CommonTo(first, other, preLen, x);
      sharedPre := if shared < sharedPre then shared else sharedPre;
      if w == b || shared < before {
        w := i;
      }
      forall j | b <= j < i + 1 ensures first[..sharedPre] <= s[j].key {
        if j < i && before <= |first| {
          PrefixOfPrefix(first, s[j].key, before, sharedPre);
        }
      }
      i := i + 1;
    }
    if sharedPre == 0 {
      assert s[b].key[..0] == [];
    }
  }

  lemma PrefixOfPrefix(a: Key, b: Key, n: nat, m: nat)
    requires m <= n <= |a| && a[..n] <= b
    ensures a[..m] <= b
  {
    assert a[..m] == a[..n][..m] == b[..n][..m] == b[..m];
  }

  /** The inner loop: on from `from`, up to `x`. */
  method CommonTo(a: Key, b: Key, from: nat, x: nat) returns (shared: nat)
    requires from <= x <= |a| && x <= |b| && a[..from] <= b
    ensures from <= shared <= x && a[..shared] <= b
    ensures shared < x ==> a[shared] != b[shared]
  {
    shared := from;
    while shared < x && a[shared] == b[shared]
      invariant from <= shared <= x && a[..shared] <= b
    {
      assert a[..shared + 1] == a[..shared] + [a[shared]] == b[..shared] + [b[shared]] == b[..shared + 1];
      shared := shared + 1;
    }
  }

  // ---------------------------------------------------------------- what each case builds

  lemma LeafHolds(s: seq<Entry>, b: nat, pre: Key)
    requires b < |s| && pre <= s[b].key
    ensures HoldsBelow(Leaf(s[b].key[|pre|..], Tagged(s[b].value)), s, b, b + 1, pre)
  {
    var t := Leaf(s[b].key[|pre|..], Tagged(s[b].value));
    forall k: Key ensures Lookup(t, k) == RangeAt(s, b, b + 1, pre + k) {
      assert s[b].key == pre + t.key;
      assert (pre + k)[|pre|..] == k && (pre + t.key)[|pre|..] == t.key;
    }
  }

  lemma ExtHolds(s: seq<Entry>, b: nat, e: nat, pre: Key, x: Key, c: Tree)
    requires Shaped(Ext(x, c)) && Sharing(s, b, e, pre + x) && HoldsBelow(c, s, b, e, pre + x)
    ensures HoldsBelow(Ext(x, c), s, b, e, pre)
  {
    forall k: Key ensures Lookup(Ext(x, c), k) == RangeAt(s, b, e, pre + k) {
      if x <= k {
        assert pre + k == pre + x + k[|x|..];
      } else {
        PrefixCancels(pre, x, k);
        RangeAtMissing(s, b, e, pre + k);
      }
    }
  }

  /** Only the first entry of a range can be as short as the common prefix. */
  lemma ShortIsFirst(s: seq<Entry>, b: nat, e: nat, pre: Key, i: nat)
    requires Ascending(s) && Sharing(s, b, e, pre) && b < i < e
    ensures |s[i].key| > |pre|
  {
    if |s[i].key| == |pre| {
      assert s[i].key == pre;
      KeyLessAsymmetric(s[b].key, s[i].key);
      if |s[b].key| > |pre| {
        PrefixIsLess(pre, s[b].key);
      }
    }
  }

  lemma NibblesAscend(s: seq<Entry>, b: nat, e: nat, pre: Key, i: nat, j: nat)
    requires Ascending(s) && Sharing(s, b, e, pre) && b <= i <= j < e && |s[i].key| > |pre| && |s[j].key| > |pre|
    ensures s[i].key[|pre|] <= s[j].key[|pre|]
  {
    var x, y := s[i].key, s[j].key;
    if x[|pre|] > y[|pre|] {
      assert x[..|pre|] == pre == y[..|pre|];
      KeyLessAt(y, x, |pre|);
      KeyLessAsymmetric(x, y);
    }
  }

  /** A child built from the entries that go on with the nibble `n` holds what the range does there. */
  lemma ChildHolds(s: seq<Entry>, b: nat, lo: nat, hi: nat, e: nat, pre: Key, n: nibble, c: Tree)
    requires Shaped(c) && b <= lo <= hi <= e && Sharing(s, b, e, pre) && HoldsBelow(c, s, lo, hi, pre + [n])
    requires forall i :: (b <= i < lo || hi <= i < e) ==> |s[i].key| == |pre| || s[i].key[|pre|] != n
    ensures HoldsBelow(c, s, b, e, pre + [n])
  {
    forall k: Key ensures Lookup(c, k) == RangeAt(s, b, e, pre + [n] + k) {
      var q := pre + [n] + k;
      assert |q| > |pre| && q[|pre|] == n;
      RangeAtWithin(s, b, lo, hi, e, q);
    }
  }

  lemma BranchHolds(s: seq<Entry>, b: nat, e: nat, pre: Key, t: Tree)
    requires Ascending(s) && Sharing(s, b, e, pre) && b < e && t.Branch? && Shaped(t)
    requires forall n: nat :: n < 16 ==> HoldsBelow(t.children[n], s, b, e, pre + [n])
    requires t.value == if |s[b].key| == |pre| then Tagged(s[b].value) else []
    ensures HoldsBelow(t, s, b, e, pre)
  {
    forall k: Key ensures Lookup(t, k) == RangeAt(s, b, e, pre + k) {
      hide RangeAt, Tagged, Ascending;
      if k == [] {
        assert pre + k == pre;
        ValueHolds(s, b, e, pre);
      } else {
        assert pre + k == pre + [k[0]] + k[1..];
        var c := t.children[k[0]];
        assert HoldsBelow(c, s, b, e, pre + [k[0]]);
        assert Lookup(c, k[1..]) == RangeAt(s, b, e, pre + [k[0]] + k[1..]);
      }
    }
  }

  /** The prefix itself can only be the first key. */
  lemma ValueHolds(s: seq<Entry>, b: nat, e: nat, pre: Key)
    requires Ascending(s) && Sharing(s, b, e, pre) && b < e
    ensures RangeAt(s, b, e, pre) == if |s[b].key| == |pre| then Tagged(s[b].value) else []
  {
    if |s[b].key| == |pre| {
      RangeAtFound(s, b, e, b);
    } else {
      forall i | b < i < e ensures s[i].key != pre {
        ShortIsFirst(s, b, e, pre, i);
      }
      RangeAtMissing(s, b, e, pre);
    }
  }

  /** Entries that part right behind the prefix put two slots of the branch to use. */
  lemma BranchTwoSlots(s: seq<Entry>, b: nat, e: nat, pre: Key, t: Tree, w: nat)
    requires Fit(s) && Sharing(s, b, e, pre) && t.Branch? && Shaped(t)
    requires HoldsBelow(t, s, b, e, pre) && b < w < e && Part(s[b].key, s[w].key, |pre|)
    ensures TwoSlots(t)
  {
    ShortIsFirst(s, b, e, pre, w);
    var i := SlotOf(s, b, e, pre, t, b);
    var j := SlotOf(s, b, e, pre, t, w);
    assert i < j || j < i;
  }

  lemma SlotOf(s: seq<Entry>, b: nat, e: nat, pre: Key, t: Tree, i: nat) returns (n: nat)
    requires Fit(s) && Sharing(s, b, e, pre) && t.Branch? && Shaped(t) && HoldsBelow(t, s, b, e, pre) && b <= i < e
    ensures n <= 16 && n == (if |s[i].key| == |pre| then 16 else s[i].key[|pre|]) && SlotUsed(t, n)
  {
    var k := s[i].key[|pre|..];
    assert s[i].key == pre + k;
    RangeAtFound(s, b, e, i);
    assert Lookup(t, k) == Tagged(s[i].value) != [];
    if k == [] {
      n := 16;
      assert Lookup(t, k) == t.value;
    } else {
      n := k[0];
      assert Lookup(t, k) == Lookup(t.children[n], k[1..]);
      assert Lookup(Null, k[1..]) == [];
    }
  }

  // ---------------------------------------------------------------- the builder

  /** hash256rlp: the node for the entries `b` to `e` from their nibble `preLen` on.  The tree has the
      tags, the node has not. */
  method Hash256Rlp(s: seq<Entry>, b: nat, e: nat, preLen: nat, rlp: RlpStream, ghost pre: Key)
    returns (ghost t: Tree)
    requires Fit(s) && Sharing(s, b, e, pre) && |pre| == preLen <= MAX_KEY
    requires rlp.Valid() && rlp.state == Base([])
    modifies rlp
    ensures Canonical(t) && Bounded(Strip(t), MAX_KEY - preLen) && HoldsBelow(t, s, b, e, pre)
    ensures b < e ==> t != Null
    ensures (exists w :: b < w < e && Part(s[b].key, s[w].key, preLen)) ==> t.Branch?
    ensures rlp.Valid() && rlp.state == Base([NodeItem(Strip(t))])
    decreases MAX_KEY - preLen, 2
  {
    if b == e {
      EmptyNode(rlp);
      t := Null;
    } else if b + 1 == e {
      t := LeafNode(s, b, preLen, rlp, pre);
    } else {
      assert s[b].key[..preLen] == pre;
      var sharedPre := SharedPre(s, b, e, preLen);
      if sharedPre > preLen {
        t := ExtNode(s, b, e, preLen, sharedPre, rlp, pre);
      } else {
        t := BranchNode(s, b, e, preLen, rlp, pre);
      }
    }
  }

  method EmptyNode(rlp: RlpStream)
    requires rlp.Valid() && rlp.state == Base([])
    modifies rlp
    ensures rlp.Valid() && rlp.state == Base([NodeItem(Null)])
  {
    assert [] + [Data([])] == [Data([])];
    BaseWritten(Base([]), [Data([])]);
    EncodeOne(Data([]));
    var _ := rlp.Append([], false);
  }

  /** A range of a single entry is a leaf with the rest of its key. */
  method LeafNode(s: seq<Entry>, b: nat, preLen: nat, rlp: RlpStream, ghost pre: Key) returns (ghost t: Tree)
    requires Fit(s) && b < |s| && Sharing(s, b, b + 1, pre) && |pre| == preLen
    requires rlp.Valid() && rlp.state == Base([])
    modifies rlp
    ensures t.Leaf? && Canonical(t) && Bounded(Strip(t), MAX_KEY - preLen) && HoldsBelow(t, s, b, b + 1, pre)
    ensures rlp.Valid() && rlp.state == Base([NodeItem(Strip(t))])
  {
    t := Leaf(s[b].key[preLen..], Tagged(s[b].value));
    LeafCase(s, b, preLen, pre, t);
    hide HoldsBelow, Rlp.Encode, EncodeData, HexPrefix.Encode, Canonical, Bounded, NodeItem, KeyItem, Fit, Sharing;
    hide Partial;
    NoItems();
    Begin(rlp, 2);
    var hpe := EncodeVector(s[b].key, true, preLen, -1);
    Stream(rlp, OfOctets(hpe), 2, []);
    Stream(rlp, s[b].value, 2, [KeyItem(t.key, true)]);
    LeafItems(Strip(t));
  }

  lemma LeafCase(s: seq<Entry>, b: nat, preLen: nat, pre: Key, t: Tree)
    requires Fit(s) && b < |s| && Sharing(s, b, b + 1, pre) && |pre| == preLen <= |s[b].key|
    requires t == Leaf(s[b].key[preLen..], Tagged(s[b].value))
    ensures Canonical(t) && Bounded(Strip(t), MAX_KEY - preLen) && HoldsBelow(t, s, b, b + 1, pre)
    ensures s[b].key[preLen..|s[b].key|] == t.key
    ensures KeyItem(t.key, true) == Data(OfOctets(HexPrefix.Encode(t.key, true)))
    ensures |Rlp.Encode(Data(OfOctets(HexPrefix.Encode(t.key, true))))| <= MAX_ITEM
    ensures |Rlp.Encode(Data(s[b].value))| <= MAX_ITEM
    ensures Strip(t) == Leaf(t.key, s[b].value)
  {
    LeafHolds(s, b, pre);
    ItemBound(OfOctets(HexPrefix.Encode(t.key, true)));
    ItemBound(s[b].value);
    hide HoldsBelow, Rlp.Encode, EncodeData, HexPrefix.Encode;
  }

  lemma LeafItems(t: Tree)
    requires t.Leaf?
    ensures Partial(2, [KeyItem(t.key, true)] + [Data(t.value)]) == Base([NodeItem(t)])
  {
    hide HexPrefix.Encode;
    assert [KeyItem(t.key, true)] + [Data(t.value)] == [KeyItem(t.key, true), Data(t.value)];
  }

  /** All share some more nibbles: a pair as well. */
  method ExtNode(s: seq<Entry>, b: nat, e: nat, preLen: nat, sharedPre: nat, rlp: RlpStream, ghost pre: Key)
    returns (ghost t: Tree)
    requires Fit(s) && Sharing(s, b, e, pre) && |pre| == preLen < sharedPre && b + 1 < e
    requires sharedPre <= |s[b].key| && Sharing(s, b, e, s[b].key[..sharedPre])
    requires exists w :: b < w < e && Part(s[b].key, s[w].key, sharedPre)
    requires rlp.Valid() && rlp.state == Base([])
    modifies rlp
    ensures t.Ext? && Canonical(t) && Bounded(Strip(t), MAX_KEY - preLen) && HoldsBelow(t, s, b, e, pre)
    ensures rlp.Valid() && rlp.state == Base([NodeItem(Strip(t))])
    decreases MAX_KEY - preLen, 1
  {
    ghost var x := s[b].key[preLen..sharedPre];
    assert s[b].key[..sharedPre] == pre + x;
    hide HoldsBelow, Rlp.Encode, EncodeData, HexPrefix.Encode, Canonical, Bounded, NodeItem, Ref, KeyItem, Small;
    hide Strip, Partial;
    NoItems();
    KeyItemIs(x);
    Begin(rlp, 2);
    var hpe := EncodeVector(s[b].key, false, preLen, sharedPre);
    Stream(rlp, OfOctets(hpe), 2, []);
    ghost var c := Hash256Aux(s, b, e, sharedPre, rlp, pre + x, 2, [KeyItem(x, false)]);
    t := Ext(x, c);
    hide Sharing, Fit;
    ExtCase(pre, x, c);
    ExtHolds(s, b, e, pre, x, c);
  }

  lemma KeyItemIs(x: Key)
    requires |x| <= MAX_KEY
    ensures KeyItem(x, false) == Data(OfOctets(HexPrefix.Encode(x, false)))
    ensures |Rlp.Encode(Data(OfOctets(HexPrefix.Encode(x, false))))| <= MAX_ITEM
  {
    ItemBound(OfOctets(HexPrefix.Encode(x, false)));
    hide Rlp.Encode, EncodeData;
  }

  lemma ExtCase(pre: Key, x: Key, c: Tree)
    requires x != [] && c.Branch? && Canonical(c) && |pre| + |x| <= MAX_KEY && Bounded(Strip(c), MAX_KEY - |pre + x|)
    ensures Canonical(Ext(x, c)) && Bounded(Strip(Ext(x, c)), MAX_KEY - |pre|)
    ensures Partial(2, [KeyItem(x, false)] + [Ref(Strip(c))]) == Base([NodeItem(Strip(Ext(x, c)))])
  {
    hide NodeItem, Bounded, Ref, KeyItem, Partial, Strip, Canonical;
    ExtStripped(x, c);
    ExtItems(x, Strip(c));
    ExtBounded(x, Strip(c), MAX_KEY - |pre|);
  }

  lemma ExtStripped(x: Key, c: Tree)
    requires x != [] && c.Branch? && Canonical(c)
    ensures Canonical(Ext(x, c)) && Strip(Ext(x, c)) == Ext(x, Strip(c)) && Shaped(Strip(c)) && Strip(c).Branch?
  {
  }

  lemma ExtBounded(x: Key, c: Tree, room: int)
    requires x != [] && c.Branch? && Shaped(c) && |x| <= room && Bounded(c, room - |x|)
    ensures Bounded(Ext(x, c), room)
  {
  }

  lemma ExtItems(x: Key, c: Tree)
    requires x != [] && c.Branch? && Shaped(c)
    ensures Partial(2, [KeyItem(x, false)] + [Ref(c)]) == Base([NodeItem(Ext(x, c))])
  {
    hide KeyItem, Ref;
    assert [KeyItem(x, false)] + [Ref(c)] == [KeyItem(x, false), Ref(c)];
  }

  /** hash256aux: the same node as a reference inside its parent. */
  method Hash256Aux(s: seq<Entry>, b: nat, e: nat, preLen: nat, parent: RlpStream, ghost pre: Key, n: nat,
    ghost items: seq<Item>)
    returns (ghost t: Tree)
    requires Fit(s) && Sharing(s, b, e, pre) && |pre| == preLen <= MAX_KEY && b < e
    requires parent.Valid() && |items| < n <= 17 && parent.state == Partial(n, items) && Small(items)
    modifies parent
    ensures Canonical(t) && Bounded(Strip(t), MAX_KEY - preLen) && HoldsBelow(t, s, b, e, pre) && t != Null
    ensures (exists w :: b < w < e && Part(s[b].key, s[w].key, preLen)) ==> t.Branch?
    ensures parent.Valid() && parent.state == Partial(n, items + [Ref(Strip(t))]) && Small(items + [Ref(Strip(t))])
    decreases MAX_KEY - preLen, 3
  {
    var rlp := new RlpStream();
    t := Hash256Rlp(s, b, e, preLen, rlp, pre);
    var out := rlp.Out();
    EncodeOne(NodeItem(Strip(t)));
    assert out == Some(Encoding(Strip(t)));
    RefBound(Strip(t));
    EncodeOne(Ref(Strip(t)));
    NextItem(n, items, Ref(Strip(t)));
    hide HoldsBelow, Rlp.Encode, NodeItem, Canonical, Bounded, Accepts, Small, Partial, EncodeAll;
    if |out.value| < HASH_SIZE {
      var _ := parent.AppendRaw(out.value, 1, [Ref(Strip(t))]);
    } else {
      var _ := parent.Append(Keccak(out.value), false);
    }
  }

  // ---------------------------------------------------------------- branches

  /** The children made so far. */
  ghost predicate Children(cs: seq<Tree>, items: seq<Item>, s: seq<Entry>, b: nat, e: nat, pre: Key)
    requires b <= e <= |s|
  {
    |cs| == |items| <= 16 && forall n: nat :: n < |cs| ==>
      Canonical(cs[n]) && Bounded(Strip(cs[n]), MAX_KEY - |pre| - 1) && HoldsBelow(cs[n], s, b, e, pre + [n])
        && items[n] == Ref(Strip(cs[n]))
  }

  /** From `at` on the entries go on with the nibble `n` or a later one; before it, with earlier ones. */
  ghost predicate Done(s: seq<Entry>, b: nat, at: nat, e: nat, p: nat, n: nat) {
    b <= at <= e <= |s|
    && (forall i :: b <= i < at ==> |s[i].key| == p || (|s[i].key| > p && s[i].key[p] < n))
    && (forall i :: at <= i < e ==> |s[i].key| > p && s[i].key[p] >= n)
  }

  /** The run of entries that go on with the nibble `i`. */
  method RunOf(s: seq<Entry>, b: nat, at: nat, e: nat, preLen: nat, i: nibble, ghost pre: Key) returns (n: nat)
    requires Ascending(s) && Sharing(s, b, e, pre) && |pre| == preLen && Done(s, b, at, e, preLen, i)
    ensures at <= n <= e && Done(s, b, n, e, preLen, i + 1)
    ensures forall j :: at <= j < n ==> |s[j].key| > preLen && s[j].key[preLen] == i
  {
    n := at;
    while n != e && s[n].key[preLen] == i
      invariant at <= n <= e
      invariant forall j :: at <= j < n ==> s[j].key[preLen] == i
      decreases e - n
    {
      n := n + 1;
    }
    if n < e {
      forall j | n <= j < e ensures s[j].key[preLen] > i {
        NibblesAscend(s, b, e, pre, n, j);
      }
    }
  }

  /** A range that parts right behind the shared nibbles is a branch: a slot for each next nibble, and
      the value of the key that ends here. */
  method BranchNode(s: seq<Entry>, b: nat, e: nat, preLen: nat, rlp: RlpStream, ghost pre: Key) returns (ghost t: Tree)
    requires Fit(s) && Sharing(s, b, e, pre) && |pre| == preLen && b + 1 < e
    requires exists w :: b < w < e && Part(s[b].key, s[w].key, preLen)
    requires rlp.Valid() && rlp.state == Base([])
    modifies rlp
    ensures t.Branch? && Canonical(t) && Bounded(Strip(t), MAX_KEY - preLen) && HoldsBelow(t, s, b, e, pre)
    ensures rlp.Valid() && rlp.state == Base([NodeItem(Strip(t))])
    decreases MAX_KEY - preLen, 1, 1
  {
    hide HoldsBelow, Rlp.Encode, EncodeData, Canonical, Bounded, Ref, NodeItem, Partial, Small, Strip;
    Begin(rlp, 17);
    ghost var cs, items := Slots(s, b, e, preLen, rlp, pre);
    var v := if preLen == |s[b].key| then s[b].value else [];
    ItemBound(v);
    FullList(items, Data(v));
    hide Children, Fit, Sharing;
    Stream(rlp, v, 17, items);
    t := Branch(cs, if preLen == |s[b].key| then Tagged(v) else []);
    BranchCase(s, b, e, pre, cs, items, t.value);
  }

  /** The loop over the sixteen slots. */
  method Slots(s: seq<Entry>, b: nat, e: nat, preLen: nat, rlp: RlpStream, ghost pre: Key)
    returns (ghost cs: seq<Tree>, ghost items: seq<Item>)
    requires Fit(s) && Sharing(s, b, e, pre) && |pre| == preLen && b + 1 < e
    requires rlp.Valid() && rlp.state == Partial(17, [])
    modifies rlp
    ensures |cs| == |items| == 16 && Children(cs, items, s, b, e, pre)
    ensures rlp.Valid() && rlp.state == Partial(17, items) && Small(items)
    decreases MAX_KEY - preLen, 1, 0
  {
    hide HoldsBelow, Rlp.Encode, EncodeData, Canonical, Bounded, Ref, NodeItem, Partial, Small, Strip, Children, Done;
    NoItems();
    var at := if preLen == |s[b].key| then b + 1 else b;
    FirstRun(s, b, e, pre);
    cs, items := [], [];
    NoChild(s, b, e, pre);
    for i: nat := 0 to 16
      invariant Done(s, b, at, e, preLen, i) && |cs| == |items| == i && Children(cs, items, s, b, e, pre)
      invariant rlp.Valid() && rlp.state == Partial(17, items) && Small(items)
    {
      ghost var c;
      at, c := Slot(s, b, at, e, preLen, i, rlp, pre, items);
      OneMore(cs, items, s, b, e, pre, c);
      cs, items := cs + [c], items + [Ref(Strip(c))];
    }
  }

  lemma FirstRun(s: seq<Entry>, b: nat, e: nat, pre: Key)
    requires Fit(s) && Sharing(s, b, e, pre) && b + 1 < e
    ensures Done(s, b, if |pre| == |s[b].key| then b + 1 else b, e, |pre|, 0)
  {
    forall i | b < i < e ensures |s[i].key| > |pre| {
      ShortIsFirst(s, b, e, pre, i);
    }
  }

  lemma NoChild(s: seq<Entry>, b: nat, e: nat, pre: Key)
    requires b <= e <= |s|
    ensures Children([], [], s, b, e, pre)
  {
  }

  lemma OneMore(cs: seq<Tree>, items: seq<Item>, s: seq<Entry>, b: nat, e: nat, pre: Key, c: Tree)
    requires b <= e <= |s| && |cs| < 16 && Children(cs, items, s, b, e, pre)
    requires Canonical(c) && Bounded(Strip(c), MAX_KEY - |pre| - 1) && HoldsBelow(c, s, b, e, pre + [|cs|])
    ensures |items| == |cs| && Children(cs + [c], items + [Ref(Strip(c))], s, b, e, pre)
  {
    hide HoldsBelow, Canonical, Bounded, Ref, Strip;
    var ds := cs + [c];
    forall n: nat | n < |cs| ensures ds[n] == cs[n] && (items + [Ref(Strip(c))])[n] == items[n] {
    }
  }

  /** One slot of a branch. */
  method Slot(s: seq<Entry>, b: nat, at: nat, e: nat, preLen: nat, i: nibble, rlp: RlpStream, ghost pre: Key,
    ghost items: seq<Item>)
    returns (n: nat, ghost c: Tree)
    requires Fit(s) && Sharing(s, b, e, pre) && |pre| == preLen && Done(s, b, at, e, preLen, i)
    requires rlp.Valid() && |items| < 17 && rlp.state == Partial(17, items) && Small(items)
    modifies rlp
    ensures Done(s, b, n, e, preLen, i + 1)
    ensures Canonical(c) && Bounded(Strip(c), MAX_KEY - preLen - 1) && HoldsBelow(c, s, b, e, pre + [i])
    ensures rlp.Valid() && rlp.state == Partial(17, items + [Ref(Strip(c))]) && Small(items + [Ref(Strip(c))])
    decreases MAX_KEY - preLen, 0
  {
    n := RunOf(s, b, at, e, preLen, i, pre);
    if at == n {
      c := Null;
      NullInline();
      Stream(rlp, [], 17, items);
      assert HoldsBelow(c, s, at, n, pre + [i]);
    } else {
      RunShares(s, b, at, n, e, pre, i);
      c := Hash256Aux(s, at, n, preLen + 1, rlp, pre + [i], 17, items);
    }
    ChildHolds(s, b, at, n, e, pre, i, c);
  }

  lemma RunShares(s: seq<Entry>, b: nat, at: nat, n: nat, e: nat, pre: Key, i: nibble)
    requires Fit(s) && Sharing(s, b, e, pre) && b <= at < n <= e
    requires forall j :: at <= j < n ==> |s[j].key| > |pre| && s[j].key[|pre|] == i
    ensures Sharing(s, at, n, pre + [i]) && |pre| + 1 <= MAX_KEY
  {
    forall j | at <= j < n ensures pre + [i] <= s[j].key {
      assert s[j].key[..|pre| + 1] == s[j].key[..|pre|] + [s[j].key[|pre|]];
    }
    assert |s[at].key| > |pre|;
  }

  lemma NoItems()
    ensures Small([])
  {
  }

  lemma FullList(items: seq<Item>, x: Item)
    requires |items| == 16
    ensures Partial(17, items + [x]) == Base([List(items + [x])])
  {
  }

  lemma BranchCase(s: seq<Entry>, b: nat, e: nat, pre: Key, cs: seq<Tree>, items: seq<Item>, v: bytes)
    requires Fit(s) && Sharing(s, b, e, pre) && b + 1 < e && |pre| <= MAX_KEY
    requires exists w :: b < w < e && Part(s[b].key, s[w].key, |pre|)
    requires |cs| == 16 && Children(cs, items, s, b, e, pre)
    requires v == if |s[b].key| == |pre| then Tagged(s[b].value) else []
    ensures var t := Branch(cs, v);
      Canonical(t) && Bounded(Strip(t), MAX_KEY - |pre|) && HoldsBelow(t, s, b, e, pre)
      && NodeItem(Strip(t)) == List(items + [Data(Untagged(v))])
  {
    hide HoldsBelow, Ref, Canonical, Bounded, NodeItem, Strip;
    var t := Branch(cs, v);
    BranchShaped(cs, items, s, b, e, pre, v);
    assert forall n: nat :: n < 16 ==> HoldsBelow(t.children[n], s, b, e, pre + [n]);
    BranchHolds(s, b, e, pre, t);
    var w :| b < w < e && Part(s[b].key, s[w].key, |pre|);
    BranchTwoSlots(s, b, e, pre, t, w);
    BranchCanonical(cs, items, s, b, e, pre, v);
  }

  lemma BranchCanonical(cs: seq<Tree>, items: seq<Item>, s: seq<Entry>, b: nat, e: nat, pre: Key, v: bytes)
    requires b <= e <= |s| && |cs| == 16 && Children(cs, items, s, b, e, pre)
    requires TwoSlots(Branch(cs, v)) && |Untagged(v)| <= MAX_VALUE
    ensures var t := Branch(cs, v);
      Canonical(t) && Bounded(Strip(t), MAX_KEY - |pre|) && NodeItem(Strip(t)) == List(items + [Data(Untagged(v))])
  {
    hide HoldsBelow, Ref, NodeItem, Strip, Bounded, Canonical, TwoSlots, Children;
    ChildRefs(cs, items, s, b, e, pre);
    BranchOf(cs, items, v, MAX_KEY - |pre|);
  }

  ghost predicate StrippedRef(c: Tree, x: Item, room: int) {
    Canonical(c) && x == Ref(Strip(c)) && Bounded(Strip(c), room)
  }

  lemma ChildRefs(cs: seq<Tree>, items: seq<Item>, s: seq<Entry>, b: nat, e: nat, pre: Key)
    requires b <= e <= |s| && |cs| == 16 && Children(cs, items, s, b, e, pre)
    ensures |items| == 16 && forall i :: 0 <= i < 16 ==> StrippedRef(cs[i], items[i], MAX_KEY - |pre| - 1)
  {
    hide HoldsBelow, Ref, Strip, Bounded, Canonical;
  }

  lemma BranchOf(cs: seq<Tree>, items: seq<Item>, v: bytes, room: int)
    requires |cs| == |items| == 16 && forall i :: 0 <= i < 16 ==> StrippedRef(cs[i], items[i], room - 1)
    requires TwoSlots(Branch(cs, v)) && |Untagged(v)| <= MAX_VALUE
    ensures var t := Branch(cs, v);
      Canonical(t) && Bounded(Strip(t), room) && NodeItem(Strip(t)) == List(items + [Data(Untagged(v))])
  {
    hide Ref, NodeItem, Strip, Bounded, Canonical, TwoSlots;
    AllCanonical(cs, v);
    BranchStripped(cs, v);
    BranchItemOf(StripAll(cs), items, Untagged(v));
    BranchBounded(Branch(StripAll(cs), Untagged(v)), room);
  }

  lemma AllCanonical(cs: seq<Tree>, v: bytes)
    requires |cs| == 16 && (forall n: nat :: n < 16 ==> Canonical(cs[n])) && TwoSlots(Branch(cs, v))
    ensures Canonical(Branch(cs, v)) && Shaped(Branch(StripAll(cs), Untagged(v)))
  {
    assert forall n: nat :: n < 16 ==> Shaped(cs[n]);
  }

  lemma BranchStripped(cs: seq<Tree>, v: bytes)
    ensures Strip(Branch(cs, v)) == Branch(StripAll(cs), Untagged(v))
  {
  }

  lemma BranchItemOf(cs: seq<Tree>, items: seq<Item>, v: bytes)
    requires Shaped(Branch(cs, v)) && |items| == 16 && forall i :: 0 <= i < 16 ==> items[i] == Ref(cs[i])
    ensures NodeItem(Branch(cs, v)) == List(items + [Data(v)])
  {
    assert NodeItem(Branch(cs, v)) == List(Refs(cs) + [Data(v)]);
    hide Ref, NodeItem, Shaped;
    assert items == Refs(cs);
  }

  lemma BranchBounded(t: Tree, room: int)
    requires Shaped(t) && t.Branch? && |t.value| <= MAX_VALUE
    requires forall i :: 0 <= i < 16 ==> Bounded(t.children[i], room - 1)
    ensures Bounded(t, room)
  {
  }

  lemma BranchShaped(cs: seq<Tree>, items: seq<Item>, s: seq<Entry>, b: nat, e: nat, pre: Key, v: bytes)
    requires b <= e <= |s| && |cs| == 16 && Children(cs, items, s, b, e, pre)
    ensures Shaped(Branch(cs, v))
  {
  }
}
