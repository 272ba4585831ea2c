/** rlp256, hash256 and orderedTrieRoot (TrieHash.cpp:94-128) on top of the builder, and the theorem
    that ties it to the incremental trie: the same root for any map, in whatever order it was filled. */
module TrieRoots {
  import opened Bytes
  import opened HexPrefix
  import opened Rlp
  import opened RlpStreams
  import opened Tries
  import opened TrieCanonical
  import opened TrieTags
  import opened TrieNodes
  import opened TrieHash
  import opened NodeStore
  import opened TrieStore
  import TrieAccounts
  import TrieStray

  type BytesMap = map<seq<octet>, bytes>

  predicate KeepsWithin(k: seq<octet>, v: bytes) {
    2 * |k| <= MAX_KEY && |v| <= MAX_VALUE
  }

  predicate Usable(m: BytesMap) {
    forall k :: k in m ==> KeepsWithin(k, m[k])
  }

  predicate NoEmpties(m: BytesMap) {
    forall k :: k in m ==> m[k] != []
  }

  /** What a map of byte strings holds for a nibble key. */
  function NibbleAt(m: BytesMap, q: Key): bytes {
    if |q| % 2 == 0 && Pack(q) in m then m[Pack(q)] else []
  }

  /** ... tagged, so that an empty value differs from none. */
  function TaggedAt(m: BytesMap, q: Key): bytes {
    if |q| % 2 == 0 && Pack(q) in m then Tagged(m[Pack(q)]) else []
  }

  lemma NibbleAtKey(m: BytesMap, k: seq<octet>, q: Key)
    ensures |Nibbles(k)| % 2 == 0 && Pack(Nibbles(k)) == k
    ensures q == Nibbles(k) <==> |q| % 2 == 0 && Pack(q) == k
  {
    PackNibbles(Nibbles(k));
    NibblesInjective(Pack(Nibbles(k)), k);
    if |q| % 2 == 0 {
      PackNibbles(q);
    }
  }

  lemma NibbleAtUpdate(m: BytesMap, k: seq<octet>, v: bytes, q: Key)
    ensures NibbleAt(m[k := v], q) == if q == Nibbles(k) then v else NibbleAt(m, q)
    ensures TaggedAt(m[k := v], q) == if q == Nibbles(k) then Tagged(v) else TaggedAt(m, q)
  {
    NibbleAtKey(m, k, q);
  }

  // ---------------------------------------------------------------- a map of nibble keys

  /** What a sorted map holds, tagged. */
  function EntryAt(s: seq<Entry>, q: Key): bytes {
    RangeAt(s, 0, |s|, q)
  }

  /** hexMap[k] = v. */
  method Assign(s: seq<Entry>, k: Key, v: bytes) returns (r: seq<Entry>)
    requires Fit(s) && |k| <= MAX_KEY && |v| <= MAX_VALUE
    ensures Fit(r)
    ensures forall q: Key :: EntryAt(r, q) == if q == k then Tagged(v) else EntryAt(s, q)
  {
    var i := 0;
    while i < |s| && KeyLess(s[i].key, k)
      invariant 0 <= i <= |s|
      invariant forall j :: 0 <= j < i ==> KeyLess(s[j].key, k)
    {
      i := i + 1;
    }
    var j := if i < |s| && s[i].key == k then i + 1 else i;
    r := s[..i] + [Entry(k, v)] + s[j..];
    forall n | j <= n < |s| ensures KeyLess(k, s[n].key) {
      After(s, k, i, n);
    }
    forall n | 0 <= n < i ensures s[n].key != k {
      KeyLessAsymmetric(s[n].key, k);
    }
    forall a, b | 0 <= a < b < |r| ensures KeyLess(r[a].key, r[b].key) {
      if a < i < b {
        KeyLessTransitive(r[a].key, k, r[b].key);
      }
    }
    forall q: Key ensures EntryAt(r, q) == if q == k then Tagged(v) else EntryAt(s, q) {
      AssignedAt(s, k, v, i, j, r, q);
    }
  }

  lemma After(s: seq<Entry>, k: Key, i: nat, n: nat)
    requires Ascending(s) && i <= n < |s| && !KeyLess(s[i].key, k) && s[n].key != k
    ensures KeyLess(k, s[n].key)
  {
    KeyLessTotal(s[i].key, k);
    if i < n && s[i].key != k {
      KeyLessTransitive(k, s[i].key, s[n].key);
    }
  }

  lemma AssignedAt(s: seq<Entry>, k: Key, v: bytes, i: nat, j: nat, r: seq<Entry>, q: Key)
    requires Ascending(s) && Ascending(r) && i <= j <= |s| && j <= i + 1 && (i < j ==> s[i].key == k)
    requires r == s[..i] + [Entry(k, v)] + s[j..]
    requires forall n :: 0 <= n < i ==> s[n].key != k
    requires forall n :: j <= n < |s| ==> s[n].key != k
    ensures EntryAt(r, q) == if q == k then Tagged(v) else EntryAt(s, q)
  {
    if q == k {
      assert r[i] == Entry(k, v);
      RangeAtFound(r, 0, |r|, i);
    } else if n :| 0 <= n < |s| && s[n].key == q {
      assert n < i || n >= j;
      var m := if n < i then n else n + 1 + i - j;
      assert r[m] == s[n];
      RangeAtFound(s, 0, |s|, n);
      RangeAtFound(r, 0, |r|, m);
    } else {
      forall n | 0 <= n < |r| ensures r[n].key != q {
        assert n < i ==> r[n] == s[n];
        assert n > i ==> r[n] == s[n - 1 - i + j];
      }
      RangeAtMissing(s, 0, |s|, q);
      RangeAtMissing(r, 0, |r|, q);
    }
  }

  // ---------------------------------------------------------------- rlp256 and hash256

  ghost predicate TaggedTree(u: Tree, m: BytesMap) {
    Canonical(u) && forall q: Key :: Lookup(u, q) == TaggedAt(m, q)
  }

  /** The tree of a map: canonical but for the empty values, whose keys take up their places. */
  ghost predicate TreeOf(t: Tree, m: BytesMap): (b: bool)
    ensures b ==> Shaped(t)
  {
    exists u: Tree :: TaggedTree(u, m) && t == Strip(u)
  }

  /** A map has one tree. */
  lemma OneTree(t: Tree, m: BytesMap)
    requires TreeOf(t, m)
    ensures forall w: Tree :: TreeOf(w, m) ==> w == t
  {
    hide Canonical, Lookup, TaggedAt, Strip;
    var a: Tree :| TaggedTree(a, m) && t == Strip(a);
    forall w: Tree | TreeOf(w, m) ensures w == t {
      var b: Tree :| TaggedTree(b, m) && w == Strip(b);
      assert forall q: Key :: Lookup(b, q) == TaggedAt(m, q) == Lookup(a, q);
      CanonicalUnique(b, a);
    }
  }

  /** Every map has a tree. */
  lemma {:induction false} SomeTaggedTree(m: BytesMap) returns (u: Tree)
    ensures TaggedTree(u, m)
    decreases |m|
  {
    u := Null;
    if m != map[] {
      var k :| k in m;
      var less := m - {k};
      var w := SomeTaggedTree(less);
      u := Tries.Insert(w, Nibbles(k), Tagged(m[k]));
      assert less[k := m[k]] == m;
      InsertCanonical(w, Nibbles(k), Tagged(m[k]));
      hide Canonical, Lookup, TaggedAt;
      forall q: Key ensures Lookup(u, q) == TaggedAt(m, q) {
        InsertLookup(w, Nibbles(k), Tagged(m[k]), q);
        NibbleAtUpdate(less, k, m[k], q);
      }
    }
  }

  lemma TreeOfLookup(t: Tree, m: BytesMap)
    requires TreeOf(t, m)
    ensures forall q: Key :: Lookup(t, q) == NibbleAt(m, q)
    ensures NoEmpties(m) ==> Canonical(t)
  {
    hide Canonical, Lookup, Strip;
    var u: Tree :| TaggedTree(u, m) && t == Strip(u);
    forall q: Key ensures Lookup(t, q) == NibbleAt(m, q) {
      StripLookup(u, q);
    }
    if NoEmpties(m) {
      StripCanonical(u);
    }
  }

  /** If no value is empty, it is the canonical tree that holds the map. */
  lemma TreeOfExactly(t: Tree, m: BytesMap)
    requires NoEmpties(m)
    ensures TreeOf(t, m) <==> Canonical(t) && forall q: Key :: Lookup(t, q) == NibbleAt(m, q)
  {
    hide Canonical, Lookup, NibbleAt, TaggedAt, Strip;
    var u := SomeTaggedTree(m);
    var w := Strip(u);
    assert TreeOf(w, m);
    TreeOfLookup(w, m);
    if TreeOf(t, m) {
      TreeOfLookup(t, m);
    }
    if Canonical(t) && forall q: Key :: Lookup(t, q) == NibbleAt(m, q) {
      assert forall q: Key :: Lookup(t, q) == NibbleAt(m, q) == Lookup(w, q);
      CanonicalUnique(t, w);
    }
  }

  /** rlp256: the root node of the map's tree. */
  method Rlp256(m: BytesMap) returns (r: bytes, ghost t: Tree)
    requires Usable(m)
    ensures TreeOf(t, m) && Bounded(t, MAX_KEY)
    ensures forall u: Tree :: TreeOf(u, m) ==> r == Encoding(u)
  {
    hide Canonical, Bounded, Strip, NodeItem, Rlp.Encode, TaggedTree, TreeOf, HoldsBelow;
    if m == map[] {
      r, t := Rlp.Encode(Data([])), Null;
      EmptyTree();
    } else {
      var hexMap := HexMap(m);
      var rlp := new RlpStream();
      ghost var u := Hash256Rlp(hexMap, 0, |hexMap|, 0, rlp, []);
      t := Strip(u);
      var out := rlp.Out();
      r := out.value;
      EncodeOne(NodeItem(t));
      WholeRange(hexMap, m, u);
    }
    OneTree(t, m);
  }

  lemma EmptyTree()
    ensures TreeOf(Null, map[]) && Bounded(Null, MAX_KEY) && Encoding(Null) == Rlp.Encode(Data([]))
  {
    assert TaggedTree(Null, map[]) && Strip(Null) == Null;
  }

  lemma WholeRange(hexMap: seq<Entry>, m: BytesMap, u: Tree)
    requires Canonical(u) && HoldsBelow(u, hexMap, 0, |hexMap|, [])
    requires forall q: Key :: EntryAt(hexMap, q) == TaggedAt(m, q)
    ensures TreeOf(Strip(u), m)
  {
    hide Canonical, Strip, Lookup, TaggedAt;
    forall q: Key ensures Lookup(u, q) == TaggedAt(m, q) {
      assert [] + q == q;
    }
    assert TaggedTree(u, m);
  }

  /** The keys as nibbles, sorted; the source goes through the map backwards. */
  method HexMap(m: BytesMap) returns (hexMap: seq<Entry>)
    requires Usable(m)
    ensures Fit(hexMap) && forall q: Key :: EntryAt(hexMap, q) == TaggedAt(m, q)
  {
    hexMap := [];
    var todo := m.Keys;
    ghost var done: BytesMap := map[];
    while todo != {}
      invariant todo <= m.Keys && done == map k | k in m && k !in todo :: m[k]
      invariant Fit(hexMap) && forall q: Key :: EntryAt(hexMap, q) == TaggedAt(done, q)
      decreases todo
    {
      var k :| k in todo;
      ghost var before := hexMap;
      hexMap := Assign(hexMap, Nibbles(k), m[k]);
      forall q: Key ensures EntryAt(hexMap, q) == TaggedAt(done[k := m[k]], q) {
        NibbleAtUpdate(done, k, m[k], q);
        assert EntryAt(before, q) == TaggedAt(done, q);
      }
      done := done[k := m[k]];
      todo := todo - {k};
    }
    assert done == m;
  }

  method Hash256(m: BytesMap) returns (h: bytes, ghost t: Tree)
    requires Usable(m)
    ensures TreeOf(t, m) && Bounded(t, MAX_KEY)
    ensures forall u: Tree :: TreeOf(u, m) ==> h == Root(u)
  {
    var r;
    r, t := Rlp256(m);
    h := Keccak(r);
  }

  // ---------------------------------------------------------------- the two ways to a root

  type Assignment = (seq<octet>, bytes)

  /** The map that a sequence of assignments fills. */
  function Filled(entries: seq<Assignment>): BytesMap {
    if entries == [] then map[]
    else var last := entries[|entries| - 1]; Filled(entries[..|entries| - 1])[last.0 := last.1]
  }

  function AsInsertions(entries: seq<Assignment>): seq<Entry> {
    seq(|entries|, i requires 0 <= i < |entries| => Entry(Nibbles(entries[i].0), entries[i].1))
  }

  /** Inserting the same entries one by one builds the map's tree, in any order, with any
      repetitions, empty values or not. */
  lemma {:induction false} InsertionsBuild(entries: seq<Assignment>)
    ensures TreeOf(InsertAll(Null, AsInsertions(entries)), Filled(entries))
  {
    var u := TaggedRun(entries);
    assert TaggedTree(u, Filled(entries));
  }

  lemma {:induction false} TaggedRun(entries: seq<Assignment>) returns (u: Tree)
    ensures TaggedTree(u, Filled(entries)) && InsertAll(Null, AsInsertions(entries)) == Strip(u)
  {
    u := Null;
    if entries != [] {
      var most, last := entries[..|entries| - 1], entries[|entries| - 1];
      var w := TaggedRun(most);
      var k, v := Nibbles(last.0), last.1;
      u := Tries.Insert(w, k, Tagged(v));
      assert AsInsertions(entries)[..|entries| - 1] == AsInsertions(most);
      StripInsert(w, k, v);
      InsertCanonical(w, k, Tagged(v));
      forall q: Key ensures Lookup(u, q) == TaggedAt(Filled(entries), q) {
        InsertLookup(w, k, Tagged(v), q);
        NibbleAtUpdate(Filled(most), last.0, v, q);
      }
    }
  }

  /** Filling an incremental trie and a map with the same entries, in any order, with any repetitions
      and with empty values, leads to the same root, that of the map's tree. */
  method SideBySide(entries: seq<Assignment>) returns (incremental: bytes, batch: bytes, ghost t: Tree)
    requires forall i :: 0 <= i < |entries| ==> KeepsWithin(entries[i].0, entries[i].1)
    ensures TreeOf(t, Filled(entries)) && forall q: Key :: Lookup(t, q) == NibbleAt(Filled(entries), q)
    ensures NoEmpties(Filled(entries)) ==> Canonical(t)
    ensures incremental == batch == Root(t)
  {
    hide Lookup, NibbleAt, Canonical, TreeOf, NoEmpties, Encoding, Bounded, Filed, Tries.Insert, PartAt;
    hide TrieAccounts.Present, TrieAccounts.Accounted, TrieAccounts.Repaid, TrieAccounts.Lost, TrieStray.StrayNode;
    var store := new OverlayDB(false);
    var trie := new GenericTrieDB(store);
    trie.Init();
    trie.ConsistentReachable();
    var m: BytesMap := map[];
    for i := 0 to |entries|
      invariant trie.Reachable() && trie.db == store && fresh(trie) && fresh(store) && !store.enforceRefs && Usable(m)
      invariant m == Filled(entries[..i]) && trie.tree == InsertAll(Null, AsInsertions(entries[..i]))
    {
      var (k, v) := entries[i];
      assert entries[..i + 1][..i] == entries[..i];
      assert AsInsertions(entries[..i + 1])[..i] == AsInsertions(entries[..i]);
      trie.Insert(k, v);
      m := m[k := v];
    }
    assert entries[..|entries|] == entries;
    InsertionsBuild(entries);
    batch, t := Hash256(m);
    OneTree(t, m);
    TreeOfLookup(t, m);
    incremental := trie.root;
  }

  // ---------------------------------------------------------------- lists

  /** rlp(j), the key of the j-th element of a list. */
  function IndexKey(j: nat): (k: seq<octet>)
    ensures OfOctets(k) == Rlp.Encode(Data(OfOctets(BigEndian(j))))
  {
    var d := OfOctets(BigEndian(j));
    assert AllOctets(Rlp.Encode(Data(d))) by { hide BigEndian; }
    ToOctets(Rlp.Encode(Data(d)))
  }

  /** The keys of a list are prefix-free, so removal and counting are right for them as well. */
  lemma IndexKeysApart(i: nat, j: nat)
    requires i != j && i < MAX_LENGTH && j < MAX_LENGTH
    ensures !(Nibbles(IndexKey(i)) <= Nibbles(IndexKey(j)))
  {
    hide IndexKey;
    var a, b := IndexKey(i), IndexKey(j);
    if Nibbles(a) <= Nibbles(b) {
      OctetPrefix(a, b);
      assert OfOctets(a) <= OfOctets(b);
      LengthSizeInRange(i);
      LengthSizeInRange(j);
      PrefixFree(Data(OfOctets(BigEndian(i))), Data(OfOctets(BigEndian(j))));
      OfOctetsInjective(BigEndian(i), BigEndian(j));
      BigEndianValue(i);
      BigEndianValue(j);
    }
  }

  lemma OctetPrefix(a: seq<octet>, b: seq<octet>)
    requires Nibbles(a) <= Nibbles(b)
    ensures a <= b
  {
    forall i | 0 <= i < |a| ensures a[i] == b[i] {
      assert Nibbles(a)[2 * i] == Nibbles(b)[2 * i];
      assert Nibbles(a)[2 * i + 1] == Nibbles(b)[2 * i + 1];
    }
  }

  /** The map holds the first `j` elements under their indices. */
  ghost predicate Indexed(m: BytesMap, data: seq<bytes>, j: nat)
    requires j <= |data|
  {
    && (forall k :: k in m ==> exists i: nat :: i < j && k == IndexKey(i))
    && (forall i: nat :: i < j ==> IndexKey(i) in m && m[IndexKey(i)] == data[i])
  }

  lemma IndexedOn(m: BytesMap, data: seq<bytes>, j: nat)
    requires j < |data| <= MAX_KEY && Indexed(m, data, j)
    ensures Indexed(m[IndexKey(j) := data[j]], data, j + 1)
  {
    hide IndexKey;
    forall i: nat | i < j ensures IndexKey(i) != IndexKey(j) {
      IndexKeysApart(i, j);
    }
  }

  lemma IndexedAt(m: BytesMap, data: seq<bytes>, q: Key)
    requires Indexed(m, data, |data|)
    ensures forall j: nat :: j < |data| ==> NibbleAt(m, Nibbles(IndexKey(j))) == data[j]
    ensures TaggedAt(m, q) != [] ==> exists j: nat :: j < |data| && q == Nibbles(IndexKey(j))
  {
    hide IndexKey, Pack, Nibbles;
    forall j: nat | j < |data| ensures NibbleAt(m, Nibbles(IndexKey(j))) == data[j] {
      NibbleAtKey(m, IndexKey(j), Nibbles(IndexKey(j)));
    }
    if TaggedAt(m, q) != [] {
      var j: nat :| j < |data| && Pack(q) == IndexKey(j);
      NibbleAtKey(m, IndexKey(j), q);
    }
  }

  /** The tree of a list: what holds every element under its index, empty ones included, and nothing
      else. */
  ghost predicate IndexTree(t: Tree, data: seq<bytes>): (b: bool)
    ensures b ==> Shaped(t)
  {
    exists m: BytesMap :: Indexed(m, data, |data|) && TreeOf(t, m)
  }

  lemma OneIndexTree(t: Tree, data: seq<bytes>)
    requires IndexTree(t, data)
    ensures forall u: Tree :: IndexTree(u, data) ==> u == t
  {
    hide TreeOf, IndexKey;
    var m: BytesMap :| Indexed(m, data, |data|) && TreeOf(t, m);
    OneTree(t, m);
    forall u: Tree | IndexTree(u, data) ensures u == t {
      var o: BytesMap :| Indexed(o, data, |data|) && TreeOf(u, o);
      assert o == m by {
        forall k ensures (k in o) == (k in m) && (k in o ==> o[k] == m[k]) {
          if i: nat :| i < |data| && k == IndexKey(i) {
          }
        }
      }
    }
  }

  lemma IndexTreeLookup(t: Tree, data: seq<bytes>)
    requires IndexTree(t, data)
    ensures forall j: nat :: j < |data| ==> Lookup(t, Nibbles(IndexKey(j))) == data[j]
    ensures forall q: Key :: Lookup(t, q) != [] ==> exists j: nat :: j < |data| && q == Nibbles(IndexKey(j))
    ensures [] !in data ==> Canonical(t)
  {
    hide TreeOf, IndexKey, Nibbles, Lookup, Canonical;
    var m: BytesMap :| Indexed(m, data, |data|) && TreeOf(t, m);
    TreeOfLookup(t, m);
    IndexedAt(m, data, []);
    forall q: Key | Lookup(t, q) != [] ensures exists j: nat :: j < |data| && q == Nibbles(IndexKey(j)) {
      IndexedAt(m, data, q);
    }
  }

  /** orderedTrieRoot: the root of the trie that maps every index to its element. */
  method OrderedTrieRoot(data: seq<bytes>) returns (h: bytes, ghost t: Tree)
    requires |data| <= MAX_KEY && forall i :: 0 <= i < |data| ==> |data[i]| <= MAX_VALUE
    ensures IndexTree(t, data)
    ensures forall u: Tree :: IndexTree(u, data) ==> h == Root(u)
    ensures forall j: nat :: j < |data| ==> Lookup(t, Nibbles(IndexKey(j))) == data[j]
    ensures forall q: Key :: Lookup(t, q) != [] ==> exists j: nat :: j < |data| && q == Nibbles(IndexKey(j))
    ensures [] !in data ==> Canonical(t)
  {
    hide IndexKey, Indexed, Nibbles, NibbleAt, Lookup, Canonical, TreeOf;
    var m: BytesMap := map[];
    NothingIndexed(data);
    for j := 0 to |data|
      invariant Indexed(m, data, j) && Usable(m)
    {
      IndexedOn(m, data, j);
      IndexKeySize(j);
      m := m[IndexKey(j) := data[j]];
    }
    h, t := Hash256(m);
    IndexTreeLookup(t, data);
    OneIndexTree(t, data);
  }

  lemma NothingIndexed(data: seq<bytes>)
    ensures Indexed(map[], data, 0)
  {
  }

  lemma IndexKeySize(j: nat)
    requires j < MAX_LENGTH
    ensures |IndexKey(j)| <= 17
  {
    LengthSizeInRange(j);
    DataBound(OfOctets(BigEndian(j)));
    assert |OfOctets(IndexKey(j))| <= 17 by { hide BigEndian, IndexKey, EncodeData; }
  }
}
