/** The entries of a trie in the order an iterator has to yield them: by key, shorter keys first. */
module TrieEntries {
  import opened Bytes
  import opened HexPrefix
  import opened Tries
  import opened TrieCanonical

  /** All entries of a tree that hangs below `path`. */
  function Entries(t: Tree, path: Key): seq<Entry>
    requires Shaped(t)
    decreases t, 20
  {
    match t
    case Null => []
    case Leaf(k, v) => [Entry(path + k, v)]
    case Ext(k, c) => Entries(c, path + k)
    case Branch(cs, v) => ValueEntry(v, path) + ChildEntries(t, 0, path)
  }

  function ValueEntry(v: bytes, path: Key): seq<Entry> {
    if v == [] then [] else [Entry(path, v)]
  }

  /** Those of a branch from its child `i` on. */
  function ChildEntries(t: Tree, i: nat, path: Key): seq<Entry>
    requires Shaped(t) && t.Branch? && i <= 16
    decreases t, 16 - i
  {
    if i == 16 then [] else Entries(t.children[i], path + [i]) + ChildEntries(t, i + 1, path)
  }

  /** The entries whose keys are not below `path + k`, found the way an iterator descends. */
  function From(t: Tree, path: Key, k: Key): seq<Entry>
    requires Shaped(t)
    decreases t
  {
    match t
    case Null => []
    case Leaf(key, v) => if key == k || KeyLess(k, key) then [Entry(path + key, v)] else []
    case Ext(key, c) =>
      if key <= k then From(c, path + key, k[|key|..])
      else if KeyLess(k, key) then Entries(c, path + key)
      else []
    case Branch(cs, v) =>
      if k == [] then Entries(t, path)
      else From(cs[k[0]], path + [k[0]], k[1..]) + ChildEntries(t, k[0] as int + 1, path)
  }

  // ---------------------------------------------------------------- order

  ghost predicate Ascending(es: seq<Entry>) {
    forall i, j :: 0 <= i < j < |es| ==> KeyLess(es[i].key, es[j].key)
  }

  ghost predicate AllBelow(es: seq<Entry>, p: Key) {
    forall i :: 0 <= i < |es| ==> p <= es[i].key
  }

  lemma ExtendedPrefix(p: Key, x: Key, k: Key)
    requires p + x <= k
    ensures p <= k
  {
    assert p == (p + x)[..|p|] == k[..|p|];
  }

  lemma {:induction false} EntriesBelow(t: Tree, path: Key)
    requires Shaped(t)
    ensures AllBelow(Entries(t, path), path)
    decreases t, 20
  {
    match t
    case Null =>
    case Leaf(_, _) =>
    case Ext(k, c) =>
      EntriesBelow(c, path + k);
      forall i | 0 <= i < |Entries(c, path + k)| ensures path <= Entries(c, path + k)[i].key {
        ExtendedPrefix(path, k, Entries(c, path + k)[i].key);
      }
    case Branch(_, v) =>
      ChildEntriesBelow(t, 0, path);
  }

  /** The entries from the child `i` on go on behind the path with the nibble `i` or a later one. */
  ghost predicate NibbleFrom(es: seq<Entry>, path: Key, i: nat) {
    forall j :: 0 <= j < |es| ==> path <= es[j].key && |es[j].key| > |path| && es[j].key[|path|] >= i
  }

  lemma {:induction false} ChildEntriesBelow(t: Tree, i: nat, path: Key)
    requires Shaped(t) && t.Branch? && i <= 16
    ensures NibbleFrom(ChildEntries(t, i, path), path, i)
    decreases t, 16 - i
  {
    if i < 16 {
      EntriesBelow(t.children[i], path + [i]);
      var es := Entries(t.children[i], path + [i]);
      forall j | 0 <= j < |es| ensures path <= es[j].key && |es[j].key| > |path| && es[j].key[|path|] == i {
        ExtendedPrefix(path, [i], es[j].key);
        assert es[j].key[|path|] == (path + [i])[|path|];
      }
      ChildEntriesBelow(t, i + 1, path);
    }
  }

  lemma PathsAscend(path: Key, a: Key, b: Key)
    requires path <= a && path <= b && |b| > |path|
    requires |a| == |path| || a[|path|] < b[|path|]
    ensures KeyLess(a, b)
  {
    if |a| == |path| {
      PrefixIsLess(a, b);
    } else {
      assert a[..|path|] == b[..|path|];
      KeyLessAt(a, b, |path|);
    }
  }

  /** Entries come in strictly ascending order, so none twice. */
  lemma {:induction false} EntriesAscend(t: Tree, path: Key)
    requires Shaped(t)
    ensures Ascending(Entries(t, path))
    decreases t, 20
  {
    match t
    case Null =>
    case Leaf(_, _) =>
    case Ext(k, c) =>
      EntriesAscend(c, path + k);
    case Branch(_, v) =>
      ChildEntriesAscend(t, 0, path);
      ChildEntriesBelow(t, 0, path);
      var es := ChildEntries(t, 0, path);
      forall j | 0 <= j < |es| ensures KeyLess(path, es[j].key) {
        PathsAscend(path, path, es[j].key);
      }
  }

  lemma {:induction false} ChildEntriesAscend(t: Tree, i: nat, path: Key)
    requires Shaped(t) && t.Branch? && i <= 16
    ensures Ascending(ChildEntries(t, i, path))
    decreases t, 16 - i
  {
    if i < 16 {
      var a, b := Entries(t.children[i], path + [i]), ChildEntries(t, i + 1, path);
      EntriesAscend(t.children[i], path + [i]);
      ChildEntriesAscend(t, i + 1, path);
      EntriesBelow(t.children[i], path + [i]);
      ChildEntriesBelow(t, i + 1, path);
      forall x, y | 0 <= x < |a| && 0 <= y < |b| ensures KeyLess(a[x].key, b[y].key) {
        ExtendedPrefix(path, [i], a[x].key);
        assert a[x].key[|path|] == (path + [i])[|path|];
        PathsAscend(path, a[x].key, b[y].key);
      }
    }
  }

  // ---------------------------------------------------------------- completeness

  /** The entries are exactly the stored keys with their values. */
  lemma {:induction false} EntriesComplete(t: Tree, path: Key, k: Key, v: bytes)
    requires Canonical(t)
    ensures Entry(path + k, v) in Entries(t, path) <==> Lookup(t, k) == v && v != []
    decreases t, 20
  {
    match t
    case Null =>
    case Leaf(key, w) =>
      PrefixCancels(path, key, k);
    case Ext(key, c) =>
      if key <= k {
        EntriesComplete(c, path + key, k[|key|..], v);
        assert path + key + k[|key|..] == path + k;
      } else {
        EntriesBelow(c, path + key);
        PrefixCancels(path, key, k);
      }
    case Branch(cs, w) =>
      ChildEntriesComplete(t, 0, path, k, v);
      ChildEntriesBelow(t, 0, path);
      assert k == [] ==> path + k == path;
      assert Entry(path + k, v) in ValueEntry(w, path) <==> k == [] && v == w && v != [] by {
        assert (path + k)[|path|..] == k;
      }
  }

  lemma {:induction false} ChildEntriesComplete(t: Tree, i: nat, path: Key, k: Key, v: bytes)
    requires Canonical(t) && t.Branch? && i <= 16
    ensures Entry(path + k, v) in ChildEntries(t, i, path)
      <==> k != [] && k[0] >= i && Lookup(t.children[k[0]], k[1..]) == v && v != []
    decreases t, 16 - i
  {
    if i < 16 {
      ChildEntriesComplete(t, i + 1, path, k, v);
      if k != [] && k[0] == i {
        EntriesComplete(t.children[i], path + [i], k[1..], v);
        assert path + [i] + k[1..] == path + k;
      } else {
        EntriesBelow(t.children[i], path + [i]);
        assert !(path + [i] <= path + k) by { PrefixCancels(path, [i], k); }
      }
    }
  }

  // ---------------------------------------------------------------- the lower bound

  ghost predicate AllLess(es: seq<Entry>, q: Key) {
    forall i :: 0 <= i < |es| ==> KeyLess(es[i].key, q)
  }

  ghost predicate NoneLess(es: seq<Entry>, q: Key) {
    forall i :: 0 <= i < |es| ==> !KeyLess(es[i].key, q)
  }

  /** Keys with a prefix that comes before, or after, `q` without being a prefix of it. */
  lemma AllOnOneSide(es: seq<Entry>, path: Key, key: Key, k: Key)
    requires AllBelow(es, path + key) && !(key <= k)
    ensures if KeyLess(k, key) then NoneLess(es, path + k) else AllLess(es, path + k)
  {
    forall i | 0 <= i < |es|
      ensures if KeyLess(k, key) then !KeyLess(es[i].key, path + k) else KeyLess(es[i].key, path + k)
    {
      var rest := es[i].key[|path + key|..];
      assert es[i].key == path + (key + rest);
      KeyLessPrefixed(path, key + rest, k);
      KeyLessPrefixed(path, k, key + rest);
      Outranks(key, rest, k);
      KeyLessAsymmetric(k, key + rest);
    }
  }

  /** The order of keys that part is settled where they part. */
  lemma {:induction false} Outranks(key: Key, rest: Key, k: Key)
    requires !(key <= k)
    ensures if KeyLess(k, key) then KeyLess(k, key + rest) else KeyLess(key + rest, k)
    decreases |key|
  {
    assert (key + rest)[0] == key[0] && (key + rest)[1..] == key[1..] + rest;
    if k != [] && k[0] == key[0] {
      assert key <= k <==> key[1..] <= k[1..] by {
        assert key == [key[0]] + key[1..] && k == [k[0]] + k[1..];
      }
      Outranks(key[1..], rest, k[1..]);
    }
  }

  /** From leaves out exactly the entries whose keys are below the bound; they come first. */
  lemma {:induction false} FromSkips(t: Tree, path: Key, k: Key) returns (skipped: seq<Entry>)
    requires Shaped(t)
    ensures Entries(t, path) == skipped + From(t, path, k)
    ensures AllLess(skipped, path + k) && NoneLess(From(t, path, k), path + k)
    decreases t
  {
    match t
    case Null =>
      skipped := [];
    case Leaf(key, v) =>
      skipped := if key == k || KeyLess(k, key) then [] else Entries(t, path);
      KeyLessTotal(key, k);
      KeyLessAsymmetric(k, key);
      KeyLessAsymmetric(k, k);
      KeyLessPrefixed(path, key, k);
    case Ext(key, c) =>
      if key <= k {
        skipped := FromSkips(c, path + key, k[|key|..]);
        assert path + key + k[|key|..] == path + k;
      } else {
        EntriesBelow(c, path + key);
        AllOnOneSide(Entries(c, path + key), path, key, k);
        skipped := if KeyLess(k, key) then [] else Entries(t, path);
      }
    case Branch(cs, v) =>
      if k == [] {
        skipped := [];
        EntriesBelow(t, path);
        NothingLess(Entries(t, path), path);
        assert path + k == path;
      } else {
        skipped := BranchSkips(t, path, k);
      }
  }

  lemma NothingLess(es: seq<Entry>, path: Key)
    requires AllBelow(es, path)
    ensures NoneLess(es, path)
  {
    forall i | 0 <= i < |es| ensures !KeyLess(es[i].key, path) {
      KeyLessAsymmetric(path, es[i].key);
      KeyLessAsymmetric(path, path);
      if |path| < |es[i].key| {
        PrefixIsLess(path, es[i].key);
      } else {
        assert es[i].key == path;
      }
    }
  }

  lemma {:induction false} BranchSkips(t: Tree, path: Key, k: Key) returns (skipped: seq<Entry>)
    requires Shaped(t) && t.Branch? && k != []
    ensures Entries(t, path) == skipped + From(t, path, k)
    ensures AllLess(skipped, path + k) && NoneLess(From(t, path, k), path + k)
    decreases t, 0
  {
    var n, q := k[0] as int, path + k;
    var low := FromSkips(t.children[n], path + [n], k[1..]);
    assert path + [n] + k[1..] == q;
    var before := EarlierChildren(t, 0, n, path, k);
    var high := ChildEntries(t, n + 1, path);
    ChildEntriesBelow(t, n + 1, path);
    forall i | 0 <= i < |high| ensures !KeyLess(high[i].key, q) {
      PathsAscend(path, q, high[i].key);
      KeyLessAsymmetric(q, high[i].key);
    }
    forall i | 0 <= i < |ValueEntry(t.value, path)| ensures KeyLess(ValueEntry(t.value, path)[i].key, q) {
      PrefixIsLess(path, q);
    }
    var v := ValueEntry(t.value, path);
    skipped := v + before + low;
    var from := From(t.children[n], path + [n], k[1..]);
    assert v + (before + (low + from + high)) == v + before + low + (from + high);
  }

  lemma {:induction false} EarlierChildren(t: Tree, i: nat, n: nat, path: Key, k: Key) returns (es: seq<Entry>)
    requires Shaped(t) && t.Branch? && i <= n < 16 && k != [] && k[0] == n
    ensures ChildEntries(t, i, path) == es + ChildEntries(t, n, path) && AllLess(es, path + k)
    decreases n - i
  {
    if i == n {
      es := [];
    } else {
      var a := Entries(t.children[i], path + [i]);
      EntriesBelow(t.children[i], path + [i]);
      forall j | 0 <= j < |a| ensures KeyLess(a[j].key, path + k) {
        ExtendedPrefix(path, [i], a[j].key);
        assert a[j].key[|path|] == (path + [i])[|path|];
        PathsAscend(path, a[j].key, path + k);
      }
      var rest := EarlierChildren(t, i + 1, n, path, k);
      es := a + rest;
      assert a + (rest + ChildEntries(t, n, path)) == a + rest + ChildEntries(t, n, path);
    }
  }
}
