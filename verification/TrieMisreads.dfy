/** What removal makes of a value that it takes for the hash of a node (TrieDB.h:936-940, 947-1066;
    RLP.h:288-304): it looks the value up and goes on in whatever the store holds under it. */
module TrieMisreads {
  import opened Bytes
  import opened Options
  import opened HexPrefix
  import opened Rlp
  import opened RlpViews
  import opened NodeStore

  /** toHash<h256>: shorter strings are padded on the left. */
  function ToHash(v: bytes): bytes {
    if |v| < HASH_SIZE then seq(HASH_SIZE - |v|, _ => Octet(0)) + v else v
  }

  /** isTwoItemNode on a value: toHash throws for more than 32 bytes; the string found under the
      hash is malformed, or a list of two items. */
  predicate ReadsAsPair(st: Store, v: bytes) {
    |v| > HASH_SIZE
    || (var s := st.Lookup(ToHash(v));
        s != [] && (ActualSize(s) != Some(|s|) || (IsList(s) && (!Scans(Payload(s), 0) || Count(Payload(s), 0) == 2))))
  }

  // ---------------------------------------------------------------- hashes of hashes

  /** How deeply digests are nested in a string. */
  function Depth(s: bytes): nat
    decreases s
  {
    if s == [] then 0
    else
      var first, rest := ByteDepth(s[0]), Depth(s[1..]);
      if first > rest then first else rest
  }

  function ByteDepth(b: Byte): nat
    decreases b
  {
    match b
    case Octet(_) => 0
    case Digest(preimage, _) => 1 + Depth(preimage)
  }

  lemma {:induction false} DepthAt(s: bytes, i: nat)
    requires i < |s|
    ensures ByteDepth(s[i]) <= Depth(s)
  {
    if i > 0 {
      DepthAt(s[1..], i - 1);
    }
  }

  lemma {:induction false} DepthOfPart(s: bytes, a: nat, b: nat)
    requires a <= b <= |s|
    ensures Depth(s[a..b]) <= Depth(s)
    decreases |s|
  {
    if a < b {
      if a > 0 {
        assert s[a..b] == s[1..][a - 1..b - 1];
        DepthOfPart(s[1..], a - 1, b - 1);
      } else {
        var part := s[0..b];
        assert part[0] == s[0] && part[1..] == s[1..][0..b - 1];
        DepthOfPart(s[1..], 0, b - 1);
      }
    }
  }

  /** What is hashed is less deep than what holds its hash. */
  lemma DepthOfHash(v: bytes, s: bytes)
    requires |v| <= HASH_SIZE && ToHash(v) == Keccak(s)
    ensures v == Keccak(s) && Depth(s) < Depth(v)
  {
    assert Keccak(s)[0].Digest?;
    DepthAt(v, 0);
  }

  // ---------------------------------------------------------------- following a value

  /** deleteAt on any RLP string of the store: true where it finds nothing to remove, false where it
      finds something, throws, or reads past an end. */
  predicate Absent(st: Store, d: bytes, k: Key)
    decreases Depth(d), |d|, 0
  {
    if IsEmpty(d) then true
    else if !WellFormedList(d) then false
    else
      var p := Payload(d);
      var n := Count(p, 0);
      if n == 2 then
        var hp := Payload(ItemAt(p, 0));
        if !AllOctets(hp) then false
        else
          var key := KeyOf(ToOctets(hp)).View();
          if key == k && (hp == [] || IsLeaf(ToOctets(hp))) then false
          else if key <= k then ItemBelow(d, 1); AbsentBelow(st, ItemAt(p, 1), k[|key|..])
          else true
      else if n == 17 && k != [] then ItemBelow(d, k[0]); AbsentBelow(st, ItemAt(p, k[0]), k[1..])
      else false
  }

  /** deleteAtAux. */
  predicate AbsentBelow(st: Store, y: bytes, k: Key)
    decreases Depth(y), |y|, 1
  {
    if IsEmpty(y) then true
    else if IsList(y) then Absent(st, y, k)
    else PayloadBelow(y); AbsentUnder(st, Payload(y), k)
  }

  /** ... on a value that is looked up as a hash. */
  predicate AbsentUnder(st: Store, v: bytes, k: Key)
    decreases Depth(v), |v|, 0
  {
    var s := st.Lookup(ToHash(v));
    if |v| > HASH_SIZE || s == [] || Keccak(s) != ToHash(v) || ActualSize(s) != Some(|s|) then false
    else DepthOfHash(v, s); Absent(st, s, k)
  }

  lemma ItemBelow(d: bytes, i: nat)
    requires WellFormedList(d)
    ensures var y := ItemAt(Payload(d), i); Depth(y) <= Depth(d) && |y| < |d|
  {
    var p := Payload(d);
    DepthOfPart(d, |d| - |p|, |d|);
    assert p == d[|d| - |p|..|d|];
    if i < Count(p, 0) {
      DepthOfPart(p, Start(p, i), Start(p, i + 1));
    }
  }

  lemma PayloadBelow(y: bytes)
    ensures Depth(Payload(y)) <= Depth(y) && |Payload(y)| <= |y|
  {
    var p := Payload(y);
    DepthOfPart(y, |y| - |p|, |y|);
    assert p == y[|y| - |p|..|y|];
  }
}
