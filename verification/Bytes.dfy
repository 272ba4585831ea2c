/** The byte alphabet shared by the codec, the trie and the node store, with an ideal hash.

    A byte is an ordinary octet or one of the 32 bytes of a digest.  A digest byte remembers the
    string that was hashed, so two digests are equal exactly when their preimages are: this is the
    "no collisions" reading of sha3 under which the trie's claims are meant. */
module Bytes {
  type octet = x: int | 0 <= x < 256
  type nibble = x: int | 0 <= x < 16

  datatype Byte = Octet(value: octet) | Digest(preimage: seq<Byte>, index: nat)

  type bytes = seq<Byte>

  const HASH_SIZE := 32

  /** sha3 (SHA3.h): always 32 bytes, injective. */
  function Keccak(s: bytes): (h: bytes)
    ensures |h| == HASH_SIZE
  {
    seq(HASH_SIZE, i requires 0 <= i < HASH_SIZE => Digest(s, i))
  }

  lemma KeccakInjective(s: bytes, t: bytes)
    requires Keccak(s) == Keccak(t)
    ensures s == t
  {
    assert Keccak(s)[0] == Keccak(t)[0];
  }

  /** True of an octet below `limit`; the value of a digest byte is never inspected. */
  predicate OctetBelow(b: Byte, limit: int) {
    b.Octet? && b.value < limit
  }

  function OfOctets(s: seq<octet>): (r: bytes)
    ensures |r| == |s|
  {
    seq(|s|, i requires 0 <= i < |s| => Octet(s[i]))
  }

  predicate AllOctets(s: bytes) {
    forall i :: 0 <= i < |s| ==> s[i].Octet?
  }

  function ToOctets(s: bytes): (r: seq<octet>)
    requires AllOctets(s)
    ensures |r| == |s|
  {
    seq(|s|, i requires 0 <= i < |s| => s[i].value)
  }

  lemma OctetsRoundTrip(s: seq<octet>)
    ensures AllOctets(OfOctets(s)) && ToOctets(OfOctets(s)) == s
  {
  }

  lemma OfOctetsInjective(s: seq<octet>, t: seq<octet>)
    requires OfOctets(s) == OfOctets(t)
    ensures s == t
  {
    OctetsRoundTrip(s);
    OctetsRoundTrip(t);
  }

  /** 256 to the power of `k`: the numbers of `k` bytes. */
  function Exp256(k: nat): (r: nat)
    ensures r >= 1
  {
    if k == 0 then 1 else 256 * Exp256(k - 1)
  }

  lemma Multiple(d: int, m: int)
    requires m > 0
    ensures d >= 1 ==> d * m >= m
    ensures d <= -1 ==> d * m <= 0 - m
  {
    if d <= -1 {
      assert d * m == 0 - (0 - d) * m;
    }
  }

  /** Division is determined by its remainder. */
  lemma QuotientIs(n: nat, d: nat, q: nat, r: nat)
    requires n == d * q + r && r < d
    ensures n / d == q && n % d == r
  {
    var x := n / d - q;
    assert x * d == n / d * d - q * d == r - n % d;
    Multiple(x, d);
  }

  lemma {:induction false} Exp256Rule(a: nat, b: nat)
    ensures Exp256(0) == 1 && Exp256(1) == 256 && Exp256(a + b) == Exp256(a) * Exp256(b)
    decreases a
  {
    if a > 0 {
      Exp256Rule(a - 1, b);
      assert Exp256(a + b) == 256 * Exp256(a - 1 + b) == 256 * (Exp256(a - 1) * Exp256(b)) == Exp256(a) * Exp256(b);
    }
  }

  lemma Quotients(n: nat, a: nat)
    requires a > 0
    ensures n / (256 * a) == n / 256 / a
  {
    var q, r := n / 256, n % 256;
    var p, t := q / a, q % a;
    assert n == 256 * q + r && q == a * p + t;
    assert 256 * (a * p) == 256 * a * p;
    assert n == 256 * a * p + (256 * t + r);
    assert 256 * t + r < 256 * a;
    QuotientIs(n, 256 * a, p, 256 * t + r);
  }

  // ---------------------------------------------------------------- slices

  lemma SliceIsTake<T>(s: seq<T>, a: nat, n: nat)
    requires a + n <= |s|
    ensures s[a..a + n] == s[a..][..n]
  {
  }

  lemma DropDrop<T>(s: seq<T>, a: nat, b: nat)
    requires a + b <= |s|
    ensures s[a..][b..] == s[a + b..]
  {
  }

  lemma AppendParts<T>(a: seq<T>, b: seq<T>)
    ensures (a + b)[..|a|] == a && (a + b)[|a|..] == b
  {
  }

  lemma AppendAssociates<T>(a: seq<T>, b: seq<T>, c: seq<T>)
    ensures a + b + c == a + (b + c)
  {
  }
}
