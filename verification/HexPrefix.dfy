/** Nibble views of byte strings and the hex-prefix encoding of trie keys
    (TrieCommon.h, TrieCommon.cpp; Yellow Paper, Appendix C). */
module HexPrefix {
  import opened Bytes

  type Key = seq<nibble>

  // ---------------------------------------------------------------- nibbles

  function High(b: octet): nibble { b / 16 }

  function Low(b: octet): nibble { b % 16 }

  function Join(h: nibble, l: nibble): (b: octet)
    ensures High(b) == h && Low(b) == l
  {
    h * 16 + l
  }

  function Nibble(data: seq<octet>, i: nat): nibble
    requires i < 2 * |data|
  {
    if i % 2 == 1 then Low(data[i / 2]) else High(data[i / 2])
  }

  function Nibbles(data: seq<octet>): (k: Key)
    ensures |k| == 2 * |data|
    ensures forall i :: 0 <= i < 2 * |data| ==> k[i] == Nibble(data, i)
  {
    seq(2 * |data|, i requires 0 <= i < 2 * |data| => Nibble(data, i))
  }

  lemma NibblesAppend(a: seq<octet>, b: seq<octet>)
    ensures Nibbles(a + b) == Nibbles(a) + Nibbles(b)
  {
    forall i | 0 <= i < 2 * |a + b|
      ensures Nibbles(a + b)[i] == (Nibbles(a) + Nibbles(b))[i]
    {
      if i >= 2 * |a| {
        assert i / 2 - |a| == (i - 2 * |a|) / 2;
      }
    }
  }

  lemma NibblesInjective(a: seq<octet>, b: seq<octet>)
    requires Nibbles(a) == Nibbles(b)
    ensures a == b
  {
    assert |Nibbles(a)| == |Nibbles(b)|;
    forall i | 0 <= i < |a| ensures a[i] == b[i] {
      assert Nibbles(a)[2 * i] == Nibbles(b)[2 * i];
      assert Nibbles(a)[2 * i + 1] == Nibbles(b)[2 * i + 1];
    }
  }

  /** A view on the nibbles of `data` from `offset` on. */
  datatype NibbleSlice = NibbleSlice(data: seq<octet>, offset: nat) {
    ghost predicate Valid() { offset <= 2 * |data| }

    function Size(): nat
      requires Valid()
    {
      2 * |data| - offset
    }

    /** The key a slice stands for. */
    function View(): (k: Key)
      requires Valid()
      ensures |k| == Size()
    {
      Nibbles(data)[offset..]
    }

    function At(i: nat): (n: nibble)
      requires Valid() && i < Size()
      ensures n == View()[i]
    {
      Nibble(data, offset + i)
    }

    method Shared(k: NibbleSlice) returns (n: nat)
      requires Valid() && k.Valid()
      ensures n == SharedPrefix(View(), k.View())
    {
      n := SharedNibbles(data, offset, offset + Size(), k.data, k.offset, k.offset + k.Size());
      assert View() == Nibbles(data)[offset..offset + Size()];
      assert k.View() == Nibbles(k.data)[k.offset..k.offset + k.Size()];
    }

    method Contains(k: NibbleSlice) returns (b: bool)
      requires Valid() && k.Valid()
      ensures b <==> k.View() <= View()
    {
      var n := Shared(k);
      SharedPrefixIsLongest(View(), k.View());
      b := n == k.Size();
      if b {
        assert k.View() == k.View()[..n] == View()[..n];
      }
    }

    method Equals(k: NibbleSlice) returns (b: bool)
      requires Valid() && k.Valid()
      ensures b <==> k.View() == View()
    {
      var n := Shared(k);
      SharedPrefixIsLongest(View(), k.View());
      b := k.Size() == Size() && n == k.Size();
      if b {
        assert k.View() == k.View()[..n] == View()[..n] == View();
      }
    }

    /** Strictly before every key that starts with `k`. */
    method IsEarlierThan(k: NibbleSlice) returns (b: bool)
      requires Valid() && k.Valid()
      ensures b <==> KeyLess(View(), k.View()) && !(k.View() <= View())
    {
      var i := 0;
      while i < k.Size() && i < Size()
        invariant i <= k.Size() && i <= Size()
        invariant View()[..i] == k.View()[..i]
      {
        if At(i) < k.At(i) {
          KeyLessAt(View(), k.View(), i);
          assert k.View()[i] != View()[i];
          return true;
        } else if At(i) > k.At(i) {
          KeyLessAt(k.View(), View(), i);
          KeyLessAsymmetric(View(), k.View());
          return false;
        }
        i := i + 1;
      }
      if i >= k.Size() {
        assert k.View() == k.View()[..i] == View()[..i];
        return false;
      }
      assert View() == View()[..i] == k.View()[..i];
      PrefixIsLess(View(), k.View());
      b := true;
    }
  }

  /** The length of the longest common prefix. */
  function SharedPrefix(a: Key, b: Key): (n: nat)
    ensures n <= |a| && n <= |b|
  {
    if a == [] || b == [] || a[0] != b[0] then 0 else 1 + SharedPrefix(a[1..], b[1..])
  }

  lemma {:induction false} SharedPrefixIsLongest(a: Key, b: Key)
    ensures var n := SharedPrefix(a, b);
      a[..n] == b[..n] && (n < |a| && n < |b| ==> a[n] != b[n])
    decreases |a|
  {
    if a != [] && b != [] && a[0] == b[0] {
      SharedPrefixIsLongest(a[1..], b[1..]);
      var n := SharedPrefix(a[1..], b[1..]);
      assert a[..n + 1] == [a[0]] + a[1..][..n];
      assert b[..n + 1] == [b[0]] + b[1..][..n];
    }
  }

  lemma SharedPrefixStep(a: Key, b: Key, n: nat)
    requires n < |a| && n < |b| && a[n] == b[n]
    ensures SharedPrefix(a[n..], b[n..]) == 1 + SharedPrefix(a[n + 1..], b[n + 1..])
  {
    assert a[n..][1..] == a[n + 1..] && b[n..][1..] == b[n + 1..];
  }

  method SharedNibbles(first: seq<octet>, beginFirst: nat, endFirst: nat,
                       second: seq<octet>, beginSecond: nat, endSecond: nat)
    returns (n: nat)
    requires beginFirst <= endFirst <= 2 * |first|
    requires beginSecond <= endSecond <= 2 * |second|
    ensures n == SharedPrefix(Nibbles(first)[beginFirst..endFirst], Nibbles(second)[beginSecond..endSecond])
  {
    hide Nibble, Nibbles;
    ghost var a, b := Nibbles(first)[beginFirst..endFirst], Nibbles(second)[beginSecond..endSecond];
    var i, j := beginFirst, beginSecond;
    n := 0;
    while i < endFirst && j < endSecond && Nibble(first, i) == Nibble(second, j)
      invariant n <= |a| && n <= |b| && i == beginFirst + n && j == beginSecond + n
      invariant SharedPrefix(a, b) == n + SharedPrefix(a[n..], b[n..])
    {
      assert a[n] == Nibble(first, i) && b[n] == Nibble(second, j);
      SharedPrefixStep(a, b, n);
      i, j, n := i + 1, j + 1, n + 1;
    }
  }

  /** A common prefix can be left out of a comparison. */
  lemma PrefixCancels(pre: Key, a: Key, b: Key)
    ensures pre + a <= pre + b <==> a <= b
    ensures pre + a == pre + b <==> a == b
  {
    assert (pre + a)[|pre|..] == a && (pre + b)[|pre|..] == b;
  }

  // ---------------------------------------------------------------- key order

  /** Lexicographic order, shorter first: the order of std::map over nibble vectors. */
  predicate KeyLess(a: Key, b: Key) {
    b != [] && (a == [] || a[0] < b[0] || (a[0] == b[0] && KeyLess(a[1..], b[1..])))
  }

  lemma {:induction false} KeyLessAt(a: Key, b: Key, i: nat)
    requires i < |a| && i < |b| && a[..i] == b[..i] && a[i] < b[i]
    ensures KeyLess(a, b)
    decreases i
  {
    if i > 0 {
      assert a[0] == a[..i][0] == b[..i][0] == b[0];
      assert a[1..][..i - 1] == a[..i][1..] == b[..i][1..] == b[1..][..i - 1];
      KeyLessAt(a[1..], b[1..], i - 1);
    }
  }

  lemma {:induction false} PrefixIsLess(a: Key, b: Key)
    requires a <= b && |a| < |b|
    ensures KeyLess(a, b)
    decreases |a|
  {
    if a != [] {
      PrefixIsLess(a[1..], b[1..]);
    }
  }

  lemma {:induction false} KeyLessAsymmetric(a: Key, b: Key)
    ensures KeyLess(a, b) ==> !KeyLess(b, a) && a != b
    decreases |a|
  {
    if KeyLess(a, b) && a != [] && a[0] == b[0] {
      KeyLessAsymmetric(a[1..], b[1..]);
    }
  }

  lemma {:induction false} KeyLessTransitive(a: Key, b: Key, c: Key)
    requires KeyLess(a, b) && KeyLess(b, c)
    ensures KeyLess(a, c)
    decreases |a|
  {
    if a != [] && a[0] == b[0] && b[0] == c[0] {
      KeyLessTransitive(a[1..], b[1..], c[1..]);
    }
  }

  lemma {:induction false} KeyLessTotal(a: Key, b: Key)
    ensures a == b || KeyLess(a, b) || KeyLess(b, a)
    decreases |a|
  {
    if a != [] && b != [] && a[0] == b[0] {
      KeyLessTotal(a[1..], b[1..]);
      if a[1..] == b[1..] {
        assert a == [a[0]] + a[1..] == b;
      }
    }
  }

  lemma {:induction false} KeyLessPrefixed(p: Key, a: Key, b: Key)
    ensures KeyLess(p + a, p + b) <==> KeyLess(a, b)
    decreases |p|
  {
    if p == [] {
      assert p + a == a && p + b == b;
    } else {
      assert (p + a)[1..] == p[1..] + a && (p + b)[1..] == p[1..] + b;
      KeyLessPrefixed(p[1..], a, b);
    }
  }

  // ---------------------------------------------------------------- the specification

  function Pack(k: Key): (r: seq<octet>)
    requires |k| % 2 == 0
    ensures |r| == |k| / 2
  {
    if k == [] then [] else [Join(k[0], k[1])] + Pack(k[2..])
  }

  function Flags(leaf: bool, odd: bool): (f: nibble) {
    (if leaf then 2 else 0) + (if odd then 1 else 0)
  }

  /** Hex-prefix encoding: the first nibble holds the terminator and the parity. */
  function Encode(k: Key, leaf: bool): (r: seq<octet>)
    ensures |r| == 1 + |k| / 2
  {
    if |k| % 2 == 1
    then [Join(Flags(leaf, true), k[0])] + Pack(k[1..])
    else [Join(Flags(leaf, false), 0)] + Pack(k)
  }

  function KeyOf(hpe: seq<octet>): (s: NibbleSlice)
    ensures s.Valid()
  {
    if hpe == [] then NibbleSlice(hpe, 0)
    else if High(hpe[0]) % 2 == 1 then NibbleSlice(hpe, 1)
    else NibbleSlice(hpe, 2)
  }

  predicate IsLeaf(hpe: seq<octet>)
    requires hpe != []
  {
    High(hpe[0]) / 2 % 2 == 1
  }

  lemma {:induction false} PackNibbles(k: Key)
    requires |k| % 2 == 0
    ensures Nibbles(Pack(k)) == k
    decreases |k|
  {
    if k != [] {
      PackNibbles(k[2..]);
      NibblesAppend([Join(k[0], k[1])], Pack(k[2..]));
      NibblesOfJoin(k[0], k[1]);
      assert k == [k[0], k[1]] + k[2..];
    }
  }

  /** The nibbles an encoding starts with. */
  function Head(leaf: bool, odd: bool): (k: Key)
    ensures |k| == if odd then 1 else 2
  {
    [Flags(leaf, odd)] + if odd then [] else [0]
  }

  lemma {:induction false} EncodedNibbles(k: Key, leaf: bool)
    ensures Nibbles(Encode(k, leaf)) == Head(leaf, |k| % 2 == 1) + k
  {
    var odd := |k| % 2 == 1;
    if odd {
      EncodedParts(Flags(leaf, true), k[0], k[1..]);
      assert [Flags(leaf, true), k[0]] + k[1..] == Head(leaf, odd) + k;
    } else {
      EncodedParts(Flags(leaf, false), 0, k);
    }
  }

  lemma EncodedParts(h: nibble, l: nibble, rest: Key)
    requires |rest| % 2 == 0
    ensures Nibbles([Join(h, l)] + Pack(rest)) == [h, l] + rest
  {
    hide Pack, Nibbles;
    var b := [Join(h, l)];
    NibblesOfJoin(h, l);
    NibblesAppend(b, Pack(rest));
    PackNibbles(rest);
  }

  lemma NibblesOfJoin(h: nibble, l: nibble)
    ensures Nibbles([Join(h, l)]) == [h, l]
  {
    hide High, Low, Join;
    var b := [Join(h, l)];
    assert Nibble(b, 0) == h && Nibble(b, 1) == l;
  }

  /** Decoding inverts encoding for every key and flag. */
  lemma {:induction false} KeyOfEncode(k: Key, leaf: bool)
    ensures KeyOf(Encode(k, leaf)).View() == k
    ensures IsLeaf(Encode(k, leaf)) == leaf
  {
    EncodedNibbles(k, leaf);
    assert High(Encode(k, leaf)[0]) == Nibbles(Encode(k, leaf))[0];
  }

  lemma EncodeInjective(k: Key, leaf: bool, k': Key, leaf': bool)
    requires Encode(k, leaf) == Encode(k', leaf')
    ensures k == k' && leaf == leaf'
  {
    KeyOfEncode(k, leaf);
    KeyOfEncode(k', leaf');
  }

  /** The strings the encoder can write: flags below 4 and, for an even key, a zero low nibble. */
  predicate WellFormed(hpe: seq<octet>) {
    hpe != [] && High(hpe[0]) < 4 && (High(hpe[0]) % 2 == 0 ==> Low(hpe[0]) == 0)
  }

  lemma HeadOfWellFormed(hpe: seq<octet>)
    requires WellFormed(hpe)
    ensures var o := KeyOf(hpe).offset;
      Nibbles(hpe)[..o] == Head(IsLeaf(hpe), o == 1) && |KeyOf(hpe).View()| % 2 == o % 2
  {
    var f := High(hpe[0]);
    assert Flags(f / 2 % 2 == 1, f % 2 == 1) == f;
    hide High, Low, Flags;
    NibbleZeroOne(hpe);
    assert Nibbles(hpe)[0] == f && Nibbles(hpe)[1] == Low(hpe[0]);
  }

  /** ... and encoding inverts decoding on exactly those. */
  lemma {:induction false} EncodeKeyOf(hpe: seq<octet>)
    requires hpe != []
    ensures Encode(KeyOf(hpe).View(), IsLeaf(hpe)) == hpe <==> WellFormed(hpe)
  {
    hide Encode, High, Low, Nibble;
    var k, leaf := KeyOf(hpe).View(), IsLeaf(hpe);
    EncodedNibbles(k, leaf);
    NibbleZeroOne(hpe);
    assert Nibbles(hpe)[0] == High(hpe[0]) && Nibbles(hpe)[1] == Low(hpe[0]);
    if WellFormed(hpe) {
      HeadOfWellFormed(hpe);
      assert Nibbles(hpe) == Nibbles(hpe)[..KeyOf(hpe).offset] + k;
      NibblesInjective(Encode(k, leaf), hpe);
    }
  }

  lemma NibbleZeroOne(d: seq<octet>)
    requires d != []
    ensures Nibble(d, 0) == High(d[0]) && Nibble(d, 1) == Low(d[0])
  {
  }

  // ---------------------------------------------------------------- the rule of Appendix C, byte by byte

  /** The high half of a byte comes first. */
  lemma NibbleRule(data: seq<octet>, i: nat)
    requires i < |data|
    ensures Nibbles(data)[2 * i] == data[i] / 16 && Nibbles(data)[2 * i + 1] == data[i] % 16
  {
  }

  lemma {:induction false} PackRule(k: Key, i: nat)
    requires |k| % 2 == 0 && i < |k| / 2
    ensures Pack(k)[i] == k[2 * i] as int * 16 + k[2 * i + 1]
    decreases i
  {
    if i > 0 {
      PackRule(k[2..], i - 1);
    }
  }

  /** Bit 5 of the first byte tells a leaf, bit 4 an odd key, whose first nibble follows in the same
      byte; then come the other nibbles, two to a byte, high half first. */
  lemma EncodeRule(k: Key, leaf: bool)
    ensures
      var e, odd := Encode(k, leaf), |k| % 2;
      && |e| == 1 + |k| / 2
      && e[0] < 64 && (e[0] / 32 % 2 == 1 <==> leaf) && (e[0] / 16 % 2 == 1 <==> odd == 1)
      && e[0] % 16 == (if odd == 1 then k[0] else 0)
      && forall i :: 1 <= i < |e| ==> e[i] == k[2 * i - 2 + odd] as int * 16 + k[2 * i - 1 + odd]
  {
    EncodeHead(k, leaf);
    EncodeTail(k, leaf);
    hide Encode;
  }

  lemma EncodeHead(k: Key, leaf: bool)
    ensures
      var first, odd := Encode(k, leaf)[0], |k| % 2;
      && first < 64 && (first / 32 % 2 == 1 <==> leaf) && (first / 16 % 2 == 1 <==> odd == 1)
      && first % 16 == (if odd == 1 then k[0] else 0)
  {
    hide Pack;
  }

  lemma EncodeTail(k: Key, leaf: bool)
    ensures var odd := |k| % 2;
      forall i :: 1 <= i < |Encode(k, leaf)| ==>
        Encode(k, leaf)[i] == k[2 * i - 2 + odd] as int * 16 + k[2 * i - 1 + odd]
  {
    hide Pack;
    var e, odd := Encode(k, leaf), |k| % 2;
    var rest := if odd == 1 then k[1..] else k;
    assert e[1..] == Pack(rest);
    forall i | 1 <= i < |e| ensures e[i] == k[2 * i - 2 + odd] as int * 16 + k[2 * i - 1 + odd] {
      PackRule(rest, i - 1);
      assert e[i] == e[1..][i - 1] && rest[2 * (i - 1)] == k[2 * i - 2 + odd];
    }
  }

  /** Reading: the same bits, and the nibbles behind the first one or two. */
  lemma DecodeRule(hpe: seq<octet>)
    requires hpe != []
    ensures IsLeaf(hpe) <==> hpe[0] / 32 % 2 == 1
    ensures
      var k, first := KeyOf(hpe).View(), if hpe[0] / 16 % 2 == 1 then 1 else 2;
      && |k| == 2 * |hpe| - first
      && forall i :: 0 <= i < |k| ==>
        k[i] == if (i + first) % 2 == 0 then hpe[(i + first) / 2] / 16 else hpe[(i + first) / 2] % 16
  {
    assert hpe[0] / 16 / 2 == hpe[0] / 32;
  }

  // ---------------------------------------------------------------- the three encoders

  /** `a | b` on non-negative numbers. */
  function BitOr(a: nat, b: nat): (r: nat) {
    if a == 0 then b
    else if b == 0 then a
    else 2 * BitOr(a / 2, b / 2) + (if a % 2 == 1 || b % 2 == 1 then 1 else 0)
  }

  /** `b | n`: the high nibble stays, the low nibbles are or-ed. */
  function OrLow(b: octet, n: nibble): octet {
    Join(High(b), BitOr(Low(b), n) % 16)
  }

  /** Nibbles packed two to a byte, the last one padded with a zero. */
  function Packed(k: Key): (r: seq<octet>)
    ensures |r| == (|k| + 1) / 2
  {
    Pack(if |k| % 2 == 1 then k + [0] else k)
  }

  lemma {:induction false} PackAppend(a: Key, b: Key)
    requires |a| % 2 == 0 && |b| % 2 == 0
    ensures Pack(a + b) == Pack(a) + Pack(b)
    decreases |a|
  {
    if a == [] {
      assert a + b == b;
    } else {
      assert (a + b)[2..] == a[2..] + b;
      PackAppend(a[2..], b);
    }
  }

  lemma PackPair(k: Key, h: nibble, l: nibble)
    requires |k| % 2 == 0
    ensures Pack(k + [h, l]) == Pack(k) + [Join(h, l)]
  {
    PackAppend(k, [h, l]);
    assert Pack([h, l]) == [Join(h, l)];
  }

  lemma OrLowFresh(h: nibble, n: nibble)
    ensures OrLow(Join(h, 0), n) == Join(h, n)
  {
  }

  lemma PackedPush(k: Key, n: nibble)
    ensures |k| % 2 == 0 ==> Packed(k + [n]) == Packed(k) + [Join(n, 0)]
    ensures |k| % 2 == 1 ==> var last := |Packed(k)| - 1;
      Packed(k + [n]) == Packed(k)[..last] + [OrLow(Packed(k)[last], n)]
  {
    hide Pack, OrLow, Join;
    if |k| % 2 == 0 {
      assert k + [n] + [0] == k + [n, 0];
      PackPair(k, n, 0);
    } else {
      var a, h := k[..|k| - 1], k[|k| - 1];
      assert k + [0] == a + [h, 0] && k + [n] == a + [h, n];
      PackPair(a, h, 0);
      PackPair(a, h, n);
      OrLowFresh(h, n);
    }
  }

  lemma PackedHead(leaf: bool, odd: bool)
    ensures Packed(Head(leaf, odd)) == [Join(Flags(leaf, odd), 0)]
  {
    if odd {
      assert Head(leaf, odd) + [0] == [Flags(leaf, odd), 0];
    }
  }

  lemma EncodePacked(k: Key, leaf: bool)
    ensures Encode(k, leaf) == Packed(Head(leaf, |k| % 2 == 1) + k)
  {
    var odd := |k| % 2 == 1;
    if odd {
      var s := [Flags(leaf, true), k[0]] + k[1..];
      assert Head(leaf, odd) + k == s;
      PackAppend([Flags(leaf, true), k[0]], k[1..]);
      assert Pack([Flags(leaf, true), k[0]]) == [Join(Flags(leaf, true), k[0])];
    } else {
      PackAppend([Flags(leaf, false), 0], k);
      assert Pack([Flags(leaf, false), 0]) == [Join(Flags(leaf, false), 0)];
    }
  }

  lemma PackStep(k: Key, i: nat)
    requires i <= |k| && i % 2 == 0 && |k| % 2 == 0
    ensures Pack(k[..0]) == []
    ensures i < |k| ==> Pack(k[..i + 2]) == Pack(k[..i]) + [Join(k[i], k[i + 1])]
  {
    if i < |k| {
      assert k[..i + 2] == k[..i] + [k[i], k[i + 1]];
      PackPair(k[..i], k[i], k[i + 1]);
    }
  }

  /** From a vector of nibbles; a negative `end` counts from behind the last one. */
  method EncodeVector(hexVector: Key, leaf: bool, begin: nat, end: int) returns (ret: seq<octet>)
    requires begin <= (if end < 0 then |hexVector| + 1 + end else end) <= |hexVector|
    ensures ret == Encode(hexVector[begin..if end < 0 then |hexVector| + 1 + end else end], leaf)
  {
    hide Pack, High, Low, Join, Flags;
    var stop := if end < 0 then |hexVector| + 1 + end else end;
    ghost var k := hexVector[begin..stop];
    var odd := (stop - begin) % 2 != 0;
    ret := [Join(Flags(leaf, odd), 0)];
    var i: nat := begin;
    if odd {
      ret := [OrLow(ret[0], hexVector[begin])];
      i := i + 1;
    }
    ghost var head, rest := ret, hexVector[i..stop];
    ghost var done := 0;
    PackStep(rest, 0);
    while i < stop
      invariant done <= |rest| && i == stop - |rest| + done
      invariant done % 2 == 0 && |rest| % 2 == 0
      invariant ret == head + Pack(rest[..done])
    {
      PackStep(rest, done);
      ret := ret + [Join(hexVector[i], hexVector[i + 1])];
      i, done := i + 2, done + 2;
    }
    assert rest[..done] == rest;
    assert rest == if odd then k[1..] else k;
  }

  /** One turn of the loops below: fill the low half of the last byte, or start a new byte. */
  method Push(ret: seq<octet>, d: nat, n: nibble, ghost k: Key) returns (r: seq<octet>)
    requires ret == Packed(k) && k != [] && d == |k|
    ensures r == Packed(k + [n])
  {
    PackedPush(k, n);
    if d % 2 == 1 {
      r := ret[..|ret| - 1] + [OrLow(ret[|ret| - 1], n)];
    } else {
      r := ret + [Join(n, 0)];
    }
  }

  /** From two nibble slices: the encoding of their concatenation. */
  method EncodeTwo(d1: seq<octet>, o1: nat, d2: seq<octet>, o2: nat, leaf: bool) returns (ret: seq<octet>)
    requires o1 <= 2 * |d1| && o2 <= 2 * |d2|
    ensures ret == Encode(NibbleSlice(d1, o1).View() + NibbleSlice(d2, o2).View(), leaf)
  {
    hide Pack, Packed, Encode, High, Low, Join, Flags;
    var end1, end2 := |d1| * 2, |d2| * 2;
    ghost var v1, v2 := Nibbles(d1)[o1..], Nibbles(d2)[o2..];
    var odd := (end1 - o1 + end2 - o2) % 2 == 1;
    ghost var head := Head(leaf, odd);
    ret := [Join(Flags(leaf, odd), 0)];
    PackedHead(leaf, odd);
    assert head + v1[..0] == head;
    var d := if odd then 1 else 2;
    for i := o1 to end1
      invariant ret == Packed(head + v1[..i - o1]) && d == |head| + i - o1
    {
      assert Nibble(d1, i) == v1[i - o1];
      assert head + v1[..i + 1 - o1] == head + v1[..i - o1] + [v1[i - o1]];
      ret := Push(ret, d, Nibble(d1, i), head + v1[..i - o1]);
      d := d + 1;
    }
    assert v1[..end1 - o1] == v1;
    assert head + v1 + v2[..0] == head + v1;
    for i := o2 to end2
      invariant ret == Packed(head + v1 + v2[..i - o2]) && d == |head| + |v1| + i - o2
    {
      assert Nibble(d2, i) == v2[i - o2];
      assert head + v1 + v2[..i + 1 - o2] == head + v1 + v2[..i - o2] + [v2[i - o2]];
      ret := Push(ret, d, Nibble(d2, i), head + v1 + v2[..i - o2]);
      d := d + 1;
    }
    assert v2[..end2 - o2] == v2 && head + v1 + v2 == head + (v1 + v2);
    EncodePacked(v1 + v2, leaf);
  }

  /** From part of a slice; a negative `end` counts from behind the last nibble. */
  method EncodeSlice(s: NibbleSlice, leaf: bool, begin: nat, end: int) returns (ret: seq<octet>)
    requires s.Valid()
    requires begin <= (if end < 0 then s.Size() + 1 + end else end) <= s.Size()
    ensures ret == Encode(s.View()[begin..if end < 0 then s.Size() + 1 + end else end], leaf)
  {
    hide Pack, Packed, Encode, High, Low, Join, Flags;
    var first := begin + s.offset;
    var stop := (if end < 0 then s.Size() + 1 + end else end) + s.offset;
    var odd := (stop - first) % 2 == 1;
    ghost var k := s.View()[begin..stop - s.offset];
    ghost var head := Head(leaf, odd);
    ret := [Join(Flags(leaf, odd), 0)];
    PackedHead(leaf, odd);
    assert head + k[..0] == head;
    var d := if odd then 1 else 2;
    for i := first to stop
      invariant ret == Packed(head + k[..i - first]) && d == |head| + i - first
    {
      assert Nibble(s.data, i) == k[i - first];
      assert head + k[..i + 1 - first] == head + k[..i - first] + [k[i - first]];
      ret := Push(ret, d, Nibble(s.data, i), head + k[..i - first]);
      d := d + 1;
    }
    assert k[..stop - first] == k;
    EncodePacked(k, leaf);
  }
}
