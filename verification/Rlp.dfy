/** RLP, the recursive length prefix encoding (RLP.h, RLP.cpp; Yellow Paper, Appendix B):
    the encoding as a function on items, the strict reader as the source scans it, and the proof
    that the reader accepts exactly what the encoder writes. */
module Rlp {
  import opened Bytes
  import opened Options

  /** What an RLP string means: a byte string or a list. */
  datatype Item = Data(data: bytes) | List(items: seq<Item>)

  const IMM_LEN_COUNT := 56          // lengths below this are stored in the header byte
  const DATA_IMM_LEN_START := 0x80
  const DATA_IND_LEN_ZERO := 0xb7
  const LIST_START := 0xc0
  const LIST_IND_LEN_ZERO := 0xf7
  const MAX_LENGTH: nat := 0xFFFF_FFFF_FFFF_FEFF   // max(size_t) - 0x100

  // ---------------------------------------------------------------- big-endian numbers

  function BigEndian(n: nat): (s: seq<octet>)
    ensures n == 0 <==> s == []
  {
    if n == 0 then [] else BigEndian(n / 256) + [n % 256]
  }

  function FromBigEndian(s: seq<octet>): nat {
    if s == [] then 0 else FromBigEndian(s[..|s| - 1]) * 256 + s[|s| - 1]
  }

  lemma {:induction false} BigEndianValue(n: nat)
    ensures FromBigEndian(BigEndian(n)) == n
    ensures n > 0 ==> BigEndian(n)[0] != 0
  {
    if n > 0 {
      BigEndianValue(n / 256);
      var s := BigEndian(n);
      assert s[..|s| - 1] == BigEndian(n / 256);
      if n / 256 == 0 {
        assert s == [n % 256];
      }
    }
  }

  lemma {:induction false} BigEndianOfValue(s: seq<octet>)
    requires s != [] ==> s[0] != 0
    ensures BigEndian(FromBigEndian(s)) == s
  {
    if s != [] {
      BigEndianOfValue(s[..|s| - 1]);
      var m := FromBigEndian(s[..|s| - 1]);
      if |s| > 1 {
        assert m > 0;
      }
      assert s == s[..|s| - 1] + [s[|s| - 1]];
    }
  }

  lemma {:induction false} BigEndianSize(n: nat, k: nat)
    ensures |BigEndian(n)| <= k <==> n < Exp256(k)
  {
    if n > 0 && k > 0 {
      BigEndianSize(n / 256, k - 1);
    }
  }

  // ---------------------------------------------------------------- the encoding

  /** A length header: one byte for short payloads, else the size of the length and the length. */
  function Header(n: nat, immStart: int, indLenZero: int): (h: bytes)
    requires 0 <= immStart && 0 <= indLenZero
    ensures |h| == if n < IMM_LEN_COUNT then 1 else 1 + |BigEndian(n)|
  {
    if n < IMM_LEN_COUNT
    then [Octet((immStart + n) % 256)]
    else [Octet((indLenZero + |BigEndian(n)|) % 256)] + OfOctets(BigEndian(n))
  }

  function EncodeData(b: bytes): (r: bytes)
    ensures |r| > 0
  {
    if |b| == 1 && OctetBelow(b[0], DATA_IMM_LEN_START)
    then b
    else Header(|b|, DATA_IMM_LEN_START, DATA_IND_LEN_ZERO) + b
  }

  function WrapList(payload: bytes): (r: bytes)
    ensures |r| > |payload|
  {
    Header(|payload|, LIST_START, LIST_IND_LEN_ZERO) + payload
  }

  function Encode(x: Item): (r: bytes)
    ensures |r| > 0
  {
    match x
    case Data(b) => EncodeData(b)
    case List(items) => WrapList(EncodeAll(items))
  }

  function EncodeAll(items: seq<Item>): bytes {
    if items == [] then [] else Encode(items[0]) + EncodeAll(items[1..])
  }

  /** Every length in the item fits the machine word the reader computes in. */
  predicate Sized(x: Item) {
    match x
    case Data(b) => |b| < MAX_LENGTH
    case List(items) => |EncodeAll(items)| < MAX_LENGTH && forall i :: 0 <= i < |items| ==> Sized(items[i])
  }

  predicate AllSized(items: seq<Item>) {
    forall i :: 0 <= i < |items| ==> Sized(items[i])
  }

  // ---------------------------------------------------------------- the rule of Appendix B, in numbers

  /** The digits of a number to the base 256, the most significant one first and not zero. */
  lemma {:induction false} BigEndianRule(n: nat)
    ensures
      var s := BigEndian(n);
      && n < Exp256(|s|) && (s != [] ==> s[0] != 0)
      && forall i :: 0 <= i < |s| ==> s[i] == n / Exp256(|s| - 1 - i) % 256
    decreases n
  {
    BigEndianValue(n);
    BigEndianSize(n, |BigEndian(n)|);
    if n > 0 {
      var s, t := BigEndian(n), BigEndian(n / 256);
      BigEndianRule(n / 256);
      forall i | 0 <= i < |s| ensures s[i] == n / Exp256(|s| - 1 - i) % 256 {
        if i < |t| {
          assert s[i] == t[i];
          Quotients(n, Exp256(|t| - 1 - i));
        } else {
          assert Exp256(0) == 1;
        }
      }
    }
  }

  /** A length of at least 56: its size in bytes, added to `zero`, and its digits. */
  ghost predicate LongHeader(h: bytes, n: nat, zero: nat)
    requires zero <= 247
  {
    var size := |h| - 1;
    && 1 <= size <= 8 && n < Exp256(size)
    && h[0] == Octet(zero + size) && h[1] != Octet(0)
    && forall i :: 1 <= i <= size ==> h[i] == Octet(n / Exp256(size - i) % 256)
  }

  lemma HeaderRule(n: nat, immStart: int, indLenZero: int)
    requires n < 0x1_0000_0000_0000_0000 && 0 <= immStart <= 200 && 0 <= indLenZero <= 247
    ensures n < 56 ==> Header(n, immStart, indLenZero) == [Octet(immStart + n)]
    ensures n >= 56 ==> LongHeader(Header(n, immStart, indLenZero), n, indLenZero)
  {
    BigEndianRule(n);
    BigEndianSize(n, 8);
    assert Exp256(8) == 0x1_0000_0000_0000_0000;
  }

  /** A byte string: one byte below 128 stands for itself; else its length goes before it, in one byte
      from 128 on if it is below 56, else from 183 on with the length behind. */
  lemma DataRule(b: bytes)
    requires |b| < 0x1_0000_0000_0000_0000
    ensures
      var e := Encode(Data(b));
      if |b| == 1 && b[0].Octet? && b[0].value < 128 then e == b
      else if |b| < 56 then e == [Octet(128 + |b|)] + b
      else |e| > |b| && LongHeader(e[..|e| - |b|], |b|, 183) && e[|e| - |b|..] == b
  {
    HeaderRule(|b|, DATA_IMM_LEN_START, DATA_IND_LEN_ZERO);
    if |b| >= 56 {
      AppendParts(Header(|b|, DATA_IMM_LEN_START, DATA_IND_LEN_ZERO), b);
    }
  }

  /** A list: the encodings of its items one behind the other, and their length before them, from 192
      or 247 on. */
  lemma ListRule(items: seq<Item>)
    requires |EncodeAll(items)| < 0x1_0000_0000_0000_0000
    ensures
      var e, p := Encode(List(items)), EncodeAll(items);
      if |p| < 56 then e == [Octet(192 + |p|)] + p
      else |e| > |p| && LongHeader(e[..|e| - |p|], |p|, 247) && e[|e| - |p|..] == p
    ensures EncodeAll([]) == [] && (items != [] ==> EncodeAll(items) == Encode(items[0]) + EncodeAll(items[1..]))
  {
    var p := EncodeAll(items);
    HeaderRule(|p|, LIST_START, LIST_IND_LEN_ZERO);
    if |p| >= 56 {
      AppendParts(Header(|p|, LIST_START, LIST_IND_LEN_ZERO), p);
    }
  }

  // ---------------------------------------------------------------- the strict reader

  function First(d: bytes): int
    requires d != [] && d[0].Octet?
  {
    d[0].value
  }

  predicate IsList(d: bytes) {
    d != [] && d[0].Octet? && d[0].value >= LIST_START
  }

  /** RLP::isEmpty: an empty string or an empty list. */
  predicate IsEmpty(d: bytes) {
    d != [] && (d[0] == Octet(DATA_IMM_LEN_START) || d[0] == Octet(LIST_START))
  }

  /** RLP::lengthSize. */
  function LengthSize(d: bytes): (n: nat) {
    if d == [] || d[0].Digest? then 0
    else if First(d) >= LIST_START then
      if First(d) > LIST_IND_LEN_ZERO then First(d) - LIST_IND_LEN_ZERO else 0
    else if First(d) > DATA_IND_LEN_ZERO then First(d) - DATA_IND_LEN_ZERO else 0
  }

  /** RLP::requireGood: no two-byte form of a byte that could stand for itself. */
  predicate Good(d: bytes) {
    d != [] && (d[0] == Octet(DATA_IMM_LEN_START + 1) ==> |d| >= 2 && !OctetBelow(d[1], DATA_IMM_LEN_START))
  }

  /** The long form of RLP::length: a minimal big-endian number, too big for the short form. */
  function LongLength(d: bytes, size: nat): Option<nat>
    requires size > 0
  {
    if |d| <= size || d[1] == Octet(0) || size > 8 || !AllOctets(d[1..1 + size]) then None
    else
      var n := FromBigEndian(ToOctets(d[1..1 + size]));
      if n < IMM_LEN_COUNT || n >= MAX_LENGTH then None else Some(n)
  }

  /** RLP::length, None where it throws. */
  function Length(d: bytes): Option<nat> {
    if d == [] then Some(0)
    else if !Good(d) || d[0].Digest? then None
    else if First(d) < DATA_IMM_LEN_START then Some(1)
    else if LengthSize(d) > 0 then LongLength(d, LengthSize(d))
    else if First(d) <= DATA_IND_LEN_ZERO then Some(First(d) - DATA_IMM_LEN_START)
    else Some(First(d) - LIST_START)
  }

  /** RLP::payloadOffset. */
  function PayloadOffset(d: bytes): nat {
    if d != [] && OctetBelow(d[0], DATA_IMM_LEN_START) then 0 else 1 + LengthSize(d)
  }

  /** RLP::actualSize, None where it throws. */
  function ActualSize(d: bytes): (r: Option<nat>)
    ensures d != [] && r.Some? ==> r.value > 0
  {
    if d == [] then Some(0)
    else if OctetBelow(d[0], DATA_IMM_LEN_START) then Some(1)
    else match Length(d)
      case None => None
      case Some(n) => Some(PayloadOffset(d) + n)
  }

  /** RLP::sizeAsEncoded: throws when the string is too short for what it announces. */
  function SizeAsEncoded(d: bytes): (r: Option<nat>)
    ensures r.Some? ==> r.value <= |d| && (d != [] ==> r.value > 0)
  {
    match ActualSize(d)
    case None => None
    case Some(n) => if n <= |d| then Some(n) else None
  }

  /** Reading a whole string strictly, down to the last item. */
  function Decode(d: bytes): Option<Item>
    decreases |d|, 1
  {
    if d == [] || SizeAsEncoded(d) != Some(|d|) then None
    else if OctetBelow(d[0], DATA_IMM_LEN_START) then Some(Data(d))
    else if !IsList(d) then Some(Data(d[PayloadOffset(d)..]))
    else match DecodeAll(d[PayloadOffset(d)..])
      case None => None
      case Some(items) => Some(List(items))
  }

  function DecodeAll(p: bytes): Option<seq<Item>>
    decreases |p|, 2
  {
    if p == [] then Some([])
    else match SizeAsEncoded(p)
      case None => None
      case Some(n) =>
        match Decode(p[..n])
        case None => None
        case Some(x) =>
          match DecodeAll(p[n..])
          case None => None
          case Some(xs) => Some([x] + xs)
  }

  // ---------------------------------------------------------------- reading what was written

  predicate Base(immStart: int, indLenZero: int) {
    (immStart == DATA_IMM_LEN_START && indLenZero == DATA_IND_LEN_ZERO)
    || (immStart == LIST_START && indLenZero == LIST_IND_LEN_ZERO)
  }

  lemma {:induction false} LengthSizeInRange(n: nat)
    requires n < MAX_LENGTH
    ensures |BigEndian(n)| <= 8
  {
    BigEndianSize(n, 8);
    assert Exp256(8) == 0x1_0000_0000_0000_0000;
  }

  lemma {:induction false} LongHeaderReads(n: nat, indLenZero: int, rest: bytes)
    requires IMM_LEN_COUNT <= n < MAX_LENGTH
    requires indLenZero == DATA_IND_LEN_ZERO || indLenZero == LIST_IND_LEN_ZERO
    ensures var d := [Octet((indLenZero + |BigEndian(n)|) % 256)] + OfOctets(BigEndian(n)) + rest;
      1 <= |BigEndian(n)| <= 8 && LengthSize(d) == |BigEndian(n)| && LongLength(d, |BigEndian(n)|) == Some(n)
  {
    var be := BigEndian(n);
    var d := [Octet((indLenZero + |be|) % 256)] + OfOctets(be) + rest;
    LengthSizeInRange(n);
    BigEndianValue(n);
    hide BigEndian, FromBigEndian;
    assert d[0] == Octet(indLenZero + |be|);
    assert d[1..1 + |be|] == OfOctets(be);
    OctetsRoundTrip(be);
    assert d[1] == OfOctets(be)[0];
  }

  lemma ShortHeaderReads(n: nat, immStart: int, indLenZero: int, rest: bytes)
    requires n < IMM_LEN_COUNT && Base(immStart, indLenZero)
    requires immStart == DATA_IMM_LEN_START && n == 1 ==> rest != [] && !OctetBelow(rest[0], DATA_IMM_LEN_START)
    ensures var d := [Octet(immStart + n)] + rest;
      PayloadOffset(d) == 1 && Length(d) == Some(n) && (IsList(d) <==> immStart == LIST_START)
  {
    var d := [Octet(immStart + n)] + rest;
    assert d[0] == Octet(immStart + n) && d[1..] == rest;
    assert LengthSize(d) == 0;
  }

  /** The header of `n` reads back as `n`, whatever follows. */
  lemma {:induction false} HeaderReads(n: nat, immStart: int, indLenZero: int, rest: bytes)
    requires n < MAX_LENGTH && Base(immStart, indLenZero)
    requires immStart == DATA_IMM_LEN_START && n == 1 ==> rest != [] && !OctetBelow(rest[0], DATA_IMM_LEN_START)
    ensures var h := Header(n, immStart, indLenZero);
      PayloadOffset(h + rest) == |h| && Length(h + rest) == Some(n)
      && (IsList(h + rest) <==> immStart == LIST_START)
  {
    hide BigEndian, FromBigEndian, LongLength;
    if n >= IMM_LEN_COUNT {
      LongHeaderReads(n, indLenZero, rest);
      var d := Header(n, immStart, indLenZero) + rest;
      assert d[0] == Octet(indLenZero + |BigEndian(n)|);
    } else {
      ShortHeaderReads(n, immStart, indLenZero, rest);
      hide LengthSize, PayloadOffset, Length, IsList;
      assert immStart + n < 256;
    }
  }

  /** An encoding announces its own size, whatever follows it. */
  lemma {:induction false} SizeOfEncoding(x: Item, rest: bytes)
    requires Sized(x)
    ensures ActualSize(Encode(x) + rest) == Some(|Encode(x)|)
    ensures x.Data? ==> !IsList(Encode(x) + rest)
  {
    match x
    case Data(b) =>
      if !(|b| == 1 && OctetBelow(b[0], DATA_IMM_LEN_START)) {
        var h := Header(|b|, DATA_IMM_LEN_START, DATA_IND_LEN_ZERO);
        assert Encode(x) + rest == h + (b + rest);
        HeaderReads(|b|, DATA_IMM_LEN_START, DATA_IND_LEN_ZERO, b + rest);
      }
    case List(items) =>
      var p := EncodeAll(items);
      var h := Header(|p|, LIST_START, LIST_IND_LEN_ZERO);
      assert Encode(x) + rest == h + (p + rest);
      HeaderReads(|p|, LIST_START, LIST_IND_LEN_ZERO, p + rest);
  }

  lemma {:induction false} DecodeEncode(x: Item)
    requires Sized(x)
    ensures Decode(Encode(x)) == Some(x)
    decreases x, 0
  {
    var d := Encode(x);
    assert d + [] == d;
    SizeOfEncoding(x, []);
    match x
    case Data(b) =>
      if !(|b| == 1 && OctetBelow(b[0], DATA_IMM_LEN_START)) {
        HeaderReads(|b|, DATA_IMM_LEN_START, DATA_IND_LEN_ZERO, b);
        assert d[PayloadOffset(d)..] == b;
      }
    case List(items) =>
      var p := EncodeAll(items);
      HeaderReads(|p|, LIST_START, LIST_IND_LEN_ZERO, p);
      assert d[PayloadOffset(d)..] == p;
      DecodeEncodeAll(items);
  }

  lemma {:induction false} DecodeEncodeAll(items: seq<Item>)
    requires AllSized(items)
    ensures DecodeAll(EncodeAll(items)) == Some(items)
    decreases items, 0
  {
    hide Encode, Decode, ActualSize;
    if items != [] {
      var e, rest := Encode(items[0]), EncodeAll(items[1..]);
      var p := e + rest;
      SizeOfEncoding(items[0], rest);
      assert p[..|e|] == e && p[|e|..] == rest;
      DecodeEncode(items[0]);
      DecodeEncodeAll(items[1..]);
      assert items == [items[0]] + items[1..];
    }
  }

  // ---------------------------------------------------------------- writing what was read

  lemma {:induction false} LongHeaderWrites(d: bytes, size: nat)
    requires size > 0 && LongLength(d, size).Some?
    ensures var n := LongLength(d, size).value;
      IMM_LEN_COUNT <= n < MAX_LENGTH && |BigEndian(n)| == size && OfOctets(BigEndian(n)) == d[1..1 + size]
  {
    var be := ToOctets(d[1..1 + size]);
    assert d[1] == d[1..1 + size][0];
    BigEndianOfValue(be);
    hide BigEndian, FromBigEndian;
    assert OfOctets(be) == d[1..1 + size];
  }

  /** A string that reads as a longer item starts with the header of its length. */
  lemma {:induction false} HeaderWrites(d: bytes)
    requires d != [] && !OctetBelow(d[0], DATA_IMM_LEN_START) && Length(d).Some?
    requires PayloadOffset(d) <= |d|
    ensures Length(d).value < MAX_LENGTH
    ensures d[..PayloadOffset(d)] == if IsList(d)
      then Header(Length(d).value, LIST_START, LIST_IND_LEN_ZERO)
      else Header(Length(d).value, DATA_IMM_LEN_START, DATA_IND_LEN_ZERO)
  {
    var size := LengthSize(d);
    if size > 0 {
      LongHeaderWrites(d, size);
      hide BigEndian, FromBigEndian, LongLength;
      assert d[..PayloadOffset(d)] == [d[0]] + d[1..1 + size];
    }
  }

  /** A strictly sized string is the header of its payload, and its payload. */
  lemma {:induction false} StrictParts(d: bytes)
    requires d != [] && SizeAsEncoded(d) == Some(|d|) && !OctetBelow(d[0], DATA_IMM_LEN_START)
    ensures PayloadOffset(d) <= |d|
    ensures var p := d[PayloadOffset(d)..];
      |p| < MAX_LENGTH && |p| < |d|
      && (IsList(d) ==> WrapList(p) == d)
      && (!IsList(d) ==> EncodeData(p) == d)
  {
    HeaderWrites(d);
    hide BigEndian, LongLength;
    var p := d[PayloadOffset(d)..];
    assert |p| == Length(d).value;
    assert d == d[..PayloadOffset(d)] + p;
  }

  lemma {:induction false} EncodeDecode(d: bytes)
    requires Decode(d).Some?
    ensures Encode(Decode(d).value) == d
    ensures Sized(Decode(d).value)
    decreases |d|, 1
  {
    if !OctetBelow(d[0], DATA_IMM_LEN_START) {
      StrictParts(d);
      var p := d[PayloadOffset(d)..];
      if IsList(d) {
        EncodeDecodeAll(p);
      }
    }
  }

  lemma {:induction false} EncodeDecodeAll(p: bytes)
    requires DecodeAll(p).Some?
    ensures EncodeAll(DecodeAll(p).value) == p
    ensures AllSized(DecodeAll(p).value)
    decreases |p|, 2
  {
    hide Encode, Decode, ActualSize, SizeAsEncoded;
    if p != [] {
      var n := SizeAsEncoded(p).value;
      var x, xs := Decode(p[..n]).value, DecodeAll(p[n..]).value;
      EncodeDecode(p[..n]);
      EncodeDecodeAll(p[n..]);
      assert ([x] + xs)[1..] == xs;
      assert p == p[..n] + p[n..];
    }
  }

  // ---------------------------------------------------------------- the codec laws

  /** The reader accepts exactly the image of the encoder on sized items. */
  lemma {:induction false} AcceptsExactlyEncodings(d: bytes, x: Item)
    ensures Decode(d) == Some(x) <==> Sized(x) && Encode(x) == d
  {
    if Decode(d) == Some(x) {
      EncodeDecode(d);
    }
    if Sized(x) && Encode(x) == d {
      DecodeEncode(x);
    }
  }

  lemma EncodeInjective(x: Item, y: Item)
    requires Sized(x) && Sized(y) && Encode(x) == Encode(y)
    ensures x == y
  {
    DecodeEncode(x);
    DecodeEncode(y);
  }

  /** No encoding is a proper prefix of another. */
  lemma {:induction false} PrefixFree(x: Item, y: Item)
    requires Sized(x) && Sized(y) && Encode(x) <= Encode(y)
    ensures x == y
  {
    SizeOfEncoding(x, Encode(y)[|Encode(x)|..]);
    SizeOfEncoding(y, []);
    assert Encode(x) + Encode(y)[|Encode(x)|..] == Encode(y) == Encode(y) + [];
    EncodeInjective(x, y);
  }

  lemma {:induction false} EncodeAllAppend(a: seq<Item>, b: seq<Item>)
    ensures EncodeAll(a + b) == EncodeAll(a) + EncodeAll(b)
  {
    if a == [] {
      assert a + b == b;
    } else {
      assert (a + b)[1..] == a[1..] + b;
      EncodeAllAppend(a[1..], b);
    }
  }

  lemma EncodeOne(x: Item)
    ensures EncodeAll([x]) == Encode(x)
  {
    assert [x][1..] == [];
    assert EncodeAll([]) == [];
  }

  /** The encodings from item `k` on, and up to it. */
  lemma EncodeAllAt(items: seq<Item>, k: nat)
    requires k < |items|
    ensures EncodeAll(items[k..]) == Encode(items[k]) + EncodeAll(items[k + 1..])
    ensures EncodeAll(items[..k + 1]) == EncodeAll(items[..k]) + Encode(items[k])
  {
    hide Encode;
    DropDrop(items, k, 1);
    assert items[k..][1..] == items[k + 1..];
    assert items[..k + 1] == items[..k] + [items[k]];
    EncodeAllAppend(items[..k], [items[k]]);
    EncodeOne(items[k]);
  }

  /** What the encodings of a list look like from item `k` on. */
  lemma EncodeAllSplit(items: seq<Item>, k: nat)
    requires k <= |items|
    ensures var p, at := EncodeAll(items), |EncodeAll(items[..k])|;
      at <= |p| && p[at..] == EncodeAll(items[k..])
  {
    hide Encode, EncodeAll;
    assert items == items[..k] + items[k..];
    EncodeAllAppend(items[..k], items[k..]);
    AppendParts(EncodeAll(items[..k]), EncodeAll(items[k..]));
  }
}
