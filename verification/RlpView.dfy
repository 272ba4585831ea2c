/** Reading the items of an RLP list (RLP.cpp:55-104, 215-226): by subscript, through a cache of
    the last item read, by iterator, and by counting.  All agree with one scan of the payload. */
module RlpViews {
  import opened Bytes
  import opened Options
  import opened Rlp

  const NO_INDEX: nat := 0xFFFF_FFFF_FFFF_FFFF     // (size_t)-1: nothing read yet

  // ---------------------------------------------------------------- the scan

  /** The size of the item at `at`; 0 at the end, or where sizeAsEncoded throws. */
  function SizeAt(p: bytes, at: nat): (n: nat)
    requires at <= |p|
    ensures at + n <= |p|
  {
    match SizeAsEncoded(p[at..])
    case Some(n) => n
    case None => 0
  }

  /** From `at` on, the payload can be cut into items to its end without an exception. */
  predicate Scans(p: bytes, at: nat)
    requires at <= |p|
    decreases |p| - at
  {
    at == |p| || (SizeAt(p, at) > 0 && Scans(p, at + SizeAt(p, at)))
  }

  function Count(p: bytes, at: nat): (n: nat)
    requires at <= |p| && Scans(p, at)
    ensures n <= |p| - at && (n == 0 <==> at == |p|)
    decreases |p| - at
  {
    if at == |p| then 0 else 1 + Count(p, at + SizeAt(p, at))
  }

  /** Where item `i` starts. */
  function Start(p: bytes, i: nat): (at: nat)
    requires Scans(p, 0) && i <= Count(p, 0)
    ensures at <= |p| && Scans(p, at) && Count(p, at) == Count(p, 0) - i
    decreases i
  {
    if i == 0 then 0 else Start(p, i - 1) + SizeAt(p, Start(p, i - 1))
  }

  /** Item `i` as the scan finds it; nothing when out of range. */
  function ItemAt(p: bytes, i: nat): bytes
    requires Scans(p, 0)
  {
    if i < Count(p, 0) then p[Start(p, i)..Start(p, i + 1)] else []
  }

  lemma {:induction false} ScanOfEncodings(items: seq<Item>, k: nat)
    requires AllSized(items) && k <= |items|
    ensures var p, at := EncodeAll(items), |EncodeAll(items[..k])|;
      at <= |p| && Scans(p, at) && Count(p, at) == |items| - k
      && (k < |items| ==> SizeAt(p, at) == |Encode(items[k])|)
    decreases |items| - k
  {
    hide Encode, EncodeAll, ActualSize;
    EncodeAllSplit(items, k);
    if k < |items| {
      EncodeAllAt(items, k);
      SizeOfEncoding(items[k], EncodeAll(items[k + 1..]));
      ScanOfEncodings(items, k + 1);
    } else {
      assert items[..k] == items;
    }
  }

  lemma {:induction false} StartOfEncodings(items: seq<Item>, i: nat)
    requires AllSized(items) && i <= |items|
    ensures var p := EncodeAll(items);
      Scans(p, 0) && Count(p, 0) == |items| && Start(p, i) == |EncodeAll(items[..i])|
    decreases i
  {
    hide Encode, SizeAsEncoded, Scans, Count;
    assert EncodeAll(items[..0]) == [];
    ScanOfEncodings(items, 0);
    if i > 0 {
      hide EncodeAll;
      StartOfEncodings(items, i - 1);
      ScanOfEncodings(items, i - 1);
      EncodeAllAt(items, i - 1);
    }
  }

  lemma ItemOfEncodings(items: seq<Item>, i: nat)
    requires AllSized(items)
    ensures Scans(EncodeAll(items), 0) && Count(EncodeAll(items), 0) == |items|
    ensures ItemAt(EncodeAll(items), i) == if i < |items| then Encode(items[i]) else []
  {
    hide Encode, EncodeAll, SizeAsEncoded, Scans, Count, Start;
    StartOfEncodings(items, 0);
    if i < |items| {
      StartOfEncodings(items, i);
      StartOfEncodings(items, i + 1);
      EncodingAt(items, i);
    }
  }

  lemma EncodingAt(items: seq<Item>, i: nat)
    requires AllSized(items) && i < |items|
    ensures var p, a, b := EncodeAll(items), |EncodeAll(items[..i])|, |EncodeAll(items[..i + 1])|;
      a <= b <= |p| && p[a..b] == Encode(items[i])
  {
    hide Encode, EncodeAll;
    var p, a, e := EncodeAll(items), |EncodeAll(items[..i])|, Encode(items[i]);
    EncodeAllAt(items, i);
    EncodeAllSplit(items, i);
    AppendParts(e, EncodeAll(items[i + 1..]));
    SliceIsTake(p, a, |e|);
  }

  /** RLP::payload of a strictly sized string; cropping out of bounds gives nothing. */
  function Payload(d: bytes): (p: bytes)
    ensures |p| <= |d| && p == d[|d| - |p|..]
  {
    if PayloadOffset(d) <= |d| then d[PayloadOffset(d)..] else []
  }

  /** A list whose payload can be scanned to its end. */
  predicate WellFormedList(d: bytes) {
    IsList(d) && SizeAsEncoded(d) == Some(|d|) && Scans(Payload(d), 0)
  }

  /** The encoding of a list is well formed, and the scan finds the encodings of its items. */
  lemma EncodedListScans(items: seq<Item>, i: nat)
    requires Sized(List(items))
    ensures var d := Encode(List(items));
      WellFormedList(d) && Count(Payload(d), 0) == |items|
      && ItemAt(Payload(d), i) == if i < |items| then Encode(items[i]) else []
  {
    var x := List(items);
    var p := EncodeAll(items);
    SizeOfEncoding(x, []);
    assert Encode(x) + [] == Encode(x);
    HeaderReads(|p|, LIST_START, LIST_IND_LEN_ZERO, p);
    assert Payload(Encode(x)) == p;
    ItemOfEncodings(items, i);
  }

  // ---------------------------------------------------------------- lists that may be malformed

  /** A list of the size it announces; its payload need not be made of items. */
  predicate SizedList(d: bytes) {
    IsList(d) && SizeAsEncoded(d) == Some(|d|)
  }

  /** The end of the item at `at`, None where sizeAsEncoded throws; the end of the payload stays. */
  function Skip(p: bytes, at: nat): (r: Option<nat>)
    requires at <= |p|
    ensures r.Some? ==> at <= r.value <= |p| && (r.value == at <==> at == |p|)
  {
    match SizeAsEncoded(p[at..])
    case None => None
    case Some(n) => Some(at + n)
  }

  /** The offset behind `i` items, None where one of them cannot be read. */
  function Reach(p: bytes, i: nat): (r: Option<nat>)
    ensures r.Some? ==> r.value <= |p|
  {
    if i == 0 then Some(0)
    else match Reach(p, i - 1)
      case None => None
      case Some(at) => Skip(p, at)
  }

  /** Item `i` as a scan from the start finds it: None where the scan throws, nothing out of range. */
  function Found(p: bytes, i: nat): Option<bytes> {
    if Reach(p, i + 1).None? then None
    else ReachOn(p, i); Some(p[Reach(p, i).value..Reach(p, i + 1).value])
  }

  lemma ReachOn(p: bytes, i: nat)
    requires Reach(p, i + 1).Some?
    ensures Reach(p, i).Some? && Reach(p, i).value <= Reach(p, i + 1).value
  {
  }

  /** Behind the end there is nothing more to find. */
  lemma {:induction false} NothingBehind(p: bytes, j: nat, i: nat)
    requires j <= i && Found(p, j) == Some([])
    ensures Found(p, i) == Some([])
    decreases i - j
  {
    hide SizeAsEncoded;
    assert Reach(p, j).value == Reach(p, j + 1).value == |p|;
    if j < i {
      assert Reach(p, j + 2) == Some(|p|);
      NothingBehind(p, j + 1, i);
    }
  }

  lemma NothingLeft(p: bytes)
    ensures Skip(p, |p|) == Some(|p|)
  {
    assert p[|p|..] == [];
  }

  /** In a well-formed payload the scan never throws. */
  lemma {:induction false} FoundItem(p: bytes, i: nat)
    requires Scans(p, 0)
    ensures Found(p, i) == Some(ItemAt(p, i))
  {
    hide SizeAsEncoded, Scans, Count;
    if i < Count(p, 0) {
      ReachStart(p, i);
      ReachStart(p, i + 1);
    } else {
      ReachStart(p, Count(p, 0));
      NothingLeft(p);
      assert Reach(p, Count(p, 0)) == Some(|p|);
      assert Reach(p, Count(p, 0) + 1) == Skip(p, |p|);
      assert p[|p|..|p|] == [];
      NothingBehind(p, Count(p, 0), i);
    }
  }

  lemma {:induction false} ReachStart(p: bytes, i: nat)
    requires Scans(p, 0) && i <= Count(p, 0)
    ensures Reach(p, i) == Some(Start(p, i))
    decreases i
  {
    hide SizeAsEncoded;
    if i > 0 {
      ReachStart(p, i - 1);
      assert Scans(p, Start(p, i - 1)) && Count(p, Start(p, i - 1)) > 0;
    }
  }

  // ---------------------------------------------------------------- subscripts

  class RlpList {
    const data: bytes
    var lastIndex: nat          // index of the last item read
    var lastEnd: nat            // offset of the byte after it
    var lastItem: bytes

    ghost predicate Valid()
      reads this
    {
      SizedList(data) && (Cached(Payload(data), lastIndex, lastEnd, lastItem) || Spoilt())
    }

    /** The last subscript threw on the way, and left the rest of the payload for an item. */
    ghost predicate Spoilt()
      reads this
    {
      RestFor(Payload(data), lastIndex, lastEnd, lastItem)
    }

    constructor (d: bytes)
      requires SizedList(d)
      ensures Valid() && !Spoilt() && data == d
    {
      data := d;
      lastIndex, lastEnd, lastItem := NO_INDEX, 0, [];
    }

    /** operator[], None where it throws: what a scan from the start finds, whatever was read before,
        unless a throw left the rest of the payload in the place of just that item. */
    method At(i: nat) returns (item: Option<bytes>)
      requires Valid() && i < NO_INDEX && |data| < NO_INDEX
      modifies this
      ensures Valid() && (Spoilt() <==> item == None && Found(Payload(data), 0).Some?)
      ensures Spoilt() ==> LastReadable(Payload(data), lastIndex)
      ensures old(Spoilt()) && i == old(lastIndex) ==> item == None && Found(Payload(data), i).Some?
      ensures !(old(Spoilt()) && i == old(lastIndex)) ==> item == Found(Payload(data), i)
    {
      hide SizeAsEncoded, Payload, Reach, Found, Cached, RestFor, LastReadable, Skip;
      var p := Payload(data);
      ghost var j, spoilt := lastIndex, Spoilt();
      if spoilt {
        SpoiltFinds(p, lastIndex, lastEnd, lastItem, i);
      }
      if i < lastIndex {
        FirstItem(p, i);
        var end := Skip(p, 0);
        if end.None? {
          NeverRead(p, lastIndex, lastEnd, lastItem);
          return None;
        }
        lastEnd := end.value;
        lastItem := p[..lastEnd];
        lastIndex := 0;
      }
      while lastIndex < i && lastItem != []
        invariant lastIndex <= i
        invariant if spoilt && j <= i then lastIndex == j && RestFor(p, lastIndex, lastEnd, lastItem)
                  else Cached(p, lastIndex, lastEnd, lastItem)
        decreases i - lastIndex
      {
        NextItem(p, lastIndex, lastEnd, lastItem, i);
        lastItem := p[lastEnd..];
        var size := SizeAsEncoded(lastItem);
        if size.None? {
          return None;
        }
        lastItem := lastItem[..size.value];
        lastEnd := lastEnd + |lastItem|;
        lastIndex := lastIndex + 1;
      }
      Answers(p, lastIndex, lastEnd, lastItem, i);
      item := if SizeAsEncoded(lastItem).None? then None else Some(lastItem);
    }

    /** items(): the number of items; None where it throws. */
    method Items() returns (n: Option<nat>)
      requires Valid()
      ensures n == if Scans(Payload(data), 0) then Some(Count(Payload(data), 0)) else None
    {
      hide SizeAsEncoded;
      var p, at, i := Payload(data), 0, 0;
      while at < |p|
        invariant at <= |p| && (Scans(p, at) <==> Scans(p, 0))
        invariant Scans(p, 0) ==> i + Count(p, at) == Count(p, 0)
        decreases |p| - at
      {
        var end := Skip(p, at);
        if end.None? {
          return None;
        }
        at := end.value;
        i := i + 1;
      }
      n := Some(i);
    }
  }

  /** The cache fields describe the item at `index`, or nothing has been read. */
  ghost predicate Cached(p: bytes, index: nat, end: nat, item: bytes) {
    if index == NO_INDEX then item == []
    else Found(p, index) == Some(item) && (item != [] ==> Reach(p, index + 1) == Some(end))
  }

  /** They hold what follows the item at `index`, which is no item. */
  ghost predicate RestFor(p: bytes, index: nat, end: nat, item: bytes) {
    index < NO_INDEX && Reach(p, index + 1) == Some(end) && Skip(p, end).None? && item == p[end..]
  }

  ghost predicate LastReadable(p: bytes, j: nat) {
    Found(p, j).Some? && Found(p, j + 1).None?
  }

  lemma {:induction false} FoundReaches(p: bytes, j: nat, i: nat)
    requires j <= i && Found(p, i).Some?
    ensures Found(p, j).Some?
    decreases i - j
  {
    hide SizeAsEncoded, Skip;
    if j < i {
      ReachOn(p, i);
      FoundReaches(p, j, i - 1);
    }
  }

  /** An item cut out of a longer string announces the same size. */
  lemma CutSized(d: bytes)
    requires SizeAsEncoded(d).Some?
    ensures SizeAsEncoded(d[..SizeAsEncoded(d).value]) == SizeAsEncoded(d)
  {
    var n := SizeAsEncoded(d).value;
    if d != [] && LengthSize(d) > 0 && !OctetBelow(d[0], DATA_IMM_LEN_START) {
      var size := LengthSize(d);
      assert d[..n][1..1 + size] == d[1..1 + size];
    }
  }

  /** What the scan finds can be read as an item again, what a throw leaves cannot. */
  lemma FoundSized(p: bytes, index: nat, item: bytes)
    requires Found(p, index) == Some(item)
    ensures SizeAsEncoded(item) == Some(|item|)
  {
    ReachOn(p, index);
    var at := Reach(p, index).value;
    CutSized(p[at..]);
    hide SizeAsEncoded;
    assert item == p[at..][..|item|];
  }

  /** Where a throw left the rest: nothing behind it can be read. */
  lemma SpoiltFinds(p: bytes, index: nat, end: nat, item: bytes, i: nat)
    requires RestFor(p, index, end, item)
    ensures LastReadable(p, index) && item != [] && SizeAsEncoded(item).None? && Skip(p, 0).Some? && Found(p, 0).Some?
    ensures Found(p, i).Some? <==> i <= index
  {
    hide SizeAsEncoded;
    NothingLeft(p);
    assert Reach(p, index + 2) == None;
    FoundReaches(p, 0, index);
    assert Reach(p, 1) == Skip(p, 0);
    if i <= index {
      FoundReaches(p, i, index);
    } else if Found(p, i).Some? {
      FoundReaches(p, index + 1, i);
    }
  }

  lemma FirstItem(p: bytes, i: nat)
    ensures match Skip(p, 0)
      case None => Found(p, i).None? && Found(p, 0).None?
      case Some(end) => Cached(p, 0, end, p[..end])
  {
    hide SizeAsEncoded, Skip;
    assert Reach(p, 0) == Some(0) && Reach(p, 1) == Skip(p, 0);
    if Found(p, i).Some? {
      FoundReaches(p, 0, i);
    }
  }

  /** If the first item cannot be read, the cache is as it was made. */
  lemma NeverRead(p: bytes, index: nat, end: nat, item: bytes)
    requires Found(p, 0).None? && (Cached(p, index, end, item) || RestFor(p, index, end, item))
    ensures Cached(p, index, end, item) && !RestFor(p, index, end, item)
  {
    if RestFor(p, index, end, item) {
      SpoiltFinds(p, index, end, item, 0);
    }
  }

  /** One turn of the loop, from a good cache or a spoilt one. */
  lemma NextItem(p: bytes, index: nat, end: nat, item: bytes, i: nat)
    requires Cached(p, index, end, item) || RestFor(p, index, end, item)
    requires index < i < NO_INDEX && item != []
    ensures end <= |p|
    ensures match SizeAsEncoded(p[end..])
      case None => RestFor(p, index, end, p[end..]) && Found(p, i).None? && Found(p, 0).Some? && LastReadable(p, index)
      case Some(n) => !RestFor(p, index, end, item) && Cached(p, index + 1, end + n, p[end..][..n])
  {
    assert Reach(p, index + 2) == Skip(p, end);
    if RestFor(p, index, end, item) {
      SpoiltFinds(p, index, end, item, i);
    } else {
      match SizeAsEncoded(p[end..])
      case None =>
        assert RestFor(p, index, end, p[end..]);
        SpoiltFinds(p, index, end, p[end..], i);
      case Some(n) =>
        hide SizeAsEncoded;
        SliceIsTake(p, end, n);
    }
  }

  /** Behind the loop: a cache at the wanted index, or one that ran off the end before it. */
  lemma Answers(p: bytes, index: nat, end: nat, item: bytes, i: nat)
    requires Cached(p, index, end, item) || RestFor(p, index, end, item)
    requires i < NO_INDEX && (index == i || (index < i && item == []))
    ensures Cached(p, index, end, item) ==>
      Found(p, i) == Some(item) && SizeAsEncoded(item).Some? && !RestFor(p, index, end, item)
    ensures RestFor(p, index, end, item) ==> SizeAsEncoded(item).None? && Found(p, 0).Some? && LastReadable(p, index)
  {
    hide SizeAsEncoded;
    if Cached(p, index, end, item) {
      FoundSized(p, index, item);
      if index < i {
        NothingBehind(p, index, i);
      }
    }
    if RestFor(p, index, end, item) {
      SpoiltFinds(p, index, end, item, i);
    }
  }

  // ---------------------------------------------------------------- runs of subscripts

  /** After these subscripts the item `j` is spoilt: one of them threw, and none behind it was smaller. */
  ghost predicate SpoiltBy(p: bytes, js: seq<nat>, j: nat) {
    LastReadable(p, j) && exists m :: 0 <= m < |js| && Found(p, js[m]).None? && forall n :: m < n < |js| ==> js[n] >= j
  }

  lemma OneLastReadable(p: bytes, j: nat, i: nat)
    requires LastReadable(p, j)
    ensures Found(p, i).Some? <==> i <= j
  {
    hide Found;
    if i <= j {
      FoundReaches(p, i, j);
    } else if Found(p, i).Some? {
      FoundReaches(p, j + 1, i);
    }
  }

  lemma SpoiltOn(p: bytes, js: seq<nat>, j: nat, i: nat)
    ensures SpoiltBy(p, js + [i], j) <==> LastReadable(p, j) && (Found(p, i).None? || (i == j && SpoiltBy(p, js, j)))
  {
    hide Found;
    var more := js + [i];
    if LastReadable(p, j) {
      OneLastReadable(p, j, i);
      if Found(p, i).None? {
        assert more[|js|] == i;
      }
      if i == j && SpoiltBy(p, js, j) {
        var m :| 0 <= m < |js| && Found(p, js[m]).None? && forall n :: m < n < |js| ==> js[n] >= j;
        assert more[m] == js[m];
      }
      if SpoiltBy(p, more, j) && Found(p, i).Some? {
        var m :| 0 <= m < |more| && Found(p, more[m]).None? && forall n :: m < n < |more| ==> more[n] >= j;
        assert more[|js|] == i && m < |js| && js[m] == more[m];
        assert forall n :: m < n < |js| ==> js[n] == more[n];
      }
    }
  }

  /** The state of the list object tells which item is spoilt. */
  ghost predicate Tracks(p: bytes, js: seq<nat>, spoilt: bool, at: nat) {
    forall j: nat :: SpoiltBy(p, js, j) <==> spoilt && at == j
  }

  lemma TracksOn(p: bytes, js: seq<nat>, s0: bool, at0: nat, i: nat, s1: bool, at1: nat)
    requires Tracks(p, js, s0, at0) && (s0 ==> LastReadable(p, at0)) && (s1 ==> LastReadable(p, at1))
    requires s1 <==> (Found(p, i).None? || (s0 && i == at0)) && Found(p, 0).Some?
    ensures Tracks(p, js + [i], s1, at1)
  {
    hide Found, LastReadable;
    forall j: nat ensures SpoiltBy(p, js + [i], j) <==> s1 && at1 == j {
      SpoiltOn(p, js, j, i);
      if LastReadable(p, j) {
        OneLastReadable(p, j, 0);
        if s0 { OneSpoilt(p, j, at0); }
        if s1 { OneSpoilt(p, j, at1); }
      }
    }
  }

  /** Any subscripts one after the other, exceptions caught: an answer differs from the scan exactly at
      the last readable item, if an earlier subscript threw and none in between was smaller. */
  method Subscripts(d: bytes, js: seq<nat>) returns (items: seq<Option<bytes>>)
    requires SizedList(d) && |d| < NO_INDEX && forall k :: 0 <= k < |js| ==> js[k] < NO_INDEX
    ensures |items| == |js|
    ensures forall k :: 0 <= k < |js| ==>
      items[k] == if SpoiltBy(Payload(d), js[..k], js[k]) then None else Found(Payload(d), js[k])
    ensures forall k :: 0 <= k < |js| ==>
      (items[k] != Found(Payload(d), js[k]) <==> SpoiltBy(Payload(d), js[..k], js[k]))
  {
    hide Payload, Found, LastReadable, SpoiltBy, Tracks;
    ghost var p := Payload(d);
    var list := new RlpList(d);
    items := [];
    NothingSpoilt(p, list.lastIndex);
    for k := 0 to |js|
      invariant list.Valid() && list.data == d && |items| == k
      invariant Tracks(p, js[..k], list.Spoilt(), list.lastIndex) && (list.Spoilt() ==> LastReadable(p, list.lastIndex))
      invariant forall n :: 0 <= n < k ==>
        items[n] == if SpoiltBy(p, js[..n], js[n]) then None else Found(p, js[n])
    {
      ghost var s0, at0 := list.Spoilt(), list.lastIndex;
      var item := list.At(js[k]);
      assert js[..k + 1] == js[..k] + [js[k]];
      SpoiltHere(p, js[..k], s0, at0, js[k]);
      TracksOn(p, js[..k], s0, at0, js[k], list.Spoilt(), list.lastIndex);
      items := items + [item];
    }
    forall k | 0 <= k < |js| ensures items[k] != Found(p, js[k]) <==> SpoiltBy(p, js[..k], js[k]) {
      SpoiltReadable(p, js[..k], js[k]);
    }
  }

  lemma NothingSpoilt(p: bytes, at: nat)
    ensures Tracks(p, [], false, at)
  {
  }

  lemma SpoiltHere(p: bytes, js: seq<nat>, spoilt: bool, at: nat, i: nat)
    requires Tracks(p, js, spoilt, at)
    ensures SpoiltBy(p, js, i) <==> spoilt && at == i
  {
  }

  lemma SpoiltReadable(p: bytes, js: seq<nat>, j: nat)
    ensures SpoiltBy(p, js, j) ==> Found(p, j).Some?
  {
  }

  lemma OneSpoilt(p: bytes, j: nat, i: nat)
    requires LastReadable(p, j) && LastReadable(p, i)
    ensures i == j
  {
    OneLastReadable(p, j, i);
    OneLastReadable(p, j, i + 1);
  }

  /** For example: the list C4 01 02 82 01 has the items 01 and 02 and an unreadable rest.  Once the
      rest was asked for, the item 02 cannot be read any more. */
  method AskedTooFar() returns (first: Option<bytes>, rest: Option<bytes>, again: Option<bytes>)
    ensures first == Some([Octet(2)]) && rest == None && again == None
  {
    var d := [Octet(0xC4), Octet(1), Octet(2), Octet(0x82), Octet(1)];
    ghost var p := [Octet(1), Octet(2), Octet(0x82), Octet(1)];
    assert Payload(d) == p;
    ShortList();
    hide SizeAsEncoded, Payload, Found, LastReadable;
    var list := new RlpList(d);
    first := list.At(1);
    rest := list.At(2);
    assert list.lastIndex == 1 by {
      OneSpoilt(p, 1, list.lastIndex);
    }
    again := list.At(1);
  }

  lemma ShortList()
    ensures var p := [Octet(1), Octet(2), Octet(0x82), Octet(1)];
      Found(p, 0).Some? && Found(p, 1) == Some([Octet(2)]) && Found(p, 2) == None && LastReadable(p, 1)
    ensures SizedList([Octet(0xC4), Octet(1), Octet(2), Octet(0x82), Octet(1)])
  {
    var p := [Octet(1), Octet(2), Octet(0x82), Octet(1)];
    assert Skip(p, 0) == Some(1) && Skip(p, 1) == Some(2) && Skip(p, 2) == None;
    assert Reach(p, 1) == Some(1) && Reach(p, 2) == Some(2) && Reach(p, 3) == None;
    assert p[1..2] == [Octet(2)];
  }

  // ---------------------------------------------------------------- iteration

  /** RLP::iterator: a window on the parent's data and the number of payload bytes behind it. */
  class RlpIterator {
    const parent: bytes
    ghost var index: nat
    var pos: nat
    var size: nat
    var remaining: nat

    ghost predicate Valid()
      reads this
    {
      SizedList(parent) && Windowed(Payload(parent), |parent| - |Payload(parent)|, index, pos, size, remaining)
    }

    /** begin(), where reading the first item does not throw. */
    constructor (d: bytes)
      requires SizedList(d) && Found(Payload(d), 0).Some?
      ensures Valid() && parent == d && index == 0
    {
      var pl := Payload(d);
      parent, index := d, 0;
      pos := |d| - |pl|;
      size := Skip(pl, 0).value;
      remaining := |pl| - Skip(pl, 0).value;
      new;
      assert Reach(pl, 0) == Some(0) && Reach(pl, 1) == Skip(pl, 0);
    }

    /** operator== against end(). */
    predicate AtEnd()
      reads this
    {
      pos == |parent| && size == 0
    }

    /** operator*: at the end there is nothing left to find. */
    method Current() returns (item: bytes)
      requires Valid()
      ensures Found(Payload(parent), index) == Some(item) && (AtEnd() <==> item == [])
    {
      hide SizeAsEncoded;
      ghost var p := Payload(parent);
      Window(parent, pos, size);
      item := parent[pos..pos + size];
    }

    /** operator++: false where reading the next item throws. */
    method Next() returns (ok: bool)
      requires Valid() && !AtEnd()
      modifies this
      ensures ok <==> Found(Payload(parent), old(index) + 1).Some?
      ensures ok ==> Valid() && index == old(index) + 1
    {
      hide SizeAsEncoded, Payload, Skip;
      ghost var p, i := Payload(parent), index;
      Window(parent, pos, size);
      assert Reach(p, i + 2) == Skip(p, Reach(p, i + 1).value);
      pos := pos + size;
      Window(parent, pos, remaining);
      if remaining > 0 {
        var next := Skip(parent[pos..pos + remaining], 0);
        NextWindow(parent, pos, remaining);
        if next.None? {
          return false;
        }
        size := next.value;
        remaining := remaining - if remaining < size then remaining else size;
      } else {
        NothingLeft(p);
        size := 0;
      }
      index := index + 1;
      ok := true;
    }
  }

  /** The window shows item `index` of the payload that starts at `from`, `remaining` bytes follow. */
  ghost predicate Windowed(p: bytes, from: nat, index: nat, pos: nat, size: nat, remaining: nat) {
    && Found(p, index).Some?
    && pos == from + Reach(p, index).value && pos + size == from + Reach(p, index + 1).value
    && pos + size + remaining == from + |p|
  }

  lemma Window(d: bytes, pos: nat, size: nat)
    requires |d| - |Payload(d)| <= pos && pos + size <= |d|
    ensures var p, at := Payload(d), pos - (|d| - |Payload(d)|);
      d[pos..pos + size] == p[at..at + size] && d[pos..] == p[at..]
  {
    var p, from := Payload(d), |d| - |Payload(d)|;
    hide Payload;
    DropDrop(d, from, pos - from);
    SliceIsTake(d, pos, size);
    SliceIsTake(p, pos - from, size);
  }

  /** Skipping from the front of the window is skipping in the payload. */
  lemma NextWindow(d: bytes, pos: nat, remaining: nat)
    requires |d| - |Payload(d)| <= pos && pos + remaining == |d|
    ensures var p, at, next := Payload(d), pos - (|d| - |Payload(d)|), Skip(d[pos..pos + remaining], 0);
      Skip(p, at) == if next.None? then None else Some(at + next.value)
  {
    Window(d, pos, remaining);
    hide SizeAsEncoded, Payload;
    var w := d[pos..pos + remaining];
    assert w == d[pos..] && w[0..] == w;
  }

  /** Walking the iterator (toVector, RLP.h:186-198) collects the items of the scan; None where it
      throws, which is where the payload is not made of items. */
  method ToVector(d: bytes) returns (r: Option<seq<bytes>>)
    requires SizedList(d)
    ensures r.Some? <==> Scans(Payload(d), 0)
    ensures r.Some? ==>
      |r.value| == Count(Payload(d), 0)
      && forall i :: 0 <= i < |r.value| ==> r.value[i] == ItemAt(Payload(d), i)
  {
    hide SizeAsEncoded, Payload, ItemAt, Scans, Reach;
    ghost var p := Payload(d);
    if Skip(Payload(d), 0).None? {
      FirstThrows(p);
      return None;
    }
    FirstFound(p);
    var it := new RlpIterator(d);
    var items: seq<bytes> := [];
    while !it.AtEnd()
      invariant it.Valid() && it.parent == d && it.index == |items|
      invariant forall i :: 0 <= i < |items| ==> items[i] != [] && Found(p, i) == Some(items[i])
      decreases |p| - Progress(p, |items|)
    {
      var x := it.Current();
      ProgressOn(p, |items|);
      var ok := it.Next();
      if !ok {
        Unreadable(p, |items| + 1);
        return None;
      }
      items := items + [x];
    }
    var x := it.Current();
    AllFound(p, items);
    r := Some(items);
  }

  /** How far the items before `i` reach. */
  ghost function Progress(p: bytes, i: nat): (n: nat)
    ensures n <= |p|
  {
    if Reach(p, i).Some? then Reach(p, i).value else 0
  }

  lemma ProgressOn(p: bytes, i: nat)
    ensures Found(p, i).Some? && Found(p, i) != Some([]) ==> Progress(p, i) < Progress(p, i + 1)
  {
    if Found(p, i).Some? {
      ReachOn(p, i);
      var a, b := Reach(p, i).value, Reach(p, i + 1).value;
      assert a == b ==> p[a..b] == [];
    }
  }

  lemma FirstThrows(p: bytes)
    requires Skip(p, 0).None?
    ensures !Scans(p, 0)
  {
    Unreadable(p, 0);
  }

  lemma FirstFound(p: bytes)
    requires Skip(p, 0).Some?
    ensures Found(p, 0).Some?
  {
  }

  lemma Unreadable(p: bytes, i: nat)
    requires Found(p, i).None?
    ensures !Scans(p, 0)
  {
    if Scans(p, 0) {
      FoundItem(p, i);
    }
  }

  /** Items up to the end of the payload are all of them. */
  lemma AllFound(p: bytes, items: seq<bytes>)
    requires forall i :: 0 <= i < |items| ==> items[i] != [] && Found(p, i) == Some(items[i])
    requires Found(p, |items|) == Some([])
    ensures Scans(p, 0) && Count(p, 0) == |items| && forall i :: 0 <= i < |items| ==> items[i] == ItemAt(p, i)
  {
    hide SizeAsEncoded;
    ScansFrom(p, items, 0);
    forall i | 0 <= i < |items| ensures items[i] == ItemAt(p, i) {
      FoundItem(p, i);
    }
  }

  lemma {:induction false} ScansFrom(p: bytes, items: seq<bytes>, i: nat)
    requires forall i :: 0 <= i < |items| ==> items[i] != [] && Found(p, i) == Some(items[i])
    requires Found(p, |items|) == Some([]) && i <= |items|
    ensures Reach(p, i).Some? && Scans(p, Reach(p, i).value) && Count(p, Reach(p, i).value) == |items| - i
    decreases |items| - i
  {
    hide SizeAsEncoded;
    if i < |items| {
      ScansFrom(p, items, i + 1);
      assert Found(p, i) == Some(items[i]);
    }
  }
}
