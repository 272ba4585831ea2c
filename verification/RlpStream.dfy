/** RLPStream (RLP.h:372-450, RLP.cpp:228-347): an encoder that learns the length of a list only
    when its last item arrives, and then shifts the list's bytes up to make room for the header. */
module RlpStreams {
  import opened Bytes
  import opened Options
  import opened Rlp

  /** Finished items, and the lists still open around the next one. */
  datatype State =
    | Base(done: seq<Item>)
    | In(outer: State, missing: nat, items: seq<Item>)
  {
    ghost predicate Valid() {
      In? ==> missing > 0 && outer.Valid()
    }

    /** Can `n` more items be appended at this point? */
    predicate Room(n: nat) {
      In? ==> n <= missing
    }

    /** Appending items, closing every list that becomes complete. */
    function Add(xs: seq<Item>): (s: State)
      requires Valid() && Room(|xs|)
      ensures s.Valid()
    {
      match this
      case Base(d) => Base(d + xs)
      case In(o, m, its) =>
        if |xs| < m then In(o, m - |xs|, its + xs) else o.Add([List(its + xs)])
    }

    /** Opening a list of `n` items; the empty list is complete at once. */
    function Open(n: nat): (s: State)
      requires Valid() && Room(1)
      ensures s.Valid()
    {
      if n == 0 then Add([List([])]) else In(this, n, [])
    }

    /** What has been written so far: headers of open lists are still to come. */
    function Written(): bytes {
      match this
      case Base(d) => EncodeAll(d)
      case In(o, _, its) => o.Written() + EncodeAll(its)
    }

    /** The source's list stack: items missing and the offset of the first one. */
    function Stack(): seq<(nat, nat)> {
      match this
      case Base(_) => []
      case In(o, m, _) => o.Stack() + [(m, |o.Written()|)]
    }
  }

  lemma {:induction false} AddGrows(s: State, xs: seq<Item>)
    requires s.Valid() && s.Room(|xs|)
    ensures |s.Written()| + |EncodeAll(xs)| <= |s.Add(xs).Written()|
  {
    match s
    case Base(d) =>
      EncodeAllAppend(d, xs);
    case In(o, m, its) =>
      EncodeAllAppend(its, xs);
      if |xs| >= m {
        AddGrows(o, [List(its + xs)]);
        EncodeOne(List(its + xs));
      }
  }

  // ---------------------------------------------------------------- pre-order feeding

  datatype Command = AppendData(data: bytes) | AppendList(size: nat)

  function PreOrder(x: Item): seq<Command>
    decreases x, 0
  {
    match x
    case Data(b) => [AppendData(b)]
    case List(items) => [AppendList(|items|)] + PreOrderAll(items)
  }

  function PreOrderAll(xs: seq<Item>): seq<Command>
    decreases xs, 0
  {
    if xs == [] then [] else PreOrder(xs[0]) + PreOrderAll(xs[1..])
  }

  /** None where the source throws because a list got too many items. */
  function Run(s: State, cs: seq<Command>): Option<State>
    requires s.Valid()
    decreases |cs|
  {
    if cs == [] then Some(s)
    else if !s.Room(1) then None
    else match cs[0]
      case AppendData(b) => Run(s.Add([Data(b)]), cs[1..])
      case AppendList(n) => Run(s.Open(n), cs[1..])
  }

  lemma {:induction false} RunAppend(s: State, a: seq<Command>, b: seq<Command>)
    requires s.Valid() && Run(s, a).Some?
    ensures Run(s, a).value.Valid()
    ensures Run(s, a + b) == Run(Run(s, a).value, b)
    decreases |a|
  {
    if a == [] {
      assert a + b == b;
    } else {
      assert (a + b)[1..] == a[1..] + b;
      match a[0]
      case AppendData(d) => RunAppend(s.Add([Data(d)]), a[1..], b);
      case AppendList(n) => RunAppend(s.Open(n), a[1..], b);
    }
  }

  lemma {:induction false} AddAdd(s: State, xs: seq<Item>, ys: seq<Item>)
    requires s.Valid() && s.Room(|xs + ys|) && ys != []
    ensures s.Add(xs).Room(|ys|) && s.Add(xs).Add(ys) == s.Add(xs + ys)
  {
    match s
    case Base(d) =>
      assert d + xs + ys == d + (xs + ys);
    case In(o, m, its) =>
      assert its + xs + ys == its + (xs + ys);
  }

  /** Feeding an item in pre-order is appending the item as a whole, under any open lists. */
  lemma {:induction false} PreOrderAdds(s: State, x: Item)
    requires s.Valid() && s.Room(1)
    ensures Run(s, PreOrder(x)) == Some(s.Add([x]))
    decreases x, 1
  {
    match x
    case Data(b) =>
      assert PreOrder(x)[1..] == [];
    case List(items) =>
      assert PreOrder(x)[1..] == PreOrderAll(items);
      if items == [] {
        assert PreOrderAll(items) == [];
      } else {
        PreOrderAllAdds(s.Open(|items|), items);
        assert [] + items == items;
      }
  }

  lemma {:induction false} PreOrderAllAdds(s: State, xs: seq<Item>)
    requires s.Valid() && s.Room(|xs|) && xs != []
    ensures Run(s, PreOrderAll(xs)) == Some(s.Add(xs))
    decreases xs, 0
  {
    PreOrderAdds(s, xs[0]);
    RunAppend(s, PreOrder(xs[0]), PreOrderAll(xs[1..]));
    if |xs| == 1 {
      assert xs == [xs[0]] && xs[1..] == [];
      assert Run(s.Add(xs), PreOrderAll(xs[1..])) == Some(s.Add(xs));
    } else {
      AddAdd(s, [xs[0]], xs[1..]);
      assert [xs[0]] + xs[1..] == xs;
      PreOrderAllAdds(s.Add([xs[0]]), xs[1..]);
    }
  }

  /** Feeding any item to a fresh stream writes exactly its encoding and leaves no list open. */
  lemma {:induction false} PreOrderEncodes(x: Item)
    ensures var r := Run(Base([]), PreOrder(x));
      r == Some(Base([x])) && r.value.Written() == Encode(x) && r.value.Stack() == []
  {
    PreOrderAdds(Base([]), x);
    assert [] + [x] == [x];
    EncodeOne(x);
  }

  // ---------------------------------------------------------------- the stream object

  /** The next items find room, and what is then written keeps within the reader's lengths. */
  ghost predicate Accepts(s: State, xs: seq<Item>)
    requires s.Valid()
  {
    s.Room(|xs|) && |s.Add(xs).Written()| < MAX_LENGTH
  }

  /** The bytes one turn of the loop of noteAppended sees: the innermost list and its new items. */
  lemma InnermostBytes(s: State, xs: seq<Item>)
    requires s.In?
    ensures s.Written() + EncodeAll(xs) == s.outer.Written() + EncodeAll(s.items + xs)
  {
    hide EncodeAll;
    var o, a, b := s.outer.Written(), EncodeAll(s.items), EncodeAll(xs);
    calc {
      s.Written() + b;
    == { InWritten(s.outer, s.missing, s.items); }
      o + a + b;
    == { AppendAssociates(o, a, b); }
      o + (a + b);
    == { EncodeAllAppend(s.items, xs); }
      o + EncodeAll(s.items + xs);
    }
  }

  /** Writing the first byte of a gap of `1 + n` bytes. */
  lemma Marked(s: bytes, n: nat, h: Byte, a: bytes, b: bytes)
    requires |s| == |a| + 1 + n + |b| && s[..|a|] == a && s[|a| + 1 + n..] == b
    ensures var r := s[|a| := h];
      |r| == |s| && r[..|a|] == a && r[|a|] == h && r[|a| + 1 + n..] == b
  {
  }

  lemma OneSpliced(s: bytes, h: Byte, a: bytes, b: bytes)
    requires |s| == |a| + 1 + |b| && s[..|a|] == a && s[|a|] == h && s[|a| + 1..] == b
    ensures s == a + ([h] + b)
  {
  }

  lemma HeaderSpliced(s: bytes, a: bytes, h: Byte, m: bytes, b: bytes)
    requires |s| == |a| + 1 + |m| + |b|
    requires s[..|a|] == a && s[|a|] == h && s[|a| + 1 + |m|..] == b
    ensures s[..|a| + 1] + m + s[|a| + 1 + |m|..] == a + ([h] + m + b)
  {
    assert s[..|a| + 1] == a + [h];
  }

  lemma WrapListParts(payload: bytes)
    ensures WrapList(payload) == if |payload| < IMM_LEN_COUNT
      then [Octet(LIST_START + |payload|)] + payload
      else [Octet((LIST_IND_LEN_ZERO + |BigEndian(|payload|)|) % 256)] + OfOctets(BigEndian(|payload|)) + payload
  {
  }

  /** resize and memmove: `size` bytes of room at `p`. */
  method OpenGap(buf: bytes, p: nat, size: nat) returns (r: bytes)
    requires p <= |buf|
    ensures |r| == |buf| + size && r[..p] == buf[..p] && r[p + size..] == buf[p..]
  {
    r := buf + seq(size, _ => Octet(0));
    r := r[..p + size] + r[p..|buf|];
  }

  lemma InWritten(outer: State, missing: nat, items: seq<Item>)
    ensures In(outer, missing, items).Written() == outer.Written() + EncodeAll(items)
  {
  }

  lemma BaseWritten(s: State, xs: seq<Item>)
    requires s.Base?
    ensures Base(s.done + xs).Written() == s.Written() + EncodeAll(xs)
  {
    EncodeAllAppend(s.done, xs);
  }

  lemma AcceptedSize(s: State, x: Item)
    requires s.Valid()
    ensures Accepts(s, [x]) ==> |Encode(x)| < MAX_LENGTH
  {
    if Accepts(s, [x]) {
      AddGrows(s, [x]);
      EncodeOne(x);
    }
  }

  lemma WrapSize(items: seq<Item>)
    ensures |EncodeAll(items)| < |Encode(List(items))|
    ensures Encode(List(items)) == WrapList(EncodeAll(items))
  {
  }

  lemma AcceptsMeansFits(s: State, xs: seq<Item>, t: State, x: Item)
    requires s.Valid() && s.Room(|xs|) && t.Valid() && t.Room(1) && s.Add(xs) == t.Add([x])
    ensures Accepts(s, xs) ==> Accepts(t, [x])
  {
  }

  /** pushInt and the header loop of noteAppended: `n` written backwards, ending at `end`. */
  method PutBigEndian(buf: bytes, end: nat, n: nat) returns (r: bytes)
    requires |BigEndian(n)| <= end <= |buf|
    ensures r == buf[..end - |BigEndian(n)|] + OfOctets(BigEndian(n)) + buf[end..]
  {
    r := buf;
    var at, rest := end, n;
    ghost var tail: seq<octet> := [];
    while rest > 0
      invariant at == end - |tail| && |BigEndian(rest)| <= at
      invariant BigEndian(n) == BigEndian(rest) + tail
      invariant r == buf[..at] + OfOctets(tail) + buf[end..]
      decreases rest
    {
      at := at - 1;
      r := r[at := Octet(rest % 256)];
      tail := [rest % 256] + tail;
      rest := rest / 256;
    }
  }

  /** A header with the length in big-endian bytes behind its first byte. */
  method InsertLong(buf: bytes, p: nat, brs: nat) returns (r: bytes)
    requires p <= |buf| && brs == |BigEndian(|buf| - p)| && LIST_IND_LEN_ZERO + brs <= 0xff
    ensures r == buf[..p] + ([Octet(LIST_IND_LEN_ZERO + brs)] + OfOctets(BigEndian(|buf| - p)) + buf[p..])
  {
    hide BigEndian;
    var s, first := |buf| - p, Octet(LIST_IND_LEN_ZERO + brs);
    ghost var before, payload := buf[..p], buf[p..];
    r := OpenGap(buf, p, 1 + brs);
    Marked(r, brs, first, before, payload);
    r := r[p := first];
    ghost var marked := r;
    r := PutBigEndian(r, p + 1 + brs, s);
    HeaderSpliced(marked, before, first, OfOctets(BigEndian(s)), payload);
  }

  /** The end of noteAppended's loop: shift everything from `p` on up and write the header of a
      list with that payload at `p`. */
  method InsertHeader(buf: bytes, p: nat) returns (ok: bool, r: bytes)
    requires p <= |buf|
    ensures |buf[p..]| < MAX_LENGTH ==> ok
    ensures ok ==> r == buf[..p] + WrapList(buf[p..])
  {
    var s := |buf| - p;
    var brs := |BigEndian(s)|;
    hide BigEndian, WrapList, Header;
    ghost var before, payload := buf[..p], buf[p..];
    WrapListParts(payload);
    if s < IMM_LEN_COUNT {
      r := OpenGap(buf, p, 1);
      Marked(r, 0, Octet(LIST_START + s), before, payload);
      r := r[p := Octet(LIST_START + s)];
      OneSpliced(r, Octet(LIST_START + s), before, payload);
    } else if LIST_IND_LEN_ZERO + brs <= 0xff {
      r := InsertLong(buf, p, brs);
    } else {
      if s < MAX_LENGTH { LengthSizeInRange(s); }
      return false, buf;
    }
    ok := true;
  }

  class RlpStream {
    var out: bytes
    var listStack: seq<(nat, nat)>      // items still missing, offset of the first item
    ghost var state: State

    ghost predicate Valid()
      reads this
    {
      state.Valid() && out == state.Written() && listStack == state.Stack()
    }

    constructor ()
      ensures Valid() && state == Base([]) && out == []
    {
      out, listStack, state := [], [], Base([]);
    }

    /** The bytes of `xs` have just been put at the end of `out`: count them, closing full lists. */
    method NoteAppended(count: nat, ghost xs: seq<Item>) returns (ok: bool)
      requires state.Valid() && listStack == state.Stack()
      requires out == state.Written() + EncodeAll(xs) && |xs| == count
      modifies this
      ensures old(Accepts(state, xs)) ==> ok
      ensures ok ==> old(state.Room(count)) && Valid() && state == old(state).Add(xs)
    {
      if count == 0 {
        return true;
      }
      hide EncodeAll, Encode, WrapList, Accepts;
      var n := count;
      ghost var cur, pending := state, xs;
      while listStack != []
        invariant cur.Valid() && listStack == cur.Stack() && |pending| == n > 0
        invariant out == cur.Written() + EncodeAll(pending)
        invariant cur.Room(n) ==> old(state).Room(count) && cur.Add(pending) == old(state).Add(xs)
        invariant cur.Room(n) || (cur == old(state) && n == count)
        decreases |listStack|
      {
        var (missing, p) := listStack[|listStack| - 1];
        if missing < n {
          assert !old(state).Room(count);
          return false;
        }
        InnermostBytes(cur, pending);
        listStack := listStack[..|listStack| - 1];
        if missing > n {
          listStack := listStack + [(missing - n, p)];
          state := cur.Add(pending);
          assert state.Written() == out by { InWritten(cur.outer, missing - n, cur.items + pending); }
          return true;
        }
        ghost var outer, list := cur.outer, List(cur.items + pending);
        assert out[p..] == EncodeAll(list.items) && out[..p] == outer.Written();
        AcceptedSize(outer, list);
        EncodeOne(list);
        WrapSize(list.items);
        var fits;
        fits, out := InsertHeader(out, p);
        if !fits {
          AcceptsMeansFits(old(state), xs, outer, list);
          return false;
        }
        cur, pending, n := outer, [list], 1;
      }
      BaseWritten(cur, pending);
      state := cur.Add(pending);
      ok := true;
    }

    /** appendRaw: `raw` must be the encodings of `count` items. */
    method AppendRaw(raw: bytes, count: nat, ghost xs: seq<Item>) returns (ok: bool)
      requires Valid() && raw == EncodeAll(xs) && |xs| == count
      modifies this
      ensures old(Accepts(state, xs)) ==> ok
      ensures ok ==> Valid() && old(state).Room(count) && state == old(state).Add(xs)
    {
      out := out + raw;
      ok := NoteAppended(count, xs);
    }

    method Append(data: bytes, compact: bool) returns (ok: bool)
      requires Valid()
      modifies this
      ensures var x := Data(if compact then StripZeros(data) else data);
        (old(Accepts(state, [x])) ==> ok)
        && (ok ==> Valid() && old(state).Room(1) && state == old(state).Add([x]))
    {
      var d := data;
      if compact {
        while d != [] && d[0] == Octet(0)
          invariant StripZeros(d) == StripZeros(data)
        {
          d := d[1..];
        }
      }
      ghost var x := Data(d);
      hide EncodeAll, BigEndian, Accepts;
      AcceptedSize(state, x);
      if |d| == 1 && OctetBelow(d[0], DATA_IMM_LEN_START) {
        out := out + [d[0]];
      } else {
        if |d| < IMM_LEN_COUNT {
          out := out + [Octet(DATA_IMM_LEN_START + |d|)];
        } else {
          var pushed := PushCount(|d|, DATA_IND_LEN_ZERO);
          if !pushed {
            return false;
          }
        }
        out := out + d;
      }
      EncodeOne(x);
      assert out == old(out) + Encode(x);
      ok := NoteAppended(1, [x]);
    }

    /** append(bigint): the minimal big-endian digits of a number. */
    method AppendInt(i: nat) returns (ok: bool)
      requires Valid()
      modifies this
      ensures var x := Data(OfOctets(BigEndian(i)));
        (old(Accepts(state, [x])) ==> ok)
        && (ok ==> Valid() && old(state).Room(1) && state == old(state).Add([x]))
    {
      ghost var x := Data(OfOctets(BigEndian(i)));
      AcceptedSize(state, x);
      SmallDigits(i);
      hide EncodeAll, BigEndian, Accepts, Header;
      if i == 0 {
        out := out + [Octet(DATA_IMM_LEN_START)];
      } else if i < DATA_IMM_LEN_START {
        out := out + [Octet(i)];
      } else {
        var br := |BigEndian(i)|;
        if br < IMM_LEN_COUNT {
          out := out + [Octet(br + DATA_IMM_LEN_START)];
        } else {
          var pushed := PushCount(br, DATA_IND_LEN_ZERO);
          if !pushed {
            return false;
          }
        }
        PushInt(i, br);
      }
      EncodeOne(x);
      IntBytes(i);
      assert out == old(out) + Encode(x);
      ok := NoteAppended(1, [x]);
    }

    method PushInt(i: nat, br: nat)
      requires br == |BigEndian(i)|
      modifies this`out
      ensures out == old(out) + OfOctets(BigEndian(i))
    {
      ghost var before := out;
      out := out + seq(br, _ => Octet(0));
      out := PutBigEndian(out, |out|, i);
      assert out == before + OfOctets(BigEndian(i));
    }

    method PushCount(count: nat, base: int) returns (ok: bool)
      requires count >= IMM_LEN_COUNT && (base == DATA_IND_LEN_ZERO || base == LIST_IND_LEN_ZERO)
      modifies this`out
      ensures count < MAX_LENGTH ==> ok
      ensures ok ==> out == old(out) + ([Octet((base + |BigEndian(count)|) % 256)] + OfOctets(BigEndian(count)))
    {
      var br := |BigEndian(count)|;
      if br + base > 0xff {
        if count < MAX_LENGTH { LengthSizeInRange(count); }
        return false;
      }
      hide BigEndian;
      out := out + [Octet(br + base)];
      PushInt(count, br);
      ok := true;
    }

    /** appendList(items): announce a list; its header comes later, unless it is empty. */
    method AppendList(items: nat) returns (ok: bool)
      requires Valid()
      modifies this
      ensures items > 0 ==> ok && Valid() && state == In(old(state), items, [])
      ensures items == 0 && old(Accepts(state, [List([])])) ==> ok
      ensures items == 0 && ok ==> Valid() && old(state).Room(1) && state == old(state).Add([List([])])
    {
      if items > 0 {
        listStack := listStack + [(items, |out|)];
        state := In(state, items, []);
        assert EncodeAll([]) == [];
        ok := true;
      } else {
        assert EncodeAll([]) == [];
        ok := AppendListOf([], []);
      }
    }

    /** appendList(rlp): a whole list, given the encodings of its items. */
    method AppendListOf(rlp: bytes, ghost items: seq<Item>) returns (ok: bool)
      requires Valid() && rlp == EncodeAll(items)
      modifies this
      ensures old(Accepts(state, [List(items)])) ==> ok
      ensures ok ==> Valid() && old(state).Room(1) && state == old(state).Add([List(items)])
    {
      ghost var x := List(items);
      hide EncodeAll, BigEndian, Accepts;
      AcceptedSize(state, x);
      if |rlp| < IMM_LEN_COUNT {
        out := out + [Octet(|rlp| + LIST_START)];
      } else {
        var pushed := PushCount(|rlp|, LIST_IND_LEN_ZERO);
        if !pushed {
          return false;
        }
      }
      out := out + rlp;
      EncodeOne(x);
      assert out == old(out) + Encode(x);
      ok := NoteAppended(1, [x]);
    }

    /** out(): throws while a list is open. */
    method Out() returns (r: Option<bytes>)
      requires Valid()
      ensures r == if state.Base? then Some(EncodeAll(state.done)) else None
    {
      r := if listStack != [] then None else Some(out);
    }

    /** append of nested vectors (RLP.h:397-399): announce the size, then append each element. */
    method AppendVector(x: Item) returns (ok: bool)
      requires Valid() && state.Room(1)
      modifies this
      ensures old(Accepts(state, [x])) ==> ok
      ensures ok ==> Valid() && old(state).Room(1) && state == old(state).Add([x])
      decreases x
    {
      match x
      case Data(b) =>
        ok := Append(b, false);
      case List(items) =>
        ok := AppendList(|items|);
        ghost var s0 := old(state);
        for i := 0 to |items|
          invariant ok ==> Valid()
          invariant ok ==> state == if i < |items| then Filling(s0, items, i) else s0.Add([x])
          invariant Accepts(s0, [x]) ==> ok
        {
          if !ok { return; }
          VectorStep(s0, items, i);
          ok := AppendVector(items[i]);
        }
    }
  }

  /** The state in which a list has `i` of its items. */
  ghost function Filling(s: State, items: seq<Item>, i: nat): (t: State)
    requires s.Valid() && i < |items|
    ensures t.Valid() && t.Room(1)
  {
    In(s, |items| - i, items[..i])
  }

  lemma VectorStep(s: State, items: seq<Item>, i: nat)
    requires s.Valid() && s.Room(1) && i < |items|
    ensures Filling(s, items, i).Add([items[i]])
      == if i + 1 < |items| then Filling(s, items, i + 1) else s.Add([List(items)])
    ensures Accepts(s, [List(items)]) ==> Accepts(Filling(s, items, i), [items[i]])
  {
    if i + 1 < |items| {
      VectorOn(s, items, i);
      FillingGrows(s, items, i + 1);
    } else {
      VectorDone(s, items);
    }
  }

  lemma VectorOn(s: State, items: seq<Item>, i: nat)
    requires s.Valid() && s.Room(1) && i + 1 < |items|
    ensures Filling(s, items, i).Add([items[i]]) == Filling(s, items, i + 1)
  {
    TakeOneMore(items, i);
    AddTo(s, |items| - (i + 1), items[..i], items[i], items[..i + 1]);
  }

  lemma VectorDone(s: State, items: seq<Item>)
    requires s.Valid() && s.Room(1) && items != []
    ensures var i := |items| - 1; Filling(s, items, i).Add([items[i]]) == s.Add([List(items)])
  {
    var i := |items| - 1;
    TakeOneMore(items, i);
    AddTo(s, 0, items[..i], items[i], items);
  }

  lemma TakeOneMore(items: seq<Item>, i: nat)
    requires i < |items|
    ensures items[..i] + [items[i]] == items[..i + 1] && (i + 1 == |items| ==> items[..i + 1] == items)
  {
  }

  /** One more item in an open list. */
  lemma AddTo(s: State, missing: nat, items: seq<Item>, x: Item, all: seq<Item>)
    requires s.Valid() && s.Room(1) && all == items + [x]
    ensures In(s, missing + 1, items).Add([x]) == if missing > 0 then In(s, missing, all) else s.Add([List(all)])
  {
    hide EncodeAll, Encode;
  }

  lemma FillingGrows(s: State, items: seq<Item>, i: nat)
    requires s.Valid() && s.Room(1) && i < |items|
    ensures |Filling(s, items, i).Written()| <= |s.Add([List(items)]).Written()|
  {
    hide EncodeAll, Encode;
    AddGrows(s, [List(items)]);
    EncodeOne(List(items));
    WrapSize(items);
    EncodeAllSplit(items, i);
    InWritten(s, |items| - i, items[..i]);
  }

  function StripZeros(d: bytes): bytes {
    if d != [] && d[0] == Octet(0) then StripZeros(d[1..]) else d
  }

  lemma SmallDigits(i: nat)
    ensures i == 0 ==> BigEndian(i) == []
    ensures 0 < i < 256 ==> BigEndian(i) == [i]
    ensures i >= 256 ==> |BigEndian(i)| > 1
  {
    if 0 < i {
      assert BigEndian(i / 256) == [] <==> i < 256;
    }
  }

  /** What append(bigint) writes is the data encoding of the digits. */
  lemma IntBytes(i: nat)
    ensures EncodeData(OfOctets(BigEndian(i))) ==
      if i == 0 then [Octet(DATA_IMM_LEN_START)]
      else if i < DATA_IMM_LEN_START then [Octet(i)]
      else Header(|BigEndian(i)|, DATA_IMM_LEN_START, DATA_IND_LEN_ZERO) + OfOctets(BigEndian(i))
  {
    SmallDigits(i);
    hide BigEndian;
  }
}
