/** Sets of numbers as unions of intervals (RangeMask.h): a map from the begin to the end of each
    interval, kept in a normal form while it is edited in place. */
module RangeMasks {

  type Ranges = map<nat, nat>

  const UINT32 := 0x1_0000_0000

  /** `x` lies in one of the intervals. */
  ghost predicate In(r: Ranges, x: int) {
    exists b :: b in r && b <= x < r[b]
  }

  /** Intervals inside the ground range, none empty, a gap between any two. */
  ghost predicate Normal(r: Ranges, lo: nat, hi: nat) {
    && (forall b :: b in r ==> lo <= b < r[b] <= hi)
    && (forall b, c :: b in r && c in r && b < c ==> r[b] < c)
  }

  /** The least number of the set from `u` on, or the end where there is none. */
  ghost predicate NextFrom(r: Ranges, end: nat, u: nat, n: nat) {
    ((n >= u && In(r, n)) || n == end) && forall x: int :: In(r, x) && x >= u ==> x >= n
  }

  /** Everything lies below the end. */
  lemma NoneAbove(r: Ranges, lo: nat, hi: nat)
    requires Normal(r, lo, hi)
    ensures forall x: int :: In(r, x) ==> lo <= x < hi
    ensures r != map[] ==> exists x: int :: In(r, x)
  {
    if r != map[] {
      var b :| b in r;
      InAt(r, b, b);
    }
  }

  lemma InAt(r: Ranges, b: nat, x: int)
    requires b in r && b <= x < r[b]
    ensures In(r, x)
  {
  }

  /** The interval that would hold `x` starts at the greatest begin not above it. */
  lemma OnlyBelow(r: Ranges, lo: nat, hi: nat, b: nat, x: int)
    requires Normal(r, lo, hi) && b in r && b <= x && forall c :: c in r && c <= x ==> c <= b
    ensures In(r, x) <==> x < r[b]
  {
  }

  /** The begin of an interval is the number in the set whose predecessor is not. */
  lemma BeginsAt(r: Ranges, lo: nat, hi: nat, b: nat)
    requires Normal(r, lo, hi)
    ensures b in r <==> In(r, b) && !In(r, b as int - 1)
  {
  }

  /** The end of the interval at `b` is the first number behind it that is not in the set. */
  lemma EndsAt(r: Ranges, lo: nat, hi: nat, b: nat)
    requires Normal(r, lo, hi) && b in r
    ensures !In(r, r[b]) && forall x :: b <= x < r[b] ==> In(r, x)
  {
  }

  /** The normal form of a set is unique. */
  lemma NormalUnique(r: Ranges, s: Ranges, lo: nat, hi: nat)
    requires Normal(r, lo, hi) && Normal(s, lo, hi) && forall x: int :: In(r, x) <==> In(s, x)
    ensures r == s
  {
    forall b: nat ensures b in r <==> b in s {
      BeginsAt(r, lo, hi, b);
      BeginsAt(s, lo, hi, b);
    }
    forall b | b in r ensures r[b] == s[b] {
      EndsAt(r, lo, hi, b);
      EndsAt(s, lo, hi, b);
    }
  }

  // ---------------------------------------------------------------- std::map

  /** upper_bound: the least key above `i`. */
  method UpperBound(m: Ranges, i: int) returns (found: bool, k: nat)
    ensures found ==> k in m && k > i && forall j :: j in m && j > i ==> k <= j
    ensures !found ==> forall j :: j in m ==> j <= i
  {
    found, k := false, 0;
    var todo := m.Keys;
    while todo != {}
      invariant todo <= m.Keys
      invariant found ==> k in m && k > i && forall j :: j in m && j !in todo && j > i ==> k <= j
      invariant !found ==> forall j :: j in m && j !in todo ==> j <= i
      decreases todo
    {
      var j :| j in todo;
      todo := todo - {j};
      if j > i && (!found || j < k) {
        found, k := true, j;
      }
    }
  }

  /** The predecessor of upper_bound: the greatest key not above `i`. */
  method NotAbove(m: Ranges, i: nat) returns (found: bool, k: nat)
    ensures found ==> k in m && k <= i && forall j :: j in m && j <= i ==> j <= k
    ensures !found ==> forall j :: j in m ==> j > i
  {
    found, k := false, 0;
    var todo := m.Keys;
    while todo != {}
      invariant todo <= m.Keys
      invariant found ==> k in m && k <= i && forall j :: j in m && j !in todo && j <= i ==> j <= k
      invariant !found ==> forall j :: j in m && j !in todo ==> j > i
      decreases todo
    {
      var j :| j in todo;
      todo := todo - {j};
      if j <= i && (!found || j > k) {
        found, k := true, j;
      }
    }
  }

  // ---------------------------------------------------------------- adding an interval

  /** The set is what it was with the interval from `a` to `b` added, but for what is left from `i` on. */
  ghost predicate Adding(r0: Ranges, r: Ranges, a: nat, i: nat, b: nat) {
    forall x: int :: In(r, x) || i <= x < b <==> In(r0, x) || a <= x < b
  }

  lemma Added(r0: Ranges, r: Ranges, s: Ranges, a: nat, i: nat, b: nat)
    requires Adding(r0, r, a, i, b) && forall x: int :: In(s, x) <==> In(r, x) || i <= x < b
    ensures forall x: int :: In(s, x) <==> In(r0, x) || a <= x < b
  {
  }

  lemma AddNew(r: Ranges, lo: nat, hi: nat, i: nat, b: nat)
    requires Normal(r, lo, hi) && lo <= i < b <= hi
    requires forall c :: c in r && c <= i ==> r[c] < i
    requires forall c :: c in r && c > i ==> c > b
    ensures Normal(r[i := b], lo, hi) && forall x: int :: In(r[i := b], x) <==> In(r, x) || i <= x < b
  {
    var s := r[i := b];
    forall x: int ensures In(s, x) <==> In(r, x) || i <= x < b {
      if In(r, x) {
        var c :| c in r && c <= x < r[c];
        assert c in s && s[c] == r[c];
      }
      if i <= x < b {
        assert i in s;
      }
    }
  }

  /** Stretch the interval at `c`, or a new one, over the gap up to `d` and swallow the interval there. */
  lemma Bridge(r: Ranges, lo: nat, hi: nat, c: nat, i: nat, d: nat, b: nat)
    requires Normal(r, lo, hi) && lo <= c <= i < d <= b && d in r
    requires if c in r then r[c] == i else c == i
    requires forall e :: e in r && e <= i && e != c ==> r[e] < c
    requires forall e :: e in r && e > i ==> e >= d
    ensures var s := r[c := r[d]] - {d};
      && Normal(s, lo, hi)
      && (forall x: int :: In(s, x) <==> In(r, x) || i <= x < d)
  {
    hide In;
    BridgeNormal(r, lo, hi, c, i, d, b);
    forall x: int ensures In(r[c := r[d]] - {d}, x) <==> In(r, x) || i <= x < d {
      BridgeIn(r, c, i, d, x);
    }
  }

  lemma BridgeIn(r: Ranges, c: nat, i: nat, d: nat, x: int)
    requires d in r && c <= i < d < r[d] && if c in r then r[c] == i else c == i
    ensures In(r[c := r[d]] - {d}, x) <==> In(r, x) || i <= x < d
  {
    var s := r[c := r[d]] - {d};
    if In(r, x) {
      var e :| e in r && e <= x < r[e];
      InAt(s, if e == d then c else e, x);
    }
    if i <= x < d {
      InAt(s, c, x);
    }
    if In(s, x) {
      var e :| e in s && e <= x < s[e];
      if e == c && x >= d {
        InAt(r, d, x);
      }
    }
  }

  lemma BridgeNormal(r: Ranges, lo: nat, hi: nat, c: nat, i: nat, d: nat, b: nat)
    requires Normal(r, lo, hi) && lo <= c <= i < d <= b && d in r
    requires if c in r then r[c] == i else c == i
    requires forall e :: e in r && e <= i && e != c ==> r[e] < c
    requires forall e :: e in r && e > i ==> e >= d
    ensures Normal(r[c := r[d]] - {d}, lo, hi)
  {
  }

  lemma Stretch(r: Ranges, lo: nat, hi: nat, c: nat, i: nat, b: nat)
    requires Normal(r, lo, hi) && c in r && r[c] == i < b <= hi
    requires forall e :: e in r && e > i ==> e > b
    requires forall e :: e in r && e <= i ==> e <= c
    ensures Normal(r[c := b], lo, hi) && forall x: int :: In(r[c := b], x) <==> In(r, x) || i <= x < b
  {
    var s := r[c := b];
    forall x: int ensures In(s, x) <==> In(r, x) || i <= x < b {
      if In(r, x) {
        var e :| e in r && e <= x < r[e];
        InAt(s, e, x);
      }
      if i <= x < b {
        InAt(s, c, x);
      }
    }
  }

  // ---------------------------------------------------------------- counting

  ghost function Elements(r: Ranges, lo: nat, hi: nat): set<int> {
    set x: int | lo <= x < hi && In(r, x)
  }

  ghost function Interval(a: int, b: int): (s: set<int>)
    ensures forall x: int :: x in s <==> a <= x < b
    decreases b - a
  {
    if a >= b then {} else Interval(a, b - 1) + {b - 1}
  }

  lemma {:induction false} IntervalSize(a: int, b: int)
    requires a <= b
    ensures |Interval(a, b)| == b - a
    decreases b - a
  {
    if a < b {
      IntervalSize(a, b - 1);
    }
  }

  /** Taking one interval out takes its length off the size. */
  lemma WithoutInterval(r: Ranges, lo: nat, hi: nat, b: nat)
    requires Normal(r, lo, hi) && b in r
    ensures Normal(r - {b}, lo, hi)
    ensures |Elements(r, lo, hi)| == |Elements(r - {b}, lo, hi)| + (r[b] - b)
  {
    var s := r - {b};
    forall x: int ensures In(r, x) <==> In(s, x) || b <= x < r[b] {
      if In(s, x) {
        var c :| c in s && c <= x < s[c];
        InAt(r, c, x);
      }
      if In(r, x) && !(b <= x < r[b]) {
        var c :| c in r && c <= x < r[c];
        InAt(s, c, x);
      }
    }
    forall x: int | b <= x < r[b] ensures !In(s, x) {
    }
    assert Elements(r, lo, hi) == Elements(s, lo, hi) + Interval(b, r[b]);
    IntervalSize(b, r[b]);
  }

  ghost predicate Ascending(s: seq<nat>) {
    forall i, j :: 0 <= i < j < |s| ==> s[i] < s[j]
  }

  class RangeMask {
    var first: nat              // the ground range
    var second: nat
    var ranges: Ranges

    ghost predicate Valid()
      reads this
    {
      Normal(ranges, first, second) && second < UINT32
    }

    constructor (first: nat, second: nat)
      requires second < UINT32
      ensures Valid() && this.first == first && this.second == second && ranges == map[]
    {
      this.first, this.second, ranges := first, second, map[];
    }

    /** unionWith: add the numbers from `a` to `b`, which lie in the ground range. */
    method AddRange(a: nat, b: nat)
      requires Valid() && (a < b ==> first <= a && b <= second)
      modifies this`ranges
      ensures Valid() && forall x: int :: In(ranges, x) <==> old(In(ranges, x)) || a <= x < b
    {
      ghost var r0 := ranges;
      var i := a;
      while i < b
        invariant Valid() && a <= i && Adding(r0, ranges, a, i, b)
        decreases b - i
      {
        ghost var r := ranges;
        var isAfter, after := UpperBound(ranges, i);
        var isBefore, before := NotAbove(ranges, i);
        if !isBefore || ranges[before] < i {
          if !isAfter || after > b {
            ranges := ranges[i := b];
            AddNew(r, first, second, i, b);
            Added(r0, r, ranges, a, i, b);
            break;
          } else {
            var end := ranges[after];
            ranges := ranges[i := end];
            ranges := ranges - {after};
            Bridge(r, first, second, i, i, after, b);
            i := end;
          }
        } else if ranges[before] == i {
          if !isAfter || after > b {
            ranges := ranges[before := b];
            Stretch(r, first, second, before, i, b);
            Added(r0, r, ranges, a, i, b);
            break;
          } else {
            var end := ranges[after];
            ranges := ranges[before := end];
            ranges := ranges - {after};
            Bridge(r, first, second, before, i, after, b);
            i := end;
          }
        } else {
          InAt(ranges, before, i);
          i := ranges[before];
        }
      }
    }

    method AddElement(x: nat)
      requires Valid() && first <= x < second
      modifies this`ranges
      ensures Valid() && forall y: int :: In(ranges, y) <==> old(In(ranges, y)) || y == x
    {
      AddRange(x, x + 1);
    }

    method Contains(i: nat) returns (b: bool)
      requires Valid()
      ensures b <==> In(ranges, i)
    {
      var found, k := NotAbove(ranges, i);
      if !found {
        return false;
      }
      OnlyBelow(ranges, first, second, k, i);
      b := ranges[k] > i;
    }

    /** size: numbers, not intervals. */
    method Size() returns (c: nat)
      requires Valid()
      ensures c == |Elements(ranges, first, second)|
    {
      c := 0;
      var rest := ranges;
      while rest != map[]
        invariant Normal(rest, first, second)
        invariant c + |Elements(rest, first, second)| == |Elements(ranges, first, second)|
        decreases rest.Keys
      {
        var b :| b in rest;
        WithoutInterval(rest, first, second, b);
        c := c + (rest[b] - b);
        rest := rest - {b};
      }
      assert Elements(rest, first, second) == {};
    }

    /** next: the least number of the set above `t`, or the end of the ground range; for the greatest
        32-bit number the search starts again at zero, which is right only for an empty mask. */
    method Next(t: nat) returns (n: nat)
      requires Valid() && t < UINT32
      ensures NextFrom(ranges, second, (t + 1) % UINT32, n)
      ensures NextFrom(ranges, second, t + 1, n) <==> t < UINT32 - 1 || ranges == map[]
    {
      var u := (t + 1) % UINT32;
      var isAfter, after := UpperBound(ranges, u);
      var isBefore, before := NotAbove(ranges, u);
      NoneAbove(ranges, first, second);
      if isBefore {
        OnlyBelow(ranges, first, second, before, u);
        if before <= u && ranges[before] > u {
          return u;
        }
      }
      if isAfter {
        EndsAt(ranges, first, second, after);
        InAt(ranges, after, after);
      }
      n := if !isAfter then second else after;
    }

    /** For the greatest number the result on the mask of 5 to 9 is 5, not the end 10. */
    static method NextOfGreatest() returns (n: nat)
      ensures n == 5 && !NextFrom(map[5 := 10], 10, UINT32, n)
    {
      var m := new RangeMask(5, 10);
      m.AddRange(5, 10);
      assert In(m.ranges, 5);
      n := m.Next(UINT32 - 1);
      InAt(map[5 := 10], 5, 5);
    }

    /** begin: where the iterator starts. */
    method Begin() returns (n: nat)
      requires Valid()
      ensures (In(ranges, n) || n == second) && forall x: int :: In(ranges, x) ==> x >= n
    {
      var found, k := UpperBound(ranges, -1);
      if found {
        InAt(ranges, k, k);
      }
      n := if found then k else second;
    }

    /** From begin to end: every number of the set once, in ascending order. */
    method Iterate() returns (s: seq<nat>)
      requires Valid() && first <= second
      ensures Ascending(s) && forall x: nat :: x in s <==> In(ranges, x)
    {
      s := [];
      var n := Begin();
      while n != second
        invariant n <= second && (n == second || In(ranges, n))
        invariant Ascending(s) && forall i :: 0 <= i < |s| ==> s[i] < n
        invariant forall x: nat :: x in s <==> In(ranges, x) && x < n
        decreases second - n
      {
        s := s + [n];
        n := Next(n);
      }
    }

    /** unionWith a mask: the union of the sets, over the union of the ground ranges. */
    method UnionWith(m: RangeMask)
      requires Valid() && m.Valid()
      modifies this
      ensures Valid() && first == Min(old(first), old(m.first)) && second == Max(old(second), old(m.second))
      ensures forall x: int :: In(ranges, x) <==> old(In(ranges, x)) || old(In(m.ranges, x))
    {
      ghost var mine, theirs := ranges, m.ranges;
      var todo := m.ranges;
      first, second := Min(first, m.first), Max(second, m.second);
      while todo != map[]
        invariant Valid() && first == Min(old(first), old(m.first)) && second == Max(old(second), old(m.second))
        invariant forall b :: b in todo ==> b in theirs && todo[b] == theirs[b]
        invariant forall x: int :: In(ranges, x) || In(todo, x) <==> In(mine, x) || In(theirs, x)
        decreases todo.Keys
      {
        var b :| b in todo;
        TakeOut(todo, b);
        AddRange(b, todo[b]);
        todo := todo - {b};
      }
      forall x: int ensures !In(todo, x) {
      }
    }

    /** inverted: the complement within the ground range. */
    method Inverted() returns (ret: RangeMask)
      requires Valid() && first <= second
      ensures fresh(ret) && ret.Valid() && ret.first == first && ret.second == second
      ensures forall x: int :: In(ret.ranges, x) <==> first <= x < second && !In(ranges, x)
    {
      hide Normal, In, Inverting, Complement;
      ret := new RangeMask(first, second);
      var last: nat := first;
      var found, k := UpperBound(ranges, -1);
      InvertingFirst(ranges, first, second, found, k);
      while found
        invariant fresh(ret) && ret.first == first && ret.second == second && last <= second
        invariant Inverting(ranges, ret.ranges, first, second, last, found, k)
        decreases second - last
      {
        ghost var r, before, at := ret.ranges, last, k;
        InvertingAt(ranges, r, first, second, last, k);
        if k != last {
          ret.ranges := ret.ranges[last := k];
        }
        last := ranges[k];
        found, k := UpperBound(ranges, k);
        InvertingOn(ranges, r, first, second, before, at, found, k);
      }
      InvertingLast(ranges, ret.ranges, first, second, last, k);
      ghost var mine := ranges;
      if last != second {
        ret.ranges := ret.ranges[last := second];
      }
      ComplementIs(mine, ret.ranges, first, second);
    }

    /** invert. */
    method Invert()
      requires Valid() && first <= second
      modifies this
      ensures Valid() && first == old(first) && second == old(second)
      ensures forall x: int :: In(ranges, x) <==> first <= x < second && !old(In(ranges, x))
    {
      var ret := Inverted();
      first, second, ranges := ret.first, ret.second, ret.ranges;
    }

    /** operator-=: invert, add, invert.  It takes the numbers of `m` out and keeps to the larger of the
        ground ranges, where what lies outside the own one counts as held before; so it is set
        difference when the ground ranges are equal.  On the mask itself it changes nothing. */
    method Subtract(m: RangeMask)
      requires Valid() && m.Valid() && first <= second
      modifies this
      ensures Valid() && first == Min(old(first), old(m.first)) && second == Max(old(second), old(m.second))
      ensures m != this ==> forall x: int :: In(ranges, x) <==>
        first <= x < second && !old(In(m.ranges, x)) && (old(In(ranges, x)) || !(old(first) <= x < old(second)))
      ensures m != this && old(first == m.first && second == m.second) ==>
        forall x: int :: In(ranges, x) <==> old(In(ranges, x)) && !old(In(m.ranges, x))
      ensures m == this ==> ranges == old(ranges)
    {
      ghost var mine, theirs, lo, hi := ranges, m.ranges, first, second;
      Invert();
      ghost var inverse := ranges;
      UnionWith(m);
      Invert();
      forall x: int ensures In(mine, x) ==> lo <= x < hi {
      }
      if m == this {
        NormalUnique(mine, ranges, lo, hi);
      }
    }

    /** lowest, in 32-bit arithmetic: the `items` least numbers, or all; but a mask that is none where
        the sum of a begin and the number of items left wraps around. */
    method Lowest(items: nat) returns (ret: RangeMask)
      requires Valid() && first <= second && items < UINT32
      ensures fresh(ret) && ret.first == first && ret.second == second
      ensures ret.Valid() <==> forall b :: b in ranges ==> !Overruns(ranges, first, items, b)
      ensures ret.Valid() ==> exists cut: nat :: CutOff(ranges, ret.ranges, cut)
      ensures ret.Valid() ==> |Elements(ret.ranges, first, second)| == Min(items, |Elements(ranges, first, second)|)
    {
      hide In, CutOff, Elements, Overruns, Normal, SoFar;
      ret := new RangeMask(first, second);
      var left: nat := items;
      ghost var cut: nat, broken := first, false;
      var found: bool, k: nat := UpperBound(ranges, -1);
      SoFarFirst(ranges, first, second, items, found, k);
      while found && left > 0
        invariant fresh(ret) && ret.first == first && ret.second == second && left <= items
        invariant SoFar(ranges, ret.ranges, first, second, items, cut, broken, found, k, left)
        decreases left
      {
        ghost var r, at, had := ret.ranges, k, left;
        SoFarAt(ranges, r, first, second, items, cut, broken, k, left);
        var end := Min((k + left) % UINT32, ranges[k]);
        ret.ranges := ret.ranges[k := end];
        left := (left - (end - k)) % UINT32;
        found, k := UpperBound(ranges, k);
        SoFarOn(ranges, r, first, second, items, cut, at, had, end, found, k);
        broken, cut := at + had >= UINT32, if at + had >= UINT32 then cut else end;
      }
      SoFarLast(ranges, ret.ranges, first, second, items, cut, broken, found, k, left);
    }
  }

  lemma AllTaken(r: Ranges, s: Ranges, lo: nat, hi: nat, cut: nat, found: bool, k: nat, left: nat, items: nat)
    requires CutOff(r, s, cut) && left + |Elements(s, lo, hi)| == items
    requires left > 0 ==> !found && Taken(r, s, cut, found, k)
    ensures |Elements(s, lo, hi)| == Min(items, |Elements(r, lo, hi)|)
  {
    SubsetSize(s, r, lo, hi);
    if left > 0 {
      WholeSize(r, s, lo, hi, cut);
    }
  }

  /** `s` holds the numbers of `r` below `cut`. */
  ghost predicate CutOff(r: Ranges, s: Ranges, cut: nat) {
    forall x: int :: In(s, x) <==> In(r, x) && x < cut
  }

  /** All intervals that begin before `k` were taken, whole. */
  ghost predicate Taken(r: Ranges, s: Ranges, cut: nat, found: bool, k: nat) {
    && (found ==> k in r && cut <= k && k !in s && forall b :: b in s ==> s[b] < k)
    && (forall b :: b in s ==> s[b] <= cut)
    && (forall b :: b in r && (found ==> b < k) ==> r[b] <= cut)
  }

  lemma Onward(r: Ranges, s: Ranges, lo: nat, hi: nat, cut: nat, k: nat, end: nat, found: bool, next: nat, left: nat)
    requires Normal(r, lo, hi) && Normal(s, lo, hi) && k in r && Taken(r, s, cut, true, k) && k < end
    requires end <= r[k] && (left > 0 ==> end == r[k])
    requires found ==> next in r && next > k && forall j :: j in r && j > k ==> next <= j
    requires !found ==> forall j :: j in r ==> j <= k
    ensures left > 0 ==> Taken(r, s[k := end], end, found, next)
  {
  }

  function Min(a: nat, b: nat): nat {
    if a < b then a else b
  }

  function Max(a: nat, b: nat): nat {
    if a > b then a else b
  }

  ghost predicate Complement(r: Ranges, s: Ranges, lo: nat, last: nat) {
    forall x: int :: In(s, x) <==> lo <= x < last && !In(r, x)
  }

  lemma ComplementIs(r: Ranges, s: Ranges, lo: nat, hi: nat)
    requires Complement(r, s, lo, hi)
    ensures forall x: int :: In(s, x) <==> lo <= x < hi && !In(r, x)
  {
    hide In;
  }

  lemma TakeOut(r: Ranges, b: nat)
    requires b in r
    ensures forall x: int :: In(r, x) <==> In(r - {b}, x) || b <= x < r[b]
  {
    forall x: int ensures In(r, x) <==> In(r - {b}, x) || b <= x < r[b] {
      if In(r - {b}, x) {
        var c :| c in r - {b} && c <= x < (r - {b})[c];
        InAt(r, c, x);
      }
      if In(r, x) && !(b <= x < r[b]) {
        var c :| c in r && c <= x < r[c];
        InAt(r - {b}, c, x);
      }
    }
  }

  lemma NothingIn(r: Ranges, lo: nat, hi: nat)
    requires Normal(r, lo, hi)
    ensures Elements(map[], lo, hi) == {} && CutOff(r, map[], lo)
  {
  }

  // ---------------------------------------------------------------- where lowest wraps around

  /** When the interval from `b` on is reached, `b` and the number of items still to take exceed 32 bits. */
  ghost predicate Overruns(r: Ranges, lo: nat, items: nat, b: nat) {
    |Elements(r, lo, b)| < items && b + (items - |Elements(r, lo, b)|) >= UINT32
  }

  /** No interval before `k` overran, and `left` are the items beyond those below `k`. */
  ghost predicate Counted(r: Ranges, lo: nat, items: nat, found: bool, k: nat, left: nat) {
    && (forall b :: b in r && (found && left > 0 ==> b < k) ==> !Overruns(r, lo, items, b))
    && (found && left > 0 ==> |Elements(r, lo, k)| + left == items)
  }

  lemma CountedFirst(r: Ranges, lo: nat, hi: nat, items: nat, found: bool, k: nat)
    requires Normal(r, lo, hi)
    requires found ==> k in r && forall j :: j in r ==> k <= j
    requires !found ==> forall j :: j in r ==> j <= -1
    ensures Counted(r, lo, items, found, k, items)
  {
    if found {
      assert Elements(r, lo, k) == {};
    }
  }

  lemma CountedLast(r: Ranges, lo: nat, items: nat, found: bool, k: nat, left: nat)
    requires Counted(r, lo, items, found, k, left) && !(found && left > 0)
    ensures forall b :: b in r ==> !Overruns(r, lo, items, b)
  {
    hide Overruns;
  }

  lemma TakenFirst(r: Ranges, lo: nat, hi: nat, found: bool, k: nat)
    requires Normal(r, lo, hi)
    requires found ==> k in r && forall j :: j in r ==> k <= j
    requires !found ==> forall j :: j in r ==> j <= -1
    ensures Taken(r, map[], lo, found, k)
  {
  }

  lemma TakenAt(r: Ranges, s: Ranges, lo: nat, hi: nat, cut: nat, k: nat)
    requires Normal(r, lo, hi) && Taken(r, s, cut, true, k)
    ensures k in r && lo <= k < r[k] <= hi && cut <= k && k !in s
    ensures (forall b :: b in s ==> s[b] < k) && forall b :: b in r && b < k ==> r[b] <= cut
  {
  }

  /** The wrapped sum is stored as an end before its begin. */
  lemma Broken(r: Ranges, s: Ranges, lo: nat, hi: nat, items: nat, k: nat, left: nat, end: nat)
    requires Normal(r, lo, hi) && k in r && hi < UINT32 && left < UINT32 && k + left >= UINT32
    requires Counted(r, lo, items, true, k, left) && left > 0 && end == Min((k + left) % UINT32, r[k])
    ensures end < k && (left - (end - k)) % UINT32 == 0
    ensures !Normal(s[k := end], lo, hi) && Overruns(r, lo, items, k)
  {
    assert (k + left) % UINT32 == k + left - UINT32;
    var t := s[k := end];
    assert k in t && t[k] == end;
  }

  /** Up to a later begin there are at least the numbers below `k` and those of its interval. */
  lemma ElementsOn(r: Ranges, lo: nat, hi: nat, k: nat, end: nat, b: nat)
    requires Normal(r, lo, hi) && k in r && k < end <= r[k] <= b
    ensures |Elements(r, lo, b)| >= |Elements(r, lo, k)| + (end - k)
    ensures end == r[k] && (forall c :: c in r && c > k ==> c >= b) ==>
      |Elements(r, lo, b)| == |Elements(r, lo, k)| + (end - k)
  {
    var x, y, z := Elements(r, lo, k), Interval(k, end), Elements(r, lo, b);
    IntervalSize(k, end);
    ElementsParts(r, lo, hi, k, end, b);
    hide Elements, Interval, In, Normal;
    assert |x + y| == |x| + |y|;
    assert z == (x + y) + (z - (x + y)) && (x + y) * (z - (x + y)) == {};
  }

  lemma ElementsParts(r: Ranges, lo: nat, hi: nat, k: nat, end: nat, b: nat)
    requires Normal(r, lo, hi) && k in r && k < end <= r[k] <= b
    ensures Elements(r, lo, k) + Interval(k, end) <= Elements(r, lo, b) && Elements(r, lo, k) * Interval(k, end) == {}
    ensures end == r[k] && (forall c :: c in r && c > k ==> c >= b) ==>
      Elements(r, lo, b) == Elements(r, lo, k) + Interval(k, end)
  {
    forall e: int | k <= e < end ensures In(r, e) && lo <= e < b {
      InAt(r, k, e);
    }
    if end == r[k] && forall c :: c in r && c > k ==> c >= b {
      forall e: int | In(r, e) && lo <= e < b ensures e < r[k] {
        var c :| c in r && c <= e < r[c];
      }
    }
    hide In;
  }

  lemma CountedOn(r: Ranges, lo: nat, hi: nat, items: nat, k: nat, had: nat, end: nat, found: bool, next: nat,
    left: nat)
    requires Normal(r, lo, hi) && k in r && Counted(r, lo, items, true, k, had) && had > 0 && k + had < UINT32
    requires end == Min(k + had, r[k]) && left == had - (end - k)
    requires found ==> next in r && next > k && forall j :: j in r && j > k ==> next <= j
    requires !found ==> forall j :: j in r ==> j <= k
    ensures Counted(r, lo, items, found, next, left)
  {
    hide Elements;
    forall b | b in r && (found && left > 0 ==> b < next) ensures !Overruns(r, lo, items, b) {
      if b > k {
        ElementsOn(r, lo, hi, k, end, b);
      }
    }
    if found && left > 0 {
      ElementsOn(r, lo, hi, k, end, next);
    }
  }

  lemma AddLast(r: Ranges, lo: nat, hi: nat, k: nat, end: nat)
    requires Normal(r, lo, hi) && lo <= k < end <= hi && forall b :: b in r ==> r[b] < k
    ensures Normal(r[k := end], lo, hi)
    ensures |Elements(r[k := end], lo, hi)| == |Elements(r, lo, hi)| + (end - k)
  {
    hide In, Elements;
    assert Normal(r[k := end], lo, hi);
    WithoutInterval(r[k := end], lo, hi, k);
    assert r[k := end] - {k} == r;
  }

  lemma CutAt(r: Ranges, s: Ranges, lo: nat, hi: nat, cut: nat, k: nat, end: nat)
    requires Normal(r, lo, hi) && k in r && k < end <= r[k] && cut <= k
    requires CutOff(r, s, cut)
    requires forall b :: b in r && b < k ==> r[b] <= cut
    requires k !in s
    ensures CutOff(r, s[k := end], end)
  {
    var t := s[k := end];
    forall x: int ensures In(t, x) <==> In(r, x) && x < end {
      if In(s, x) {
        var b :| b in s && b <= x < s[b];
        InAt(t, b, x);
      }
      if k <= x < end {
        InAt(t, k, x);
        InAt(r, k, x);
      }
    }
  }

  lemma WholeSize(r: Ranges, s: Ranges, lo: nat, hi: nat, cut: nat)
    requires CutOff(r, s, cut) && forall b :: b in r ==> r[b] <= cut
    ensures |Elements(s, lo, hi)| == |Elements(r, lo, hi)|
  {
    assert Elements(s, lo, hi) == Elements(r, lo, hi);
  }

  lemma SubsetSize(s: Ranges, r: Ranges, lo: nat, hi: nat)
    requires exists cut: nat :: CutOff(r, s, cut)
    ensures |Elements(s, lo, hi)| <= |Elements(r, lo, hi)|
  {
    var a, b := Elements(s, lo, hi), Elements(r, lo, hi);
    assert a <= b;
    assert b == a + (b - a) && a * (b - a) == {};
  }

  /** Inverting twice restores the very same mask. */
  lemma InvertedTwice(r: Ranges, s: Ranges, t: Ranges, lo: nat, hi: nat)
    requires Normal(r, lo, hi) && Normal(t, lo, hi)
    requires forall x: int :: In(s, x) <==> lo <= x < hi && !In(r, x)
    requires forall x: int :: In(t, x) <==> lo <= x < hi && !In(s, x)
    ensures t == r
  {
    NormalUnique(t, r, lo, hi);
  }

  // ---------------------------------------------------------------- the loop of lowest

  /** The least intervals were taken, or the last one taken is broken. */
  ghost predicate SoFar(r: Ranges, s: Ranges, lo: nat, hi: nat, items: nat, cut: nat, broken: bool, found: bool,
    k: nat, left: nat) {
    if broken then left == 0 && !Normal(s, lo, hi) && exists b :: b in r && Overruns(r, lo, items, b)
    else
      && Normal(s, lo, hi) && CutOff(r, s, cut) && left + |Elements(s, lo, hi)| == items
      && (left > 0 ==> Taken(r, s, cut, found, k)) && Counted(r, lo, items, found, k, left)
  }

  lemma SoFarFirst(r: Ranges, lo: nat, hi: nat, items: nat, found: bool, k: nat)
    requires Normal(r, lo, hi)
    requires found ==> k in r && forall j :: j in r ==> k <= j
    requires !found ==> forall j :: j in r ==> j <= -1
    ensures SoFar(r, map[], lo, hi, items, lo, false, found, k, items)
  {
    NothingIn(r, lo, hi);
    TakenFirst(r, lo, hi, found, k);
    CountedFirst(r, lo, hi, items, found, k);
    hide Taken, Counted, CutOff, Elements, In;
  }

  lemma SoFarAt(r: Ranges, s: Ranges, lo: nat, hi: nat, items: nat, cut: nat, broken: bool, k: nat, left: nat)
    requires SoFar(r, s, lo, hi, items, cut, broken, true, k, left) && left > 0
    ensures !broken && k in r
  {
    hide Counted, CutOff, Elements, In, Normal, Overruns;
  }

  lemma SoFarOn(r: Ranges, s: Ranges, lo: nat, hi: nat, items: nat, cut: nat, k: nat, had: nat, end: nat,
    found: bool, next: nat)
    requires Normal(r, lo, hi) && hi < UINT32 && items < UINT32 && 0 < had <= items && k in r
    requires SoFar(r, s, lo, hi, items, cut, false, true, k, had) && end == Min((k + had) % UINT32, r[k])
    requires found ==> next in r && next > k && forall j :: j in r && j > k ==> next <= j
    requires !found ==> forall j :: j in r ==> j <= k
    ensures var left, broken := (had - (end - k)) % UINT32, k + had >= UINT32;
      left < had && SoFar(r, s[k := end], lo, hi, items, if broken then cut else end, broken, found, next, left)
  {
    hide In, CutOff, Elements, Taken, Overruns, Counted;
    TakenAt(r, s, lo, hi, cut, k);
    if k + had >= UINT32 {
      Broken(r, s, lo, hi, items, k, had, end);
    } else {
      hide Normal;
      AddLast(s, lo, hi, k, end);
      CutAt(r, s, lo, hi, cut, k, end);
      var left := had - (end - k);
      Onward(r, s, lo, hi, cut, k, end, found, next, left);
      CountedOn(r, lo, hi, items, k, had, end, found, next, left);
    }
  }

  lemma SoFarLast(r: Ranges, s: Ranges, lo: nat, hi: nat, items: nat, cut: nat, broken: bool, found: bool, k: nat,
    left: nat)
    requires SoFar(r, s, lo, hi, items, cut, broken, found, k, left) && !(found && left > 0)
    ensures Normal(s, lo, hi) <==> forall b :: b in r ==> !Overruns(r, lo, items, b)
    ensures Normal(s, lo, hi) ==> exists cut: nat :: CutOff(r, s, cut)
    ensures Normal(s, lo, hi) ==> |Elements(s, lo, hi)| == Min(items, |Elements(r, lo, hi)|)
  {
    hide In, CutOff, Elements, Taken, Overruns, Counted, Normal;
    if !broken {
      AllTaken(r, s, lo, hi, cut, found, k, left, items);
      CountedLast(r, lo, items, found, k, left);
    }
  }

  /** The greatest 32-bit count, for example, breaks the mask of the numbers from 5 to 9. */
  lemma GreatestCountOverruns()
    ensures Overruns(map[5 := 10], 0, UINT32 - 1, 5)
  {
    assert Elements(map[5 := 10], 0, 5) == {};
  }

  // ---------------------------------------------------------------- the loop of inverted

  /** The gaps before `last` were collected; the intervals from `k` on are still to come. */
  ghost predicate Inverting(r: Ranges, s: Ranges, lo: nat, hi: nat, last: nat, found: bool, k: nat) {
    && lo <= last <= hi && Normal(s, lo, hi) && Complement(r, s, lo, last)
    && (found ==> k in r && last <= k)
    && (forall b :: b in r && (found ==> b < k) ==> r[b] <= last)
    && (forall b :: b in s ==> s[b] < last)
  }

  lemma InvertingFirst(r: Ranges, lo: nat, hi: nat, found: bool, k: nat)
    requires Normal(r, lo, hi) && lo <= hi
    requires found ==> k in r && forall j :: j in r ==> k <= j
    requires !found ==> forall j :: j in r ==> j <= -1
    ensures Inverting(r, map[], lo, hi, lo, found, k)
  {
  }

  lemma InvertingAt(r: Ranges, s: Ranges, lo: nat, hi: nat, last: nat, k: nat)
    requires Normal(r, lo, hi) && Inverting(r, s, lo, hi, last, true, k)
    ensures k in r && last <= k < r[k] <= hi
  {
  }

  lemma InvertingOn(r: Ranges, s: Ranges, lo: nat, hi: nat, last: nat, k: nat, found: bool, next: nat)
    requires Normal(r, lo, hi) && Inverting(r, s, lo, hi, last, true, k) && k in r
    requires found ==> next in r && next > k && forall j :: j in r && j > k ==> next <= j
    requires !found ==> forall j :: j in r ==> j <= k
    ensures Inverting(r, if k != last then s[last := k] else s, lo, hi, r[k], found, next)
  {
    var t := if k != last then s[last := k] else s;
    if k != last {
      AddNew(s, lo, hi, last, k);
    }
    EndsAt(r, lo, hi, k);
    forall x: int | In(r, x) && x < k ensures x < last {
      var b :| b in r && b <= x < r[b];
    }
    forall x: int | k <= x < r[k] ensures In(r, x) {
      InAt(r, k, x);
    }
    hide In;
  }

  lemma InvertingLast(r: Ranges, s: Ranges, lo: nat, hi: nat, last: nat, k: nat)
    requires Normal(r, lo, hi) && Inverting(r, s, lo, hi, last, false, k)
    ensures last != hi ==> Normal(s[last := hi], lo, hi) && Complement(r, s[last := hi], lo, hi)
    ensures last == hi ==> Normal(s, lo, hi) && Complement(r, s, lo, hi)
  {
    forall x: int | In(r, x) ensures x < last {
      var b :| b in r && b <= x < r[b];
    }
    hide In;
    if last != hi {
      AddNew(s, lo, hi, last, hi);
      forall x: int ensures In(s[last := hi], x) <==> lo <= x < hi && !In(r, x) {
        assert In(s[last := hi], x) <==> In(s, x) || last <= x < hi;
      }
    }
  }
}
