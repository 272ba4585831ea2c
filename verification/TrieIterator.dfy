/** GenericTrieDB::iterator (TrieDB.h:106-153, 505-765): a trail of nodes from the root to the
    current entry, advanced by two nested loops. */
module TrieIterators {
  import opened Bytes
  import opened HexPrefix
  import opened Rlp
  import opened Tries
  import opened TrieCanonical
  import opened TrieNodes
  import opened TrieEntries
  import opened NodeStore
  import opened TrieAccounts
  import opened TrieStore

  // where a frame stands: not looked at yet, at its own value, at a child 0 to 15, or done
  const ENTERING := 255
  const HERE := 16
  const LEAVING := 17

  /** A node on the trail; its key is hex-prefix encoded. */
  datatype Frame = Frame(rlp: Item, key: seq<octet>, child: nat)

  function Increment(child: nat): nat {
    if child == HERE then 0 else if child == 15 then LEAVING else child + 1
  }

  // ---------------------------------------------------------------- what a trail stands for

  /** The subtree a node on the trail comes from, and the key that leads to it. */
  datatype Spot = Spot(tree: Tree, path: Key)

  /** The trail with the subtrees, innermost first. */
  datatype Stack = Empty | Push(top: Frame, spot: Spot, below: Stack)

  function Frames(s: Stack): seq<Frame> {
    match s
    case Empty => []
    case Push(f, _, b) => Frames(b) + [f]
  }

  ghost predicate SpotOk(f: Frame, s: Spot, main: Cache, disk: Disk) {
    && Shaped(s.tree) && f.rlp == NodeItem(s.tree) && f.key == HexPrefix.Encode(s.path, false)
    && if f.child == ENTERING || s.tree.Branch?
       then Bounded(s.tree, MAX_KEY - |s.path|) && Covers(main, disk, s.tree, true)
         && (f.child == ENTERING || f.child <= LEAVING)
       else s.tree.Leaf? && f.child == 0
  }

  /** Below the innermost node there are only branches whose child is next on the trail. */
  ghost predicate InOrder(s: Stack, main: Cache, disk: Disk) {
    && (s.Push? ==> SpotOk(s.top, s.spot, main, disk) && InOrder(s.below, main, disk))
    && (s.Push? && s.below.Push? ==> s.below.spot.tree.Branch? && s.below.top.child < 16)
  }

  /** The node's entries from its slot `child` on. */
  ghost function Upcoming(s: Spot, child: nat): seq<Entry>
    requires Shaped(s.tree) && s.tree.Branch? && child <= LEAVING
  {
    if child == HERE then ValueEntry(s.tree.value, s.path) + ChildEntries(s.tree, 0, s.path)
    else if child < 16 then ChildEntries(s.tree, child, s.path)
    else []
  }

  /** The node's entries still to come. */
  ghost function Pending(s: Spot, child: nat): seq<Entry>
    requires Shaped(s.tree) && (child == ENTERING || s.tree.Leaf? || (s.tree.Branch? && child <= LEAVING))
  {
    if child == ENTERING then Entries(s.tree, s.path)
    else if s.tree.Branch? && child <= 16 then Upcoming(s, Increment(child))
    else []
  }

  ghost function Todo(s: Stack, main: Cache, disk: Disk): seq<Entry>
    requires InOrder(s, main, disk)
  {
    match s
    case Empty => []
    case Push(f, spot, below) => Pending(spot, f.child) + Todo(below, main, disk)
  }

  /** Looking for the first entry not below the key `k`, which is still below the node entered. */
  ghost function TodoFrom(s: Stack, k: Key, main: Cache, disk: Disk): seq<Entry>
    requires InOrder(s, main, disk)
  {
    if s.Push? && s.top.child == ENTERING
    then From(s.spot.tree, s.spot.path, k) + Todo(s.below, main, disk)
    else Todo(s, main, disk)
  }

  /** The iterator has stopped at a value. */
  ghost predicate AtValue(s: Stack) {
    s.Push? && ((s.spot.tree.Leaf? && s.top.child == 0)
      || (s.spot.tree.Branch? && s.top.child == HERE && s.spot.tree.value != []))
  }

  ghost function Current(s: Stack): Entry
    requires AtValue(s)
  {
    Entry(s.spot.path, s.spot.tree.value)
  }

  // ---------------------------------------------------------------- termination

  /** Work left in a subtree, and in a branch from a slot on. */
  ghost function Weight(t: Tree): nat
    requires Shaped(t)
    decreases t, 20
  {
    match t
    case Null => 1
    case Leaf(_, _) => 2
    case Ext(_, c) => 1 + Weight(c)
    case Branch(_, _) => 2 + Weights(t, 0)
  }

  ghost function Weights(t: Tree, i: nat): nat
    requires Shaped(t) && t.Branch? && i <= 16
    decreases t, 16 - i
  {
    if i == 16 then 0 else 1 + Weight(t.children[i]) + Weights(t, i + 1)
  }

  ghost function FrameWork(s: Spot, child: nat): nat
    requires Shaped(s.tree)
  {
    if child == ENTERING then Weight(s.tree)
    else if s.tree.Branch? && child == HERE then 1 + Weights(s.tree, 0)
    else if s.tree.Branch? && child < 16 then 1 + Weights(s.tree, child + 1)
    else 1
  }

  ghost function Work(s: Stack, main: Cache, disk: Disk): nat
    requires InOrder(s, main, disk)
  {
    match s
    case Empty => 0
    case Push(f, spot, below) => FrameWork(spot, f.child) + Work(below, main, disk)
  }

  // ---------------------------------------------------------------- steps

  /** What a search that is about to examine the slot `child` of a branch has to find, and its work. */
  ghost function Wanted(s: Spot, child: nat, k: Key): seq<Entry>
    requires Shaped(s.tree) && s.tree.Branch? && child <= LEAVING
  {
    if child < 16 then From(s.tree.children[child], s.path + [child], k) + ChildEntries(s.tree, child + 1, s.path)
    else Upcoming(s, child)
  }

  ghost function SlotWork(s: Spot, child: nat): nat
    requires Shaped(s.tree) && s.tree.Branch? && child <= LEAVING
  {
    1 + Weights(s.tree, if child == HERE then 0 else if child == LEAVING then 16 else child)
  }

  lemma {:induction false} FromEverything(t: Tree, path: Key)
    requires Shaped(t)
    ensures From(t, path, []) == Entries(t, path)
  {
  }

  /** An empty slot adds nothing. */
  lemma EmptySlot(s: Spot, child: nat, k: Key)
    requires Shaped(s.tree) && s.tree.Branch? && child <= HERE && !SlotUsed(s.tree, child)
    ensures Wanted(s, child, k) == Wanted(s, Increment(child), [])
    ensures SlotWork(s, Increment(child)) <= SlotWork(s, child)
  {
    var next := Increment(child);
    if next < 16 {
      FromEverything(s.tree.children[next], s.path + [next]);
    }
  }

  lemma ValueSlot(s: Spot)
    requires Shaped(s.tree) && s.tree.Branch? && s.tree.value != []
    ensures Wanted(s, HERE, []) == [Entry(s.path, s.tree.value)] + Pending(s, HERE)
  {
  }

  /** About to examine the slot `child` of the innermost branch, with `todo` to find. */
  ghost predicate Seeking(s: Stack, child: nat, k: Key, main: Cache, disk: Disk, todo: seq<Entry>, work: nat)
    requires InOrder(s, main, disk)
  {
    && s.Push? && s.spot.tree.Branch? && s.top.child == child <= LEAVING && (k != [] ==> child < 16)
    && todo == Wanted(s.spot, child, k) + Todo(s.below, main, disk)
    && work >= SlotWork(s.spot, child) + Work(s.below, main, disk)
  }

  /** A branch on top of the trail has a slot to go on from. */
  ghost predicate Ready(s: Stack) {
    s.Push? && s.spot.tree.Branch? && s.top.child != ENTERING ==> s.top.child <= HERE
  }

  /** What a step has made of `todo`: stopped at its first entry, or come closer to it. */
  ghost predicate Advanced(found: bool, k: Key, s: Stack, main: Cache, disk: Disk, todo: seq<Entry>, work: nat)
    requires InOrder(s, main, disk)
  {
    && (k != [] ==> s.Push? && s.top.child == ENTERING) && Ready(s)
    && if found then AtValue(s) && todo == [Current(s)] + Todo(s, main, disk)
       else todo == TodoFrom(s, k, main, disk) && Work(s, main, disk) < work
  }

  class TrieIterator {
    const that: GenericTrieDB
    const db: OverlayDB
    var trail: seq<Frame>
    ghost var stack: Stack

    /** The trail is in order; the trie is the one the iterator was made for. */
    ghost predicate Sound()
      reads this, db
    {
      db.Valid() && that.db == db && trail == Frames(stack) && InOrder(stack, db.main, db.disk)
    }

    constructor (trie: GenericTrieDB)
      requires trie.Valid()
      ensures that == trie && db == trie.db && Sound()
      ensures stack.Push? && stack.spot == Spot(trie.tree, []) && stack.below == Empty && stack.top.child == ENTERING
    {
      AccountedCovers(trie.db.main, trie.db.disk, trie.tree);
      var n := trie.Node(trie.root, trie.tree, MAX_KEY);
      that, db := trie, trie.db;
      var key := HexPrefix.Encode([], false);
      trail := [Frame(n, key, ENTERING)];
      stack := Push(Frame(n, key, ENTERING), Spot(trie.tree, []), Empty);
    }

    method SetTop(f: Frame, ghost spot: Spot)
      requires Sound() && stack.Push? && SpotOk(f, spot, db.main, db.disk)
      modifies this
      ensures Sound() && stack == Push(f, spot, old(stack.below))
    {
      trail := trail[..|trail| - 1] + [f];
      stack := Push(f, spot, stack.below);
    }

    method PushBack(f: Frame, ghost spot: Spot)
      requires Sound() && SpotOk(f, spot, db.main, db.disk)
      requires stack.Push? ==> stack.spot.tree.Branch? && stack.top.child < 16
      modifies this
      ensures Sound() && stack == Push(f, spot, old(stack))
    {
      trail := trail + [f];
      stack := Push(f, spot, stack);
    }

    method PopBack()
      requires Sound() && stack.Push?
      modifies this
      ensures Sound() && stack == old(stack.below)
    {
      trail := trail[..|trail| - 1];
      stack := stack.below;
    }

    /** hexPrefixEncode(keyOf(key), slice, false). */
    method Extended(key: seq<octet>, slice: NibbleSlice, ghost path: Key) returns (r: seq<octet>)
      requires key == HexPrefix.Encode(path, false) && slice.Valid()
      ensures r == HexPrefix.Encode(path + slice.View(), false)
    {
      var k := KeyOf(key);
      KeyOfEncode(path, false);
      r := EncodeTwo(k.data, k.offset, slice.data, slice.offset, false);
      assert NibbleSlice(k.data, k.offset) == k && NibbleSlice(slice.data, slice.offset) == slice;
    }

    /** The inner loop: from the slot `child` of the innermost branch on, stop at a value, enter a
        child, or leave the branch. */
    method Examine(key: Key, ghost todo: seq<Entry>, ghost work: nat) returns (found: bool, k: Key)
      requires Sound() && stack.Push? && Seeking(stack, stack.top.child, key, db.main, db.disk, todo, work)
      modifies this
      ensures Sound() && Advanced(found, k, stack, db.main, db.disk, todo, work)
    {
      hide Advanced, Wanted, SlotWork, NodeItem, SpotOk, Todo, Work;
      var b := trail[|trail| - 1];
      var child;
      child, k := SkipEmpty(b, key, todo, work);
      found := false;
      if child == LEAVING {
        LeaveBranch(k, todo, work);
        k := [];
      } else if child == HERE {
        ValueReached(stack, k, db.main, db.disk, todo, work);
        found := true;
      } else {
        EnterChild(b.(child := child), child, k, todo, work);
      }
    }

    /** ... past the empty slots. */
    method SkipEmpty(b: Frame, key: Key, ghost todo: seq<Entry>, ghost work: nat) returns (child: nat, k: Key)
      requires Sound() && stack.Push? && stack.top == b && Seeking(stack, b.child, key, db.main, db.disk, todo, work)
      modifies this
      ensures Sound() && stack == old(stack).(top := b.(child := child))
      ensures Seeking(stack, child, k, db.main, db.disk, todo, work)
      ensures child != LEAVING ==> SlotUsed(stack.spot.tree, child)
    {
      ghost var s0, spot := stack, stack.spot;
      child, k := b.child, key;
      SpotSlots(b, spot, db.main, db.disk);
      hide Wanted, SlotWork, NodeItem, EmptyItem, Todo, Work;
      while child != LEAVING && EmptyItem(b.rlp.items[child])
        invariant Sound() && child <= LEAVING && stack == s0.(top := b.(child := child))
        invariant Seeking(stack, child, k, db.main, db.disk, todo, work)
        decreases if child == HERE then 18 else 17 - child
      {
        EmptySlot(spot, child, k);
        child := Increment(child);
        SetTop(b.(child := child), spot);
        k := [];
      }
    }

    method LeaveBranch(k: Key, ghost todo: seq<Entry>, ghost work: nat)
      requires Sound() && Seeking(stack, LEAVING, k, db.main, db.disk, todo, work)
      modifies this
      ensures Sound() && Advanced(false, [], stack, db.main, db.disk, todo, work)
    {
      hide Entries, From, ChildEntries, Pending, Weights, NodeItem, Covers;
      PopBack();
    }

    /** Lead on to another node. */
    method EnterChild(b: Frame, child: nibble, ghost k: Key, ghost todo: seq<Entry>, ghost work: nat)
      requires Sound() && stack.Push? && stack.top == b && Seeking(stack, child, k, db.main, db.disk, todo, work)
      requires SlotUsed(stack.spot.tree, child)
      modifies this
      ensures Sound() && Advanced(false, k, stack, db.main, db.disk, todo, work)
    {
      assert Shaped(stack.spot.tree);
      hide SpotOk, Todo, Work, Advanced, Wanted, SlotWork;
      ghost var s0, spot := stack, stack.spot;
      var f := ChildFrame(b, child, spot);
      PushBack(f, Spot(spot.tree.children[child], spot.path + [child]));
      ChildEntered(s0, stack, child, k, db.main, db.disk, todo, work);
    }

    /** The trail node for a child of a branch. */
    method ChildFrame(b: Frame, child: nibble, ghost spot: Spot) returns (f: Frame)
      requires db.Valid() && that.db == db && SpotOk(b, spot, db.main, db.disk)
      requires spot.tree.Branch? && b.child == child && SlotUsed(spot.tree, child)
      ensures SpotOk(f, Spot(spot.tree.children[child], spot.path + [child]), db.main, db.disk) && f.child == ENTERING
    {
      SpotSlot(b, spot, child, db.main, db.disk);
      ChildSlice(child);
      assert |spot.tree.children| == 16;
      hide *;
      var n := that.Deref(b.rlp.items[child], spot.tree.children[child], MAX_KEY - |spot.path| - 1);
      var key := Extended(b.key, NibbleSlice([child], 1), spot.path);
      f := Frame(n, key, ENTERING);
    }

    /** Give up the innermost node. */
    method Leave(ghost key: Key)
      requires Sound() && stack.Push? && stack.top.child == ENTERING
      requires From(stack.spot.tree, stack.spot.path, key) == []
      modifies this
      ensures Sound()
      ensures Advanced(false, [], stack, db.main, db.disk,
                       old(TodoFrom(stack, key, db.main, db.disk)), old(Work(stack, db.main, db.disk)))
    {
      hide Entries, From, ChildEntries, Pending, Weights, NodeItem, Covers;
      WeightPositive(stack.spot.tree);
      PopBack();
    }

    /** Entering a two-item node with the key `key` still to look for. */
    method EnterPair(key: Key) returns (found: bool, k: Key)
      requires Sound() && stack.Push? && TwoItem(stack.spot.tree) && stack.top.child == ENTERING
      modifies this
      ensures Sound()
      ensures Advanced(found, k, stack, db.main, db.disk,
                       old(TodoFrom(stack, key, db.main, db.disk)), old(Work(stack, db.main, db.disk)))
    {
      ghost var t, path := stack.spot.tree, stack.spot.path;
      var b := trail[|trail| - 1];
      TwoItemNode(t);
      k := key;
      var keyOfRlp := KeyOf(ToOctets(b.rlp.items[0].data));
      PairFrom(t, path, key);
      hide Entries, From, ChildEntries, Pending, Weights, NodeItem, Covers, Advanced, KeyLess;
      if !(keyOfRlp.View() <= k) {
        if !KeyLess(k, keyOfRlp.View()) {
          Leave(key);
          return false, [];
        }
        k := [];
      }
      k := k[if |k| < keyOfRlp.Size() then |k| else keyOfRlp.Size()..];
      if IsLeafItem(b.rlp) {
        found := EnterLeaf(b, keyOfRlp, k, key);
        k := [];
      } else {
        found := false;
        EnterExt(b, keyOfRlp, k, key);
      }
    }

    /** A leaf: stop there, unless there is still key to look for. */
    method EnterLeaf(b: Frame, slice: NibbleSlice, k: Key, ghost key: Key) returns (found: bool)
      requires Sound() && stack.Push? && stack.spot.tree.Leaf? && stack.top.child == ENTERING
      requires trail[|trail| - 1] == b && slice.Valid() && slice.View() == stack.spot.tree.key
      requires From(stack.spot.tree, stack.spot.path, key)
            == if k == [] then [Entry(stack.spot.path + stack.spot.tree.key, stack.spot.tree.value)] else []
      modifies this
      ensures Sound()
      ensures Advanced(found, [], stack, db.main, db.disk,
                       old(TodoFrom(stack, key, db.main, db.disk)), old(Work(stack, db.main, db.disk)))
    {
      ghost var s0, spot := stack, stack.spot;
      hide Entries, From, ChildEntries, Weights, NodeItem, Advanced;
      if k == [] {
        var extended := Extended(b.key, slice, spot.path);
        SetTop(Frame(b.rlp, extended, 0), Spot(spot.tree, spot.path + spot.tree.key));
        LeafReached(s0, stack, key, db.main, db.disk);
        found := true;
      } else {
        Leave(key);
        found := false;
      }
    }

    /** An extension: enter its child. */
    method EnterExt(b: Frame, slice: NibbleSlice, k: Key, ghost key: Key)
      requires Sound() && stack.Push? && stack.spot.tree.Ext? && stack.top.child == ENTERING
      requires trail[|trail| - 1] == b && slice.Valid() && slice.View() == stack.spot.tree.key
      requires From(stack.spot.tree, stack.spot.path, key)
        == From(stack.spot.tree.child, stack.spot.path + stack.spot.tree.key, k)
      modifies this
      ensures Sound()
      ensures Advanced(false, k, stack, db.main, db.disk,
                       old(TodoFrom(stack, key, db.main, db.disk)), old(Work(stack, db.main, db.disk)))
    {
      hide SpotOk, Todo, Work, Advanced, From;
      ghost var s0, spot := stack, stack.spot;
      var f := ExtFrame(b, slice, spot);
      SetTop(f, Spot(spot.tree.child, spot.path + spot.tree.key));
      ExtEntered(s0, stack, k, key, db.main, db.disk);
    }

    /** The trail node for the child of an extension. */
    method ExtFrame(b: Frame, slice: NibbleSlice, ghost spot: Spot) returns (f: Frame)
      requires db.Valid() && that.db == db && SpotOk(b, spot, db.main, db.disk)
      requires spot.tree.Ext? && b.child == ENTERING && slice.Valid() && slice.View() == spot.tree.key
      ensures SpotOk(f, Spot(spot.tree.child, spot.path + spot.tree.key), db.main, db.disk) && f.child == ENTERING
    {
      hide NodeItem, Ref, Covers, Bounded, HexPrefix.Encode, Filed, Nibbles;
      SpotChild(b, spot, db.main, db.disk);
      var n := that.Deref(b.rlp.items[1], spot.tree.child, MAX_KEY - |spot.path| - |spot.tree.key|);
      var extended := Extended(b.key, slice, spot.path);
      f := Frame(n, extended, ENTERING);
    }

    /** One turn of the outer loop. */
    method Step(key: Key) returns (found: bool, k: Key)
      requires Sound() && stack.Push? && (key != [] ==> stack.top.child == ENTERING)
      requires Ready(stack)
      modifies this
      ensures Sound()
      ensures Advanced(found, k, stack, db.main, db.disk,
                       old(TodoFrom(stack, key, db.main, db.disk)), old(Work(stack, db.main, db.disk)))
    {
      var b := trail[|trail| - 1];
      ItemShape(stack.spot.tree);
      hide Entries, From, ChildEntries, Weights, Weight, NodeItem, Covers, Ref, Pending, Wanted, SlotWork, FrameWork;
      hide Advanced;
      if b.child == ENTERING {
        if EmptyItem(b.rlp) {
          NullFrom(stack.spot.path, key);
          Leave(key);
          found, k := false, [];
        } else if |b.rlp.items| == 2 {
          found, k := EnterPair(key);
        } else {
          found, k := EnterBranch(b, key);
        }
      } else if |b.rlp.items| != 17 {
        LeaveLeaf();
        found, k := false, [];
      } else {
        found, k := GoOn(b);
      }
    }

    /** The outer loop, which both next()s run: without a key every comparison lets it go on. */
    method Seek(key: Key)
      requires Sound() && Ready(stack) && (key != [] ==> stack.Push? && stack.top.child == ENTERING)
      modifies this
      ensures Sound() && Ready(stack) && (stack.Push? ==> AtValue(stack))
      ensures old(TodoFrom(stack, key, db.main, db.disk))
           == if stack.Push? then [Current(stack)] + Todo(stack, db.main, db.disk) else []
    {
      hide Todo, Work, Pending, From, SpotOk;
      var k, found := key, false;
      while trail != [] && !found
        invariant Sound() && Ready(stack) && (k != [] ==> stack.Push? && stack.top.child == ENTERING)
        invariant !found ==> TodoFrom(stack, k, db.main, db.disk) == old(TodoFrom(stack, key, db.main, db.disk))
        invariant found ==> AtValue(stack)
        invariant found ==>
          old(TodoFrom(stack, key, db.main, db.disk)) == [Current(stack)] + Todo(stack, db.main, db.disk)
        decreases if found then 0 else 1, Work(stack, db.main, db.disk)
      {
        found, k := Step(k);
      }
      NothingTodo(db.main, db.disk);
    }

    /** The iterator rests at an entry of its trie, or at the end. */
    ghost predicate Valid()
      reads this, db
    {
      Sound() && Ready(stack) && (stack.Push? ==> AtValue(stack))
    }

    /** The current entry and all that next() still has to give. */
    ghost function Remaining(): seq<Entry>
      requires Valid()
      reads this, db
    {
      if stack.Push? then [Current(stack)] + Todo(stack, db.main, db.disk) else []
    }

    /** next(): go on to the first of the entries still to come. */
    method Next()
      requires Valid()
      modifies this
      ensures Valid() && (trail == [] <==> Remaining() == [])
      ensures Remaining() == if old(Remaining()) == [] then [] else old(Remaining())[1..]
    {
      assert Remaining() != [] ==> Remaining()[1..] == Todo(stack, db.main, db.disk);
      NothingTodo(db.main, db.disk);
      Seek([]);
    }

    /** at(): the key is a whole number of bytes; its hex-prefix flags are cropped. */
    method At() returns (key: seq<octet>, value: bytes)
      requires Valid() && trail != [] && |Current(stack).key| % 2 == 0
      ensures Entry(Nibbles(key), value) == Current(stack)
    {
      var b := trail[|trail| - 1];
      ghost var spot := stack.spot;
      ItemShape(spot.tree);
      PackNibbles(spot.path);
      key := b.key[1..];
      if |b.rlp.items| == 2 {
        TwoItemNode(spot.tree);
        value := b.rlp.items[1].data;
      } else {
        BranchItems(spot.tree);
        value := b.rlp.items[16].data;
      }
    }

    method LeaveLeaf()
      requires Sound() && stack.Push? && stack.spot.tree.Leaf? && stack.top.child == 0
      modifies this
      ensures Sound()
      ensures Advanced(false, [], stack, db.main, db.disk,
                       old(TodoFrom(stack, [], db.main, db.disk)), old(Work(stack, db.main, db.disk)))
    {
      hide Entries, From, ChildEntries, Weights, NodeItem, Covers;
      PopBack();
    }

    method EnterBranch(b: Frame, key: Key) returns (found: bool, k: Key)
      requires Sound() && stack.Push? && stack.spot.tree.Branch? && stack.top.child == ENTERING
      requires trail[|trail| - 1] == b
      modifies this
      ensures Sound()
      ensures Advanced(found, k, stack, db.main, db.disk,
                       old(TodoFrom(stack, key, db.main, db.disk)), old(Work(stack, db.main, db.disk)))
    {
      ghost var spot := stack.spot;
      BranchFrom(spot, key);
      hide Entries, From, ChildEntries, Weights, Weight, NodeItem, Covers, Ref, Pending, Wanted, SlotWork;
      var child := HERE;
      k := key;
      if k != [] {
        child := k[0];
        k := k[1..];
      }
      ghost var todo, work := TodoFrom(stack, key, db.main, db.disk), Work(stack, db.main, db.disk);
      SetTop(b.(child := child), spot);
      found, k := Examine(k, todo, work);
    }

    method GoOn(b: Frame) returns (found: bool, k: Key)
      requires Sound() && stack.Push? && stack.spot.tree.Branch? && stack.top.child <= HERE && trail[|trail| - 1] == b
      modifies this
      ensures Sound()
      ensures Advanced(found, k, stack, db.main, db.disk,
                       old(TodoFrom(stack, [], db.main, db.disk)), old(Work(stack, db.main, db.disk)))
    {
      ghost var spot := stack.spot;
      NextSlot(spot, b.child);
      hide Entries, From, ChildEntries, Weights, Weight, NodeItem, Covers, Ref, Pending, Wanted, SlotWork, FrameWork;
      ghost var todo, work := TodoFrom(stack, [], db.main, db.disk), Work(stack, db.main, db.disk);
      SetTop(b.(child := Increment(b.child)), spot);
      found, k := Examine([], todo, work);
    }
  }

  /** begin(): from the first entry on, all of them. */
  method Begin(trie: GenericTrieDB) returns (it: TrieIterator)
    requires trie.Valid()
    ensures fresh(it) && it.Valid() && it.that == trie && it.db == trie.db
    ensures it.Remaining() == Entries(trie.tree, []) && (it.trail == [] <==> it.Remaining() == [])
  {
    it := new TrieIterator(trie);
    FromEverything(trie.tree, []);
    NothingTodo(it.db.main, it.db.disk);
    ghost var todo := TodoFrom(it.stack, [], it.db.main, it.db.disk);
    assert todo == Entries(trie.tree, []);
    it.Seek([]);
  }

  /** lower_bound(k): past the entries whose keys are below `k`, and no others. */
  method LowerBound(trie: GenericTrieDB, key: seq<octet>) returns (it: TrieIterator)
    requires trie.Valid()
    ensures fresh(it) && it.Valid() && it.that == trie && it.db == trie.db
    ensures exists skipped :: AllLess(skipped, Nibbles(key)) && Entries(trie.tree, []) == skipped + it.Remaining()
    ensures NoneLess(it.Remaining(), Nibbles(key))
  {
    it := new TrieIterator(trie);
    ghost var k := Nibbles(key);
    ghost var skipped := FromSkips(trie.tree, [], k);
    NothingTodo(it.db.main, it.db.disk);
    assert [] + k == k;
    ghost var todo := TodoFrom(it.stack, k, it.db.main, it.db.disk);
    assert todo == From(trie.tree, [], k);
    it.Seek(Nibbles(key));
  }

  lemma EntryStored(t: Tree, e: Entry, before: seq<Entry>, after: seq<Entry>)
    requires Canonical(t) && Entries(t, []) == before + ([e] + after)
    ensures Lookup(t, e.key) != []
  {
    EntriesComplete(t, [], e.key, e.value);
    assert [] + e.key == e.key;
    assert e == Entries(t, [])[|before|];
  }

  /** Going through the whole trie gives every entry exactly once, in the order of the keys. */
  method Walk(trie: GenericTrieDB) returns (es: seq<Entry>)
    requires trie.Valid() && forall k: Key :: Lookup(trie.tree, k) != [] ==> |k| % 2 == 0
    ensures forall k: Key, v: bytes :: Entry(k, v) in es <==> Lookup(trie.tree, k) == v && v != []
    ensures TrieEntries.Ascending(es)
  {
    es := Collect(trie);
    EntriesAscend(trie.tree, []);
    forall k: Key, v: bytes ensures Entry(k, v) in es <==> Lookup(trie.tree, k) == v && v != [] {
      EntriesComplete(trie.tree, [], k, v);
      assert [] + k == k;
    }
  }

  method Collect(trie: GenericTrieDB) returns (es: seq<Entry>)
    requires trie.Valid() && forall k: Key :: Lookup(trie.tree, k) != [] ==> |k| % 2 == 0
    ensures es == Entries(trie.tree, [])
  {
    hide Entries, Lookup, Todo, InOrder, Frames, AtValue, Ready, Canonical, Accounted, Bounded, Filed;
    es := [];
    var it := Begin(trie);
    while it.trail != []
      invariant fresh(it) && it.Valid() && it.db == trie.db && it.db.Valid() && Canonical(trie.tree)
      invariant Entries(trie.tree, []) == es + it.Remaining() && (it.trail == [] <==> it.Remaining() == [])
      decreases |it.Remaining()|
    {
      ghost var rest, e := it.Remaining()[1..], it.Remaining()[0];
      assert it.Remaining() == [e] + rest;
      AppendAssociates(es, [e], rest);
      EntryStored(trie.tree, e, es, rest);
      var key, value := it.At();
      es := es + [Entry(Nibbles(key), value)];
      it.Next();
    }
  }

  lemma NothingTodo(main: Cache, disk: Disk)
    ensures Todo(Empty, main, disk) == []
  {
  }

  lemma ChildEntered(s0: Stack, s1: Stack, child: nibble, k: Key, main: Cache, disk: Disk, todo: seq<Entry>, work: nat)
    requires InOrder(s0, main, disk) && InOrder(s1, main, disk) && Seeking(s0, child, k, main, disk, todo, work)
    requires Shaped(s0.spot.tree)
    requires s1.Push? && s1.top.child == ENTERING && s1.below == s0
    requires s1.spot == Spot(s0.spot.tree.children[child], s0.spot.path + [child])
    ensures Advanced(false, k, s1, main, disk, todo, work)
  {
    hide From, Entries, ChildEntries, Weight, Weights, SpotOk, Pending, SlotWork, FrameWork;
    ChildSlot(s0.spot, child);
    var a, b, c := From(s1.spot.tree, s1.spot.path, k), Pending(s0.spot, child), Todo(s0.below, main, disk);
    AppendAssociates(a, b, c);
    assert Todo(s0, main, disk) == b + c;
    assert todo == a + b + c;
    assert TodoFrom(s1, k, main, disk) == a + (b + c);
    assert Work(s1, main, disk)
      == FrameWork(s1.spot, ENTERING) + (FrameWork(s0.spot, child) + Work(s0.below, main, disk));
  }

  lemma ChildSlot(s: Spot, child: nibble)
    requires Shaped(s.tree) && s.tree.Branch?
    ensures Pending(s, child) == ChildEntries(s.tree, child as int + 1, s.path)
    ensures Weight(s.tree.children[child]) + FrameWork(s, child) < SlotWork(s, child)
    ensures FrameWork(Spot(s.tree.children[child], s.path + [child]), ENTERING) == Weight(s.tree.children[child])
  {
    assert Weights(s.tree, child) == 1 + Weight(s.tree.children[child]) + Weights(s.tree, child as int + 1);
  }

  /** The child of a branch on the trail. */
  lemma SpotSlot(f: Frame, s: Spot, child: nibble, main: Cache, disk: Disk)
    requires SpotOk(f, s, main, disk) && s.tree.Branch? && f.child == child && SlotUsed(s.tree, child)
    ensures Shaped(s.tree) && f.key == HexPrefix.Encode(s.path, false)
    ensures f.rlp.List? && |f.rlp.items| == 17 && f.rlp.items[child] == Ref(s.tree.children[child])
    ensures Shaped(s.tree.children[child]) && s.tree.children[child] != Null
    ensures Covers(main, disk, s.tree.children[child], false) && Bounded(s.tree.children[child], MAX_KEY - |s.path| - 1)
    ensures SpotOk(Frame(NodeItem(s.tree.children[child]), HexPrefix.Encode(s.path + [child], false), ENTERING),
                   Spot(s.tree.children[child], s.path + [child]), main, disk)
  {
    hide Covers, HexPrefix.Encode, NodeItem, Ref;
    BranchItems(s.tree);
    CoversBelow(main, disk, s.tree, child);
    assert MAX_KEY - |s.path + [child]| == MAX_KEY - |s.path| - 1;
  }

  lemma SpotSlots(f: Frame, s: Spot, main: Cache, disk: Disk)
    requires SpotOk(f, s, main, disk) && s.tree.Branch?
    ensures f.rlp.List? && |f.rlp.items| == 17
    ensures forall i: nat :: i <= 16 ==> (EmptyItem(f.rlp.items[i]) <==> !SlotUsed(s.tree, i))
  {
    hide Covers, HexPrefix.Encode, NodeItem, Ref;
    BranchItems(s.tree);
    SlotItems(s.tree, f.rlp.items);
  }

  lemma ValueReached(s: Stack, k: Key, main: Cache, disk: Disk, todo: seq<Entry>, work: nat)
    requires InOrder(s, main, disk) && Seeking(s, HERE, k, main, disk, todo, work) && s.spot.tree.value != []
    ensures Advanced(true, k, s, main, disk, todo, work)
  {
    ValueSlot(s.spot);
    hide Wanted, Pending, From, Entries, ChildEntries, Weights;
    AppendAssociates([Current(s)], Pending(s.spot, HERE), Todo(s.below, main, disk));
  }

  lemma LeafReached(s0: Stack, s1: Stack, key: Key, main: Cache, disk: Disk)
    requires InOrder(s0, main, disk) && InOrder(s1, main, disk)
    requires s0.Push? && s0.spot.tree.Leaf? && s0.top.child == ENTERING
    requires s1.Push? && s1.below == s0.below && s1.top.child == 0
    requires s1.spot == Spot(s0.spot.tree, s0.spot.path + s0.spot.tree.key)
    requires From(s0.spot.tree, s0.spot.path, key) == [Entry(s1.spot.path, s1.spot.tree.value)]
    ensures Advanced(true, [], s1, main, disk, TodoFrom(s0, key, main, disk), Work(s0, main, disk))
  {
    hide From, Weights, SpotOk, Entries;
    assert Pending(s1.spot, 0) == [];
    assert Todo(s1, main, disk) == Todo(s0.below, main, disk);
  }

  /** The child of an extension on the trail. */
  lemma SpotChild(f: Frame, s: Spot, main: Cache, disk: Disk)
    requires SpotOk(f, s, main, disk) && f.child == ENTERING && s.tree.Ext?
    ensures Shaped(s.tree) && s.tree.child != Null && f.key == HexPrefix.Encode(s.path, false)
    ensures f.rlp.List? && |f.rlp.items| == 2 && f.rlp.items[1] == Ref(s.tree.child)
    ensures Covers(main, disk, s.tree.child, false) && Bounded(s.tree.child, MAX_KEY - |s.path| - |s.tree.key|)
    ensures SpotOk(Frame(NodeItem(s.tree.child), HexPrefix.Encode(s.path + s.tree.key, false), ENTERING),
                   Spot(s.tree.child, s.path + s.tree.key), main, disk)
  {
    CoversBelow(main, disk, s.tree, 0);
    assert MAX_KEY - |s.path + s.tree.key| == MAX_KEY - |s.path| - |s.tree.key|;
    hide Covers, HexPrefix.Encode;
  }

  lemma ExtEntered(s0: Stack, s1: Stack, k: Key, key: Key, main: Cache, disk: Disk)
    requires InOrder(s0, main, disk) && InOrder(s1, main, disk)
    requires s0.Push? && s0.spot.tree.Ext? && s0.top.child == ENTERING
    requires s1.Push? && s1.below == s0.below && s1.top.child == ENTERING
    requires s1.spot == Spot(s0.spot.tree.child, s0.spot.path + s0.spot.tree.key)
    requires From(s0.spot.tree, s0.spot.path, key) == From(s1.spot.tree, s1.spot.path, k)
    ensures Advanced(false, k, s1, main, disk, TodoFrom(s0, key, main, disk), Work(s0, main, disk))
  {
    ExtWeight(s0.spot.tree);
    hide From, Weight, Weights, Entries, Bounded, Covers, NodeItem;
  }

  lemma WeightPositive(t: Tree)
    requires Shaped(t)
    ensures Weight(t) >= 1
  {
  }

  lemma ExtWeight(t: Tree)
    requires Shaped(t) && t.Ext?
    ensures Weight(t.child) < Weight(t)
  {
  }

  lemma NullFrom(path: Key, k: Key)
    ensures From(Null, path, k) == []
  {
  }

  /** Entering a branch: with a key to look for at its slot, else at the value. */
  lemma BranchFrom(s: Spot, k: Key)
    requires Shaped(s.tree) && s.tree.Branch?
    ensures k == [] ==> From(s.tree, s.path, k) == Wanted(s, HERE, []) && SlotWork(s, HERE) < Weight(s.tree)
    ensures k != [] ==> From(s.tree, s.path, k) == Wanted(s, k[0], k[1..]) && SlotWork(s, k[0]) < Weight(s.tree)
  {
    if k != [] {
      WeightsDown(s.tree, 0, k[0]);
    }
  }

  lemma {:induction false} WeightsDown(t: Tree, i: nat, j: nat)
    requires Shaped(t) && t.Branch? && i <= j <= 16
    ensures Weights(t, j) <= Weights(t, i)
    decreases j - i
  {
    if i < j {
      WeightsDown(t, i + 1, j);
    }
  }

  /** Going on in a branch: what was pending is wanted from the next slot on. */
  lemma NextSlot(s: Spot, child: nat)
    requires Shaped(s.tree) && s.tree.Branch? && child <= HERE
    ensures Pending(s, child) == Wanted(s, Increment(child), []) && SlotWork(s, Increment(child)) == FrameWork(s, child)
  {
    var next := Increment(child);
    if next < 16 {
      FromEverything(s.tree.children[next], s.path + [next]);
    }
  }

  lemma PairFrom(t: Tree, path: Key, k: Key)
    requires Shaped(t) && TwoItem(t)
    ensures t.key <= k && t.Leaf? ==> From(t, path, k) == if k == t.key then [Entry(path + t.key, t.value)] else []
    ensures t.key <= k && t.Ext? ==> From(t, path, k) == From(t.child, path + t.key, k[|t.key|..])
    ensures !(t.key <= k) && KeyLess(k, t.key) ==>
      From(t, path, k) == if t.Leaf? then [Entry(path + t.key, t.value)] else From(t.child, path + t.key, [])
    ensures !(t.key <= k) && !KeyLess(k, t.key) ==> From(t, path, k) == []
  {
    if t.Ext? {
      FromEverything(t.child, path + t.key);
    }
    if t.key <= k && t.key != k {
      PrefixIsLess(t.key, k);
      KeyLessAsymmetric(t.key, k);
    }
  }

  /** One nibble, as a slice of the byte that holds it. */
  lemma ChildSlice(child: nibble)
    ensures NibbleSlice([child], 1).Valid() && NibbleSlice([child], 1).View() == [child]
  {
  }
}
