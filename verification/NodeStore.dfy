/** The node store: StateCacheDB's counted cache with OverlayDB's disk layer behind it
    (StateCacheDB.cpp, OverlayDB.cpp).  A StateCacheDB on its own is the case without a disk. */
module NodeStore {
  import opened Bytes

  /** A cached string and how many references to it were counted. */
  datatype Counted = Counted(value: bytes, refs: nat)

  type Cache = map<bytes, Counted>
  type Disk = map<bytes, bytes>

  /** References counted for the string `n` in a cache. */
  function RefCount(main: Cache, n: bytes): nat {
    if Keccak(n) in main then main[Keccak(n)].refs else 0
  }

  /** Every string is filed under its hash. */
  ghost predicate Filed(main: Cache, disk: Disk) {
    && (forall h :: h in main ==> main[h].value != [] && h == Keccak(main[h].value))
    && (forall h :: h in disk ==> disk[h] != [] && h == Keccak(disk[h]))
  }

  predicate OnDisk(disk: Disk, n: bytes) {
    Keccak(n) in disk
  }

  /** StateCacheDB::insert. */
  function Inserted(main: Cache, h: bytes, v: bytes): Cache {
    main[h := Counted(v, if h in main then main[h].refs + 1 else 1)]
  }

  /** StateCacheDB::kill. */
  function Killed(main: Cache, h: bytes): Cache {
    if h in main && main[h].refs > 0 then main[h := Counted(main[h].value, main[h].refs - 1)] else main
  }

  lemma InsertedCounts(main: Cache, disk: Disk, v: bytes)
    requires Filed(main, disk) && v != []
    ensures Filed(Inserted(main, Keccak(v), v), disk)
    ensures forall n :: RefCount(Inserted(main, Keccak(v), v), n) == RefCount(main, n) + if n == v then 1 else 0
  {
    forall n: bytes ensures Keccak(n) == Keccak(v) <==> n == v {
      if Keccak(n) == Keccak(v) { KeccakInjective(n, v); }
    }
  }

  lemma KilledCounts(main: Cache, disk: Disk, v: bytes)
    requires Filed(main, disk)
    ensures Filed(Killed(main, Keccak(v)), disk)
    ensures RefCount(Killed(main, Keccak(v)), v) == if RefCount(main, v) > 0 then RefCount(main, v) - 1 else 0
    ensures forall n :: n != v ==> RefCount(Killed(main, Keccak(v)), n) == RefCount(main, n)
  {
    forall n: bytes ensures Keccak(n) == Keccak(v) <==> n == v {
      if Keccak(n) == Keccak(v) { KeccakInjective(n, v); }
    }
  }

  /** What a store holds, as a value. */
  datatype Store = Store(main: Cache, disk: Disk, hasDisk: bool, enforceRefs: bool) {
    /** lookup: the cached string unless its count is enforced and gone, else the disk's; the empty
        string when there is none. */
    function Lookup(h: bytes): bytes {
      var cached := if h in main && (!enforceRefs || main[h].refs > 0) then main[h].value else [];
      if cached != [] || !hasDisk then cached
      else if h in disk then disk[h] else []
    }
  }

  /** Something is found exactly if it is cached, and counted where counts are enforced, or if there is
      a disk that has it; and then it is the string with that hash. */
  lemma LookupRule(st: Store, h: bytes)
    requires Filed(st.main, st.disk)
    ensures st.Lookup(h) != [] <==>
      (h in st.main && (st.enforceRefs ==> st.main[h].refs > 0)) || (st.hasDisk && h in st.disk)
    ensures st.Lookup(h) != [] ==> h == Keccak(st.Lookup(h))
  {
  }

  class OverlayDB {
    var main: Cache
    var disk: Disk
    const hasDisk: bool
    var enforceRefs: bool

    ghost predicate Valid()
      reads this
    {
      Filed(main, disk) && (!hasDisk ==> disk == map[])
    }

    constructor (hasDisk: bool)
      ensures Valid() && main == map[] && disk == map[] && this.hasDisk == hasDisk && !enforceRefs
    {
      this.hasDisk := hasDisk;
      main, disk, enforceRefs := map[], map[], false;
    }

    function Content(): Store
      reads this
    {
      Store(main, disk, hasDisk, enforceRefs)
    }

    function Lookup(h: bytes): bytes
      reads this
    {
      Content().Lookup(h)
    }

    predicate Exists(h: bytes)
      reads this
    {
      (h in main && (!enforceRefs || main[h].refs > 0)) || (hasDisk && h in disk)
    }

    /** A counted or committed string can be looked up under its hash, and where counts are not
        enforced any string of the cache. */
    lemma Resolves(n: bytes)
      requires Valid() && (OnDisk(disk, n) || RefCount(main, n) > 0 || (!enforceRefs && Keccak(n) in main))
      ensures Lookup(Keccak(n)) == n && Exists(Keccak(n))
    {
      var h := Keccak(n);
      if h in main { KeccakInjective(main[h].value, n); }
      if h in disk { KeccakInjective(disk[h], n); }
    }

    /** Nothing is found under a string that is not a digest. */
    lemma FindsOnlyDigests(h: bytes)
      requires Valid() && (h == [] || h[0].Octet? || h != Keccak(h[0].preimage))
      ensures Lookup(h) == []
    {
      assert h in main ==> h == Keccak(main[h].value);
      assert h in disk ==> h == Keccak(disk[h]);
    }

    method Insert(h: bytes, v: bytes)
      modifies this`main
      ensures main == Inserted(old(main), h, v)
    {
      if h in main {
        main := main[h := Counted(v, main[h].refs + 1)];
      } else {
        main := main[h := Counted(v, 1)];
      }
    }

    /** kill of OverlayDB: the disk is not touched, it only decides about a warning. */
    method Kill(h: bytes) returns (counted: bool)
      modifies this`main
      ensures main == Killed(old(main), h)
      ensures counted <==> h in old(main) && old(main)[h].refs > 0
    {
      counted := h in main && main[h].refs > 0;
      if counted {
        main := main[h := Counted(main[h].value, main[h].refs - 1)];
      }
    }

    /** keys: the hashes with a positive count. */
    method Keys() returns (ks: set<bytes>)
      ensures ks == set h | h in main && main[h].refs > 0
    {
      ks := {};
      var todo := main.Keys;
      while todo != {}
        invariant todo <= main.Keys
        invariant ks == set h | h in main && h !in todo && main[h].refs > 0
        decreases todo
      {
        var h :| h in todo;
        if main[h].refs > 0 {
          ks := ks + {h};
        }
        todo := todo - {h};
      }
    }

    /** purge: drop what has no references left. */
    method Purge()
      modifies this`main
      ensures main == map h | h in old(main) && old(main)[h].refs > 0 :: old(main)[h]
    {
      var todo := main.Keys;
      while todo != {}
        invariant todo <= main.Keys <= old(main).Keys
        invariant forall h :: h in main ==> main[h] == old(main)[h] && (h in todo || main[h].refs > 0)
        invariant forall h :: h in old(main) && old(main)[h].refs > 0 ==> h in main
        decreases todo
      {
        var h :| h in todo;
        if main[h].refs == 0 {
          main := main - {h};
        }
        todo := todo - {h};
      }
    }

    /** commit: write every referenced string to disk in one batch and empty the cache. */
    method Commit()
      requires Valid()
      modifies this`main, this`disk
      ensures Valid()
      ensures !hasDisk ==> main == old(main) && disk == old(disk)
      ensures hasDisk ==> main == map[]
      ensures hasDisk ==> forall n :: OnDisk(disk, n) <==> OnDisk(old(disk), n) || RefCount(old(main), n) > 0
    {
      if hasDisk {
        var batch: Disk := map[];
        var todo := main.Keys;
        while todo != {}
          invariant todo <= main.Keys
          invariant forall h :: h in batch <==> h in main && h !in todo && main[h].refs > 0
          invariant forall h :: h in batch ==> batch[h] == main[h].value
          decreases todo
        {
          var h :| h in todo;
          if main[h].refs > 0 {
            batch := batch[h := main[h].value];
          }
          todo := todo - {h};
        }
        disk := disk + batch;
        main := map[];
      }
    }

    /** rollback: forget everything since the last commit. */
    method Rollback()
      requires Valid()
      modifies this`main
      ensures Valid() && main == map[]
    {
      main := map[];
    }
  }
}
