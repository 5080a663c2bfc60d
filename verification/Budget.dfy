/** The memory a table takes, and the storage operations under a memory limit. A table here is all that
    is stored, expired or not; an operation first purges its key if that has expired. */
module Budget {
  import opened Wrappers
  import opened Store

  function CellMemory(k: string, c: Cell): nat {
    if c.Some? then EntryMemory(k, c.value.value) else 0
  }

  ghost function SomeKey(t: Table): (k: string)
    requires t != map[]
    ensures k in t
  {
    var k :| k in t;
    k
  }

  /** The bytes of all stored entries. */
  ghost function Bytes(t: Table): nat
    decreases t.Keys
  {
    if t == map[] then 0
    else
      var k := SomeKey(t);
      EntryMemory(k, t[k].value) + Bytes(t - {k})
  }

  lemma {:induction false} BytesErase(t: Table, k: string)
    requires k in t
    ensures Bytes(t) == EntryMemory(k, t[k].value) + Bytes(t - {k})
    decreases t.Keys
  {
    hide EntryMemory;
    var j := SomeKey(t);
    if j != k {
      BytesErase(t - {j}, k);
      BytesErase(t - {k}, j);
      assert t - {j} - {k} == t - {k} - {j};
    }
  }

  /** Writing a cell changes the total by the difference of the two cells. */
  lemma BytesPut(t: Table, k: string, c: Cell)
    ensures Bytes(Put(t, k, c)) == Bytes(t) - CellMemory(k, Get(t, k)) + CellMemory(k, c)
    ensures CellMemory(k, Get(t, k)) <= Bytes(t)
  {
    hide EntryMemory, Bytes;
    if k in t {
      BytesErase(t, k);
    } else {
      assert t - {k} == t;
    }
    if c.Some? {
      var u := t[k := c.value];
      BytesErase(u, k);
      assert u - {k} == t - {k};
    }
  }

  lemma NoBytes()
    ensures Bytes(map[]) == 0
  {
  }

  /** The table once a key that has expired is gone. */
  function Purged(t: Table, k: string, now: int): Table {
    if Look(t, k, now).None? then Put(t, k, None) else t
  }

  lemma PurgedSame(t: Table, k: string, now: int)
    ensures Same(Purged(t, k, now), t, now) && Get(Purged(t, k, now), k) == Look(t, k, now)
  {
    if Look(t, k, now).None? { EraseUnseen(t, k, now); }
  }

  lemma PurgedPut(t: Table, k: string, now: int, c: Cell)
    ensures Put(Purged(t, k, now), k, c) == Put(t, k, c)
  {
  }

  /** The table without everything that has expired. */
  function LiveTable(t: Table, now: int): Table {
    map k | k in t && !Expired(t[k], now) :: t[k]
  }

  lemma LiveSame(t: Table, now: int)
    ensures Same(LiveTable(t, now), t, now)
  {
  }

  /** What is live is what readers see. */
  lemma LiveAlike(t: Table, u: Table, now: int)
    requires Same(t, u, now)
    ensures LiveTable(t, now) == LiveTable(u, now)
  {
    forall k
      ensures Get(LiveTable(t, now), k) == Get(LiveTable(u, now), k)
    {
      assert Get(LiveTable(t, now), k) == Look(t, k, now) == Look(u, k, now);
    }
    SameMaps(LiveTable(t, now), LiveTable(u, now));
  }

  ghost predicate Affordable(limit: nat, t: Table) {
    limit == 0 || Bytes(t) <= limit
  }

  /** A write the rules allow is refused exactly when the table would then exceed the limit. */
  ghost function StoreWithin(limit: nat, t: Table, k: string, w: Written): (Table, WriteCode) {
    if !w.code.Stored? then (t, w.code)
    else if !Affordable(limit, Put(t, k, w.cell)) then (t, NoMemory)
    else (Put(t, k, w.cell), Stored)
  }

  /** Erasing never makes a table dearer. */
  lemma ErasedAffordable(limit: nat, t: Table, k: string)
    requires Affordable(limit, t)
    ensures Affordable(limit, Put(t, k, None)) && Bytes(Put(t, k, None)) <= Bytes(t)
  {
    hide Bytes;
    BytesPut(t, k, None);
  }

  /** Dropping what has expired never makes a table dearer. */
  lemma {:induction false} LiveCheaper(t: Table, now: int)
    ensures Bytes(LiveTable(t, now)) <= Bytes(t)
    decreases t.Keys
  {
    hide EntryMemory;
    if t != map[] {
      var k := SomeKey(t);
      LiveCheaper(t - {k}, now);
      if Expired(t[k], now) {
        assert LiveTable(t, now) == LiveTable(t - {k}, now);
      } else {
        BytesErase(LiveTable(t, now), k);
        assert LiveTable(t, now) - {k} == LiveTable(t - {k}, now);
      }
    } else {
      assert LiveTable(t, now) == map[];
    }
  }
}
