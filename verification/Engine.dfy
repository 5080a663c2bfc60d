/** The sharded storage engine of src/storage/storage_engine.cpp, one clock reading per call. Its
    shards, counter and cursors change in place; every method is proved against the plain table. */
module Engine {
  import opened Wrappers
  import opened Decimal
  import opened Store
  import opened Budget
  import opened Shards
  import opened ActiveExpiry

  function Deadline(ttl: Option<int>, now: int): Option<int> {
    if ttl.Some? then Some(now + ttl.value) else None
  }

  /** The counter is the bytes of everything stored, or stays at zero when there is no limit. */
  ghost predicate Ledger(maxMemory: nat, used: nat, shards: seq<Shard>, t: Table) {
    && TotalMemory(shards) == Bytes(t)
    && used == (if maxMemory == 0 then 0 else Bytes(t))
    && used <= maxMemory
  }

  lemma LedgerTotal(maxMemory: nat, used: nat, shards: seq<Shard>, t: Table)
    requires Ledger(maxMemory, used, shards, t)
    ensures TotalMemory(shards) == Bytes(t) && used == (if maxMemory == 0 then 0 else Bytes(t)) && Affordable(maxMemory, t)
  {
  }

  /** Every stored entry is within the size limits. */
  ghost predicate Sized(l: Limits, t: Table) {
    forall k | k in t :: |k| <= l.maxKey && |t[k].value| <= l.maxValue
  }

  lemma SizedPut(l: Limits, t: Table, k: string, c: Cell)
    requires Sized(l, t) && (c.Some? ==> |k| <= l.maxKey && |c.value.value| <= l.maxValue)
    ensures Sized(l, Put(t, k, c))
  {
  }

  class StorageEngine {
    const limits: Limits
    const maxMemory: nat
    const hash: Hash
    var shards: seq<Shard>
    var used: nat
    var expiredKeys: nat
    /** Everything stored, expired or not. */
    ghost var table: Table

    ghost predicate Valid()
      reads this
    {
      Represents(hash, shards, table) && Ledger(maxMemory, used, shards, table) && Sized(limits, table)
    }

    constructor (limits: Limits, maxMemory: nat, shardCount: nat, hash: Hash)
      ensures Valid() && table == map[] && used == 0
      ensures this.limits == limits && this.maxMemory == maxMemory
    {
      this.limits := limits;
      this.maxMemory := maxMemory;
      this.hash := hash;
      var n := if shardCount == 0 then 1 else shardCount;
      shards := seq(n, i => Shard([], 0, 0));
      used := 0;
      expiredKeys := 0;
      table := map[];
      new;
      ZeroTotal(shards);
      NoBytes();
    }

    /** What is stored is within the memory limit. */
    lemma WithinLimit()
      requires Valid()
      ensures Affordable(maxMemory, table)
    {
      hide Sized, Represents, Bytes;
    }

    // --- Memory accounting --------------------------------------------------------------------

    method ReserveMemory(bytes: nat) returns (ok: bool)
      modifies this`used
      ensures ok <==> bytes == 0 || maxMemory == 0 || old(used) + bytes <= maxMemory
      ensures used == if ok && maxMemory != 0 then old(used) + bytes else old(used)
    {
      if bytes == 0 || maxMemory == 0 {
        return true;
      }
      var current := used;
      if current > maxMemory || bytes > maxMemory - current {
        return false;
      }
      used := current + bytes;
      ok := true;
    }

    method ReleaseMemory(bytes: nat)
      modifies this`used
      ensures used == if bytes > old(used) then 0 else old(used) - bytes
    {
      if bytes == 0 {
        return;
      }
      var current := used;
      if current != 0 {
        used := if bytes > current then 0 else current - bytes;
      }
    }

    /** erase_entry_locked: the clamp in the release never bites. */
    method EraseEntry(i: nat, p: nat)
      requires Valid() && i < |shards| && p < |shards[i].rows|
      modifies this`used, this`shards, this`table
      ensures Valid()
      ensures table == Put(old(table), old(shards)[i].rows[p].key, None)
      ensures var s := old(shards)[i];
              RowMemory(s.rows[p]) <= s.memory &&
              shards == old(shards)[i := Shard(EraseAt(s.rows, p), s.memory - RowMemory(s.rows[p]), s.cursor)]
    {
      hide Sized, Represents, Bytes, TotalMemory, Route, Put;
      var s := shards[i];
      var memory := RowMemory(s.rows[p]);
      RowInTable(hash, shards, table, i, p);
      BytesPut(table, s.rows[p].key, None);
      EraseRepresents(hash, shards, table, i, p);
      TotalUpdate(shards, i, Shard(EraseAt(s.rows, p), s.memory - memory, s.cursor));
      ReleaseMemory(memory);
      shards := shards[i := Shard(EraseAt(s.rows, p), s.memory - memory, s.cursor)];
      SizedPut(limits, table, s.rows[p].key, None);
      table := Put(table, s.rows[p].key, None);
    }

    /** Find a key in its shard, erasing it first if it has expired. */
    method Locate(key: string, now: int) returns (i: nat, found: Option<nat>)
      requires Valid()
      modifies this
      ensures Valid() && i == Route(hash, |shards|, key) && found == Find(shards[i].rows, key)
      ensures table == Purged(old(table), key, now) && Store.Get(table, key) == Look(old(table), key, now)
      ensures found.Some? <==> Store.Get(table, key).Some?
      ensures found.Some? ==> shards[i].rows[found.value] == Row(key, Store.Get(table, key).value)
    {
      hide Sized, Ledger;
      i := Route(hash, |shards|, key);
      found := Find(shards[i].rows, key);
      assert CellOf(hash, shards, key) == Store.Get(table, key);
      if found.Some? && Expired(shards[i].rows[found.value].entry, now) {
        EraseEntry(i, found.value);
        expiredKeys := expiredKeys + 1;
        found := None;
        assert CellOf(hash, shards, key) == Store.Get(table, key);
      }
    }

    /** Write an entry at a located key, unless the memory limit forbids its growth. */
    method StoreEntry(i: nat, found: Option<nat>, key: string, entry: Entry) returns (ok: bool)
      requires Valid() && i == Route(hash, |shards|, key) && found == Find(shards[i].rows, key)
      requires found.Some? <==> Store.Get(table, key).Some?
      requires found.Some? ==> shards[i].rows[found.value] == Row(key, Store.Get(table, key).value)
      requires |key| <= limits.maxKey && |entry.value| <= limits.maxValue
      modifies this`used, this`shards, this`table
      ensures Valid()
      ensures ok <==> Affordable(maxMemory, Put(old(table), key, Some(entry)))
      ensures table == if ok then Put(old(table), key, Some(entry)) else old(table)
    {
      hide Sized, Represents, Find, Route, Bytes, TotalMemory, Put;
      BytesPut(table, key, Some(entry));
      var s := shards[i];
      var oldMemory := if found.Some? then RowMemory(s.rows[found.value]) else 0;
      var newMemory := EntryMemory(key, entry.value);
      if newMemory > oldMemory {
        ok := ReserveMemory(newMemory - oldMemory);
        if !ok {
          return;
        }
      }
      ok := true;
      if found.Some? {
        ReplaceRepresents(hash, shards, table, i, found.value, entry);
        s := Shard(s.rows[found.value := Row(key, entry)], s.memory - oldMemory + newMemory, s.cursor);
      } else {
        var p :| 0 <= p <= |s.rows|; // wherever the hash table places a new node
        InsertRepresents(hash, shards, table, i, p, Row(key, entry));
        s := Shard(InsertAt(s.rows, p, Row(key, entry)), s.memory + newMemory, s.cursor);
      }
      TotalUpdate(shards, i, s);
      shards := shards[i := s];
      SizedPut(limits, table, key, Some(entry));
      table := Put(table, key, Some(entry));
      if oldMemory > newMemory {
        ReleaseMemory(oldMemory - newMemory);
      }
    }

    // --- Writes -------------------------------------------------------------------------------

    method Set(key: string, value: string, ttl: Option<int>, cond: Condition, now: int) returns (code: WriteCode)
      requires Valid()
      modifies this
      ensures Valid()
      ensures var w := SetCell(limits, key, Look(old(table), key, now), value, Deadline(ttl, now), cond);
              (table, code) == if |key| > limits.maxKey || |value| > limits.maxValue then (old(table), w.code)
                               else StoreWithin(maxMemory, Purged(old(table), key, now), key, w)
    {
      hide Sized, Represents, Ledger, Bytes;
      if |key| > limits.maxKey {
        return KeyTooLarge;
      }
      if |value| > limits.maxValue {
        return ValueTooLarge;
      }
      var i, found := Locate(key, now);
      if (cond.NX? && found.Some?) || (cond.XX? && found.None?) {
        return NotSet;
      }
      var ok := StoreEntry(i, found, key, Entry(value, Deadline(ttl, now)));
      code := if ok then Stored else NoMemory;
    }

    method IncrBy(key: string, delta: int64, now: int) returns (code: WriteCode, integer: int64)
      requires Valid()
      modifies this
      ensures Valid()
      ensures var w := IncrCell(limits, key, Look(old(table), key, now), delta as int);
              && (table, code) == (if |key| > limits.maxKey then (old(table), w.code)
                                   else StoreWithin(maxMemory, Purged(old(table), key, now), key, w))
              && (code.Stored? ==> integer as int == w.integer)
    {
      hide Sized, Represents, Ledger, IntText, ParseI64Exact, Bytes, Purged;
      integer := 0;
      if |key| > limits.maxKey {
        return KeyTooLarge, 0;
      }
      var i, found := Locate(key, now);
      var current: int64 := 0;
      if found.Some? {
        var parsed := ParseI64Exact(shards[i].rows[found.value].entry.value);
        if parsed.None? {
          return InvalidInteger, 0;
        }
        current := parsed.value as int64;
      }
      if (delta > 0 && current > 0x7FFF_FFFF_FFFF_FFFF - delta) || (delta < 0 && current < -0x8000_0000_0000_0000 - delta) {
        return Overflow, 0;
      }
      var next := current + delta;
      var text := IntText(next as int);
      if |text| > limits.maxValue {
        return ValueTooLarge, 0;
      }
      var ok := StoreEntry(i, found, key, Entry(text, None));
      if ok {
        return Stored, next;
      }
      return NoMemory, 0;
    }

    method Append(key: string, suffix: string, now: int) returns (code: WriteCode, length: nat)
      requires Valid()
      modifies this
      ensures Valid()
      ensures var w := AppendCell(limits, key, Look(old(table), key, now), suffix);
              && (table, code) == (if |key| > limits.maxKey then (old(table), w.code)
                                   else StoreWithin(maxMemory, Purged(old(table), key, now), key, w))
              && (code.Stored? ==> length == w.integer)
    {
      hide Sized, Represents, Ledger, Bytes, Purged;
      if |key| > limits.maxKey {
        return KeyTooLarge, 0;
      }
      var i, found := Locate(key, now);
      var text := (if found.Some? then shards[i].rows[found.value].entry.value else "") + suffix;
      if |text| > limits.maxValue {
        return ValueTooLarge, 0;
      }
      var ok := StoreEntry(i, found, key, Entry(text, None));
      if ok {
        return Stored, |text|;
      }
      return NoMemory, 0;
    }

    method Del(key: string, now: int) returns (deleted: nat)
      requires Valid()
      modifies this
      ensures Valid()
      ensures deleted == if Look(old(table), key, now).Some? then 1 else 0
      ensures table == Put(old(table), key, None)
    {
      hide Sized, Represents, Ledger;
      var i, found := Locate(key, now);
      if found.None? {
        return 0;
      }
      EraseEntry(i, found.value);
      deleted := 1;
    }

    /** Change the expiry of a located live key, or erase it when the new expiry is in the past. */
    method ExpireAt(key: string, when: int, now: int) returns (changed: bool)
      requires Valid()
      modifies this
      ensures Valid()
      ensures var c := ExpireAtCell(Look(old(table), key, now), when, now);
              changed == c.Some? && table == if changed then Put(old(table), key, c.value) else Purged(old(table), key, now)
    {
      hide Sized, Represents, Ledger;
      var i, found := Locate(key, now);
      if found.None? {
        return false;
      }
      if when <= now {
        EraseEntry(i, found.value);
        expiredKeys := expiredKeys + 1;
        return true;
      }
      SetExpiry(i, found.value, Some(when));
      changed := true;
    }

    /** Replace the expiry of a row; its memory stays the same. */
    method SetExpiry(i: nat, p: nat, expiry: Option<int>)
      requires Valid() && i < |shards| && p < |shards[i].rows|
      modifies this`shards, this`table
      ensures Valid()
      ensures var r := old(shards)[i].rows[p]; table == Put(old(table), r.key, Some(r.entry.(expiry := expiry)))
    {
      hide Sized, Represents, Bytes, TotalMemory, Route, Put;
      var s := shards[i];
      var r := Row(s.rows[p].key, s.rows[p].entry.(expiry := expiry));
      RowInTable(hash, shards, table, i, p);
      BytesPut(table, r.key, Some(r.entry));
      RowSized(limits, hash, shards, table, i, p);
      ReplaceRepresents(hash, shards, table, i, p, r.entry);
      s := Shard(s.rows[p := r], s.memory, s.cursor);
      TotalUpdate(shards, i, s);
      shards := shards[i := s];
      SizedPut(limits, table, r.key, Some(r.entry));
      table := Put(table, r.key, Some(r.entry));
    }

    method Expire(key: string, ttl: int, now: int) returns (changed: bool)
      requires Valid()
      modifies this
      ensures Valid()
      ensures var c := ExpireCell(Look(old(table), key, now), ttl, now);
              changed == c.Some? && table == if changed then Put(old(table), key, c.value) else Purged(old(table), key, now)
    {
      hide Sized, Represents, Ledger;
      if ttl <= 0 {
        var deleted := Del(key, now);
        return deleted == 1;
      }
      changed := ExpireAt(key, now + ttl, now);
    }

    method Persist(key: string, now: int) returns (changed: bool)
      requires Valid()
      modifies this
      ensures Valid()
      ensures var c := PersistCell(Look(old(table), key, now));
              changed == c.Some? && table == if changed then Put(old(table), key, c.value) else Purged(old(table), key, now)
    {
      hide Sized, Represents, Ledger;
      var i, found := Locate(key, now);
      if found.None? || shards[i].rows[found.value].entry.expiry.None? {
        return false;
      }
      SetExpiry(i, found.value, None);
      changed := true;
    }

    // --- Reads: lazy expiry is all they change, and no reader can tell --------------------------

    method Get(key: string, now: int) returns (value: Option<string>)
      requires Valid()
      modifies this
      ensures Valid() && table == Purged(old(table), key, now)
      ensures var c := Look(old(table), key, now); value == if c.Some? then Some(c.value.value) else None
    {
      hide Sized, Represents, Ledger;
      var i, found := Locate(key, now);
      value := if found.Some? then Some(shards[i].rows[found.value].entry.value) else None;
    }

    method TimeToLive(key: string, now: int) returns (ttl: Ttl)
      requires Valid()
      modifies this
      ensures Valid() && table == Purged(old(table), key, now)
      ensures ttl == TtlOf(Look(old(table), key, now), now)
    {
      hide Sized, Represents, Ledger;
      var i, found := Locate(key, now);
      if found.None? {
        return Missing;
      }
      var expiry := shards[i].rows[found.value].entry.expiry;
      if expiry.None? {
        return NoExpiry;
      }
      var remaining := expiry.value - now;
      ttl := HasExpiry(if remaining < 0 then 0 else remaining);
    }

    // --- Sweeps over all shards ---------------------------------------------------------------

    /** Erase a row that has expired: no reader can tell. */
    method EraseExpired(i: nat, p: nat, now: int)
      requires Valid() && i < |shards| && p < |shards[i].rows| && Expired(shards[i].rows[p].entry, now)
      modifies this
      ensures Valid() && Same(table, old(table), now) && |shards| == |old(shards)| && |table| + 1 == |old(table)|
      ensures shards[i].rows == EraseAt(old(shards)[i].rows, p) && shards[i].cursor == old(shards)[i].cursor
      ensures forall j | 0 <= j < |shards| && j != i :: shards[j] == old(shards)[j]
    {
      hide Sized, Represents, Ledger;
      RowInTable(hash, shards, table, i, p);
      EraseUnseen(table, shards[i].rows[p].key, now);
      OneFewer(table, shards[i].rows[p].key);
      EraseEntry(i, p);
      expiredKeys := expiredKeys + 1;
    }

    /** The iterator loop shared by dbsize, expires_count and snapshot, on one shard. */
    method SweepShard(i: nat, now: int)
      requires Valid() && i < |shards|
      modifies this
      ensures Valid() && Same(table, old(table), now) && |shards| == |old(shards)|
      ensures shards[i].rows == Kept(old(shards)[i].rows, now)
      ensures forall j | 0 <= j < |shards| && j != i :: shards[j] == old(shards)[j]
    {
      hide Sized, Represents, Ledger, Kept, Swept, EraseAt;
      ghost var rows := shards[i].rows;
      ghost var q := 0;
      var p := 0;
      SweptEnds(rows, now);
      while p < |shards[i].rows|
        invariant Valid() && Same(table, old(table), now) && |shards| == |old(shards)|
        invariant q <= |rows| && p == |Kept(rows[0..q], now)| && shards[i].rows == Swept(rows, q, now)
        invariant |shards[i].rows| == p + |rows| - q
        invariant forall j | 0 <= j < |shards| && j != i :: shards[j] == old(shards)[j]
        decreases |rows| - q
      {
        SweptNext(rows, q, now);
        if Expired(shards[i].rows[p].entry, now) {
          ghost var before := table;
          EraseExpired(i, p, now);
          SameTrans(table, before, old(table), now);
        } else {
          p := p + 1;
        }
        q := q + 1;
      }
    }

    method DbSize(now: int) returns (total: nat)
      requires Valid()
      modifies this
      ensures Valid() && table == LiveTable(old(table), now)
      ensures total == |LiveKeys(old(table), now)|
    {
      hide Sized, Represents, Ledger, Kept;
      total := 0;
      ghost var seen: set<string> := {};
      ghost var n := |shards|;
      assert n > 0 by { HasShards(hash, shards, table); }
      for i := 0 to |shards|
        invariant Valid() && Same(table, old(table), now) && |shards| == n
        invariant SweptBelow(hash, n, i, old(table), table, now)
        invariant total == |seen| && seen == Routable(hash, n, LiveKeys(old(table), now), i)
      {
        ghost var before, rows := table, shards;
        SweepShard(i, now);
        SameTrans(table, before, old(table), now);
        SweptBelowNext(hash, rows, shards, i, old(table), before, table, now);
        ShardKeys(hash, shards, table, i, now);
        SameKeys(table, old(table), now);
        RoutableNext(hash, n, LiveKeys(old(table), now), i, KeySet(shards[i].rows));
        KeySetSize(hash, shards, table, i);
        seen := seen + KeySet(shards[i].rows);
        total := total + |shards[i].rows|;
      }
      assert Routable(hash, n, LiveKeys(old(table), now), n) == LiveKeys(old(table), now);
      SweptAll(hash, n, old(table), table, now);
    }

    method ExpiresCount(now: int) returns (total: nat)
      requires Valid()
      modifies this
      ensures Valid() && table == LiveTable(old(table), now)
      ensures total == |ExpiringKeys(old(table), now)|
    {
      hide Sized, Represents, Ledger, Kept, Expiring;
      total := 0;
      ghost var seen: set<string> := {};
      ghost var n := |shards|;
      assert n > 0 by { HasShards(hash, shards, table); }
      for i := 0 to |shards|
        invariant Valid() && Same(table, old(table), now) && |shards| == n
        invariant SweptBelow(hash, n, i, old(table), table, now)
        invariant total == |seen| && seen == Routable(hash, n, ExpiringKeys(old(table), now), i)
      {
        ghost var before, rows := table, shards;
        SweepShard(i, now);
        SameTrans(table, before, old(table), now);
        SweptBelowNext(hash, rows, shards, i, old(table), before, table, now);
        ShardExpiringKeys(hash, shards, table, i, now);
        SameKeys(table, old(table), now);
        RoutableNext(hash, n, ExpiringKeys(old(table), now), i, KeySet(Expiring(shards[i].rows)));
        ExpiringSize(hash, shards, table, i);
        seen := seen + KeySet(Expiring(shards[i].rows));
        var count := CountExpiring(shards[i].rows);
        total := total + count;
      }
      assert Routable(hash, n, ExpiringKeys(old(table), now), n) == ExpiringKeys(old(table), now);
      SweptAll(hash, n, old(table), table, now);
    }

    /** snapshot(): every live key once, with its value and expiry. */
    method Snapshot(now: int) returns (items: seq<Item>)
      requires Valid()
      modifies this
      ensures Valid() && table == LiveTable(old(table), now)
      ensures Lists(items, old(table), now) && OnceEach(items)
      ensures ItemsMemory(items) == Bytes(table)
    {
      hide Sized, Represents, Ledger, Kept, Listed, OnceEach, RoutedBelow, ItemsMemory, TotalMemory;
      items := [];
      NoItemsYet(hash, |shards|);
      ghost var n := |shards|;
      assert n > 0 by { HasShards(hash, shards, table); }
      ListedNothing();
      for i := 0 to |shards|
        invariant Valid() && Same(table, old(table), now) && |shards| == n
        invariant SweptBelow(hash, n, i, old(table), table, now)
        invariant ListsBelow(hash, n, items, old(table), now, i)
        invariant ItemsMemory(items) == TotalMemory(shards[..i])
        invariant OnceEach(items) && RoutedBelow(hash, n, items, i)
      {
        ghost var before, rows, below := table, shards, shards[..i];
        SweepShard(i, now);
        SameTrans(table, before, old(table), now);
        SweptBelowNext(hash, rows, shards, i, old(table), before, table, now);
        assert shards[..i] == below;
        ItemsMemoryNext(hash, shards, table, i, items);
        ShardCells(hash, shards, table, i, now);
        ListsNext(hash, n, items, old(table), table, now, i, shards[i].rows);
        OnceNext(hash, n, items, i, shards[i].rows);
        items := items + ItemsOf(shards[i].rows);
      }
      LedgerTotal(maxMemory, used, shards, table);
      ListsAll(hash, n, items, old(table), now);
      SweptAll(hash, n, old(table), table, now);
      assert shards[..|shards|] == shards;
    }

    method FlushDb()
      requires Valid()
      modifies this
      ensures Valid() && table == map[] && used == 0
    {
      var released := 0;
      ghost var total := TotalMemory(shards);
      var i := 0;
      while i < |shards|
        invariant 0 <= i <= |shards| == |old(shards)| && used == old(used)
        invariant released + TotalMemory(shards) == total
        invariant forall j | 0 <= j < i :: shards[j].rows == [] && shards[j].memory == 0
        modifies this`shards
      {
        released := released + shards[i].memory;
        TotalUpdate(shards, i, Shard([], 0, shards[i].cursor));
        shards := shards[i := Shard([], 0, shards[i].cursor)];
        i := i + 1;
      }
      ZeroTotal(shards);
      ReleaseMemory(released);
      table := map[];
    }

    // --- Active expiry ------------------------------------------------------------------------

    /** The sampling loop of active_expire on one shard. */
    method SampleShard(i: nat, size: nat, now: int) returns (expired: nat)
      requires Valid() && i < |shards|
      modifies this
      ensures Valid() && Same(table, old(table), now) && |shards| == |old(shards)|
      ensures var s := old(shards)[i];
              Sampling(shards[i].rows, shards[i].cursor) == Sample(Sampling(s.rows, s.cursor), size, now)
      ensures expired == |old(shards)[i].rows| - |shards[i].rows| && expired + |table| == |old(table)|
      ensures forall j | 0 <= j < |shards| && j != i :: shards[j] == old(shards)[j]
    {
      hide Sized, Represents, Ledger, Pass, Position, Look;
      expired := 0;
      ghost var rows := shards[i].rows;
      if shards[i].rows == [] {
        SetCursor(i, 0);
        return;
      }
      var c := shards[i].cursor % |shards[i].rows|;
      var it, sampled := c, 0;
      var target := Min(size, |shards[i].rows|);
      PassNothing(rows, c, now);
      while |shards[i].rows| != 0 && sampled < target
        invariant Valid() && Same(table, old(table), now) && |shards| == |old(shards)|
        invariant sampled <= target <= |rows| && shards[i].rows == Pass(rows, c, sampled, now)
        invariant sampled < target ==> it == Position(rows, c, sampled, now)
        invariant expired == |rows| - |shards[i].rows| && expired + |table| == |old(table)|
        invariant forall j | 0 <= j < |shards| && j != i :: shards[j] == old(shards)[j]
        decreases target - sampled
      {
        PassNext(rows, c, sampled, now);
        sampled := sampled + 1;
        if Expired(shards[i].rows[it].entry, now) {
          ghost var before := table;
          EraseExpired(i, it, now);
          SameTrans(table, before, old(table), now);
          expired := expired + 1;
        } else {
          it := it + 1;
        }
        if it == |shards[i].rows| {
          it := 0;
        }
      }
      if sampled < target {
        PassNext(rows, c, sampled, now);
      }
      SetCursor(i, if shards[i].rows == [] then 0 else (c + sampled) % |shards[i].rows|);
    }

    method SetCursor(i: nat, cursor: nat)
      requires Valid() && i < |shards|
      modifies this`shards
      ensures Valid() && shards == old(shards)[i := old(shards)[i].(cursor := cursor)]
    {
      var s := shards[i].(cursor := cursor);
      TotalUpdate(shards, i, s);
      CursorRepresents(hash, shards, table, i, s);
      shards := shards[i := s];
    }

    /** active_expire: one sampling call on every shard; no reader can tell, and every erased entry is counted. */
    method ActiveExpire(size: nat, now: int) returns (expired: nat)
      requires Valid()
      modifies this
      ensures Valid() && Same(table, old(table), now) && |shards| == |old(shards)|
      ensures forall i | 0 <= i < |shards| ::
                Sampling(shards[i].rows, shards[i].cursor) ==
                Sample(Sampling(old(shards)[i].rows, old(shards)[i].cursor), size, now)
      ensures expired + RowCount(shards) == RowCount(old(shards)) && expired + |table| == |old(table)|
    {
      hide Sized, Represents, Ledger, Sample, RowCount;
      expired := 0;
      for i := 0 to |shards|
        invariant expired + RowCount(shards) == RowCount(old(shards)) && expired + |table| == |old(table)|
        invariant Valid() && Same(table, old(table), now) && |shards| == |old(shards)|
        invariant forall j | 0 <= j < i ::
                    Sampling(shards[j].rows, shards[j].cursor) ==
                    Sample(Sampling(old(shards)[j].rows, old(shards)[j].cursor), size, now)
        invariant forall j | i <= j < |shards| :: shards[j] == old(shards)[j]
      {
        ghost var before := table;
        ghost var rows := shards;
        var count := SampleShard(i, size, now);
        RowCountUpdate(rows, i, shards[i]);
        assert shards == rows[i := shards[i]];
        SameTrans(table, before, old(table), now);
        expired := expired + count;
      }
    }
  }

  lemma OneFewer(t: Table, k: string)
    requires k in t
    ensures |Put(t, k, None)| + 1 == |t|
  {
    assert t.Keys == (t - {k}).Keys + {k};
    assert |t| == |t.Keys| && |t - {k}| == |(t - {k}).Keys|;
  }

  /** How many rows are stored. */
  function RowCount(shards: seq<Shard>): nat {
    if shards == [] then 0 else |shards[0].rows| + RowCount(shards[1..])
  }

  lemma {:induction false} RowCountUpdate(shards: seq<Shard>, i: nat, s: Shard)
    requires i < |shards|
    ensures RowCount(shards[i := s]) == RowCount(shards) - |shards[i].rows| + |s.rows|
  {
    if i == 0 {
      assert shards[i := s][1..] == shards[1..];
    } else {
      assert shards[i := s][1..] == shards[1..][i - 1 := s];
      RowCountUpdate(shards[1..], i - 1, s);
    }
  }

  /** The shards below i hold only what readers see; the others are as they were. */
  ghost predicate SweptBelow(hash: Hash, n: nat, i: nat, t: Table, u: Table, now: int) {
    n > 0 && forall k :: Get(u, k) == if Route(hash, n, k) < i then Look(t, k, now) else Get(t, k)
  }

  lemma SweptBelowNext(hash: Hash, shards: seq<Shard>, shards': seq<Shard>, i: nat, t: Table, u: Table, u': Table, now: int)
    requires Represents(hash, shards, u) && Represents(hash, shards', u') && |shards| == |shards'| && i < |shards|
    requires SweptBelow(hash, |shards|, i, t, u, now) && Same(u', t, now)
    requires shards'[i].rows == Kept(shards[i].rows, now)
    requires forall j | 0 <= j < |shards| && j != i :: shards'[j] == shards[j]
    ensures SweptBelow(hash, |shards|, i + 1, t, u', now)
  {
    hide Route, Kept, CellIn;
    ShardCells(hash, shards', u', i, now);
    forall k
      ensures Get(u', k) == if Route(hash, |shards|, k) < i + 1 then Look(t, k, now) else Get(t, k)
    {
      assert CellOf(hash, shards', k) == Get(u', k) && CellOf(hash, shards, k) == Get(u, k);
      assert Look(u', k, now) == Look(t, k, now);
    }
  }

  lemma SweptAll(hash: Hash, n: nat, t: Table, u: Table, now: int)
    requires SweptBelow(hash, n, n, t, u, now)
    ensures u == LiveTable(t, now)
  {
    forall k
      ensures Get(u, k) == Get(LiveTable(t, now), k)
    {
      assert Route(hash, n, k) < n;
    }
    SameMaps(u, LiveTable(t, now));
  }

  /** The rows of a shard when the sweep has gone through the first q. */
  function Swept(rows: seq<Row>, q: nat, now: int): seq<Row>
    requires q <= |rows|
  {
    Kept(rows[0..q], now) + rows[q..]
  }

  lemma SweptEnds(rows: seq<Row>, now: int)
    ensures Swept(rows, 0, now) == rows && Swept(rows, |rows|, now) == Kept(rows, now)
    ensures Kept(rows[0..0], now) == []
  {
    assert rows[0..|rows|] == rows;
  }

  lemma SweptNext(rows: seq<Row>, q: nat, now: int)
    requires q < |rows|
    ensures var p := |Kept(rows[0..q], now)|;
            var gone := Expired(rows[q].entry, now);
            && p < |Swept(rows, q, now)| && Swept(rows, q, now)[p] == rows[q]
            && Swept(rows, q + 1, now) == (if gone then EraseAt(Swept(rows, q, now), p) else Swept(rows, q, now))
            && |Kept(rows[0..q + 1], now)| == (if gone then p else p + 1)
            && |Kept(rows[0..q + 1], now)| + |rows| - q - 1 == |Swept(rows, q + 1, now)|
  {
    hide Kept, EraseAt;
    var kept, after := Kept(rows[0..q], now), rows[q + 1..];
    KeptNext(rows, 0, q, now);
    EraseMiddle(kept, rows[q], after);
    assert rows[q..] == [rows[q]] + after;
    assert kept + ([rows[q]] + after) == kept + [rows[q]] + after;
  }

  // --- What the sweeps count and list ---------------------------------------------------------

  /** The keys of a set that belong to the shards below i. */
  function Routable(hash: Hash, n: nat, keys: set<string>, i: nat): set<string>
    requires n > 0
  {
    set k | k in keys && Route(hash, n, k) < i
  }

  lemma RoutableNext(hash: Hash, n: nat, keys: set<string>, i: nat, here: set<string>)
    requires n > 0 && forall k :: k in here <==> k in keys && Route(hash, n, k) == i
    ensures Routable(hash, n, keys, i + 1) == Routable(hash, n, keys, i) + here
    ensures Routable(hash, n, keys, i) !! here
  {
    hide Route;
  }

  function KeySet(rows: seq<Row>): set<string> {
    set j | 0 <= j < |rows| :: rows[j].key
  }

  lemma {:induction false} DistinctKeys(rows: seq<Row>)
    requires Distinct(rows)
    ensures |KeySet(rows)| == |rows|
  {
    if rows != [] {
      var front, last := rows[..|rows| - 1], rows[|rows| - 1];
      DistinctKeys(front);
      assert KeySet(rows) == KeySet(front) + {last.key} && last.key !in KeySet(front);
    }
  }

  lemma KeySetSize(hash: Hash, shards: seq<Shard>, t: Table, i: nat)
    requires Represents(hash, shards, t) && i < |shards|
    ensures |KeySet(shards[i].rows)| == |shards[i].rows|
  {
    assert ShardOk(hash, |shards|, i, shards[i]);
    DistinctKeys(shards[i].rows);
  }

  lemma HasShards(hash: Hash, shards: seq<Shard>, t: Table)
    requires Represents(hash, shards, t)
    ensures |shards| > 0
  {
  }

  lemma PassNothing(rows: seq<Row>, c: nat, now: int)
    requires c < |rows|
    ensures Pass(rows, c, 0, now) == rows && Position(rows, c, 0, now) == c
  {
    assert rows[c..c] == [];
    assert rows == rows[..c] + [] + rows[c..];
  }

  /** A row is what the table holds at its key. */
  lemma RowInTable(hash: Hash, shards: seq<Shard>, t: Table, i: nat, p: nat)
    requires Represents(hash, shards, t) && i < |shards| && p < |shards[i].rows|
    ensures Get(t, shards[i].rows[p].key) == Some(shards[i].rows[p].entry)
    ensures Route(hash, |shards|, shards[i].rows[p].key) == i
  {
    assert ShardOk(hash, |shards|, i, shards[i]);
    CellAt(shards[i].rows, p);
    assert CellOf(hash, shards, shards[i].rows[p].key) == Get(t, shards[i].rows[p].key);
  }

  lemma RowSized(l: Limits, hash: Hash, shards: seq<Shard>, t: Table, i: nat, p: nat)
    requires Represents(hash, shards, t) && i < |shards| && p < |shards[i].rows| && Sized(l, t)
    ensures |shards[i].rows[p].key| <= l.maxKey && |shards[i].rows[p].entry.value| <= l.maxValue
  {
    RowInTable(hash, shards, t, i, p);
  }

  lemma CursorRepresents(hash: Hash, shards: seq<Shard>, t: Table, i: nat, s: Shard)
    requires Represents(hash, shards, t) && i < |shards| && s.rows == shards[i].rows && s.memory == shards[i].memory
    ensures Represents(hash, shards[i := s], t)
  {
    hide CellIn, Route;
    var shards' := shards[i := s];
    assert ShardOk(hash, |shards|, i, shards[i]);
    forall k
      ensures CellOf(hash, shards', k) == Get(t, k)
    {
      assert CellOf(hash, shards, k) == Get(t, k);
    }
  }

  /** A swept shard holds what readers of its keys see. */
  lemma ShardCells(hash: Hash, shards: seq<Shard>, t: Table, i: nat, now: int)
    requires Represents(hash, shards, t) && i < |shards|
    requires exists rows :: shards[i].rows == Kept(rows, now)
    ensures Distinct(shards[i].rows) && Routed(hash, |shards|, i, shards[i].rows)
    ensures forall k :: Route(hash, |shards|, k) == i ==> CellIn(shards[i].rows, k) == Look(t, k, now)
  {
    hide Route, Kept;
    var rows :| shards[i].rows == Kept(rows, now);
    assert ShardOk(hash, |shards|, i, shards[i]);
    forall k | Route(hash, |shards|, k) == i
      ensures CellIn(shards[i].rows, k) == Look(t, k, now)
    {
      assert CellOf(hash, shards, k) == Get(t, k);
      var f := Find(shards[i].rows, k);
      if f.Some? {
        KeptMember(rows, now, shards[i].rows[f.value]);
      }
    }
  }

  lemma ShardKeys(hash: Hash, shards: seq<Shard>, t: Table, i: nat, now: int)
    requires Represents(hash, shards, t) && i < |shards|
    requires exists rows :: shards[i].rows == Kept(rows, now)
    ensures forall k :: k in KeySet(shards[i].rows) <==> k in LiveKeys(t, now) && Route(hash, |shards|, k) == i
  {
    hide Sized, Represents, Route, Kept;
    ShardCells(hash, shards, t, i, now);
    forall k
      ensures k in KeySet(shards[i].rows) <==> k in LiveKeys(t, now) && Route(hash, |shards|, k) == i
    {
      if k in KeySet(shards[i].rows) {
        var j :| 0 <= j < |shards[i].rows| && shards[i].rows[j].key == k;
        RowInTable(hash, shards, t, i, j);
        CellAt(shards[i].rows, j);
      }
    }
  }

  /** The rows that have an expiry. */
  function Expiring(rows: seq<Row>): seq<Row> {
    if rows == [] then []
    else if rows[|rows| - 1].entry.expiry.Some? then Expiring(rows[..|rows| - 1]) + [rows[|rows| - 1]]
    else Expiring(rows[..|rows| - 1])
  }

  method CountExpiring(rows: seq<Row>) returns (count: nat)
    ensures count == |Expiring(rows)|
  {
    count := 0;
    for j := 0 to |rows|
      invariant count == |Expiring(rows[..j])|
    {
      assert rows[..j + 1][..j] == rows[..j];
      if rows[j].entry.expiry.Some? {
        count := count + 1;
      }
    }
    assert rows[..|rows|] == rows;
  }

  lemma {:induction false} ExpiringMember(rows: seq<Row>, r: Row)
    ensures r in Expiring(rows) <==> r in rows && r.entry.expiry.Some?
  {
    if rows != [] {
      ExpiringMember(rows[..|rows| - 1], r);
      assert rows == rows[..|rows| - 1] + [rows[|rows| - 1]];
    }
  }

  lemma {:induction false} ExpiringDistinct(rows: seq<Row>)
    requires Distinct(rows)
    ensures Distinct(Expiring(rows))
  {
    if rows != [] {
      var front, last := rows[..|rows| - 1], rows[|rows| - 1];
      ExpiringDistinct(front);
      forall r | r in Expiring(front)
        ensures r.key != last.key
      {
        ExpiringMember(front, r);
      }
    }
  }

  lemma ExpiringSize(hash: Hash, shards: seq<Shard>, t: Table, i: nat)
    requires Represents(hash, shards, t) && i < |shards|
    ensures |KeySet(Expiring(shards[i].rows))| == |Expiring(shards[i].rows)|
  {
    assert ShardOk(hash, |shards|, i, shards[i]);
    ExpiringDistinct(shards[i].rows);
    DistinctKeys(Expiring(shards[i].rows));
  }

  lemma ShardExpiringKeys(hash: Hash, shards: seq<Shard>, t: Table, i: nat, now: int)
    requires Represents(hash, shards, t) && i < |shards|
    requires exists rows :: shards[i].rows == Kept(rows, now)
    ensures forall k :: k in KeySet(Expiring(shards[i].rows)) <==>
                        k in ExpiringKeys(t, now) && Route(hash, |shards|, k) == i
  {
    hide Sized, Represents, Route, Kept, Expiring;
    var rows := shards[i].rows;
    ShardCells(hash, shards, t, i, now);
    forall k
      ensures k in KeySet(Expiring(rows)) <==> k in ExpiringKeys(t, now) && Route(hash, |shards|, k) == i
    {
      if k in KeySet(Expiring(rows)) {
        var j :| 0 <= j < |Expiring(rows)| && Expiring(rows)[j].key == k;
        ExpiringMember(rows, Expiring(rows)[j]);
        var m :| 0 <= m < |rows| && rows[m] == Expiring(rows)[j];
        RowInTable(hash, shards, t, i, m);
        CellAt(rows, m);
      }
      if k in ExpiringKeys(t, now) && Route(hash, |shards|, k) == i {
        var m := Find(rows, k).value;
        ExpiringMember(rows, rows[m]);
        var j :| 0 <= j < |Expiring(rows)| && Expiring(rows)[j] == rows[m];
        assert Expiring(rows)[j].key in KeySet(Expiring(rows));
      }
    }
  }

  // --- Listing --------------------------------------------------------------------------------

  function ItemOf(r: Row): Item {
    Item(r.key, r.entry.value, r.entry.expiry)
  }

  function ItemsOf(rows: seq<Row>): (items: seq<Item>)
    ensures |items| == |rows|
  {
    if rows == [] then [] else ItemsOf(rows[..|rows| - 1]) + [ItemOf(rows[|rows| - 1])]
  }

  /** The bytes a list of items accounts for once stored. */
  function ItemsMemory(items: seq<Item>): nat {
    if items == [] then 0
    else ItemsMemory(items[..|items| - 1]) + EntryMemory(items[|items| - 1].key, items[|items| - 1].value)
  }

  lemma ItemsMemoryLast(items: seq<Item>, e: Item)
    ensures ItemsMemory(items + [e]) == ItemsMemory(items) + EntryMemory(e.key, e.value)
  {
    assert (items + [e])[..|items|] == items;
  }

  lemma ItemsOfLast(rows: seq<Row>)
    requires rows != []
    ensures ItemsOf(rows) == ItemsOf(rows[..|rows| - 1]) + [ItemOf(rows[|rows| - 1])]
  {
  }

  lemma {:induction false} ItemsMemoryRows(items: seq<Item>, rows: seq<Row>)
    ensures ItemsMemory(items + ItemsOf(rows)) == ItemsMemory(items) + RowsMemory(rows)
    decreases |rows|
  {
    if rows == [] {
      assert items + [] == items;
    } else {
      hide ItemsOf, ItemsMemory, RowsMemory, EntryMemory;
      var front, last := rows[..|rows| - 1], rows[|rows| - 1];
      ItemsMemoryRows(items, front);
      ItemsOfLast(rows);
      assert items + ItemsOf(rows) == (items + ItemsOf(front)) + [ItemOf(last)];
      ItemsMemoryLast(items + ItemsOf(front), ItemOf(last));
      assert rows == InsertAt(front, |front|, last);
      MemoryInsert(front, |front|, last);
    }
  }

  lemma {:induction false} TotalNext(shards: seq<Shard>, i: nat)
    requires i < |shards|
    ensures TotalMemory(shards[..i + 1]) == TotalMemory(shards[..i]) + shards[i].memory
  {
    if i == 0 {
      assert shards[..1][1..] == [];
    } else {
      assert shards[..i + 1][1..] == shards[1..][..i] && shards[..i][1..] == shards[1..][..i - 1];
      TotalNext(shards[1..], i - 1);
    }
  }

  lemma ItemsMemoryNext(hash: Hash, shards: seq<Shard>, t: Table, i: nat, items: seq<Item>)
    requires Represents(hash, shards, t) && i < |shards| && ItemsMemory(items) == TotalMemory(shards[..i])
    ensures ItemsMemory(items + ItemsOf(shards[i].rows)) == TotalMemory(shards[..i + 1])
  {
    hide CellOf, RowsMemory, ItemsMemory, TotalMemory;
    assert ShardOk(hash, |shards|, i, shards[i]);
    ItemsMemoryRows(items, shards[i].rows);
    TotalNext(shards, i);
  }

  lemma ListedNothing()
    ensures Listed([]) == map[]
  {
  }

  lemma {:induction false} ListedSplit(a: seq<Item>, b: seq<Item>, k: string)
    ensures Get(Listed(a + b), k) == if Get(Listed(b), k).Some? then Get(Listed(b), k) else Get(Listed(a), k)
    decreases |b|
  {
    if b == [] {
      assert a + b == a;
    } else {
      var front, last := b[..|b| - 1], b[|b| - 1];
      assert (a + b)[..|a + b| - 1] == a + front;
      ListedSplit(a, front, k);
    }
  }

  lemma ListedLast(items: seq<Item>, e: Item)
    ensures Listed(items + [e]) == Put(Listed(items), e.key, ItemCell(e))
  {
    assert (items + [e])[..|items|] == items;
  }

  lemma LastRow(rows: seq<Row>, k: string)
    requires Distinct(rows) && rows != []
    ensures var front, last := rows[..|rows| - 1], rows[|rows| - 1];
            CellIn(rows, k) == if k == last.key then Some(last.entry) else CellIn(front, k)
  {
    hide CellIn;
    var front, last := rows[..|rows| - 1], rows[|rows| - 1];
    assert rows == InsertAt(front, |front|, last);
    assert Distinct(front);
    assert Find(front, last.key).None?;
    InsertRow(front, |front|, last, k);
  }

  lemma {:induction false} ListedRows(rows: seq<Row>, k: string)
    requires Distinct(rows)
    ensures Get(Listed(ItemsOf(rows)), k) == CellIn(rows, k)
    decreases |rows|
  {
    if rows != [] {
      hide CellIn;
      var front, last := rows[..|rows| - 1], rows[|rows| - 1];
      assert Distinct(front);
      ListedRows(front, k);
      assert ItemsOf(rows) == ItemsOf(front) + [ItemOf(last)];
      ListedLast(ItemsOf(front), ItemOf(last));
      LastRow(rows, k);
    }
  }

  lemma {:induction false} ItemsMember(rows: seq<Row>, e: Item)
    requires e in ItemsOf(rows)
    ensures exists p :: 0 <= p < |rows| && e == ItemOf(rows[p])
    decreases |rows|
  {
    if rows != [] {
      var front := rows[..|rows| - 1];
      if e in ItemsOf(front) {
        ItemsMember(front, e);
        var p :| 0 <= p < |front| && e == ItemOf(front[p]);
        assert front[p] == rows[p];
      }
    }
  }

  /** No key is listed twice. */
  predicate OnceEach(items: seq<Item>) {
    forall p, q | 0 <= p < q < |items| :: items[p].key != items[q].key
  }

  predicate RoutedBelow(hash: Hash, n: nat, items: seq<Item>, i: nat) {
    n > 0 && forall p | 0 <= p < |items| :: Route(hash, n, items[p].key) < i
  }

  lemma NoItemsYet(hash: Hash, n: nat)
    ensures OnceEach([]) && (n > 0 ==> RoutedBelow(hash, n, [], 0)) && ItemsMemory([]) == 0 && TotalMemory([]) == 0
  {
  }

  lemma {:induction false} ItemAt(rows: seq<Row>, p: nat)
    requires p < |rows|
    ensures ItemsOf(rows)[p] == ItemOf(rows[p])
    decreases |rows|
  {
    if p < |rows| - 1 {
      ItemAt(rows[..|rows| - 1], p);
    }
  }

  /** The next shard's rows have keys no shard before can have. */
  lemma OnceNext(hash: Hash, n: nat, items: seq<Item>, i: nat, rows: seq<Row>)
    requires OnceEach(items) && RoutedBelow(hash, n, items, i) && Distinct(rows) && n > 0 && Routed(hash, n, i, rows)
    ensures OnceEach(items + ItemsOf(rows)) && RoutedBelow(hash, n, items + ItemsOf(rows), i + 1)
  {
    var more, all := ItemsOf(rows), items + ItemsOf(rows);
    hide Route, ItemsOf;
    forall p | 0 <= p < |rows|
      ensures more[p].key == rows[p].key && Route(hash, n, more[p].key) == i
    {
      ItemAt(rows, p);
    }
    assert forall p | 0 <= p < |items| :: all[p] == items[p];
    assert forall p | 0 <= p < |rows| :: all[|items| + p] == more[p];
    forall p, q | 0 <= p < q < |all|
      ensures all[p].key != all[q].key
    {
      if q >= |items| {
        assert all[q] == more[q - |items|];
        if p >= |items| { assert all[p] == more[p - |items|]; }
      }
    }
  }

  /** The items list exactly what readers see at the keys of the shards below i. */
  ghost predicate ListsBelow(hash: Hash, n: nat, items: seq<Item>, t: Table, now: int, i: nat)
    requires n > 0
  {
    && (forall k :: Get(Listed(items), k) == if Route(hash, n, k) < i then Look(t, k, now) else None)
    && (forall e | e in items :: Look(t, e.key, now) == ItemCell(e))
  }

  lemma ListsNext(hash: Hash, n: nat, items: seq<Item>, t: Table, u: Table, now: int, i: nat, rows: seq<Row>)
    requires n > 0 && ListsBelow(hash, n, items, t, now, i) && Same(u, t, now)
    requires Distinct(rows) && Routed(hash, n, i, rows)
    requires forall k :: Route(hash, n, k) == i ==> CellIn(rows, k) == Look(u, k, now)
    ensures ListsBelow(hash, n, items + ItemsOf(rows), t, now, i + 1)
  {
    hide Route, Listed, ItemsOf;
    forall k
      ensures Get(Listed(items + ItemsOf(rows)), k) == if Route(hash, n, k) < i + 1 then Look(t, k, now) else None
    {
      ListedSplit(items, ItemsOf(rows), k);
      ListedRows(rows, k);
      assert Look(u, k, now) == Look(t, k, now);
    }
    forall e | e in items + ItemsOf(rows)
      ensures Look(t, e.key, now) == ItemCell(e)
    {
      if e !in items {
        ItemsMember(rows, e);
        var p :| 0 <= p < |rows| && e == ItemOf(rows[p]);
        CellAt(rows, p);
        assert Look(u, e.key, now) == Look(t, e.key, now);
      }
    }
  }

  lemma ListsAll(hash: Hash, n: nat, items: seq<Item>, t: Table, now: int)
    requires n > 0 && ListsBelow(hash, n, items, t, now, n)
    ensures Lists(items, t, now)
  {
    forall k
      ensures Look(Listed(items), k, now) == Look(t, k, now)
    {
      assert Get(Listed(items), k) == Look(t, k, now);
    }
  }

  lemma {:induction false} ZeroTotal(shards: seq<Shard>)
    requires forall i | 0 <= i < |shards| :: shards[i].memory == 0
    ensures TotalMemory(shards) == 0
  {
    if shards != [] {
      ZeroTotal(shards[1..]);
    }
  }
}
