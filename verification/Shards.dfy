/** Shards as ordered lists of rows, and how they represent one table: every key lives only in the
    shard its hash selects. The hash is an arbitrary function. */
module Shards {
  import opened Wrappers
  import opened Store

  datatype Row = Row(key: string, entry: Entry)

  datatype Shard = Shard(rows: seq<Row>, memory: nat, cursor: nat)

  function RowMemory(r: Row): nat {
    EntryMemory(r.key, r.entry.value)
  }

  function RowsMemory(rows: seq<Row>): nat {
    if rows == [] then 0 else RowMemory(rows[0]) + RowsMemory(rows[1..])
  }

  function TotalMemory(shards: seq<Shard>): nat {
    if shards == [] then 0 else shards[0].memory + TotalMemory(shards[1..])
  }

  function Find(rows: seq<Row>, k: string): (r: Option<nat>)
    ensures r.Some? ==> r.value < |rows| && rows[r.value].key == k
    ensures r.None? ==> forall i | 0 <= i < |rows| :: rows[i].key != k
  {
    if rows == [] then None
    else if rows[0].key == k then Some(0)
    else
      var r := Find(rows[1..], k);
      if r.Some? then Some(r.value + 1) else None
  }

  function CellIn(rows: seq<Row>, k: string): Cell {
    var r := Find(rows, k);
    if r.Some? then Some(rows[r.value].entry) else None
  }

  predicate Distinct(rows: seq<Row>) {
    forall i, j | 0 <= i < j < |rows| :: rows[i].key != rows[j].key
  }

  // --- Changing one row -----------------------------------------------------------------------

  function EraseAt(rows: seq<Row>, p: nat): seq<Row>
    requires p < |rows|
  {
    rows[..p] + rows[p + 1..]
  }

  function InsertAt(rows: seq<Row>, p: nat, r: Row): seq<Row>
    requires p <= |rows|
  {
    rows[..p] + [r] + rows[p..]
  }

  /** With distinct keys, a row is what its key holds. */
  lemma CellAt(rows: seq<Row>, p: nat)
    requires Distinct(rows) && p < |rows|
    ensures Find(rows, rows[p].key) == Some(p) && CellIn(rows, rows[p].key) == Some(rows[p].entry)
  {
  }

  lemma EraseDistinct(rows: seq<Row>, p: nat)
    requires Distinct(rows) && p < |rows|
    ensures Distinct(EraseAt(rows, p))
  {
    var rest := EraseAt(rows, p);
    forall i, j | 0 <= i < j < |rest|
      ensures rest[i].key != rest[j].key
    {
      assert rest[i] == rows[if i < p then i else i + 1];
      assert rest[j] == rows[if j < p then j else j + 1];
    }
  }

  lemma EraseRow(rows: seq<Row>, p: nat, k: string)
    requires Distinct(rows) && p < |rows|
    ensures Distinct(EraseAt(rows, p))
    ensures CellIn(EraseAt(rows, p), k) == if k == rows[p].key then None else CellIn(rows, k)
  {
    EraseDistinct(rows, p);
    var rest := EraseAt(rows, p);
    var q := Find(rest, k);
    if q.Some? {
      var i := if q.value < p then q.value else q.value + 1;
      assert rest[q.value] == rows[i];
      CellAt(rows, i);
    } else if k != rows[p].key {
      forall i | 0 <= i < |rows|
        ensures rows[i].key != k
      {
        if i != p {
          assert rest[if i < p then i else i - 1] == rows[i];
        }
      }
    }
  }

  lemma ReplaceRow(rows: seq<Row>, p: nat, e: Entry, k: string)
    requires Distinct(rows) && p < |rows|
    ensures Distinct(rows[p := Row(rows[p].key, e)])
    ensures CellIn(rows[p := Row(rows[p].key, e)], k) == if k == rows[p].key then Some(e) else CellIn(rows, k)
  {
    var rows' := rows[p := Row(rows[p].key, e)];
    assert forall i | 0 <= i < |rows| :: rows'[i].key == rows[i].key;
    if k == rows[p].key {
      CellAt(rows', p);
    } else {
      var r := Find(rows, k);
      if r.Some? {
        CellAt(rows', r.value);
        CellAt(rows, r.value);
      }
    }
  }

  lemma InsertedAt(rows: seq<Row>, p: nat, r: Row, i: nat)
    requires p <= |rows| && i <= |rows|
    ensures |InsertAt(rows, p, r)| == |rows| + 1
    ensures InsertAt(rows, p, r)[i] == if i < p then rows[i] else if i == p then r else rows[i - 1]
  {
  }

  lemma InsertDistinct(rows: seq<Row>, p: nat, r: Row)
    requires Distinct(rows) && p <= |rows| && Find(rows, r.key).None?
    ensures Distinct(InsertAt(rows, p, r))
  {
    var rows' := InsertAt(rows, p, r);
    InsertedAt(rows, p, r, 0);
    hide Find, InsertAt;
    forall i, j | 0 <= i < j < |rows'|
      ensures rows'[i].key != rows'[j].key
    {
      InsertedAt(rows, p, r, i);
      InsertedAt(rows, p, r, j);
    }
  }

  lemma InsertRow(rows: seq<Row>, p: nat, r: Row, k: string)
    requires Distinct(rows) && p <= |rows| && Find(rows, r.key).None?
    ensures Distinct(InsertAt(rows, p, r))
    ensures CellIn(InsertAt(rows, p, r), k) == if k == r.key then Some(r.entry) else CellIn(rows, k)
  {
    hide CellIn, Distinct, Find;
    var rows' := InsertAt(rows, p, r);
    InsertDistinct(rows, p, r);
    CellAt(rows', p);
    EraseRow(rows', p, k);
    assert EraseAt(rows', p) == rows;
  }

  lemma {:induction false} MemorySplit(a: seq<Row>, b: seq<Row>)
    ensures RowsMemory(a + b) == RowsMemory(a) + RowsMemory(b)
    decreases |a|
  {
    if a == [] {
      assert a + b == b;
    } else {
      assert (a + b)[1..] == a[1..] + b;
      MemorySplit(a[1..], b);
    }
  }

  lemma MemoryAt(rows: seq<Row>, p: nat)
    requires p < |rows|
    ensures RowsMemory(rows) == RowsMemory(EraseAt(rows, p)) + RowMemory(rows[p])
    ensures forall r: Row :: RowsMemory(rows[p := r]) == RowsMemory(EraseAt(rows, p)) + RowMemory(r)
  {
    hide RowMemory;
    MemorySplit(rows[..p], rows[p + 1..]);
    forall r: Row
      ensures RowsMemory(rows[p := r]) == RowsMemory(EraseAt(rows, p)) + RowMemory(r)
    {
      MemoryMiddle(rows[..p], r, rows[p + 1..]);
      assert rows[p := r] == rows[..p] + [r] + rows[p + 1..];
    }
    assert rows[p := rows[p]] == rows;
  }

  lemma MemoryMiddle(a: seq<Row>, r: Row, b: seq<Row>)
    ensures RowsMemory(a + [r] + b) == RowsMemory(a) + RowMemory(r) + RowsMemory(b)
  {
    hide RowMemory;
    MemorySplit(a + [r], b);
    MemorySplit(a, [r]);
    assert RowsMemory([r]) == RowMemory(r) + RowsMemory([]) by { assert [r][1..] == []; }
  }

  lemma MemoryInsert(rows: seq<Row>, p: nat, r: Row)
    requires p <= |rows|
    ensures RowsMemory(InsertAt(rows, p, r)) == RowsMemory(rows) + RowMemory(r)
  {
    hide RowMemory, RowsMemory;
    MemoryMiddle(rows[..p], r, rows[p..]);
    MemorySplit(rows[..p], rows[p..]);
    assert rows == rows[..p] + rows[p..];
  }

  lemma {:induction false} TotalUpdate(shards: seq<Shard>, i: nat, s: Shard)
    requires i < |shards|
    ensures TotalMemory(shards[i := s]) + shards[i].memory == TotalMemory(shards) + s.memory
    ensures shards[i].memory <= TotalMemory(shards)
  {
    if i == 0 {
      assert shards[i := s][1..] == shards[1..];
    } else {
      assert shards[i := s][1..] == shards[1..][i - 1 := s];
      TotalUpdate(shards[1..], i - 1, s);
    }
  }

  // --- Representation -------------------------------------------------------------------------

  type Hash = string -> nat

  function Route(hash: Hash, n: nat, k: string): (i: nat)
    requires n > 0
    ensures i < n
  {
    hash(k) % n
  }

  /** Hashes below the number of shards are shard numbers themselves: every shard can be reached, and keys
      with different ones lie apart. */
  lemma RouteFollowsHash(hash: Hash, n: nat, k: string)
    requires hash(k) < n
    ensures Route(hash, n, k) == hash(k)
  {
  }

  predicate Routed(hash: Hash, n: nat, i: nat, rows: seq<Row>)
    requires n > 0
  {
    forall j | 0 <= j < |rows| :: Route(hash, n, rows[j].key) == i
  }

  predicate ShardOk(hash: Hash, n: nat, i: nat, s: Shard)
    requires n > 0
  {
    Distinct(s.rows) && Routed(hash, n, i, s.rows) && s.memory == RowsMemory(s.rows)
  }

  predicate AllOk(hash: Hash, shards: seq<Shard>) {
    |shards| > 0 && forall i | 0 <= i < |shards| :: ShardOk(hash, |shards|, i, shards[i])
  }

  function CellOf(hash: Hash, shards: seq<Shard>, k: string): Cell
    requires |shards| > 0
  {
    CellIn(shards[Route(hash, |shards|, k)].rows, k)
  }

  /** The shards hold exactly the entries of the table, each in its own shard. */
  ghost predicate Represents(hash: Hash, shards: seq<Shard>, t: Table) {
    AllOk(hash, shards) && forall k :: CellOf(hash, shards, k) == Get(t, k)
  }

  lemma SetShard(hash: Hash, shards: seq<Shard>, t: Table, i: nat, s: Shard, key: string, c: Cell)
    requires Represents(hash, shards, t) && i < |shards| && Route(hash, |shards|, key) == i
    requires ShardOk(hash, |shards|, i, s)
    requires forall k :: CellIn(s.rows, k) == if k == key then c else CellIn(shards[i].rows, k)
    ensures Represents(hash, shards[i := s], Put(t, key, c))
  {
    hide CellIn, ShardOk, Route;
    var shards' := shards[i := s];
    assert forall j | 0 <= j < |shards'| :: ShardOk(hash, |shards'|, j, shards'[j]);
    forall k
      ensures CellOf(hash, shards', k) == Get(Put(t, key, c), k)
    {
      assert CellOf(hash, shards, k) == Get(t, k);
    }
  }

  /** Erasing a row removes its key from the table. */
  lemma EraseRepresents(hash: Hash, shards: seq<Shard>, t: Table, i: nat, p: nat)
    requires Represents(hash, shards, t) && i < |shards| && p < |shards[i].rows|
    ensures var s := shards[i];
            var key := s.rows[p].key;
            && RowMemory(s.rows[p]) <= s.memory
            && Represents(hash, shards[i := Shard(EraseAt(s.rows, p), s.memory - RowMemory(s.rows[p]), s.cursor)], Put(t, key, None))
  {
    hide CellIn, RowMemory, Route, RowsMemory;
    var s := shards[i];
    assert ShardOk(hash, |shards|, i, s);
    MemoryAt(s.rows, p);
    var rows := EraseAt(s.rows, p);
    forall k
      ensures CellIn(rows, k) == if k == s.rows[p].key then None else CellIn(s.rows, k)
    {
      EraseRow(s.rows, p, k);
    }
    EraseRow(s.rows, p, "");
    SetShard(hash, shards, t, i, Shard(rows, RowsMemory(rows), s.cursor), s.rows[p].key, None);
  }

  lemma ReplaceRepresents(hash: Hash, shards: seq<Shard>, t: Table, i: nat, p: nat, e: Entry)
    requires Represents(hash, shards, t) && i < |shards| && p < |shards[i].rows|
    ensures var s := shards[i];
            var r := Row(s.rows[p].key, e);
            && RowMemory(s.rows[p]) <= s.memory
            && Represents(hash, shards[i := Shard(s.rows[p := r], s.memory - RowMemory(s.rows[p]) + RowMemory(r), s.cursor)],
                          Put(t, r.key, Some(e)))
  {
    hide CellIn, RowMemory, Route, RowsMemory;
    var s := shards[i];
    assert ShardOk(hash, |shards|, i, s);
    MemoryAt(s.rows, p);
    var rows := s.rows[p := Row(s.rows[p].key, e)];
    forall k
      ensures CellIn(rows, k) == if k == s.rows[p].key then Some(e) else CellIn(s.rows, k)
    {
      ReplaceRow(s.rows, p, e, k);
    }
    ReplaceRow(s.rows, p, e, "");
    SetShard(hash, shards, t, i, Shard(rows, RowsMemory(rows), s.cursor), s.rows[p].key, Some(e));
  }

  lemma InsertRepresents(hash: Hash, shards: seq<Shard>, t: Table, i: nat, p: nat, r: Row)
    requires Represents(hash, shards, t) && i < |shards| && p <= |shards[i].rows|
    requires Route(hash, |shards|, r.key) == i && Find(shards[i].rows, r.key).None?
    ensures var s := shards[i];
            Represents(hash, shards[i := Shard(InsertAt(s.rows, p, r), s.memory + RowMemory(r), s.cursor)],
                       Put(t, r.key, Some(r.entry)))
  {
    hide CellIn, RowMemory, Route, RowsMemory;
    var s := shards[i];
    assert ShardOk(hash, |shards|, i, s);
    MemoryInsert(s.rows, p, r);
    var rows := InsertAt(s.rows, p, r);
    forall k
      ensures CellIn(rows, k) == if k == r.key then Some(r.entry) else CellIn(s.rows, k)
    {
      InsertRow(s.rows, p, r, k);
    }
    InsertRow(s.rows, p, r, "");
    SetShard(hash, shards, t, i, Shard(rows, RowsMemory(rows), s.cursor), r.key, Some(r.entry));
  }
}
