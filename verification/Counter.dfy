/** Counters: any sequence of INCR and DECR keeps the exact sum. */
module Counter {
  import opened Wrappers
  import opened Decimal
  import opened Store
  import opened Budget
  import opened Shards
  import opened Engine

  /** The value after one step: the true sum, unless that leaves 64 bits. */
  function Stepped(n: int, delta: int64): int {
    if InI64(n + delta as int) then n + delta as int else n
  }

  /** The value after a sequence of steps. */
  function Sum(n: int, deltas: seq<int64>): int {
    if deltas == [] then n
    else Stepped(Sum(n, deltas[..|deltas| - 1]), deltas[|deltas| - 1])
  }

  lemma SumNone(n: int, deltas: seq<int64>)
    ensures Sum(n, deltas[..0]) == n
  {
  }

  lemma SumNext(n: int, deltas: seq<int64>, i: nat)
    requires i < |deltas|
    ensures Sum(n, deltas[..i + 1]) == Stepped(Sum(n, deltas[..i]), deltas[i])
  {
    assert deltas[..i + 1][..i] == deltas[..i];
  }

  /** The key is missing and counts as zero, or holds the decimal text of n and does not expire. */
  predicate Holds(c: Cell, n: int) {
    InI64(n) && (c == Some(Entry(IntText(n), None)) || (c.None? && n == 0))
  }

  /** One step on a counter: the exact sum, or a refusal that changes nothing. */
  lemma CountStep(l: Limits, k: string, c: Cell, n: int, delta: int)
    requires Holds(c, n) && |k| <= l.maxKey && l.maxValue >= 20
    ensures var w := IncrCell(l, k, c, delta);
            if InI64(n + delta) then w.code.Stored? && w.integer == n + delta && w.cell == Some(Entry(IntText(n + delta), None))
            else w.code.Overflow?
  {
    I64RoundTrip(n);
    if InI64(n + delta) { I64Width(n + delta); }
  }

  /** No limit, or room for the longest counter at this key beside everything else stored. */
  ghost predicate Room(limit: nat, t: Table, key: string) {
    limit == 0 || Bytes(Put(t, key, None)) + ENTRY_OVERHEAD + |key| + 20 <= limit
  }

  /** Whatever integer the counter takes, it fits, and leaves as much room as before. */
  lemma RoomKept(limit: nat, t: Table, key: string, n: int)
    requires Room(limit, t, key) && InI64(n)
    ensures var u := Put(t, key, Some(Entry(IntText(n), None))); Affordable(limit, u) && Room(limit, u, key)
  {
    hide Bytes, IntText;
    I64Width(n);
    var c := Some(Entry(IntText(n), None));
    var rest, u := Put(t, key, None), Put(t, key, c);
    assert Put(rest, key, c) == u && Put(u, key, None) == rest;
    BytesPut(rest, key, c);
  }

  /** A counter is never purged. */
  lemma CounterKept(t: Table, key: string, n: int, now: int)
    requires Holds(Store.Get(t, key), n)
    ensures Purged(t, key, now) == t && Look(t, key, now) == Store.Get(t, key)
  {
    if key !in t { assert t - {key} == t; }
  }

  /** What a step must answer when the value before it is n. */
  predicate StepAnswer(n: int, delta: int64, code: WriteCode, value: int64) {
    if InI64(n + delta as int) then code.Stored? && value as int == n + delta as int else code.Overflow?
  }

  method CountOne(engine: StorageEngine, key: string, delta: int64, now: int, ghost n: int)
    returns (code: WriteCode, value: int64)
    requires engine.Valid() && Room(engine.maxMemory, engine.table, key)
    requires |key| <= engine.limits.maxKey && engine.limits.maxValue >= 20 && Holds(Store.Get(engine.table, key), n)
    modifies engine
    ensures engine.Valid() && Room(engine.maxMemory, engine.table, key)
    ensures Holds(Store.Get(engine.table, key), Stepped(n, delta))
    ensures StepAnswer(n, delta, code, value)
  {
    hide Sized, Represents, Ledger, IncrCell, IntText, Bytes, Room, Purged, Look;
    ghost var t := engine.table;
    CounterKept(t, key, n, now);
    CountStep(engine.limits, key, Look(t, key, now), n, delta as int);
    RoomKept(engine.maxMemory, t, key, Stepped(n, delta));
    code, value := engine.IncrBy(key, delta, now);
  }

  /** Any sequence of increments by any 64-bit deltas, at any times, on a counter without expiry and with
      room for it: each step returns the exact sum or is refused exactly when the true sum leaves 64 bits,
      and the stored text is that of the running sum. */
  method CountAll(engine: StorageEngine, key: string, deltas: seq<int64>, times: seq<int>, ghost n: int)
    returns (codes: seq<WriteCode>, values: seq<int64>)
    requires engine.Valid() && Room(engine.maxMemory, engine.table, key) && |times| == |deltas|
    requires |key| <= engine.limits.maxKey && engine.limits.maxValue >= 20 && Holds(Store.Get(engine.table, key), n)
    modifies engine
    ensures engine.Valid() && Holds(Store.Get(engine.table, key), Sum(n, deltas))
    ensures |codes| == |values| == |deltas|
    ensures forall i | 0 <= i < |deltas| :: StepAnswer(Sum(n, deltas[..i]), deltas[i], codes[i], values[i])
  {
    hide Sized, Represents, Ledger, Holds, StepAnswer, Sum, Stepped, Room;
    codes, values := [], [];
    SumNone(n, deltas);
    for i := 0 to |deltas|
      invariant engine.Valid() && Room(engine.maxMemory, engine.table, key) && |codes| == |values| == i
      invariant Holds(Store.Get(engine.table, key), Sum(n, deltas[..i]))
      invariant forall j | 0 <= j < i :: StepAnswer(Sum(n, deltas[..j]), deltas[j], codes[j], values[j])
    {
      var code, value := CountOne(engine, key, deltas[i], times[i], Sum(n, deltas[..i]));
      SumNext(n, deltas, i);
      codes, values := codes + [code], values + [value];
    }
    assert deltas[..|deltas|] == deltas;
  }
}
