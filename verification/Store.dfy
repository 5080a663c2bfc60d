/** One plain map with expiry times, read as if every entry vanished at its expiry. This is what the
    sharded engine refines and what the command, log and recovery theorems are about. Times are whole
    milliseconds. */
module Store {
  import opened Wrappers
  import opened Decimal

  const ENTRY_OVERHEAD: nat := 96

  datatype Limits = Limits(maxKey: nat, maxValue: nat)

  datatype Entry = Entry(value: string, expiry: Option<int>)

  type Table = map<string, Entry>

  /** What one key holds. */
  type Cell = Option<Entry>

  /** What an entry counts for against the memory limit. */
  function EntryMemory(key: string, value: string): nat {
    ENTRY_OVERHEAD + |key| + |value|
  }

  predicate Expired(e: Entry, now: int) {
    e.expiry.Some? && e.expiry.value <= now
  }

  function Alive(c: Cell, now: int): Cell {
    if c.Some? && Expired(c.value, now) then None else c
  }

  function Get(t: Table, k: string): Cell {
    if k in t then Some(t[k]) else None
  }

  /** What a reader sees at a key. */
  function Look(t: Table, k: string, now: int): Cell {
    Alive(Get(t, k), now)
  }

  function Put(t: Table, k: string, c: Cell): Table {
    match c
    case None => t - {k}
    case Some(e) => t[k := e]
  }

  /** Two tables no reader can tell apart at a time: same keys, values and expiries. */
  ghost predicate Same(t: Table, u: Table, now: int) {
    forall k :: Look(t, k, now) == Look(u, k, now)
  }

  lemma AliveLater(c: Cell, now: int, at: int)
    requires now <= at
    ensures Alive(Alive(c, now), at) == Alive(c, at)
  {
  }

  /** Tables that read the same now read the same ever after. */
  lemma SameLater(t: Table, u: Table, now: int, at: int)
    requires Same(t, u, now) && now <= at
    ensures Same(t, u, at)
  {
    forall k
      ensures Look(t, k, at) == Look(u, k, at)
    {
      AliveLater(Get(t, k), now, at);
      AliveLater(Get(u, k), now, at);
      assert Look(t, k, now) == Look(u, k, now);
    }
  }

  lemma LookPut(t: Table, k: string, c: Cell, j: string, now: int)
    ensures Look(Put(t, k, c), j, now) == if j == k then Alive(c, now) else Look(t, j, now)
  {
  }

  lemma PutSame(t: Table, u: Table, k: string, c: Cell, d: Cell, now: int)
    requires Same(t, u, now)
    ensures Same(Put(t, k, c), Put(u, k, d), now) <==> Alive(c, now) == Alive(d, now)
  {
    LookPut(t, k, c, k, now);
    LookPut(u, k, d, k, now);
    if Alive(c, now) == Alive(d, now) {
      forall j
        ensures Look(Put(t, k, c), j, now) == Look(Put(u, k, d), j, now)
      {
        LookPut(t, k, c, j, now);
        LookPut(u, k, d, j, now);
        assert Look(t, j, now) == Look(u, j, now);
      }
    }
  }

  lemma PutSameAs(t: Table, u: Table, k: string, c: Cell, now: int)
    requires Same(t, u, now)
    ensures Same(Put(t, k, c), u, now) <==> Alive(c, now) == Look(u, k, now)
  {
    LookPut(t, k, c, k, now);
    if Alive(c, now) == Look(u, k, now) {
      forall j
        ensures Look(Put(t, k, c), j, now) == Look(u, j, now)
      {
        LookPut(t, k, c, j, now);
        assert Look(t, j, now) == Look(u, j, now);
      }
    }
  }

  /** Erasing what no reader sees changes nothing. */
  lemma EraseUnseen(t: Table, k: string, now: int)
    requires Look(t, k, now).None?
    ensures Same(Put(t, k, None), t, now)
  {
    forall j
      ensures Look(Put(t, k, None), j, now) == Look(t, j, now)
    {
      LookPut(t, k, None, j, now);
    }
  }

  lemma SameTrans(t: Table, u: Table, v: Table, now: int)
    requires Same(t, u, now) && Same(u, v, now)
    ensures Same(t, v, now)
  {
    forall k
      ensures Look(t, k, now) == Look(v, k, now)
    {
      assert Look(t, k, now) == Look(u, k, now);
      assert Look(u, k, now) == Look(v, k, now);
    }
  }

  /** Tables with the same cells are the same table. */
  lemma SameMaps(t: Table, u: Table)
    requires forall k :: Get(t, k) == Get(u, k)
    ensures t == u
  {
    assert forall k :: (k in t <==> Get(t, k).Some?) && (k in u <==> Get(u, k).Some?);
    assert forall k | k in t :: Get(t, k) == Some(t[k]) && Get(u, k) == Some(u[k]);
  }

  function LiveKeys(t: Table, now: int): set<string> {
    set k | k in t && Look(t, k, now).Some?
  }

  function ExpiringKeys(t: Table, now: int): set<string> {
    set k | k in t && Look(t, k, now).Some? && t[k].expiry.Some?
  }

  lemma SameKeys(t: Table, u: Table, now: int)
    requires Same(t, u, now)
    ensures LiveKeys(t, now) == LiveKeys(u, now) && ExpiringKeys(t, now) == ExpiringKeys(u, now)
  {
    assert forall k :: Look(t, k, now) == Look(u, k, now);
  }

  datatype Ttl = Missing | NoExpiry | HasExpiry(milliseconds: int)

  function TtlOf(c: Cell, now: int): Ttl {
    match c
    case None => Missing
    case Some(e) => if e.expiry.None? then NoExpiry else HasExpiry(e.expiry.value - now)
  }

  // --- Listings -------------------------------------------------------------------------------

  /** One live key as the engine's snapshot() lists it. */
  datatype Item = Item(key: string, value: string, expiry: Option<int>)

  function ItemCell(e: Item): Cell {
    Some(Entry(e.value, e.expiry))
  }

  /** The table a list of items describes. */
  function Listed(items: seq<Item>): Table {
    if items == [] then map[]
    else
      var last := items[|items| - 1];
      Put(Listed(items[..|items| - 1]), last.key, ItemCell(last))
  }

  /** A listing, in any order, of what a reader of the table sees at `now`. */
  ghost predicate Lists(items: seq<Item>, t: Table, now: int) {
    Same(Listed(items), t, now) && forall e | e in items :: Look(t, e.key, now) == ItemCell(e)
  }

  // --- What each storage operation does to a live cell ----------------------------------------

  datatype WriteCode = Stored | NotSet | NoMemory | KeyTooLarge | ValueTooLarge | InvalidInteger | Overflow

  datatype Condition = Always | NX | XX

  /** Result of a write: a code, the cell to store when the code is Stored, and the integer returned. */
  datatype Written = Written(code: WriteCode, cell: Cell, integer: int)

  function Refuse(code: WriteCode): Written {
    Written(code, None, 0)
  }

  function SetCell(l: Limits, k: string, c: Cell, v: string, expiry: Option<int>, cond: Condition): (w: Written)
    ensures w.code.Stored? ==> w.cell == Some(Entry(v, expiry)) && |k| <= l.maxKey && |v| <= l.maxValue
    ensures !w.code.Overflow? && !w.code.InvalidInteger? && !w.code.NoMemory?
  {
    if |k| > l.maxKey then Refuse(KeyTooLarge)
    else if |v| > l.maxValue then Refuse(ValueTooLarge)
    else if (cond.NX? && c.Some?) || (cond.XX? && c.None?) then Refuse(NotSet)
    else Written(Stored, Some(Entry(v, expiry)), 0)
  }

  /** The integer a counter cell stands for: a missing key counts as zero. */
  function CounterValue(c: Cell): Option<int> {
    match c
    case None => Some(0)
    case Some(e) => ParseI64Exact(e.value)
  }

  function IncrCell(l: Limits, k: string, c: Cell, delta: int): (w: Written) {
    if |k| > l.maxKey then Refuse(KeyTooLarge)
    else
      match CounterValue(c)
      case None => Refuse(InvalidInteger)
      case Some(current) =>
        if !InI64(current + delta) then Refuse(Overflow)
        else if |IntText(current + delta)| > l.maxValue then Refuse(ValueTooLarge)
        else Written(Stored, Some(Entry(IntText(current + delta), None)), current + delta)
  }

  function TextValue(c: Cell): string {
    if c.Some? then c.value.value else ""
  }

  function AppendCell(l: Limits, k: string, c: Cell, suffix: string): (w: Written) {
    var next := TextValue(c) + suffix;
    if |k| > l.maxKey then Refuse(KeyTooLarge)
    else if |next| > l.maxValue then Refuse(ValueTooLarge)
    else Written(Stored, Some(Entry(next, None)), |next|)
  }

  /** expire_at on a live cell: the new cell, or nothing to do. */
  function ExpireAtCell(c: Cell, when: int, now: int): Option<Cell> {
    match c
    case None => None
    case Some(e) => if when <= now then Some(None) else Some(Some(e.(expiry := Some(when))))
  }

  function ExpireCell(c: Cell, ttl: int, now: int): Option<Cell> {
    if ttl <= 0 then (if c.Some? then Some(None) else None)
    else ExpireAtCell(c, now + ttl, now)
  }

  function PersistCell(c: Cell): Option<Cell> {
    if c.Some? && c.value.expiry.Some? then Some(Some(c.value.(expiry := None))) else None
  }
}
