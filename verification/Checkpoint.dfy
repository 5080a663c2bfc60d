/** Snapshots and log compaction: both write one SET, and possibly one PEXPIREAT, per live key. */
module Checkpoint {
  import opened Wrappers
  import opened Decimal
  import opened Text
  import opened Store
  import opened Commands
  import opened Replay

  function DumpOne(e: Item): seq<seq<string>> {
    [["SET", e.key, e.value]] + Logged(if e.expiry.Some? then Some(["PEXPIREAT", e.key, IntText(e.expiry.value)]) else None)
  }

  /** The commands a snapshot or a rewritten log holds. */
  function Dump(items: seq<Item>): seq<seq<string>> {
    if items == [] then [] else Dump(items[..|items| - 1]) + DumpOne(items[|items| - 1])
  }

  predicate BoundedItem(l: Limits, e: Item) {
    |e.key| <= l.maxKey && |e.value| <= l.maxValue && (e.expiry.Some? ==> InI64(e.expiry.value))
  }

  predicate BoundedItems(l: Limits, items: seq<Item>) {
    forall e | e in items :: BoundedItem(l, e)
  }

  // --- The snapshot loader --------------------------------------------------------------------

  /** One command of a snapshot file: only plain SET and PEXPIREAT are accepted, and whether
      PEXPIREAT found its key is ignored. */
  function LoadOne(l: Limits, t: Table, at: int, args: seq<string>): Option<Table> {
    if |args| == 3 && args[0] == "SET" then
      var w := SetCell(l, args[1], Look(t, args[1], at), args[2], None, Always);
      if w.code.Stored? then Some(Put(t, args[1], w.cell)) else None
    else if |args| == 3 && args[0] == "PEXPIREAT" then
      match ParseI64(args[2])
      case None => None
      case Some(when) =>
        var c := ExpireAtCell(Look(t, args[1], at), when, at);
        Some(if c.Some? then Put(t, args[1], c.value) else t)
    else None
  }

  function LoadNext(l: Limits, t: Option<Table>, at: int, args: seq<string>): Option<Table> {
    if t.None? then None else LoadOne(l, t.value, at, args)
  }

  function LoadLog(l: Limits, start: Option<Table>, at: int, commands: seq<seq<string>>): Option<Table> {
    if commands == [] then start
    else LoadNext(l, LoadLog(l, start, at, commands[..|commands| - 1]), at, commands[|commands| - 1])
  }

  /** The commands a dump uses mean the same to the loader and to the replay. */
  predicate DumpCommand(args: seq<string>) {
    |args| == 3 && (args[0] == "SET" || (args[0] == "PEXPIREAT" && ParseI64(args[2]).Some?))
  }

  lemma LoadIsReplay(l: Limits, t: Table, at: int, args: seq<string>)
    requires DumpCommand(args)
    ensures LoadOne(l, t, at, args) == ReplayOne(l, t, at, args)
  {
    RecordNames();
    if args[0] == "SET" {
      assert SetPlan(args) == Ok(NO_OPTIONS);
      assert Exec(l, t, at, args) == ExecKeyed(l, t, at, args);
    } else {
      assert "SET"[0] != "PEXPIREAT"[0];
      assert Exec(l, t, at, args) == ExecKeyed(l, t, at, args);
    }
  }

  lemma {:induction false} LoadLogIsReplayLog(l: Limits, start: Option<Table>, at: int, commands: seq<seq<string>>)
    requires forall args | args in commands :: DumpCommand(args)
    ensures LoadLog(l, start, at, commands) == ReplayLog(l, start, at, commands)
  {
    if commands != [] {
      hide LoadOne, ReplayOne;
      var front, last := commands[..|commands| - 1], commands[|commands| - 1];
      LoadLogIsReplayLog(l, start, at, front);
      var t := LoadLog(l, start, at, front);
      if t.Some? {
        LoadIsReplay(l, t.value, at, last);
      }
    }
  }

  lemma {:induction false} DumpCommands(l: Limits, items: seq<Item>)
    requires BoundedItems(l, items)
    ensures forall args | args in Dump(items) :: DumpCommand(args)
  {
    if items != [] {
      var last := items[|items| - 1];
      DumpCommands(l, items[..|items| - 1]);
      assert BoundedItem(l, last);
      if last.expiry.Some? {
        I64ArgRoundTrip(last.expiry.value);
      }
    }
  }

  // --- Meaning --------------------------------------------------------------------------------

  lemma PlainSet(l: Limits, t: Table, at: int, k: string, v: string)
    requires |k| <= l.maxKey && |v| <= l.maxValue
    ensures ReplayOne(l, t, at, ["SET", k, v]) == Some(Put(t, k, Some(Entry(v, None))))
  {
    LoadIsReplay(l, t, at, ["SET", k, v]);
  }

  lemma PlainExpireAt(l: Limits, t: Table, at: int, k: string, when: int)
    requires InI64(when) && Look(t, k, at).Some?
    ensures ReplayOne(l, t, at, ["PEXPIREAT", k, IntText(when)]) ==
            Some(Put(t, k, ExpireAtCell(Look(t, k, at), when, at).value))
  {
    I64ArgRoundTrip(when);
    LoadIsReplay(l, t, at, ["PEXPIREAT", k, IntText(when)]);
  }

  /** Replaying what is dumped for one item gives its key exactly that cell. */
  lemma ReplayDumpOne(l: Limits, t: Table, u: Table, at: int, e: Item)
    requires BoundedItem(l, e) && Same(t, u, at)
    ensures Reads(ReplayLog(l, Some(u), at, DumpOne(e)), Put(t, e.key, ItemCell(e)), at)
  {
    hide ReplayOne;
    var plain := Some(Entry(e.value, None));
    var u1 := Put(u, e.key, plain);
    PlainSet(l, u, at, e.key, e.value);
    assert DumpOne(e) == [] + Logged(Some(["SET", e.key, e.value])) + DumpOne(e)[1..];
    ReplayLogged(l, Some(u), at, [], Some(["SET", e.key, e.value]));
    if e.expiry.Some? {
      var when := e.expiry.value;
      var r := ["PEXPIREAT", e.key, IntText(when)];
      ReplayLogged(l, Some(u), at, [["SET", e.key, e.value]], Some(r));
      LookPut(u, e.key, plain, e.key, at);
      PlainExpireAt(l, u1, at, e.key, when);
      var c := ExpireAtCell(plain, when, at).value;
      PutSame(t, u, e.key, ItemCell(e), c, at);
      PutTwice(u, e.key, plain, c);
    } else {
      assert DumpOne(e) == [["SET", e.key, e.value]];
      PutSame(t, u, e.key, ItemCell(e), plain, at);
    }
  }

  lemma PutTwice(t: Table, k: string, c: Cell, d: Cell)
    ensures Put(Put(t, k, c), k, d) == Put(t, k, d)
  {
  }

  lemma {:induction false} ReplaySplit(l: Limits, start: Option<Table>, at: int, log: seq<seq<string>>, more: seq<seq<string>>)
    ensures ReplayLog(l, start, at, log + more) == ReplayLog(l, ReplayLog(l, start, at, log), at, more)
    decreases |more|
  {
    if more == [] {
      assert log + more == log;
    } else {
      hide ReplayNext;
      var front, last := more[..|more| - 1], more[|more| - 1];
      ReplaySplit(l, start, at, log, front);
      ReplayLast(l, start, at, log + front, last);
      assert log + more == log + front + [last];
    }
  }

  lemma ReplayLast(l: Limits, start: Option<Table>, at: int, log: seq<seq<string>>, last: seq<string>)
    ensures ReplayLog(l, start, at, log + [last]) == ReplayNext(l, ReplayLog(l, start, at, log), at, Some(last))
  {
    hide ReplayNext;
    ReplayLogged(l, start, at, log, Some(last));
  }

  lemma {:induction false} ReplayDump(l: Limits, items: seq<Item>, at: int)
    requires BoundedItems(l, items)
    ensures Reads(ReplayLog(l, Some(map[]), at, Dump(items)), Listed(items), at)
  {
    if items != [] {
      var front, last := items[..|items| - 1], items[|items| - 1];
      ReplayDump(l, front, at);
      ReplaySplit(l, Some(map[]), at, Dump(front), DumpOne(last));
      var u := ReplayLog(l, Some(map[]), at, Dump(front)).value;
      ReplayDumpOne(l, Listed(front), u, at, last);
    }
  }

  /** Compaction preserves meaning: whatever history led to the table, replaying the rewritten log at
      any later time gives what a reader then sees. */
  lemma CompactionFaithful(l: Limits, t: Table, now: int, items: seq<Item>, at: int)
    requires Lists(items, t, now) && now <= at && BoundedItems(l, items)
    ensures Reads(ReplayLog(l, Some(map[]), at, Dump(items)), t, at)
  {
    ReplayDump(l, items, at);
    SameLater(Listed(items), t, now, at);
  }

  /** The same for loading a snapshot. */
  lemma SnapshotFaithful(l: Limits, t: Table, now: int, items: seq<Item>, at: int)
    requires Lists(items, t, now) && now <= at && BoundedItems(l, items)
    ensures Reads(LoadLog(l, Some(map[]), at, Dump(items)), t, at)
  {
    CompactionFaithful(l, t, now, items, at);
    DumpCommands(l, items);
    LoadLogIsReplayLog(l, Some(map[]), at, Dump(items));
  }

  // --- Stored entries stay within the limits --------------------------------------------------

  predicate BoundedCell(l: Limits, k: string, c: Cell) {
    c.Some? ==> BoundedItem(l, Item(k, c.value.value, c.value.expiry))
  }

  /** Every stored entry could be stored again. */
  predicate BoundedTable(l: Limits, t: Table) {
    forall k | k in t :: BoundedCell(l, k, Some(t[k]))
  }

  /** A listing of a bounded table is bounded. */
  lemma ListingBounded(l: Limits, items: seq<Item>, t: Table, now: int)
    requires BoundedTable(l, t) && Lists(items, t, now)
    ensures BoundedItems(l, items)
  {
    forall e | e in items
      ensures BoundedItem(l, e)
    {
      assert Look(t, e.key, now) == ItemCell(e);
    }
  }

  lemma CellStaysBounded(l: Limits, c: Cell, now: int, args: seq<string>)
    requires |args| >= 2 && IsKeyed(VerbOf(args[0])) && InRange(args, now)
    requires BoundedCell(l, args[1], c)
    requires ExecCell(l, c, now, args).record.Some?
    ensures BoundedCell(l, args[1], ExecCell(l, c, now, args).cell)
  {
    hide VerbOf, SetPlan, IntText, TtlArg, ParseI64, ParseI64Exact;
    if VerbOf(args[0]) in {EXPIRE, PEXPIRE, PEXPIREAT} {
      ExpireRecord(l, c, now, args);
    }
  }

  lemma BoundedPut(l: Limits, t: Table, k: string, c: Cell)
    requires BoundedTable(l, t) && BoundedCell(l, k, c)
    ensures BoundedTable(l, Put(t, k, c))
  {
    hide BoundedItem;
  }

  lemma KeyedStaysBounded(l: Limits, t: Table, now: int, args: seq<string>)
    requires |args| >= 1 && IsKeyed(VerbOf(args[0])) && BoundedTable(l, t) && InRange(args, now)
    ensures BoundedTable(l, ExecKeyed(l, t, now, args).table)
  {
    hide VerbOf, ExecCell, InRange, BoundedItem;
    if |args| >= 2 {
      var c := Look(t, args[1], now);
      var e := ExecCell(l, c, now, args);
      if e.record.Some? {
        CellStaysBounded(l, c, now, args);
        BoundedPut(l, t, args[1], e.cell);
      }
    }
  }

  lemma {:induction false} DelStaysBounded(l: Limits, t: Table, now: int, args: seq<string>, i: nat)
    requires i <= |args| && BoundedTable(l, t)
    ensures BoundedTable(l, DelKeys(t, now, args, i).0)
    decreases |args| - i
  {
    if i < |args| {
      DelStaysBounded(l, if Look(t, args[i], now).None? then t else Put(t, args[i], None), now, args, i + 1);
    }
  }

  lemma {:induction false} MsetStaysBounded(l: Limits, t: Table, args: seq<string>, i: nat)
    requires i <= |args| && (|args| - i) % 2 == 0 && BoundedTable(l, t)
    ensures BoundedTable(l, SetPairs(l, t, args, i).1)
    decreases |args| - i
  {
    if i < |args| {
      var w := SetCell(l, args[i], None, args[i + 1], None, Always);
      if w.code.Stored? {
        MsetStaysBounded(l, Put(t, args[i], w.cell), args, i + 2);
      }
    }
  }

  /** Every request keeps the stored entries within the limits, so a dump always reloads. */
  lemma ExecStaysBounded(l: Limits, t: Table, now: int, args: seq<string>)
    requires BoundedTable(l, t) && InRange(args, now)
    ensures BoundedTable(l, Exec(l, t, now, args).table)
  {
    if args != [] {
      hide ExecKeyed, InRange, BoundedTable, DelKeys, SetPairs;
      match VerbOf(args[0])
      case DEL => DelStaysBounded(l, t, now, args, 1);
      case MSET =>
        if |args| >= 3 && |args| % 2 == 1 {
          MsetStaysBounded(l, t, args, 1);
        }
      case FLUSHDB => BoundedEmpty(l);
      case READ(_) =>
      case OTHER =>
      case _ => KeyedStaysBounded(l, t, now, args);
    }
  }

  lemma BoundedEmpty(l: Limits)
    ensures BoundedTable(l, map[])
  {
  }

  // --- Records stay within the limits ---------------------------------------------------------

  /** A record computes nothing out of range, whenever it is replayed. */
  ghost predicate Ranged(record: seq<string>) {
    forall at :: InRange(record, at)
  }

  ghost predicate AllRanged(log: seq<seq<string>>) {
    forall record | record in log :: Ranged(record)
  }

  lemma SetRecordRanged(k: string, v: string, expiry: Option<int>)
    requires expiry.Some? ==> 0 < expiry.value <= I64_MAX
    ensures Ranged(SetRecord(k, v, expiry))
  {
    hide ParseI64, IntText;
    var r := SetRecord(k, v, expiry);
    RecordNames();
    SetRecordPlan(k, v, expiry);
    forall at
      ensures InRange(r, at)
    {
      if expiry.Some? {
        assert r[3] == "PXAT";
        assert OptionsInRange(r, 5, Plan(Always, None, ParseI64(r[4]))) by { assert |r| == 5; }
      }
    }
  }

  lemma CellRecordRanged(l: Limits, c: Cell, now: int, args: seq<string>)
    requires |args| >= 2 && IsKeyed(VerbOf(args[0])) && InRange(args, now) && ExecCell(l, c, now, args).record.Some?
    ensures Ranged(ExecCell(l, c, now, args).record.value)
  {
    RecordNames();
    hide ParseI64, IntText, TtlArg, SetPlan, VerbOf, OptionsInRange;
    if VerbOf(args[0]) == SET {
      SetRecordRanged(args[1], args[2], PlanExpiry(SetPlan(args).value, now));
    }
  }

  /** Whatever a request within range logs is within range at every replay. */
  lemma RecordRanged(l: Limits, t: Table, now: int, args: seq<string>)
    requires InRange(args, now) && Exec(l, t, now, args).record.Some?
    ensures Ranged(Exec(l, t, now, args).record.value)
  {
    hide ExecCell, DelKeys, SetPairs, SetPlan, OptionsInRange, TtlInRange;
    if IsKeyed(VerbOf(args[0])) {
      CellRecordRanged(l, Look(t, args[1], now), now, args);
    }
  }

  lemma {:induction false} DumpRanged(items: seq<Item>)
    ensures AllRanged(Dump(items))
  {
    if items != [] {
      hide Ranged;
      var front, last := items[..|items| - 1], items[|items| - 1];
      DumpRanged(front);
      SetRecordRanged(last.key, last.value, None);
      ExpireRecordRanged(last.key, IntText(if last.expiry.Some? then last.expiry.value else 0));
    }
  }

  lemma ExpireRecordRanged(k: string, text: string)
    ensures Ranged(["PEXPIREAT", k, text])
  {
    RecordNames();
  }

  lemma {:induction false} ReplayStaysBounded(l: Limits, start: Option<Table>, at: int, log: seq<seq<string>>)
    requires AllRanged(log) && (start.Some? ==> BoundedTable(l, start.value))
    ensures var r := ReplayLog(l, start, at, log); r.Some? ==> BoundedTable(l, r.value)
  {
    if log != [] {
      hide Exec, BoundedTable, InRange;
      var front, last := log[..|log| - 1], log[|log| - 1];
      ReplayStaysBounded(l, start, at, front);
      var t := ReplayLog(l, start, at, front);
      assert last in log;
      if t.Some? {
        assert InRange(last, at) by { assert Ranged(last); }
        ExecStaysBounded(l, t.value, at, last);
      }
    }
  }

  lemma LoadOneBounded(l: Limits, t: Table, at: int, args: seq<string>)
    requires BoundedTable(l, t) && LoadOne(l, t, at, args).Some?
    ensures BoundedTable(l, LoadOne(l, t, at, args).value)
  {
    hide ParseI64;
    if args[0] == "SET" {
      BoundedPut(l, t, args[1], Some(Entry(args[2], None)));
    } else {
      var c := ExpireAtCell(Look(t, args[1], at), ParseI64(args[2]).value, at);
      if c.Some? { BoundedPut(l, t, args[1], c.value); }
    }
  }

  lemma {:induction false} LoadStaysBounded(l: Limits, start: Option<Table>, at: int, commands: seq<seq<string>>)
    requires start.Some? ==> BoundedTable(l, start.value)
    ensures var r := LoadLog(l, start, at, commands); r.Some? ==> BoundedTable(l, r.value)
  {
    if commands != [] {
      hide LoadOne, BoundedTable;
      LoadStaysBounded(l, start, at, commands[..|commands| - 1]);
      var t := LoadLog(l, start, at, commands[..|commands| - 1]);
      if t.Some? && LoadOne(l, t.value, at, commands[|commands| - 1]).Some? {
        LoadOneBounded(l, t.value, at, commands[|commands| - 1]);
      }
    }
  }

  /** The pairs an MSET had stored when the memory ran out were within the limits. */
  lemma {:induction false} PairsStayBounded(l: Limits, t: Table, args: seq<string>, i: nat, j: nat)
    requires BoundedTable(l, t) && i <= |args| && (|args| - i) % 2 == 0 && (j - i) % 2 == 0 && i <= j <= FirstRefused(l, args, i)
    ensures BoundedTable(l, PutPairs(t, args, i, j))
    decreases j - i
  {
    if i < j {
      BoundedPut(l, t, args[i], Some(Entry(args[i + 1], None)));
      hide BoundedTable;
      PairsStayBounded(l, Put(t, args[i], Some(Entry(args[i + 1], None))), args, i + 2, j);
    }
  }

  lemma KeptStaysBounded(l: Limits, t: Table, args: seq<string>, upto: nat)
    requires BoundedTable(l, t)
    ensures BoundedTable(l, KeptPairs(l, t, args, upto))
  {
    hide BoundedTable, PutPairs;
    if upto != 1 && Keepable(l, args, upto) {
      PairsStayBounded(l, t, args, 1, upto);
    }
  }
}
