/** A crash between the snapshot and the manifest of a SAVE that found a manifest: the new snapshot is
    then read with the old position, so the commands between the two SAVEs are replayed twice. When that
    is harmless, exactly, and for which commands it always is. */
module Crash {
  import opened Wrappers
  import opened Store
  import opened Commands
  import opened Replay
  import opened Congruence
  import opened Checkpoint
  import opened Node

  /** The log after the position the manifest names. */
  function TailOf(n: Node): seq<seq<string>>
    requires n.mark.Some? && n.mark.value.position <= |n.log|
  {
    n.log[n.mark.value.position..]
  }

  /** The crash loses nothing if and only if replaying the commands since the last SAVE once more, on top
      of the table they led to, changes nothing for readers. */
  lemma SecondSaveCrash(l: Limits, n: Node, now: int, items: seq<Item>, at: int)
    requires Sound(l, n) && n.mark.Some? && Lists(items, n.table, now) && now <= at
    ensures Reads(Recover(l, CrashPoints(l, n, Save(now, items))[1], at), n.table, at) <==>
            Reads(ReplayLog(l, Some(n.table), at, TailOf(n)), n.table, at)
  {
    hide BoundedTable, Ranged, ReplayLog, LoadLog;
    ListingBounded(l, items, n.table, now);
    SnapshotFaithful(l, n.table, now, items, at);
    var s, tail := LoadLog(l, Some(map[]), at, Dump(items)).value, TailOf(n);
    ReplayLogAlike(l, n.table, s, at, tail);
    var a, b := ReplayLog(l, Some(n.table), at, tail), ReplayLog(l, Some(s), at, tail);
    if a.Some? {
      if Same(n.table, a.value, at) { SameTrans(n.table, a.value, b.value, at); }
      if Same(n.table, b.value, at) { SameTrans(n.table, b.value, a.value, at); }
    }
  }

  // --- Commands that overwrite ----------------------------------------------------------------

  /** A record whose effect on a key does not depend on what the key held: DEL, MSET, FLUSHDB, and SET as
      it is logged, without NX or XX. */
  predicate Overwrites(record: seq<string>) {
    record != [] &&
    match VerbOf(record[0])
    case SET => |record| >= 3 && SetPlan(record).Ok? && SetPlan(record).value.cond.Always?
    case DEL => |record| >= 2
    case MSET => |record| >= 3 && |record| % 2 == 1
    case FLUSHDB => |record| == 1
    case _ => false
  }

  predicate AllOverwrite(log: seq<seq<string>>) {
    forall record | record in log :: Overwrites(record)
  }

  /** The cell such a record puts at a key, if it touches the key. */
  function Overwritten(record: seq<string>, at: int, k: string): Option<Cell>
    requires Overwrites(record)
  {
    match VerbOf(record[0])
    case SET => if k == record[1] then Some(Some(Entry(record[2], PlanExpiry(SetPlan(record).value, at)))) else None
    case DEL => if k in record[1..] then Some(None) else None
    case MSET => (var v := FinalValue(record, 1, |record|, k); if v.Some? then Some(Some(Entry(v.value, None))) else None)
    case FLUSHDB => Some(None)
  }

  /** Accepted whatever the table, or refused whatever the table. */
  predicate Accepted(l: Limits, record: seq<string>)
    requires Overwrites(record)
  {
    match VerbOf(record[0])
    case SET => |record[1]| <= l.maxKey && |record[2]| <= l.maxValue
    case DEL => true
    case MSET => FirstRefused(l, record, 1) == |record|
    case FLUSHDB => true
  }

  function Laid(over: Option<Cell>, under: Cell, at: int): Cell {
    if over.Some? then Alive(over.value, at) else under
  }

  lemma OverwriteOne(l: Limits, t: Table, at: int, record: seq<string>, k: string)
    requires Overwrites(record)
    ensures var r := ReplayOne(l, t, at, record);
            && (r.Some? <==> Accepted(l, record))
            && (r.Some? ==> Look(r.value, k, at) == Laid(Overwritten(record, at, k), Look(t, k, at), at))
  {
    hide ExecKeyed, DelKeys, SetPairs, FinalValue, FirstRefused, SetPlan;
    match VerbOf(record[0])
    case SET => SetOverwrites(l, t, at, record, k);
    case DEL => LookDelKeys(t, at, record, 1, k, at);
    case MSET => GetSetPairs(l, t, record, 1, k);
    case FLUSHDB =>
  }

  lemma SetOverwrites(l: Limits, t: Table, at: int, record: seq<string>, k: string)
    requires Overwrites(record) && VerbOf(record[0]) == SET
    ensures var e := ExecKeyed(l, t, at, record);
            && (!e.reply.Failed? <==> |record[1]| <= l.maxKey && |record[2]| <= l.maxValue)
            && (!e.reply.Failed? ==> Look(e.table, k, at) == Laid(Overwritten(record, at, k), Look(t, k, at), at))
  {
    hide VerbOf, SetPlan;
    LookPut(t, record[1], Some(Entry(record[2], PlanExpiry(SetPlan(record).value, at))), k, at);
  }

  /** What a list of such records leaves at a key: the last one that touches it decides. */
  function LastWritten(log: seq<seq<string>>, at: int, k: string): Option<Cell>
    requires AllOverwrite(log)
  {
    if log == [] then None
    else
      var last := Overwritten(log[|log| - 1], at, k);
      if last.Some? then last else LastWritten(log[..|log| - 1], at, k)
  }

  predicate AllAccepted(l: Limits, log: seq<seq<string>>)
    requires AllOverwrite(log)
  {
    forall record | record in log :: Accepted(l, record)
  }

  lemma {:induction false} OverwriteLog(l: Limits, t: Table, at: int, log: seq<seq<string>>, k: string)
    requires AllOverwrite(log)
    ensures var r := ReplayLog(l, Some(t), at, log);
            && (r.Some? <==> AllAccepted(l, log))
            && (r.Some? ==> Look(r.value, k, at) == Laid(LastWritten(log, at, k), Look(t, k, at), at))
  {
    hide Overwrites, Accepted, Overwritten, ReplayOne;
    if log != [] {
      var front, last := log[..|log| - 1], log[|log| - 1];
      assert log == front + [last];
      OverwriteLog(l, t, at, front, k);
      var r := ReplayLog(l, Some(t), at, front);
      if r.Some? { OverwriteOne(l, r.value, at, last, k); }
    }
  }

  /** Doing it again changes nothing. */
  lemma OverwriteTwice(l: Limits, t: Table, at: int, log: seq<seq<string>>)
    requires AllOverwrite(log) && ReplayLog(l, Some(t), at, log).Some?
    ensures var r := ReplayLog(l, Some(t), at, log); Reads(ReplayLog(l, r, at, log), r.value, at)
  {
    hide ReplayLog, LastWritten, AllAccepted, AllOverwrite;
    var r := ReplayLog(l, Some(t), at, log).value;
    OverwriteLog(l, t, at, log, "");
    OverwriteLog(l, r, at, log, "");
    var r' := ReplayLog(l, Some(r), at, log).value;
    forall k
      ensures Look(r, k, at) == Look(r', k, at)
    {
      OverwriteLog(l, t, at, log, k);
      OverwriteLog(l, r, at, log, k);
    }
  }

  /** If only SET, DEL, MSET and FLUSHDB were logged since the last SAVE, a crash at that point of the next
      SAVE loses nothing. */
  lemma OverwritingTailIsSafe(l: Limits, events: seq<Event>, now: int, items: seq<Item>, at: int)
    requires LegalRun(l, events, at) && LastingSince(l, events, at) && now <= at
    requires var n := After(l, events); n.mark.Some? && Lists(items, n.table, now)
    requires var n := After(l, events); n.mark.value.position <= |n.log| && AllOverwrite(TailOf(n))
    ensures var n := After(l, events); Reads(Recover(l, CrashPoints(l, n, Save(now, items))[1], at), n.table, at)
  {
    hide LegalRun, LastingSince, After, BoundedTable, Ranged, ReplayLog, LoadLog, Lists, AllOverwrite, Dump;
    var n := After(l, events);
    RunIsSound(l, events, at);
    RecoveryFaithful(l, events, at);
    SecondSaveCrash(l, n, now, items, at);
    var s, tail := LoadLog(l, Some(map[]), at, n.snapshot.value), TailOf(n);
    StartedSome(l, s, at, tail);
    OverwriteTwice(l, s.value, at, tail);
    var r := ReplayLog(l, s, at, tail).value;
    ReplayLogAlike(l, n.table, r, at, tail);
    var a, b := ReplayLog(l, Some(n.table), at, tail).value, ReplayLog(l, Some(r), at, tail).value;
    SameTrans(a, b, r, at);
    SameTrans(a, r, n.table, at);
  }

  lemma {:induction false} StartedSome(l: Limits, start: Option<Table>, at: int, log: seq<seq<string>>)
    requires ReplayLog(l, start, at, log).Some?
    ensures start.Some?
  {
    if log != [] { StartedSome(l, start, at, log[..|log| - 1]); }
  }
}
