/** A server over its whole life: writes, SAVE and BGREWRITEAOF, and recovery from what is on disk.
    Files are lists of commands here; module Disk gives their bytes. */
module Node {
  import opened Wrappers
  import opened Decimal
  import opened Store
  import opened Commands
  import opened Replay
  import opened Checkpoint

  /** Items are the engine's listing of its live keys, in whatever order it iterates. A refused write ran
      out of memory, an MSET perhaps after storing the pairs before position `upto`. */
  datatype Event =
    | Write(args: seq<string>, now: int)
    | Refused(args: seq<string>, upto: nat, now: int)
    | Save(now: int, items: seq<Item>)
    | Rewrite(now: int, items: seq<Item>)
    | Restart(now: int)

  /** The manifest: how many commands of the log the snapshot covers, and when it was taken. */
  datatype Mark = Mark(position: nat, created: int)

  datatype Node = Node(table: Table, log: seq<seq<string>>, snapshot: Option<seq<seq<string>>>, mark: Option<Mark>)

  const EMPTY := Node(map[], [], None, None)

  /** Recovery at startup: through a usable manifest load the snapshot and replay the rest of the log;
      otherwise replay the whole log. */
  function Recover(l: Limits, n: Node, at: int): Option<Table> {
    if n.mark.Some? && n.snapshot.Some? && n.mark.value.position <= |n.log| then
      ReplayLog(l, LoadLog(l, Some(map[]), at, n.snapshot.value), at, n.log[n.mark.value.position..])
    else
      ReplayLog(l, Some(map[]), at, n.log)
  }

  function Step(l: Limits, n: Node, ev: Event): Node {
    match ev
    case Write(args, now) =>
      var e := Exec(l, n.table, now, args);
      n.(table := e.table, log := n.log + Logged(e.record))
    case Refused(args, upto, now) => n.(table := KeptPairs(l, n.table, args, upto))
    case Save(now, items) => n.(snapshot := Some(Dump(items)), mark := Some(Mark(|n.log|, now)))
    case Rewrite(now, items) => n.(log := Dump(items), mark := None)
    case Restart(now) =>
      var r := Recover(l, n, now);
      if r.Some? then n.(table := r.value) else n
  }

  function After(l: Limits, events: seq<Event>): Node {
    if events == [] then EMPTY else Step(l, After(l, events[..|events| - 1]), events[|events| - 1])
  }

  /** An event that can happen to a node at or before `at`; the server restarts only if it recovers. */
  ghost predicate Legal(l: Limits, n: Node, ev: Event, at: int) {
    ev.now <= at &&
    match ev
    case Write(args, now) => InRange(args, now)
    case Refused(_, _, _) => true
    case Save(now, items) => InI64(now) && Lists(items, n.table, now)
    case Rewrite(now, items) => Lists(items, n.table, now)
    case Restart(now) => Recover(l, n, now).Some?
  }

  /** A run up to `at`; a restart comes after everything before it. */
  ghost predicate LegalRun(l: Limits, events: seq<Event>, at: int) {
    events == [] ||
    var front, ev := events[..|events| - 1], events[|events| - 1];
    LegalRun(l, front, at) && Legal(l, After(l, front), ev, at) && (ev.Restart? ==> LegalRun(l, front, ev.now))
  }

  /** The writes since the last SAVE or BGREWRITEAOF are all lasting, at `at` and at every restart on the
      way; earlier ones do not matter. */
  ghost predicate LastingSince(l: Limits, events: seq<Event>, at: int) {
    events == [] ||
    var front, ev := events[..|events| - 1], events[|events| - 1];
    match ev
    case Write(args, now) => LastingSince(l, front, at) && Lasting(l, After(l, front).table, now, args, at)
    case Refused(args, upto, now) => LastingSince(l, front, at) && KeptLasts(l, After(l, front).table, args, upto, at)
    case Restart(now) => LastingSince(l, front, at) && LastingSince(l, front, now)
    case Save(_, _) => true
    case Rewrite(_, _) => true
  }

  /** What every event keeps: stored entries could be stored again, logged commands stay in range, and a
      manifest comes with a snapshot and covers a prefix of the log. */
  ghost predicate Sound(l: Limits, n: Node) {
    && BoundedTable(l, n.table) && AllRanged(n.log)
    && (n.mark.Some? ==> n.snapshot.Some? && n.mark.value.position <= |n.log|)
  }

  lemma RecoverStaysBounded(l: Limits, n: Node, now: int)
    requires AllRanged(n.log)
    ensures Recover(l, n, now).Some? ==> BoundedTable(l, Recover(l, n, now).value)
  {
    hide BoundedTable, ReplayLog, LoadLog, Ranged;
    BoundedEmpty(l);
    if n.mark.Some? && n.snapshot.Some? && n.mark.value.position <= |n.log| {
      LoadStaysBounded(l, Some(map[]), now, n.snapshot.value);
      ReplayStaysBounded(l, LoadLog(l, Some(map[]), now, n.snapshot.value), now, n.log[n.mark.value.position..]);
    } else {
      ReplayStaysBounded(l, Some(map[]), now, n.log);
    }
  }

  lemma StepKeepsSound(l: Limits, n: Node, ev: Event, at: int)
    requires Sound(l, n) && Legal(l, n, ev, at)
    ensures Sound(l, Step(l, n, ev))
  {
    hide Exec, InRange, BoundedTable, Recover, Lists, Dump, KeptPairs, Ranged;
    match ev
    case Write(args, now) =>
      ExecStaysBounded(l, n.table, now, args);
      var record := Exec(l, n.table, now, args).record;
      if record.Some? { RecordRanged(l, n.table, now, args); }
    case Refused(args, upto, _) => KeptStaysBounded(l, n.table, args, upto);
    case Save(_, _) =>
    case Rewrite(_, items) => DumpRanged(items);
    case Restart(now) => RecoverStaysBounded(l, n, now);
  }

  lemma {:induction false} RunIsSound(l: Limits, events: seq<Event>, at: int)
    requires LegalRun(l, events, at)
    ensures Sound(l, After(l, events))
  {
    hide Sound, Step, Legal;
    if events != [] {
      RunIsSound(l, events[..|events| - 1], at);
      StepKeepsSound(l, After(l, events[..|events| - 1]), events[|events| - 1], at);
    } else {
      EmptyIsSound(l);
    }
  }

  lemma EmptyIsSound(l: Limits)
    ensures Sound(l, EMPTY)
  {
  }

  /** A write extends the recovery by one replayed record, with or without a manifest. */
  lemma RecoverWrite(l: Limits, n: Node, args: seq<string>, now: int, at: int)
    requires Sound(l, n)
    ensures Recover(l, Step(l, n, Write(args, now)), at) ==
            ReplayNext(l, Recover(l, n, at), at, Exec(l, n.table, now, args).record)
  {
    hide Exec, ReplayNext, LoadLog, BoundedTable, Ranged;
    var record := Exec(l, n.table, now, args).record;
    if n.mark.Some? {
      var i := n.mark.value.position;
      assert (n.log + Logged(record))[i..] == n.log[i..] + Logged(record);
      ReplayLogged(l, LoadLog(l, Some(map[]), at, n.snapshot.value), at, n.log[i..], record);
    } else {
      ReplayLogged(l, Some(map[]), at, n.log, record);
    }
  }

  /** Right after SAVE or BGREWRITEAOF, recovery needs nothing of the history. */
  lemma RecoverCheckpoint(l: Limits, n: Node, ev: Event, at: int)
    requires Sound(l, n) && Legal(l, n, ev, at) && (ev.Save? || ev.Rewrite?)
    ensures Reads(Recover(l, Step(l, n, ev), at), n.table, at)
  {
    hide BoundedTable, Ranged;
    ListingBounded(l, ev.items, n.table, ev.now);
    if ev.Save? {
      SnapshotFaithful(l, n.table, ev.now, ev.items, at);
      assert n.log[|n.log|..] == [];
    } else {
      CompactionFaithful(l, n.table, ev.now, ev.items, at);
    }
  }

  /** Recovery at `at` gives what a reader of the live table then sees. */
  ghost predicate Faithful(l: Limits, events: seq<Event>, at: int) {
    Reads(Recover(l, After(l, events), at), After(l, events).table, at)
  }

  /** Every prefix back to the last checkpoint is recovered faithfully at `at`, and each restart on the way
      found its prefix so at its own time. */
  ghost predicate AlwaysFaithful(l: Limits, events: seq<Event>, at: int) {
    Faithful(l, events, at) &&
    (events == [] ||
     var front, ev := events[..|events| - 1], events[|events| - 1];
     match ev
     case Save(_, _) => true
     case Rewrite(_, _) => true
     case Restart(now) => AlwaysFaithful(l, front, at) && AlwaysFaithful(l, front, now)
     case Write(_, _) => AlwaysFaithful(l, front, at)
     case Refused(_, _, _) => AlwaysFaithful(l, front, at))
  }

  /** If recovery is faithful before an event other than a checkpoint, it stays so after a write exactly
      when the write is lasting, and after a refused one exactly when what it kept lasts. */
  lemma FaithfulWrite(l: Limits, n: Node, ev: Event, at: int)
    requires Sound(l, n) && Legal(l, n, ev, at) && Reads(Recover(l, n, at), n.table, at) && (ev.Write? || ev.Refused?)
    ensures var n' := Step(l, n, ev);
            Reads(Recover(l, n', at), n'.table, at) <==>
            if ev.Write? then Lasting(l, n.table, ev.now, ev.args, at) else KeptLasts(l, n.table, ev.args, ev.upto, at)
  {
    hide Exec, InRange, Lasting, ReplayNext, BoundedTable, Ranged, KeptLasts, KeptPairs, ReplayLog, LoadLog;
    if ev.Write? {
      RecoverWrite(l, n, ev.args, ev.now, at);
      StepFaithful(l, n.table, Recover(l, n, at).value, ev.now, ev.args, at);
    } else {
      KeptStep(l, n.table, Recover(l, n, at).value, ev.args, ev.upto, at);
    }
  }

  /** A restart that found its files faithful changes nothing for later recoveries. */
  lemma FaithfulRestart(l: Limits, n: Node, now: int, at: int)
    requires now <= at && Reads(Recover(l, n, at), n.table, at) && Reads(Recover(l, n, now), n.table, now)
    ensures var n' := Step(l, n, Restart(now)); Reads(Recover(l, n', at), n'.table, at)
  {
    hide ReplayLog, LoadLog;
    var r, r' := Recover(l, n, now).value, Recover(l, n, at).value;
    SameLater(n.table, r, now, at);
    SameTrans(r, n.table, r', at);
  }

  /** Recovery, exactly: over any sequence of writes, refusals, saves, rewrites and restarts, every prefix
      back to the last checkpoint is recovered faithfully if and only if the writes since then last. */
  lemma {:induction false} RecoveryExact(l: Limits, events: seq<Event>, at: int)
    requires LegalRun(l, events, at)
    ensures AlwaysFaithful(l, events, at) <==> LastingSince(l, events, at)
  {
    hide Lasting, KeptLasts, Recover, Step, Legal, Reads, Sound;
    if events == [] {
      EmptyFaithful(l, at);
    } else {
      var front, ev := events[..|events| - 1], events[|events| - 1];
      var n := After(l, front);
      RunIsSound(l, front, at);
      match ev
      case Save(_, _) => CheckpointFaithful(l, front, ev, at);
      case Rewrite(_, _) => CheckpointFaithful(l, front, ev, at);
      case Write(_, _) =>
        RecoveryExact(l, front, at);
        if Faithful(l, front, at) { FaithfulWrite(l, n, ev, at); }
        AlwaysIsFaithful(l, front, at);
      case Refused(_, _, _) =>
        RecoveryExact(l, front, at);
        if Faithful(l, front, at) { FaithfulWrite(l, n, ev, at); }
        AlwaysIsFaithful(l, front, at);
      case Restart(now) =>
        RecoveryExact(l, front, at);
        RecoveryExact(l, front, now);
        AlwaysIsFaithful(l, front, at);
        AlwaysIsFaithful(l, front, now);
        if Faithful(l, front, at) && Faithful(l, front, now) { RestartedFaithful(l, front, now, at); }
    }
  }

  lemma AlwaysIsFaithful(l: Limits, events: seq<Event>, at: int)
    ensures AlwaysFaithful(l, events, at) ==> Faithful(l, events, at)
  {
  }

  lemma EmptyFaithful(l: Limits, at: int)
    ensures Faithful(l, [], at)
  {
    assert Recover(l, EMPTY, at) == Some(map[]);
  }

  lemma CheckpointFaithful(l: Limits, front: seq<Event>, ev: Event, at: int)
    requires LegalRun(l, front, at) && Legal(l, After(l, front), ev, at) && (ev.Save? || ev.Rewrite?)
    ensures Reads(Recover(l, Step(l, After(l, front), ev), at), Step(l, After(l, front), ev).table, at)
  {
    hide Recover, Legal, Sound, After, LegalRun;
    RunIsSound(l, front, at);
    RecoverCheckpoint(l, After(l, front), ev, at);
  }

  lemma RestartedFaithful(l: Limits, front: seq<Event>, now: int, at: int)
    requires Legal(l, After(l, front), Restart(now), at) && Faithful(l, front, at) && Faithful(l, front, now)
    ensures var n := Step(l, After(l, front), Restart(now)); Reads(Recover(l, n, at), n.table, at)
  {
    hide Recover, After;
    FaithfulRestart(l, After(l, front), now, at);
  }

  /** Recovery after any sequence of events, at any later time, gives what a reader of the live table then
      sees, if the writes since the last checkpoint are lasting. */
  lemma RecoveryFaithful(l: Limits, events: seq<Event>, at: int)
    requires LegalRun(l, events, at) && LastingSince(l, events, at)
    ensures Reads(Recover(l, After(l, events), at), After(l, events).table, at)
  {
    hide LegalRun, LastingSince, Recover, After;
    RecoveryExact(l, events, at);
    AlwaysIsFaithful(l, events, at);
  }

  /** A manifest on disk was written by some SAVE of the run: the log up to its position is the log
      of that moment, and its snapshot, loaded at any later time, reads like the table of that moment. */
  lemma {:induction false} ManifestNamesSave(l: Limits, events: seq<Event>, at: int) returns (j: nat)
    requires LegalRun(l, events, at) && After(l, events).mark.Some?
    ensures j < |events| && events[j].Save?
    ensures var n, past := After(l, events), After(l, events[..j]);
            && n.mark.value.position <= |n.log| && past.log == n.log[..n.mark.value.position]
            && n.snapshot == Some(Dump(events[j].items))
            && Reads(LoadLog(l, Some(map[]), at, n.snapshot.value), past.table, at)
  {
    hide Exec, InRange, LoadLog, Recover, KeptPairs, BoundedTable, Ranged, Lists;
    var front, ev := events[..|events| - 1], events[|events| - 1];
    var n := After(l, front);
    RunIsSound(l, front, at);
    if ev.Save? {
      j := |events| - 1;
      ListingBounded(l, ev.items, n.table, ev.now);
      SnapshotFaithful(l, n.table, ev.now, ev.items, at);
      assert n.log[..|n.log|] == n.log;
    } else {
      j := ManifestNamesSave(l, front, at);
      assert front[..j] == events[..j];
      var i := n.mark.value.position;
      assert After(l, events).log[..i] == n.log[..i];
    }
  }

  // --- Crashes --------------------------------------------------------------------------------

  /** What is on disk if the process dies after some of the file steps of an event: the snapshot
      rename comes before the manifest, the log rename before the manifest removal. */
  function CrashPoints(l: Limits, n: Node, ev: Event): seq<Node> {
    match ev
    case Write(_, _) => [n, Step(l, n, ev)]
    case Save(_, items) => [n, n.(snapshot := Some(Dump(items))), Step(l, n, ev)]
    case Rewrite(_, items) => [n, n.(log := Dump(items)), Step(l, n, ev)]
    case Refused(_, _, _) => [n]
    case Restart(_) => [n]
  }

  /** A crash at any step of a SAVE or BGREWRITEAOF that began with no manifest recovers the same
      table; a crash during a write recovers the table before it or after it. */
  lemma CrashSafe(l: Limits, events: seq<Event>, ev: Event, i: nat, at: int)
    requires LegalRun(l, events, at) && LastingSince(l, events, at)
    requires Legal(l, After(l, events), ev, at) && (ev.Save? || ev.Rewrite? ==> After(l, events).mark.None?)
    requires ev.Write? ==> Lasting(l, After(l, events).table, ev.now, ev.args, at)
    requires i < |CrashPoints(l, After(l, events), ev)|
    ensures var n := After(l, events);
            var r := Recover(l, CrashPoints(l, n, ev)[i], at);
            Reads(r, n.table, at) || Reads(r, Step(l, n, ev).table, at)
  {
    hide Exec, InRange, Lasting, LegalRun, LastingSince, After, Lists;
    var n := After(l, events);
    RunIsSound(l, events, at);
    RecoveryFaithful(l, events, at);
    if ev.Write? {
      hide Recover, ReplayNext;
      FaithfulWrite(l, n, ev, at);
    } else if ev.Save? || ev.Rewrite? {
      RecoverCheckpoint(l, n, ev, at);
    }
  }
}
