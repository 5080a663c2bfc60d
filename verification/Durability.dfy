/** The server's files over whole runs: every event's effect on the bytes, and what a restart finds. */
module Durability {
  import opened Wrappers
  import opened Decimal
  import opened Resp
  import opened RespTheorems
  import opened Store
  import opened Commands
  import opened Replay
  import opened Checkpoint
  import opened Node
  import opened Manifest
  import opened Disk

  datatype Server = Server(table: Table, files: Files)

  const FRESH := Server(map[], Files("", None, None))

  /** What an event does to memory and to the files. A rewrite removes the manifest only when its
      path is configured, whereas SAVE falls back to a default path. */
  function StepFiles(cfg: Config, s: Server, ev: Event): Server {
    var f := s.files;
    match ev
    case Write(args, now) =>
      var e := Exec(cfg.Limits(), s.table, now, args);
      Server(e.table, f.(aof := f.aof + EncodedRecord(e.record)))
    case Refused(args, upto, now) => s.(table := KeptPairs(cfg.Limits(), s.table, args, upto))
    case Save(now, items) =>
      var m := Manifest(cfg.snapshotPath, cfg.aofPath, |f.aof|, now);
      s.(files := f.(snapshot := Some(EncodeAll(Dump(items))), manifest := Some(ManifestText(m))))
    case Rewrite(now, items) =>
      s.(files := f.(aof := EncodeAll(Dump(items)), manifest := if cfg.manifestNamed then None else f.manifest))
    case Restart(now) =>
      var r := RecoverFiles(cfg, f, now);
      if r.Some? then s.(table := r.value) else s
  }

  function FilesAfter(cfg: Config, events: seq<Event>): Server {
    if events == [] then FRESH else StepFiles(cfg, FilesAfter(cfg, events[..|events| - 1]), events[|events| - 1])
  }

  // --- What is written can be read ------------------------------------------------------------

  /** Arguments as they come off the wire. */
  predicate ArgsFit(o: Options, args: seq<string>) {
    |args| <= o.maxElements && |args| <= I64_MAX && forall arg | arg in args :: ArgFits(o, arg)
  }

  /** Limits under which everything the server logs can be parsed again. */
  predicate Workable(cfg: Config) {
    cfg.maxKey <= cfg.maxValue && 20 <= cfg.maxValue <= I64_MAX && 5 <= cfg.maxElements
  }

  lemma SetRecordFits(o: Options, k: string, v: string, expiry: Option<int>)
    requires ArgFits(o, k) && ArgFits(o, v) && 20 <= o.maxBulk && 5 <= o.maxElements
    requires expiry.Some? ==> InI64(expiry.value)
    ensures ArgsFit(o, SetRecord(k, v, expiry))
  {
    if expiry.Some? {
      I64Width(expiry.value);
    }
  }

  lemma ExpireRecordFits(o: Options, k: string, when: int)
    requires ArgFits(o, k) && 20 <= o.maxBulk && 5 <= o.maxElements && InI64(when)
    ensures ArgsFit(o, ["PEXPIREAT", k, IntText(when)])
  {
    I64Width(when);
  }

  lemma CellRecordFits(o: Options, l: Limits, c: Cell, now: int, args: seq<string>)
    requires ArgsFit(o, args) && 20 <= o.maxBulk && 5 <= o.maxElements
    requires |args| >= 2 && IsKeyed(VerbOf(args[0])) && InRange(args, now)
    requires ExecCell(l, c, now, args).record.Some?
    ensures ArgsFit(o, ExecCell(l, c, now, args).record.value)
  {
    hide ArgsFit, ArgFits;
    assert ArgFits(o, args[1]) by { ArgOfFits(o, args, 1); }
    match VerbOf(args[0])
    case SET =>
      ArgOfFits(o, args, 2);
      SetRecordFits(o, args[1], args[2], PlanExpiry(SetPlan(args).value, now));
    case EXPIRE =>
      RelativeRecord(c, now, args, 1000);
      ExpireRecordFits(o, args[1], AskedExpiry(args, now).value);
    case PEXPIRE =>
      RelativeRecord(c, now, args, 1);
      ExpireRecordFits(o, args[1], AskedExpiry(args, now).value);
    case INCR =>
    case DECR =>
    case APPEND =>
    case PERSIST =>
    case PEXPIREAT =>
  }

  lemma ArgOfFits(o: Options, args: seq<string>, i: nat)
    requires ArgsFit(o, args) && i < |args|
    ensures ArgFits(o, args[i])
  {
  }

  /** The record of a request that fits the wire fits the wire. */
  lemma RecordFits(cfg: Config, t: Table, now: int, args: seq<string>)
    requires Workable(cfg) && ArgsFit(cfg.Options(), args) && InRange(args, now)
    ensures var e := Exec(cfg.Limits(), t, now, args);
            e.record.Some? ==> ArgsFit(cfg.Options(), e.record.value)
  {
    hide ExecCell, InRange, DelKeys, SetPairs;
    if args != [] {
      match VerbOf(args[0])
      case DEL =>
      case MSET =>
      case FLUSHDB =>
      case READ(_) =>
      case OTHER =>
      case _ =>
        if |args| >= 2 {
          var c := Look(t, args[1], now);
          if ExecCell(cfg.Limits(), c, now, args).record.Some? {
            CellRecordFits(cfg.Options(), cfg.Limits(), c, now, args);
          }
        }
    }
  }

  predicate AllArgsFit(o: Options, commands: seq<seq<string>>) {
    forall args | args in commands :: ArgsFit(o, args)
  }

  lemma {:induction false} DumpFits(cfg: Config, items: seq<Item>)
    requires Workable(cfg) && BoundedItems(cfg.Limits(), items)
    ensures AllArgsFit(cfg.Options(), Dump(items))
  {
    if items != [] {
      hide ArgFits;
      var last := items[|items| - 1];
      DumpFits(cfg, items[..|items| - 1]);
      assert BoundedItem(cfg.Limits(), last);
      ItemFits(cfg, last);
    }
  }

  lemma ItemFits(cfg: Config, e: Item)
    requires Workable(cfg) && BoundedItem(cfg.Limits(), e)
    ensures AllArgsFit(cfg.Options(), DumpOne(e))
  {
    SetRecordFits(cfg.Options(), e.key, e.value, None);
    if e.expiry.Some? {
      ExpireRecordFits(cfg.Options(), e.key, e.expiry.value);
    }
  }

  /** Every write of the run came off the wire. */
  predicate WireRun(cfg: Config, events: seq<Event>) {
    forall ev | ev in events :: ev.Write? ==> ArgsFit(cfg.Options(), ev.args)
  }

  predicate FitFiles(cfg: Config, n: Node) {
    AllArgsFit(cfg.Options(), n.log) && (n.snapshot.Some? ==> AllArgsFit(cfg.Options(), n.snapshot.value))
  }

  lemma {:induction false} FilesFit(cfg: Config, events: seq<Event>, at: int)
    requires Workable(cfg) && LegalRun(cfg.Limits(), events, at) && WireRun(cfg, events)
    ensures FitFiles(cfg, After(cfg.Limits(), events))
  {
    hide Exec, InRange, ArgsFit, Dump, Recover, KeptPairs, Ranged, BoundedTable, Lists;
    if events != [] {
      var front, ev := events[..|events| - 1], events[|events| - 1];
      var n := After(cfg.Limits(), front);
      FilesFit(cfg, front, at);
      RunIsSound(cfg.Limits(), front, at);
      if ev.Write? {
        assert ev in events;
        RecordFits(cfg, n.table, ev.now, ev.args);
      } else if ev.Save? || ev.Rewrite? {
        ListingBounded(cfg.Limits(), ev.items, n.table, ev.now);
        DumpFits(cfg, ev.items);
      }
    }
  }

  lemma {:induction false} FitsWithin(o: Options, commands: seq<seq<string>>)
    requires AllArgsFit(o, commands) && |EncodeAll(commands)| <= o.maxRequest
    ensures AllFit(o, commands)
    decreases |commands|
  {
    hide Encode, ArgFits;
    if commands != [] {
      FitsWithin(o, commands[1..]);
    }
  }

  lemma {:induction false} MarkInRange(l: Limits, events: seq<Event>, at: int)
    requires LegalRun(l, events, at)
    ensures After(l, events).mark.Some? ==> InI64(After(l, events).mark.value.created)
  {
    hide Exec, InRange, Recover, KeptPairs, Lists, Dump;
    if events != [] {
      MarkInRange(l, events[..|events| - 1], at);
    }
  }

  /** What recovery will read fits one request buffer: the log after a usable offset and the snapshot, or
      else the whole log, as replay and load push each through a single parser. */
  predicate Small(cfg: Config, f: Files) {
    var offset := UsableOffset(cfg, f);
    && |f.aof| - (if offset.Some? then offset.value else 0) <= cfg.maxRequest
    && (offset.Some? ==> |f.snapshot.value| <= cfg.maxRequest)
    && (f.manifest.Some? ==> |f.aof| <= U64_MAX)
  }

  /** Every restart of the run found files it could read. */
  predicate SmallAtRestarts(cfg: Config, events: seq<Event>) {
    events == [] ||
    var front, ev := events[..|events| - 1], events[|events| - 1];
    SmallAtRestarts(cfg, front) && (ev.Restart? ==> Small(cfg, FilesAfter(cfg, front).files))
  }

  // --- The bytes follow the commands ----------------------------------------------------------

  lemma EncodeLogged(log: seq<seq<string>>, record: Option<seq<string>>)
    ensures EncodeAll(log + Logged(record)) == EncodeAll(log) + EncodedRecord(record)
  {
    hide Encode, EncodeAll;
    EncodeAppend(log, Logged(record));
    if record.Some? {
      EncodeSingle(record.value);
    } else {
      EncodeNone();
    }
  }

  /** Files that are small are readable. */
  lemma SmallIsReadable(cfg: Config, events: seq<Event>, at: int)
    requires Workable(cfg) && Clean(cfg.snapshotPath) && Clean(cfg.aofPath)
    requires LegalRun(cfg.Limits(), events, at) && WireRun(cfg, events)
    requires var n := After(cfg.Limits(), events); Placed(n) && Small(cfg, FilesOf(cfg, n))
    ensures Readable(cfg, After(cfg.Limits(), events))
  {
    hide LegalRun, After, EncodeAll, Fits, ArgsFit, UsableOffset, Workable, Clean;
    var n := After(cfg.Limits(), events);
    FilesFit(cfg, events, at);
    MarkInRange(cfg.Limits(), events, at);
    MarkIsUsable(cfg, n, "");
    assert WithTorn(FilesOf(cfg, n), "") == FilesOf(cfg, n);
    var i := TailStart(n);
    assert n.log == n.log[..i] + n.log[i..];
    EncodeAppend(n.log[..i], n.log[i..]);
    assert n.mark.None? ==> n.log[0..] == n.log;
    FitsWithin(cfg.Options(), n.log[i..]);
    if n.mark.Some? {
      FitsWithin(cfg.Options(), n.snapshot.value);
    }
  }

  lemma StepFollows(cfg: Config, n: Node, ev: Event, at: int)
    requires cfg.manifestNamed && Sound(cfg.Limits(), n) && Legal(cfg.Limits(), n, ev, at)
    requires ev.Restart? ==> Placed(n) && Readable(cfg, n)
    ensures var n' := Step(cfg.Limits(), n, ev);
            Placed(n') && StepFiles(cfg, Server(n.table, FilesOf(cfg, n)), ev) == Server(n'.table, FilesOf(cfg, n'))
  {
    hide Exec, InRange, EncodeAll, ManifestText, Recover, RecoverFiles, KeptPairs, BoundedTable, Ranged, Lists, Readable, Dump;
    match ev
    case Write(args, now) =>
      var record := Exec(cfg.Limits(), n.table, now, args).record;
      EncodeLogged(n.log, record);
      if n.mark.Some? {
        var i := n.mark.value.position;
        assert (n.log + Logged(record))[..i] == n.log[..i];
      }
    case Refused(_, _, _) =>
    case Save(_, _) =>
      assert n.log[..|n.log|] == n.log;
    case Rewrite(_, _) =>
    case Restart(now) => RecoverFilesIsRecover(cfg, n, now);
  }

  /** A configuration on which everything written can be read back and every manifest is found. */
  predicate Configured(cfg: Config) {
    Workable(cfg) && Clean(cfg.snapshotPath) && Clean(cfg.aofPath) && cfg.manifestNamed
  }

  lemma {:induction false} FilesFollow(cfg: Config, events: seq<Event>, at: int)
    requires Configured(cfg) && LegalRun(cfg.Limits(), events, at) && WireRun(cfg, events) && SmallAtRestarts(cfg, events)
    ensures var n := After(cfg.Limits(), events);
            Placed(n) && FilesAfter(cfg, events) == Server(n.table, FilesOf(cfg, n))
  {
    hide Legal, Step, StepFiles, Small, Readable, Sound, Workable, Clean, ArgsFit;
    if events == [] {
      EncodeNone();
    } else {
      var front, ev := events[..|events| - 1], events[|events| - 1];
      assert WireRun(cfg, front) by { assert forall e | e in front :: e in events; }
      FilesFollow(cfg, front, at);
      RunIsSound(cfg.Limits(), front, at);
      if ev.Restart? { SmallIsReadable(cfg, front, at); }
      StepFollows(cfg, After(cfg.Limits(), front), ev, at);
    }
  }

  // --- Restart --------------------------------------------------------------------------------

  /** A run of the server on a workable configuration, with requests off the wire. */
  ghost predicate Served(cfg: Config, events: seq<Event>, at: int) {
    && Workable(cfg) && Clean(cfg.snapshotPath) && Clean(cfg.aofPath)
    && LegalRun(cfg.Limits(), events, at) && WireRun(cfg, events)
    && SmallAtRestarts(cfg, events) && Small(cfg, FilesAfter(cfg, events).files)
  }

  ghost predicate Restarts(cfg: Config, events: seq<Event>, at: int) {
    var s := FilesAfter(cfg, events);
    Reads(RecoverFiles(cfg, s.files, at), s.table, at)
  }

  lemma RunIsReadable(cfg: Config, events: seq<Event>, at: int)
    requires Served(cfg, events, at) && cfg.manifestNamed
    ensures var n := After(cfg.Limits(), events);
            Placed(n) && Readable(cfg, n) && FilesAfter(cfg, events) == Server(n.table, FilesOf(cfg, n))
  {
    hide LegalRun, After, Small, Readable, SmallAtRestarts, FilesAfter, WireRun, Clean, Workable;
    FilesFollow(cfg, events, at);
    SmallIsReadable(cfg, events, at);
  }

  /** A restart from the bytes on disk, after any run of writes, saves, rewrites and earlier restarts and at
      any later time, gives what a reader of the live table then sees, if the writes since the last
      checkpoint are lasting. */
  lemma RestartFaithful(cfg: Config, events: seq<Event>, at: int)
    requires Served(cfg, events, at) && cfg.manifestNamed && LastingSince(cfg.Limits(), events, at)
    ensures Restarts(cfg, events, at)
  {
    hide Readable, FilesOf, RecoverFiles, Recover, LastingSince, LegalRun, SmallAtRestarts, Small, WireRun, Workable, Clean, FilesAfter, After;
    RunIsReadable(cfg, events, at);
    RecoverFilesIsRecover(cfg, After(cfg.Limits(), events), at);
    RecoveryFaithful(cfg.Limits(), events, at);
  }

  /** A manifest on disk is always usable: its offset ends a whole command of the log, and its
      snapshot, loaded at any later time, reads like the table of the SAVE that wrote it, which had
      written exactly the log up to that offset. */
  lemma ManifestInvariant(cfg: Config, events: seq<Event>, at: int) returns (j: nat, log: seq<seq<string>>, i: nat)
    requires Served(cfg, events, at) && cfg.manifestNamed && FilesAfter(cfg, events).files.manifest.Some?
    ensures j < |events| && events[j].Save? && i <= |log|
    ensures var f, past := FilesAfter(cfg, events).files, FilesAfter(cfg, events[..j]);
            && f.aof == EncodeAll(log) && past.files.aof == EncodeAll(log[..i])
            && UsableOffset(cfg, f) == Some(|past.files.aof|) && |past.files.aof| <= |f.aof|
            && f.snapshot.Some? && Reads(LoadBytes(cfg, at, f.snapshot.value), past.table, at)
  {
    hide LegalRun, After, EncodeAll, Fits, ArgsFit, UsableOffset, LoadBytes, LoadLog, Small, SmallAtRestarts, FilesAfter, Workable, Clean, ManifestText;
    RunIsReadable(cfg, events, at);
    var n := After(cfg.Limits(), events);
    j := ManifestNamesSave(cfg.Limits(), events, at);
    PrefixServed(cfg, events, j, at);
    FilesFollow(cfg, events[..j], at);
    i, log := n.mark.value.position, n.log;
    MarkIsUsable(cfg, n, "");
    assert WithTorn(FilesOf(cfg, n), "") == FilesOf(cfg, n);
    assert log == log[..i] + log[i..];
    EncodeAppend(log[..i], log[i..]);
    LoadWhole(cfg, at, n.snapshot.value);
  }

  lemma {:induction false} PrefixServed(cfg: Config, events: seq<Event>, j: nat, at: int)
    requires LegalRun(cfg.Limits(), events, at) && WireRun(cfg, events) && SmallAtRestarts(cfg, events) && j <= |events|
    ensures LegalRun(cfg.Limits(), events[..j], at) && WireRun(cfg, events[..j]) && SmallAtRestarts(cfg, events[..j])
    decreases |events|
  {
    hide Legal, Small, ArgsFit;
    if j == |events| {
      assert events[..j] == events;
    } else {
      var front := events[..|events| - 1];
      assert forall e | e in front :: e in events;
      PrefixServed(cfg, front, j, at);
      assert front[..j] == events[..j];
    }
  }

  // --- Crashes --------------------------------------------------------------------------------

  lemma FilesAfterNext(cfg: Config, events: seq<Event>, ev: Event)
    ensures FilesAfter(cfg, events + [ev]) == StepFiles(cfg, FilesAfter(cfg, events), ev)
    ensures After(cfg.Limits(), events + [ev]) == Step(cfg.Limits(), After(cfg.Limits(), events), ev)
  {
    hide StepFiles, Step;
    var all := events + [ev];
    assert all[..|all| - 1] == events;
  }

  /** The run before its last event. */
  lemma RunBeforeLast(cfg: Config, events: seq<Event>, ev: Event, at: int)
    requires Served(cfg, events + [ev], at)
    ensures LegalRun(cfg.Limits(), events, at) && WireRun(cfg, events) && SmallAtRestarts(cfg, events)
  {
    hide LegalRun, WireRun, SmallAtRestarts, Small, FilesAfter, Workable, Clean;
    PrefixServed(cfg, events + [ev], |events|, at);
    assert (events + [ev])[..|events|] == events;
  }

  /** Files to which a record was appended could be read before it, and so can the record. */
  lemma WriteIsReadable(cfg: Config, events: seq<Event>, args: seq<string>, now: int, at: int)
    requires Served(cfg, events + [Write(args, now)], at) && cfg.manifestNamed
    ensures var n := After(cfg.Limits(), events);
            var record := Exec(cfg.Limits(), n.table, now, args).record;
            && Placed(n) && Readable(cfg, n) && FilesAfter(cfg, events) == Server(n.table, FilesOf(cfg, n))
            && (record.Some? ==>
                  && Fits(cfg.Options(), record.value)
                  && |EncodeAll(n.log[TailStart(n)..])| + |Encode(record.value)| <= cfg.maxRequest)
  {
    hide LegalRun, After, EncodeAll, Encode, Fits, Exec, FilesAfter, Workable, Clean, Small, SmallAtRestarts, ManifestText;
    var ev, l := Write(args, now), cfg.Limits();
    var n, n' := After(l, events), After(l, events + [ev]);
    RunBeforeLast(cfg, events, ev, at);
    FilesFollow(cfg, events, at);
    RunIsReadable(cfg, events + [ev], at);
    FilesAfterNext(cfg, events, ev);
    var record := Exec(l, n.table, now, args).record;
    ShorterIsReadable(cfg, n, record);
  }

  lemma ShorterIsReadable(cfg: Config, n: Node, record: Option<seq<string>>)
    requires Placed(n) && var n' := n.(log := n.log + Logged(record)); Placed(n') && Readable(cfg, n')
    ensures Readable(cfg, n)
    ensures record.Some? ==>
              && Fits(cfg.Options(), record.value)
              && |EncodeAll(n.log[TailStart(n)..])| + |Encode(record.value)| <= cfg.maxRequest
  {
    hide EncodeAll, Encode, Fits;
    var n', i := n.(log := n.log + Logged(record)), TailStart(n);
    assert n'.log[i..] == n.log[i..] + Logged(record);
    EncodeAppend(n.log[i..], Logged(record));
    EncodeAppend(n.log, Logged(record));
    if record.Some? {
      assert n'.log[i..][|n.log| - i] == record.value;
      EncodeSingle(record.value);
    }
    assert forall args | args in n.log[i..] :: args in n'.log[i..];
  }

  /** A crash while a record is being appended, at any byte short of the whole record: a restart finds
      the table before the write. */
  lemma TornWriteRestarts(cfg: Config, events: seq<Event>, args: seq<string>, now: int, cut: nat, at: int)
    requires Served(cfg, events + [Write(args, now)], at) && cfg.manifestNamed
    requires LastingSince(cfg.Limits(), events, at)
    requires var s, s' := FilesAfter(cfg, events), FilesAfter(cfg, events + [Write(args, now)]);
             |s.files.aof| <= cut < |s'.files.aof|
    ensures var s, s' := FilesAfter(cfg, events), FilesAfter(cfg, events + [Write(args, now)]);
            var torn := s'.files.(aof := s'.files.aof[..cut]);
            Reads(RecoverFiles(cfg, torn, at), s.table, at)
  {
    hide LegalRun, LastingSince, Exec, Encode, EncodeAll, Fits, ManifestText, RecoverFiles, Recover, Readable, Workable, Clean, After, FilesAfter, Small, SmallAtRestarts, WireRun;
    var n := After(cfg.Limits(), events);
    var record := Exec(cfg.Limits(), n.table, now, args).record;
    FilesAfterNext(cfg, events, Write(args, now));
    WriteIsReadable(cfg, events, args, now, at);
    var torn := Encode(record.value)[..cut - |EncodeAll(n.log)|];
    assert FilesAfter(cfg, events + [Write(args, now)]).files.aof[..cut] == EncodeAll(n.log) + torn;
    TornNeedsMore(cfg.Options(), record.value, |torn|);
    RecoverTorn(cfg, n, torn, at);
    RunBeforeLast(cfg, events, Write(args, now), at);
    RecoveryFaithful(cfg.Limits(), events, at);
  }

  /** What is on disk after each file step of a SAVE or BGREWRITEAOF: the snapshot is renamed before the
      manifest is written, the log before the manifest is removed. */
  function CrashFiles(cfg: Config, s: Server, ev: Event): seq<Files>
    requires ev.Save? || ev.Rewrite?
  {
    var f, f' := s.files, StepFiles(cfg, s, ev).files;
    if ev.Save? then [f, f.(snapshot := f'.snapshot), f'] else [f, f.(aof := f'.aof), f']
  }

  /** Each file step changes one file, the manifest last. */
  lemma ManifestLast(cfg: Config, s: Server, ev: Event)
    requires ev.Save? || ev.Rewrite?
    ensures var steps, done := CrashFiles(cfg, s, ev), StepFiles(cfg, s, ev).files;
            && |steps| == 3 && steps[0] == s.files && steps[2] == done && steps[1].manifest == s.files.manifest
            && steps[1].aof == done.aof && steps[1].snapshot == done.snapshot
            && (ev.Save? ==> done.aof == s.files.aof) && (ev.Rewrite? ==> done.snapshot == s.files.snapshot)
  {
  }

  /** A crash at any step of a SAVE or BGREWRITEAOF that began without a manifest loses nothing: a
      restart from the bytes then on disk reads like the live table. */
  lemma CrashRestarts(cfg: Config, events: seq<Event>, ev: Event, i: nat, at: int)
    requires (ev.Save? || ev.Rewrite?) && i < 3 && cfg.manifestNamed
    requires Served(cfg, events, at) && Served(cfg, events + [ev], at)
    requires LastingSince(cfg.Limits(), events, at) && FilesAfter(cfg, events).files.manifest.None?
    ensures var s := FilesAfter(cfg, events);
            |CrashFiles(cfg, s, ev)| == 3 && Reads(RecoverFiles(cfg, CrashFiles(cfg, s, ev)[i], at), s.table, at)
  {
    hide Served, RecoverFiles, LastingSince, FilesAfter;
    var s, all := FilesAfter(cfg, events), events + [ev];
    FilesAfterNext(cfg, events, ev);
    RestartFaithful(cfg, events, at);
    LastingAtCheckpoint(cfg, events, ev, at);
    RestartFaithful(cfg, all, at);
    CheckpointFiles(cfg, s, ev);
    ManifestUnread(cfg, s.files, StepFiles(cfg, s, ev).files.snapshot, None, at);
  }

  lemma LastingAtCheckpoint(cfg: Config, events: seq<Event>, ev: Event, at: int)
    requires ev.Save? || ev.Rewrite?
    ensures LastingSince(cfg.Limits(), events + [ev], at)
  {
    var all := events + [ev];
    assert all[|all| - 1] == ev;
  }

  lemma CheckpointFiles(cfg: Config, s: Server, ev: Event)
    requires ev.Save? || ev.Rewrite?
    ensures StepFiles(cfg, s, ev).table == s.table
    ensures ev.Rewrite? && cfg.manifestNamed ==>
              s.files.(aof := StepFiles(cfg, s, ev).files.aof, manifest := None) == StepFiles(cfg, s, ev).files
  {
  }

  /** Without a usable manifest recovery looks at neither manifest nor snapshot. */
  lemma ManifestUnread(cfg: Config, f: Files, snapshot: Option<string>, manifest: Option<string>, at: int)
    requires UsableOffset(cfg, f).None? && UsableOffset(cfg, f.(snapshot := snapshot, manifest := manifest)).None?
    ensures RecoverFiles(cfg, f.(snapshot := snapshot, manifest := manifest), at) == RecoverFiles(cfg, f, at)
  {
    hide ReplayBytes, LoadBytes, UsableOffset;
  }

  /** A crash between the log rename and the manifest removal of a BGREWRITEAOF that found a manifest loses
      nothing when the manifest no longer fits the new log, as when its offset lies beyond the end. */
  lemma RewriteCrashRestarts(cfg: Config, events: seq<Event>, ev: Event, at: int)
    requires ev.Rewrite? && cfg.manifestNamed && Served(cfg, events + [ev], at)
    requires UsableOffset(cfg, CrashFiles(cfg, FilesAfter(cfg, events), ev)[1]).None?
    ensures var s := FilesAfter(cfg, events); Reads(RecoverFiles(cfg, CrashFiles(cfg, s, ev)[1], at), s.table, at)
  {
    var s := FilesAfter(cfg, events);
    CheckpointFiles(cfg, s, ev);
    var f := CrashFiles(cfg, s, ev)[1];
    hide Served, RecoverFiles, LastingSince, FilesAfter, CrashFiles;
    NoManifestUnusable(cfg, f.(manifest := None));
    ManifestUnread(cfg, f, f.snapshot, None, at);
    FilesAfterNext(cfg, events, ev);
    LastingAtCheckpoint(cfg, events, ev, at);
    RestartFaithful(cfg, events + [ev], at);
  }

  lemma NoManifestUnusable(cfg: Config, f: Files)
    requires f.manifest.None?
    ensures UsableOffset(cfg, f).None?
  {
  }
}
