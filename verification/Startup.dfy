/** SAVE, BGREWRITEAOF, loading a snapshot, replaying the log, and the recovery sequence of main, as
    they drive the parser, the handlers and the engine. Each is proved to do exactly what the functions on
    bytes in Disk, Durability and Limited say. */
module Startup {
  import opened Wrappers
  import opened Decimal
  import opened Text
  import opened Resp
  import P = Parser
  import opened Store
  import opened Budget
  import opened Commands
  import opened Replay
  import opened Bounded
  import opened Checkpoint
  import opened Node
  import opened Manifest
  import opened Disk
  import opened Durability
  import opened Limited
  import opened Shards
  import opened Engine
  import opened Handlers

  // --- Writing checkpoints --------------------------------------------------------------------

  /** The snapshot and its manifest. */
  class SnapshotStore {
    var file: Option<string>
    var manifest: Option<string>

    constructor (file: Option<string>, manifest: Option<string>)
      ensures this.file == file && this.manifest == manifest
    {
      this.file := file;
      this.manifest := manifest;
    }
  }

  ghost function FilesNow(aof: Aof, store: SnapshotStore): Files
    reads aof, store
  {
    Files(aof.file, store.file, store.manifest)
  }

  /** The entry loop of save_snapshot_file and of rewrite. */
  method WriteItems(items: seq<Item>) returns (out: string)
    ensures out == EncodeAll(Dump(items))
  {
    hide Encode, EncodeAll;
    EncodeNone();
    out := "";
    for i := 0 to |items|
      invariant out == EncodeAll(Dump(items[..i]))
    {
      var e := items[i];
      assert items[..i + 1][..i] == items[..i];
      var store := ["SET", e.key, e.value];
      var encoded := EncodeCommand(store);
      out := out + encoded;
      EncodeLogged(Dump(items[..i]), Some(store));
      if e.expiry.Some? {
        var expire := ["PEXPIREAT", e.key, IntText(e.expiry.value)];
        encoded := EncodeCommand(expire);
        out := out + encoded;
        EncodeLogged(Dump(items[..i]) + [store], Some(expire));
      }
      DumpNext(items, i);
    }
    assert items[..|items|] == items;
  }

  lemma DumpNext(items: seq<Item>, i: nat)
    requires i < |items|
    ensures var e := items[i];
            var sets := Dump(items[..i]) + [["SET", e.key, e.value]];
            Dump(items[..i + 1]) ==
              if e.expiry.Some? then sets + [["PEXPIREAT", e.key, IntText(e.expiry.value)]] else sets
  {
    assert items[..i + 1][..i] == items[..i];
  }

  /** SAVE with the log open: snapshot first, then a manifest naming the end of the log. */
  method Save(cfg: Config, ctx: Context, store: SnapshotStore, now: int) returns (ghost items: seq<Item>)
    requires ctx.Valid()
    modifies ctx.engine, store
    ensures ctx.Valid() && ctx.engine.table == LiveTable(old(ctx.engine.table), now)
    ensures Lists(items, old(ctx.engine.table), now)
    ensures StepFiles(cfg, Server(old(ctx.engine.table), old(FilesNow(ctx.aof, store))), Event.Save(now, items)) ==
            Server(old(ctx.engine.table), FilesNow(ctx.aof, store))
  {
    hide Sized, Represents, Ledger, Lists, Dump, EncodeAll, ManifestText, ItemsMemory, Bytes, Exec, LiveTable;
    var offset := ctx.aof.currentSize;
    var listing := ctx.engine.Snapshot(now);
    var bytes := WriteItems(listing);
    store.file := Some(bytes);
    store.manifest := Some(ManifestText(Manifest(cfg.snapshotPath, cfg.aofPath, offset, now)));
    items := listing;
  }

  /** BGREWRITEAOF: replace the log, drop the manifest if its path is configured, reopen. */
  method Rewrite(cfg: Config, ctx: Context, store: SnapshotStore, now: int) returns (ghost items: seq<Item>)
    requires ctx.Valid()
    modifies ctx.engine, ctx.aof, store
    ensures ctx.Valid() && ctx.engine.table == LiveTable(old(ctx.engine.table), now)
    ensures Lists(items, old(ctx.engine.table), now)
    ensures StepFiles(cfg, Server(old(ctx.engine.table), old(FilesNow(ctx.aof, store))), Event.Rewrite(now, items)) ==
            Server(old(ctx.engine.table), FilesNow(ctx.aof, store))
  {
    hide Sized, Represents, Ledger, Lists, Dump, EncodeAll, ItemsMemory, Bytes, Exec, LiveTable;
    var listing := ctx.engine.Snapshot(now);
    var bytes := WriteItems(listing);
    ctx.aof.file := bytes;
    if cfg.manifestNamed {
      store.manifest := None;
    }
    ctx.aof.currentSize := |bytes|;
    items := listing;
  }

  // --- Reading a command stream ---------------------------------------------------------------

  /** How far a read of a command stream has come: some commands taken, the rest still buffered. */
  ghost predicate Taken(o: Options, content: string, done: seq<seq<string>>, buffer: string) {
    var all, left := ReadLog(o, content), ReadLog(o, buffer);
    all == left.(commands := done + left.commands)
  }

  lemma TakenNone(o: Options, content: string)
    ensures Taken(o, content, [], content)
  {
    hide ReadLog;
    assert [] + ReadLog(o, content).commands == ReadLog(o, content).commands;
  }

  lemma TakenNext(o: Options, content: string, done: seq<seq<string>>, buffer: string, args: seq<string>, rest: string)
    requires Taken(o, content, done, buffer) && Resp.NextCommand(o, buffer) == (Command(args), rest)
    ensures |rest| < |buffer|
    ensures Taken(o, content, done + [args], rest)
    ensures ReadLog(o, content).commands == done + [args] + ReadLog(o, rest).commands
  {
    hide Resp.NextCommand;
    var left := ReadLog(o, rest).commands;
    assert ReadLog(o, buffer).commands == [args] + left;
    assert done + ([args] + left) == done + [args] + left;
  }

  lemma TakenAll(o: Options, content: string, done: seq<seq<string>>, buffer: string)
    requires Taken(o, content, done, buffer) && !Resp.NextCommand(o, buffer).0.Command?
    ensures var step := Resp.NextCommand(o, buffer);
            ReadLog(o, content) == LogRead(done, step.1, if step.0.Refused? then Some(step.0.error) else None)
  {
    hide Resp.NextCommand;
    assert done + [] == done;
  }

  // --- Loading a snapshot ---------------------------------------------------------------------

  lemma {:induction false} LoadStuck(l: Limits, limit: nat, start: Option<Table>, at: int, done: seq<seq<string>>, rest: seq<seq<string>>)
    requires LoadWithin(l, limit, start, at, done).None?
    ensures LoadWithin(l, limit, start, at, done + rest).None?
    decreases |rest|
  {
    hide LoadOneWithin;
    if rest == [] {
      assert done + rest == done;
    } else {
      assert (done + rest)[..|done + rest| - 1] == done + rest[..|rest| - 1];
      LoadStuck(l, limit, start, at, done, rest[..|rest| - 1]);
    }
  }

  lemma LoadLast(l: Limits, limit: nat, start: Option<Table>, at: int, done: seq<seq<string>>, args: seq<string>)
    requires LoadWithin(l, limit, start, at, done).Some?
    ensures LoadWithin(l, limit, start, at, done + [args]) ==
            LoadOneWithin(l, limit, LoadWithin(l, limit, start, at, done).value, at, args)
  {
    hide LoadOneWithin;
    assert (done + [args])[..|done|] == done;
  }

  /** One command of a snapshot. */
  method LoadCommand(engine: StorageEngine, args: seq<string>, at: int) returns (ok: bool)
    requires engine.Valid()
    modifies engine
    ensures engine.Valid()
    ensures var r := LoadOneWithin(engine.limits, engine.maxMemory, old(engine.table), at, args);
            ok == r.Some? && (ok ==> engine.table == r.value)
  {
    hide Sized, Represents, Ledger, ExpireAtCell, ParseI64, Bytes, Look;
    if |args| == 3 && args[0] == "SET" {
      StorePurged(engine.maxMemory, engine.table, args[1], at,
                  SetCell(engine.limits, args[1], Look(engine.table, args[1], at), args[2], None, Always));
      hide Purged, Put, StoreWithin;
      var code := engine.Set(args[1], args[2], None, Always, at);
      return code.Stored?;
    }
    if |args| == 3 && args[0] == "PEXPIREAT" {
      var when := ParseI64(args[2]);
      if when.None? {
        return false;
      }
      var _ := engine.ExpireAt(args[1], when.value, at);
      return true;
    }
    return false;
  }

  /** SnapshotStore::load into an empty store: it succeeds exactly when LoadBytesWithin does, with exactly
      that table. */
  method Load(cfg: Config, engine: StorageEngine, content: string, at: int) returns (ok: bool)
    requires engine.Valid() && engine.limits == cfg.Limits() && engine.table == map[]
    modifies engine
    ensures engine.Valid()
    ensures var r := LoadBytesWithin(cfg, engine.maxMemory, at, content); ok == r.Some? && (ok ==> engine.table == r.value)
  {
    hide Sized, Represents, Ledger, LoadWithin, LoadOneWithin, ReadLog, Taken;
    if content == "" {
      return true;
    }
    var o := cfg.Options();
    var parser := new P.Parser(o);
    var fits := parser.Append(content);
    if !fits {
      return false;
    }
    assert parser.buffer == content;
    TakenNone(o, content);
    ghost var l, limit, empty := cfg.Limits(), engine.maxMemory, Some(map[]);
    ghost var done: seq<seq<string>> := [];
    LoadNone(l, limit, at);
    while true
      invariant engine.Valid() && parser.Valid() && parser.options == o
      invariant Taken(o, content, done, parser.buffer)
      invariant LoadWithin(l, limit, empty, at, done) == Some(engine.table)
      decreases |parser.buffer|
    {
      ghost var buffer := parser.buffer;
      var step := parser.NextCommand();
      match step
      case Starved =>
        TakenAll(o, content, done, buffer);
        return parser.buffer == "";
      case Refused(_) =>
        TakenAll(o, content, done, buffer);
        return false;
      case Command(args) =>
        TakenNext(o, content, done, buffer, args, parser.buffer);
        LoadLast(l, limit, empty, at, done, args);
        ok := LoadCommand(engine, args, at);
        if !ok {
          LoadStuck(l, limit, empty, at, done + [args], ReadLog(o, parser.buffer).commands);
          return;
        }
        done := done + [args];
    }
  }

  lemma LoadNone(l: Limits, limit: nat, at: int)
    ensures LoadWithin(l, limit, Some(map[]), at, []) == Some(map[])
  {
  }

  // --- Replaying the log ----------------------------------------------------------------------

  lemma {:induction false} ReplayStuck(l: Limits, limit: nat, start: Option<Table>, at: int, done: seq<seq<string>>, rest: seq<seq<string>>)
    requires ReplayWithin(l, limit, start, at, done).None?
    ensures ReplayWithin(l, limit, start, at, done + rest).None?
    decreases |rest|
  {
    hide ReplayOneWithin;
    if rest == [] {
      assert done + rest == done;
    } else {
      assert (done + rest)[..|done + rest| - 1] == done + rest[..|rest| - 1];
      ReplayStuck(l, limit, start, at, done, rest[..|rest| - 1]);
    }
  }

  lemma ReplayLastWithin(l: Limits, limit: nat, start: Option<Table>, at: int, done: seq<seq<string>>, args: seq<string>)
    requires ReplayWithin(l, limit, start, at, done).Some?
    ensures ReplayWithin(l, limit, start, at, done + [args]) ==
            ReplayOneWithin(l, limit, ReplayWithin(l, limit, start, at, done).value, at, args)
  {
    hide ReplayOneWithin;
    assert (done + [args])[..|done|] == done;
  }

  lemma ReplayNone(l: Limits, limit: nat, start: Table, at: int)
    ensures ReplayWithin(l, limit, Some(start), at, []) == Some(start)
  {
  }

  /** The callback of main: one record through the handlers, an error reply stops the replay. */
  method ReplayCommand(ctx: Context, args: seq<string>, at: int) returns (ok: bool)
    requires ctx.Valid() && ctx.replay
    modifies ctx.engine, ctx.aof
    ensures ctx.Valid() && ctx.aof.file == old(ctx.aof.file)
    ensures var r := ReplayOneWithin(ctx.engine.limits, ctx.engine.maxMemory, old(ctx.engine.table), at, args);
            ok == r.Some? && (ok ==> ctx.engine.table == r.value)
  {
    hide Sized, Represents, Ledger, ExecWithin;
    var reply := Execute(ctx, args, at);
    assert old(ctx.aof.file) + "" == old(ctx.aof.file);
    ok := !reply.Failed?;
  }

  datatype ReplayStats = ReplayStats(ok: bool, commands: nat, ignoredTail: bool)

  /** What replay_file should report for a stream that it could read. */
  ghost predicate StatsOf(cfg: Config, content: string, offset: nat, stats: ReplayStats) {
    if content == "" || offset >= |content| then stats.commands == 0 && !stats.ignoredTail
    else
      var r := ReadLog(cfg.Options(), content[offset..]);
      stats.commands == |r.commands| && stats.ignoredTail == (r.rest != "")
  }

  /** Aof::replay_file with the callback of main: it succeeds exactly when ReplayBytesWithin does, with
      exactly that table, counting the commands and noticing a torn tail. Nothing is logged. */
  method ReplayFile(cfg: Config, ctx: Context, content: string, offset: nat, at: int) returns (stats: ReplayStats)
    requires ctx.Valid() && ctx.replay && ctx.engine.limits == cfg.Limits()
    modifies ctx.engine, ctx.aof
    ensures ctx.Valid() && ctx.aof.file == old(ctx.aof.file)
    ensures var r := ReplayBytesWithin(cfg, ctx.engine.maxMemory, old(ctx.engine.table), at, content, offset);
            stats.ok == r.Some? && (stats.ok ==> ctx.engine.table == r.value)
    ensures stats.ok ==> StatsOf(cfg, content, offset, stats)
  {
    hide Sized, Represents, Ledger, ReplayWithin, ReplayOneWithin, ReadLog, Taken;
    if content == "" {
      return ReplayStats(true, 0, false);
    }
    if offset > |content| {
      return ReplayStats(false, 0, false);
    }
    if offset == |content| {
      return ReplayStats(true, 0, false);
    }
    var o := cfg.Options();
    var parser := new P.Parser(o);
    var fits := parser.Append(content[offset..]);
    if !fits {
      return ReplayStats(false, 0, false);
    }
    ghost var l, limit, start, tail := cfg.Limits(), ctx.engine.maxMemory, Some(ctx.engine.table), content[offset..];
    assert parser.buffer == tail;
    TakenNone(o, tail);
    ghost var done: seq<seq<string>> := [];
    ReplayNone(l, limit, ctx.engine.table, at);
    var count := 0;
    while true
      invariant ctx.Valid() && parser.Valid() && parser.options == o && ctx.aof.file == old(ctx.aof.file)
      invariant Taken(o, tail, done, parser.buffer) && count == |done|
      invariant ReplayWithin(l, limit, start, at, done) == Some(ctx.engine.table)
      decreases |parser.buffer|
    {
      ghost var buffer := parser.buffer;
      var step := parser.NextCommand();
      match step
      case Starved =>
        TakenAll(o, tail, done, buffer);
        return ReplayStats(true, count, parser.buffer != "");
      case Refused(_) =>
        TakenAll(o, tail, done, buffer);
        return ReplayStats(false, count, false);
      case Command(args) =>
        TakenNext(o, tail, done, buffer, args, parser.buffer);
        ReplayLastWithin(l, limit, start, at, done, args);
        var ok := ReplayCommand(ctx, args, at);
        if !ok {
          ReplayStuck(l, limit, start, at, done + [args], ReadLog(o, parser.buffer).commands);
          return ReplayStats(false, count, false);
        }
        done := done + [args];
        count := count + 1;
    }
  }

  // --- Recovery -------------------------------------------------------------------------------

  /** load_for_recovery: load the snapshot if the manifest can be trusted. */
  method LoadForRecovery(cfg: Config, engine: StorageEngine, files: Files, at: int) returns (ok: bool, offset: Option<nat>)
    requires engine.Valid() && engine.limits == cfg.Limits() && engine.table == map[]
    modifies engine
    ensures engine.Valid()
    ensures offset == UsableOffset(cfg, files)
    ensures offset.None? ==> ok && engine.table == map[]
    ensures offset.Some? ==>
              files.snapshot.Some? &&
              var r := LoadBytesWithin(cfg, engine.maxMemory, at, files.snapshot.value);
              ok == r.Some? && (ok ==> engine.table == r.value)
  {
    hide Sized, Represents, Ledger, LoadBytesWithin, AddLines, FromValues;
    if files.manifest.None? {
      return true, None;
    }
    var values := ParseManifestLines(files.manifest.value);
    var m := FromValues(values);
    if m.None? {
      return true, None;
    }
    if m.value.snapshotPath != cfg.snapshotPath || m.value.aofPath != cfg.aofPath || m.value.offset > |files.aof| ||
       files.snapshot.None? {
      return true, None;
    }
    ok := Load(cfg, engine, files.snapshot.value, at);
    offset := Some(m.value.offset);
  }

  /** The recovery sequence of main, on the files found and under any memory limit: it comes up exactly when
      RecoverWithin does, with exactly that table. */
  method Recover(cfg: Config, files: Files, maxMemory: nat, shardCount: nat, hash: Hash, at: int)
    returns (ok: bool, engine: StorageEngine)
    ensures fresh(engine) && engine.Valid() && engine.limits == cfg.Limits() && engine.maxMemory == maxMemory
    ensures var r := RecoverWithin(cfg, maxMemory, files, at); ok == r.Some? && (ok ==> engine.table == r.value)
  {
    hide Sized, Represents, Ledger, LoadBytesWithin, ReplayBytesWithin, UsableOffset;
    engine := new StorageEngine(cfg.Limits(), maxMemory, shardCount, hash);
    var offset;
    ok, offset := LoadForRecovery(cfg, engine, files, at);
    if !ok {
      return;
    }
    var aof := new Aof("");
    var stats := ReplayFile(cfg, Context(engine, aof, true), files.aof, if offset.Some? then offset.value else 0, at);
    ok := stats.ok;
  }

  // --- Reloading always fits ------------------------------------------------------------------

  lemma {:induction false} DumpMemory(items: seq<Item>)
    ensures LogMemory(Dump(items)) == ItemsMemory(items)
  {
    if items != [] {
      hide *;
      var front, last := items[..|items| - 1], items[|items| - 1];
      DumpMemory(front);
      assert items[..|items|] == items && items == front + [last];
      ItemsMemoryLast(front, last);
      DumpNext(items, |items| - 1);
      var store := ["SET", last.key, last.value];
      DumpCommandMemory(last.key, last.value);
      LogMemoryLast(Dump(front), store);
      if last.expiry.Some? {
        DumpCommandMemory(last.key, IntText(last.expiry.value));
        LogMemoryLast(Dump(front) + [store], ["PEXPIREAT", last.key, IntText(last.expiry.value)]);
      }
    }
  }

  /** Expiry times are 64-bit in the source. */
  predicate TimesInRange(t: Table) {
    forall k | k in t && t[k].expiry.Some? :: InI64(t[k].expiry.value)
  }

  /** A listing of an engine's table can be written and read back. */
  lemma ListingReadable(cfg: Config, items: seq<Item>, t: Table, now: int)
    requires Workable(cfg) && Sized(cfg.Limits(), t) && TimesInRange(t) && Lists(items, t, now)
    requires |EncodeAll(Dump(items))| <= cfg.maxRequest
    ensures BoundedItems(cfg.Limits(), items) && AllFit(cfg.Options(), Dump(items))
  {
    hide EncodeAll, Dump, Workable;
    assert BoundedTable(cfg.Limits(), t);
    ListingBounded(cfg.Limits(), items, t, now);
    DumpFits(cfg, items);
    FitsWithin(cfg.Options(), Dump(items));
  }

  /** Snapshot an engine and load the bytes into an empty one with the same limits: whatever the memory
      limit, nothing is refused, and the copy reads like the original at any later time. */
  method Reload(cfg: Config, engine: StorageEngine, shardCount: nat, hash: Hash, now: int, at: int)
    returns (bytes: string, ok: bool, copy: StorageEngine)
    requires engine.Valid() && engine.limits == cfg.Limits() && Workable(cfg) && TimesInRange(engine.table) && now <= at
    modifies engine
    ensures fresh(copy) && copy.Valid() && copy.maxMemory == engine.maxMemory
    ensures |bytes| <= cfg.maxRequest ==> ok && Same(copy.table, old(engine.table), at)
  {
    hide Sized, Represents, Ledger, Lists, Dump, EncodeAll, ItemsMemory, Bytes, LogMemory, ReadLog, LoadLog, LoadBytesWithin, LoadBytes, Workable;
    ghost var t := engine.table;
    var items := engine.Snapshot(now);
    engine.WithinLimit();
    bytes := WriteItems(items);
    copy := new StorageEngine(cfg.Limits(), engine.maxMemory, shardCount, hash);
    ok := Load(cfg, copy, bytes, at);
    if |bytes| <= cfg.maxRequest {
      ListingReadable(cfg, items, t, now);
      EncodingsRoundTrip(cfg.Options(), Dump(items));
      DumpMemory(items);
      LoadWhole(cfg, at, Dump(items));
      SnapshotFaithful(cfg.Limits(), t, now, items, at);
      LoadBytesAgrees(cfg, engine.maxMemory, at, bytes);
      SameTrans(copy.table, LoadBytes(cfg, at, bytes).value, t, at);
    }
  }

  /** The same for a rewritten log, replayed through the handlers. */
  method ReplayRewritten(cfg: Config, engine: StorageEngine, shardCount: nat, hash: Hash, now: int, at: int)
    returns (bytes: string, ok: bool, copy: StorageEngine)
    requires engine.Valid() && engine.limits == cfg.Limits() && Workable(cfg) && TimesInRange(engine.table) && now <= at
    modifies engine
    ensures fresh(copy) && copy.Valid() && copy.maxMemory == engine.maxMemory
    ensures |bytes| <= cfg.maxRequest ==> ok && Same(copy.table, old(engine.table), at)
  {
    hide Sized, Represents, Ledger, Lists, Dump, EncodeAll, ItemsMemory, Bytes, LogMemory, ReadLog, ReplayLog, ReplayBytesWithin, ReplayBytes, Workable;
    ghost var t := engine.table;
    var items := engine.Snapshot(now);
    engine.WithinLimit();
    bytes := WriteItems(items);
    copy := new StorageEngine(cfg.Limits(), engine.maxMemory, shardCount, hash);
    copy.WithinLimit();
    var aof := new Aof("");
    var stats := ReplayFile(cfg, Context(copy, aof, true), bytes, 0, at);
    ok := stats.ok;
    if |bytes| <= cfg.maxRequest {
      ListingReadable(cfg, items, t, now);
      EncodingsRoundTrip(cfg.Options(), Dump(items));
      DumpMemory(items);
      assert bytes[0..] == bytes;
      NoBytes();
      ReplayWhole(cfg, map[], at, Dump(items));
      CompactionFaithful(cfg.Limits(), t, now, items, at);
      ReplayBytesAgrees(cfg, engine.maxMemory, map[], map[], at, bytes, 0);
      SameTrans(copy.table, ReplayBytes(cfg, map[], at, bytes, 0).value, t, at);
    }
  }

  lemma ReplayWhole(cfg: Config, start: Table, at: int, log: seq<seq<string>>)
    requires AllFit(cfg.Options(), log) && |EncodeAll(log)| <= cfg.maxRequest
    ensures ReplayBytes(cfg, start, at, EncodeAll(log), 0) == ReplayLog(cfg.Limits(), Some(start), at, log)
  {
    hide ReadLog, EncodeAll, ReplayLog;
    EncodingsRoundTrip(cfg.Options(), log);
    var bytes := EncodeAll(log);
    assert bytes[0..] == bytes;
    if log == [] {
      EncodeNone();
      ReplayEmptyLog(cfg.Limits(), start, at);
    } else {
      EncodeSome(log);
    }
  }

  lemma ReplayEmptyLog(l: Limits, start: Table, at: int)
    ensures ReplayLog(l, Some(start), at, []) == Some(start)
  {
  }
}
