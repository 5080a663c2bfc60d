/** Loading, replay and recovery under a memory limit: exactly what the running server does, which tables
    it comes up with, and how that compares with recovery without a limit. */
module Limited {
  import opened Wrappers
  import opened Text
  import opened Store
  import opened Budget
  import opened Commands
  import opened Replay
  import opened Congruence
  import opened Bounded
  import opened Checkpoint
  import opened Disk

  // --- Commands -------------------------------------------------------------------------------

  ghost function LoadOneWithin(l: Limits, limit: nat, t: Table, at: int, args: seq<string>): Option<Table> {
    if |args| == 3 && args[0] == "SET" then
      var w := SetCell(l, args[1], Look(t, args[1], at), args[2], None, Always);
      if !w.code.Stored? || !Affordable(limit, Put(t, args[1], w.cell)) then None else Some(Put(t, args[1], w.cell))
    else if |args| == 3 && args[0] == "PEXPIREAT" then
      match ParseI64(args[2])
      case None => None
      case Some(when) =>
        var c := ExpireAtCell(Look(t, args[1], at), when, at);
        Some(if c.Some? then Put(t, args[1], c.value) else Purged(t, args[1], at))
    else None
  }

  ghost function LoadWithin(l: Limits, limit: nat, start: Option<Table>, at: int, commands: seq<seq<string>>): Option<Table> {
    if commands == [] then start
    else
      var t := LoadWithin(l, limit, start, at, commands[..|commands| - 1]);
      if t.None? then None else LoadOneWithin(l, limit, t.value, at, commands[|commands| - 1])
  }

  /** One record through the replay callback: a refused command stops the recovery. */
  ghost function ReplayOneWithin(l: Limits, limit: nat, t: Table, at: int, record: seq<string>): Option<Table> {
    var e := ExecWithin(l, limit, t, at, record);
    if e.reply.Failed? then None else Some(e.table)
  }

  ghost function ReplayWithin(l: Limits, limit: nat, start: Option<Table>, at: int, log: seq<seq<string>>): Option<Table> {
    if log == [] then start
    else
      var t := ReplayWithin(l, limit, start, at, log[..|log| - 1]);
      if t.None? then None else ReplayOneWithin(l, limit, t.value, at, log[|log| - 1])
  }

  // --- Bytes ----------------------------------------------------------------------------------

  ghost function ReplayBytesWithin(cfg: Config, limit: nat, start: Table, at: int, content: string, offset: nat): Option<Table> {
    if content == "" then Some(start)
    else if offset > |content| then None
    else if offset == |content| then Some(start)
    else if |content| - offset > cfg.maxRequest then None
    else
      var r := ReadLog(cfg.Options(), content[offset..]);
      if r.error.Some? then None else ReplayWithin(cfg.Limits(), limit, Some(start), at, r.commands)
  }

  ghost function LoadBytesWithin(cfg: Config, limit: nat, at: int, content: string): Option<Table> {
    if content == "" then Some(map[])
    else if |content| > cfg.maxRequest then None
    else
      var r := ReadLog(cfg.Options(), content);
      if r.error.Some? || r.rest != "" then None else LoadWithin(cfg.Limits(), limit, Some(map[]), at, r.commands)
  }

  /** The recovery sequence of main under a memory limit; None if startup fails. */
  ghost function RecoverWithin(cfg: Config, limit: nat, f: Files, at: int): Option<Table> {
    match UsableOffset(cfg, f)
    case None => ReplayBytesWithin(cfg, limit, map[], at, f.aof, 0)
    case Some(offset) =>
      if f.snapshot.None? then None
      else
        match LoadBytesWithin(cfg, limit, at, f.snapshot.value)
        case None => None
        case Some(t) => ReplayBytesWithin(cfg, limit, t, at, f.aof, offset)
  }

  // --- The same without a limit ---------------------------------------------------------------

  /** `a`, reached under the limit, is affordable and reads like `b`, reached without. */
  ghost predicate Agrees(limit: nat, a: Option<Table>, b: Option<Table>, at: int) {
    a.Some? ==> b.Some? && Affordable(limit, a.value) && Same(a.value, b.value, at)
  }

  lemma ReplayOneAgrees(l: Limits, limit: nat, t: Table, u: Table, at: int, record: seq<string>)
    requires Affordable(limit, t) && Same(t, u, at)
    ensures Agrees(limit, ReplayOneWithin(l, limit, t, at, record), ReplayOne(l, u, at, record), at)
    ensures limit == 0 || Bytes(t) + WriteMemory(record) <= limit ==>
              (ReplayOneWithin(l, limit, t, at, record).Some? <==> ReplayOne(l, u, at, record).Some?)
    ensures ReplayOneWithin(l, limit, t, at, record).Some? ==>
              Bytes(ReplayOneWithin(l, limit, t, at, record).value) <= Bytes(t) + WriteMemory(record)
  {
    hide ExecWithin, Exec, Bytes, WriteMemory, KeptPairs;
    WithinTracks(l, limit, t, at, record);
    WithinGrows(l, limit, t, at, record);
    ExecAlike(l, t, u, at, record);
    var e, f, g := ExecWithin(l, limit, t, at, record), Exec(l, t, at, record), Exec(l, u, at, record);
    if e.reply != OUT_OF_MEMORY { SameTrans(e.table, f.table, g.table, at); }
  }

  /** A bound on the memory the records of a log take. */
  function LogMemory(log: seq<seq<string>>): nat {
    if log == [] then 0 else LogMemory(log[..|log| - 1]) + WriteMemory(log[|log| - 1])
  }

  /** Under a limit a replay can only come to a table that reads like the one without; with no limit, or
      with room for everything the log writes, it comes up exactly when the replay without limit does. */
  lemma {:induction false} ReplayAgrees(l: Limits, limit: nat, t: Table, u: Table, at: int, log: seq<seq<string>>)
    requires Affordable(limit, t) && Same(t, u, at)
    ensures Agrees(limit, ReplayWithin(l, limit, Some(t), at, log), ReplayLog(l, Some(u), at, log), at)
    ensures limit == 0 || Bytes(t) + LogMemory(log) <= limit ==>
              (ReplayWithin(l, limit, Some(t), at, log).Some? <==> ReplayLog(l, Some(u), at, log).Some?)
    ensures ReplayWithin(l, limit, Some(t), at, log).Some? ==>
              Bytes(ReplayWithin(l, limit, Some(t), at, log).value) <= Bytes(t) + LogMemory(log)
  {
    hide ReplayOneWithin, ReplayOne, Bytes, WriteMemory, Affordable;
    if log != [] {
      var front, last := log[..|log| - 1], log[|log| - 1];
      ReplayAgrees(l, limit, t, u, at, front);
      var a, b := ReplayWithin(l, limit, Some(t), at, front), ReplayLog(l, Some(u), at, front);
      if a.Some? { ReplayOneAgrees(l, limit, a.value, b.value, at, last); }
    }
  }

  lemma LoadOneAgrees(l: Limits, limit: nat, t: Table, u: Table, at: int, args: seq<string>)
    requires Affordable(limit, t) && Same(t, u, at)
    ensures Agrees(limit, LoadOneWithin(l, limit, t, at, args), LoadOne(l, u, at, args), at)
    ensures limit == 0 || Bytes(t) + WriteMemory(args) <= limit ==>
              (LoadOneWithin(l, limit, t, at, args).Some? <==> LoadOne(l, u, at, args).Some?)
    ensures LoadOneWithin(l, limit, t, at, args).Some? ==>
              Bytes(LoadOneWithin(l, limit, t, at, args).value) <= Bytes(t) + WriteMemory(args)
  {
    hide Bytes, ParseI64, Put, VerbOf;
    if |args| == 3 {
      var k, c := args[1], Look(t, args[1], at);
      assert c == Look(u, k, at);
      RecordNames();
      if args[0] == "SET" {
        var w := SetCell(l, k, c, args[2], None, Always);
        PutSame(t, u, k, w.cell, w.cell, at);
        BytesPut(t, k, w.cell);
      } else if args[0] == "PEXPIREAT" && ParseI64(args[2]).Some? {
        var e := ExpireAtCell(c, ParseI64(args[2]).value, at);
        if e.Some? {
          PutSame(t, u, k, e.value, e.value, at);
          BytesPut(t, k, e.value);
        } else {
          PurgedSame(t, k, at);
          SameTrans(Purged(t, k, at), t, u, at);
          ErasedAffordable(limit, t, k);
        }
      }
    }
  }

  lemma {:induction false} LoadAgrees(l: Limits, limit: nat, at: int, commands: seq<seq<string>>)
    ensures Agrees(limit, LoadWithin(l, limit, Some(map[]), at, commands), LoadLog(l, Some(map[]), at, commands), at)
    ensures limit == 0 || LogMemory(commands) <= limit ==>
              (LoadWithin(l, limit, Some(map[]), at, commands).Some? <==> LoadLog(l, Some(map[]), at, commands).Some?)
    ensures LoadWithin(l, limit, Some(map[]), at, commands).Some? ==>
              Bytes(LoadWithin(l, limit, Some(map[]), at, commands).value) <= LogMemory(commands)
  {
    if commands == [] {
      NoBytes();
    } else {
      hide LoadOneWithin, LoadOne, Bytes, WriteMemory, Affordable;
      var front, last := commands[..|commands| - 1], commands[|commands| - 1];
      LoadAgrees(l, limit, at, front);
      var a, b := LoadWithin(l, limit, Some(map[]), at, front), LoadLog(l, Some(map[]), at, front);
      if a.Some? { LoadOneAgrees(l, limit, a.value, b.value, at, last); }
    }
  }

  /** A bound on the memory recovery takes: everything it loads and replays. */
  function RecoveryMemory(cfg: Config, f: Files): nat {
    var offset := UsableOffset(cfg, f);
    var start := if offset.Some? then offset.value else 0;
    (if offset.Some? then LogMemory(ReadLog(cfg.Options(), f.snapshot.value).commands) else 0) +
    (if start <= |f.aof| then LogMemory(ReadLog(cfg.Options(), f.aof[start..]).commands) else 0)
  }

  lemma ReplayBytesAgrees(cfg: Config, limit: nat, t: Table, u: Table, at: int, content: string, offset: nat)
    requires Affordable(limit, t) && Same(t, u, at)
    ensures Agrees(limit, ReplayBytesWithin(cfg, limit, t, at, content, offset), ReplayBytes(cfg, u, at, content, offset), at)
    ensures offset <= |content| ==>
              (limit == 0 || Bytes(t) + LogMemory(ReadLog(cfg.Options(), content[offset..]).commands) <= limit ==>
                (ReplayBytesWithin(cfg, limit, t, at, content, offset).Some? <==> ReplayBytes(cfg, u, at, content, offset).Some?))
  {
    hide Bytes, ReplayWithin, ReplayLog, ReadLog, LogMemory, Affordable;
    if offset <= |content| {
      ReplayAgrees(cfg.Limits(), limit, t, u, at, ReadLog(cfg.Options(), content[offset..]).commands);
    }
  }

  lemma LoadBytesAgrees(cfg: Config, limit: nat, at: int, content: string)
    ensures Agrees(limit, LoadBytesWithin(cfg, limit, at, content), LoadBytes(cfg, at, content), at)
    ensures var memory := LogMemory(ReadLog(cfg.Options(), content).commands);
            && (limit == 0 || memory <= limit ==>
                  (LoadBytesWithin(cfg, limit, at, content).Some? <==> LoadBytes(cfg, at, content).Some?))
            && (LoadBytesWithin(cfg, limit, at, content).Some? ==> Bytes(LoadBytesWithin(cfg, limit, at, content).value) <= memory)
  {
    hide Bytes, LoadWithin, LoadLog, ReadLog, LogMemory;
    NoBytes();
    LoadAgrees(cfg.Limits(), limit, at, ReadLog(cfg.Options(), content).commands);
  }

  /** Recovery under a memory limit: if the server comes up, its table reads like the one recovery without
      a limit gives. With no limit, or with room for everything it loads and replays, it comes up exactly
      when recovery without a limit does. */
  lemma RecoverAgrees(cfg: Config, limit: nat, f: Files, at: int)
    ensures Agrees(limit, RecoverWithin(cfg, limit, f, at), RecoverFiles(cfg, f, at), at)
    ensures limit == 0 || RecoveryMemory(cfg, f) <= limit ==>
              (RecoverWithin(cfg, limit, f, at).Some? <==> RecoverFiles(cfg, f, at).Some?)
  {
    hide Bytes, LoadBytesWithin, LoadBytes, ReplayBytesWithin, ReplayBytes, LogMemory, ReadLog;
    NoBytes();
    match UsableOffset(cfg, f)
    case None => ReplayBytesAgrees(cfg, limit, map[], map[], at, f.aof, 0);
    case Some(offset) =>
      LoadBytesAgrees(cfg, limit, at, f.snapshot.value);
      var t, u := LoadBytesWithin(cfg, limit, at, f.snapshot.value), LoadBytes(cfg, at, f.snapshot.value);
      if t.Some? { ReplayBytesAgrees(cfg, limit, t.value, u.value, at, f.aof, offset); }
  }

  // --- What a checkpoint takes ----------------------------------------------------------------

  lemma LogMemoryLast(log: seq<seq<string>>, last: seq<string>)
    ensures LogMemory(log + [last]) == LogMemory(log) + WriteMemory(last)
  {
    hide WriteMemory;
    assert (log + [last])[..|log|] == log;
  }

  lemma DumpCommandMemory(k: string, text: string)
    ensures WriteMemory(["SET", k, text]) == EntryMemory(k, text) && WriteMemory(["PEXPIREAT", k, text]) == 0
  {
    RecordNames();
  }
}
