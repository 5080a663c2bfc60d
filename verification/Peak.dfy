/** Exactly when loading, replay and recovery come up under a memory limit: when they do without one and
    the most memory they ever hold on the way is within the limit. */
module Peak {
  import opened Wrappers
  import opened Store
  import opened Budget
  import opened Commands
  import opened Bounded
  import opened Disk
  import opened Limited

  function Max(a: nat, b: nat): nat {
    if a < b then b else a
  }

  // --- One command ----------------------------------------------------------------------------

  /** The most memory the pairs of an MSET from position i on ever take, with no limit. */
  ghost function PairsPeak(l: Limits, t: Table, args: seq<string>, i: nat): nat
    requires i <= |args| && (|args| - i) % 2 == 0
    decreases |args| - i
  {
    if i == |args| then Bytes(t)
    else
      var w := SetCell(l, args[i], None, args[i + 1], None, Always);
      if w.code.Stored? then Max(Bytes(t), PairsPeak(l, Put(t, args[i], w.cell), args, i + 2)) else Bytes(t)
  }

  /** The most memory a command ever takes, with no limit: an MSET stores pair by pair, any other command
      has one table to leave. */
  ghost function StepPeak(l: Limits, t: Table, now: int, args: seq<string>): nat {
    if |args| >= 3 && |args| % 2 == 1 && VerbOf(args[0]) == MSET then PairsPeak(l, t, args, 1)
    else Bytes(ExecWithin(l, 0, t, now, args).table)
  }

  lemma {:induction false} PairsExact(l: Limits, limit: nat, t: Table, now: int, args: seq<string>, i: nat)
    requires i <= |args| && (|args| - i) % 2 == 0 && limit != 0 && Bytes(t) <= limit
    ensures var r := PairsWithin(l, limit, t, now, args, i);
            if PairsPeak(l, t, args, i) <= limit then r == PairsWithin(l, 0, t, now, args, i) else r.code.NoMemory?
    decreases |args| - i
  {
    hide Bytes, Put, Purged;
    if i < |args| {
      var u := Put(t, args[i], SetCell(l, args[i], None, args[i + 1], None, Always).cell);
      PairsPeakHolds(l, u, args, i + 2);
      if Bytes(u) <= limit { PairsExact(l, limit, u, now, args, i + 2); }
    }
  }

  lemma PairsPeakHolds(l: Limits, t: Table, args: seq<string>, i: nat)
    requires i <= |args| && (|args| - i) % 2 == 0
    ensures Bytes(t) <= PairsPeak(l, t, args, i)
  {
    hide Bytes, Put;
  }

  lemma KeyedExact(l: Limits, limit: nat, t: Table, now: int, args: seq<string>)
    requires |args| >= 1 && IsKeyed(VerbOf(args[0])) && limit != 0 && Bytes(t) <= limit
    ensures var e, free := KeyedWithin(l, limit, t, now, args), KeyedWithin(l, 0, t, now, args);
            if Bytes(free.table) <= limit then e == free else e.reply == OUT_OF_MEMORY
  {
    hide ExecCell, Reaches, Bytes, VerbOf, Put;
    if |args| >= 2 {
      if !Reaches(l, args) { UnreachedKeeps(l, t, now, args); }
      PurgedCheaper(t, args[1], now);
    }
  }

  /** Under a limit a command does exactly what it does without, or runs out of memory, according to the
      most memory it would take. */
  lemma StepExact(l: Limits, limit: nat, t: Table, now: int, args: seq<string>)
    requires limit != 0 && Bytes(t) <= limit
    ensures var e := ExecWithin(l, limit, t, now, args);
            if StepPeak(l, t, now, args) <= limit then e == ExecWithin(l, 0, t, now, args) else e.reply == OUT_OF_MEMORY
    ensures Bytes(ExecWithin(l, 0, t, now, args).table) <= StepPeak(l, t, now, args)
  {
    hide KeyedWithin, PairsWithin, Without, DelKeys, SetPairs, ReadReply, VerbOf, Bytes, ReadTable, PairsPeak;
    NoBytes();
    if args != [] {
      match VerbOf(args[0])
      case DEL => if |args| >= 2 { WithoutCheaper(t, args, 1); }
      case MSET =>
        if |args| >= 3 && |args| % 2 == 1 {
          PairsExact(l, limit, t, now, args, 1);
          PairsEndHolds(l, t, now, args, 1);
        }
      case FLUSHDB =>
      case READ(q) => ReadCheaper(t, now, q, args);
      case OTHER =>
      case _ => KeyedExact(l, limit, t, now, args);
    }
  }

  lemma {:induction false} PairsEndHolds(l: Limits, t: Table, now: int, args: seq<string>, i: nat)
    requires i <= |args| && (|args| - i) % 2 == 0
    ensures Bytes(PairsWithin(l, 0, t, now, args, i).table) <= PairsPeak(l, t, args, i)
    decreases |args| - i
  {
    hide Bytes, Put;
    if i < |args| {
      PairsEndHolds(l, Put(t, args[i], SetCell(l, args[i], None, args[i + 1], None, Always).cell), now, args, i + 2);
    }
  }

  // --- Logs -----------------------------------------------------------------------------------

  /** The most memory a replay from t ever holds, with no limit, up to its end or its first refusal. */
  ghost function LogPeak(l: Limits, t: Table, at: int, log: seq<seq<string>>): nat {
    if log == [] then Bytes(t)
    else
      var front, last := log[..|log| - 1], log[|log| - 1];
      var r := ReplayWithin(l, 0, Some(t), at, front);
      Max(LogPeak(l, t, at, front), if r.Some? then StepPeak(l, r.value, at, last) else 0)
  }

  /** What a replay under a limit must be: the one without, if that comes up and its peak is within the
      limit. */
  ghost predicate Decided(limit: nat, a: Option<Table>, free: Option<Table>, peak: nat) {
    && (a.Some? <==> free.Some? && (limit == 0 || peak <= limit))
    && (a.Some? ==> a == free && Bytes(a.value) <= peak)
  }

  lemma {:induction false} ReplayExact(l: Limits, limit: nat, t: Table, at: int, log: seq<seq<string>>)
    requires Affordable(limit, t)
    ensures Decided(limit, ReplayWithin(l, limit, Some(t), at, log), ReplayWithin(l, 0, Some(t), at, log), LogPeak(l, t, at, log))
  {
    hide ExecWithin, Bytes, StepPeak;
    if log != [] {
      var front, last := log[..|log| - 1], log[|log| - 1];
      ReplayExact(l, limit, t, at, front);
      var r := ReplayWithin(l, 0, Some(t), at, front);
      if r.Some? { StepDecides(l, limit, r.value, at, last); }
    }
  }

  lemma StepDecides(l: Limits, limit: nat, t: Table, at: int, record: seq<string>)
    ensures Affordable(limit, t) ==>
              Decided(limit, ReplayOneWithin(l, limit, t, at, record), ReplayOneWithin(l, 0, t, at, record), StepPeak(l, t, at, record))
    ensures Bytes(ExecWithin(l, 0, t, at, record).table) <= StepPeak(l, t, at, record)
  {
    hide ExecWithin, Bytes, StepPeak;
    StepExact(l, Bytes(t) + 1, t, at, record);
    if limit != 0 && Bytes(t) <= limit { StepExact(l, limit, t, at, record); }
  }

  // --- Snapshots ------------------------------------------------------------------------------

  /** The most memory a load into an empty store ever holds, with no limit. */
  ghost function LoadPeak(l: Limits, at: int, commands: seq<seq<string>>): nat {
    if commands == [] then 0
    else
      var front := LoadPeak(l, at, commands[..|commands| - 1]);
      var r := LoadWithin(l, 0, Some(map[]), at, commands);
      Max(front, if r.Some? then Bytes(r.value) else 0)
  }

  lemma LoadOneExact(l: Limits, limit: nat, t: Table, at: int, args: seq<string>)
    requires limit != 0 && Bytes(t) <= limit
    ensures var a, free := LoadOneWithin(l, limit, t, at, args), LoadOneWithin(l, 0, t, at, args);
            && (a.Some? <==> free.Some? && Bytes(free.value) <= limit) && (a.Some? ==> a == free)
  {
    hide Bytes, Put;
    if |args| == 3 {
      PurgedCheaper(t, args[1], at);
      var when := Text.ParseI64(args[2]);
      if when.Some? { ExpiryNoDearer(t, args[1], at, when.value); }
    }
  }

  lemma ExpiryNoDearer(t: Table, k: string, at: int, when: int)
    ensures var c := ExpireAtCell(Look(t, k, at), when, at); c.Some? ==> Bytes(Put(t, k, c.value)) <= Bytes(t)
  {
    hide Bytes, Put, EntryMemory;
    var c := ExpireAtCell(Look(t, k, at), when, at);
    if c.Some? { BytesPut(t, k, c.value); }
  }

  lemma {:induction false} LoadExact(l: Limits, limit: nat, at: int, commands: seq<seq<string>>)
    ensures Decided(limit, LoadWithin(l, limit, Some(map[]), at, commands), LoadWithin(l, 0, Some(map[]), at, commands),
                    LoadPeak(l, at, commands))
  {
    NoBytes();
    hide LoadOneWithin, Bytes;
    if commands != [] {
      var front, last := commands[..|commands| - 1], commands[|commands| - 1];
      LoadExact(l, limit, at, front);
      var r := LoadWithin(l, 0, Some(map[]), at, front);
      if limit != 0 && r.Some? && Bytes(r.value) <= limit { LoadOneExact(l, limit, r.value, at, last); }
    }
  }

  // --- Recovery from bytes --------------------------------------------------------------------

  ghost function ReplayBytesPeak(cfg: Config, start: Table, at: int, content: string, offset: nat): nat {
    if offset >= |content| then Bytes(start)
    else LogPeak(cfg.Limits(), start, at, ReadLog(cfg.Options(), content[offset..]).commands)
  }

  /** The most memory recovery ever holds, with no limit. */
  ghost function RecoveryPeak(cfg: Config, f: Files, at: int): nat {
    match UsableOffset(cfg, f)
    case None => ReplayBytesPeak(cfg, map[], at, f.aof, 0)
    case Some(offset) =>
      var load := LoadPeak(cfg.Limits(), at, ReadLog(cfg.Options(), f.snapshot.value).commands);
      var t := LoadBytesWithin(cfg, 0, at, f.snapshot.value);
      Max(load, if t.Some? then ReplayBytesPeak(cfg, t.value, at, f.aof, offset) else 0)
  }

  lemma ReplayBytesExact(cfg: Config, limit: nat, start: Table, at: int, content: string, offset: nat)
    requires Affordable(limit, start) && offset <= |content|
    ensures Decided(limit, ReplayBytesWithin(cfg, limit, start, at, content, offset),
                    ReplayBytesWithin(cfg, 0, start, at, content, offset), ReplayBytesPeak(cfg, start, at, content, offset))
  {
    hide Bytes, ReplayWithin, ReadLog, LogPeak;
    if offset < |content| {
      ReplayExact(cfg.Limits(), limit, start, at, ReadLog(cfg.Options(), content[offset..]).commands);
    }
  }

  lemma LoadBytesExact(cfg: Config, limit: nat, at: int, content: string)
    ensures Decided(limit, LoadBytesWithin(cfg, limit, at, content), LoadBytesWithin(cfg, 0, at, content),
                    LoadPeak(cfg.Limits(), at, ReadLog(cfg.Options(), content).commands))
  {
    hide Bytes, LoadWithin, ReadLog, LoadPeak;
    NoBytes();
    if content == "" { NothingToLoad(cfg, at); }
    LoadExact(cfg.Limits(), limit, at, ReadLog(cfg.Options(), content).commands);
  }

  lemma NothingToLoad(cfg: Config, at: int)
    ensures LoadPeak(cfg.Limits(), at, ReadLog(cfg.Options(), "").commands) == 0
  {
  }

  /** Recovery under a memory limit, exactly: the server comes up if and only if it does without a limit
      and the most memory recovery ever holds is within the limit; the table is then the same. */
  lemma RecoverExact(cfg: Config, limit: nat, f: Files, at: int)
    ensures Decided(limit, RecoverWithin(cfg, limit, f, at), RecoverWithin(cfg, 0, f, at), RecoveryPeak(cfg, f, at))
    ensures RecoverWithin(cfg, limit, f, at).Some? <==>
            RecoverFiles(cfg, f, at).Some? && (limit == 0 || RecoveryPeak(cfg, f, at) <= limit)
  {
    hide Bytes, LoadBytesWithin, ReplayBytesWithin, ReplayBytesPeak, LoadPeak, ReadLog, RecoverFiles;
    NoBytes();
    RecoverAgrees(cfg, 0, f, at);
    match UsableOffset(cfg, f)
    case None => ReplayBytesExact(cfg, limit, map[], at, f.aof, 0);
    case Some(offset) =>
      LoadBytesExact(cfg, limit, at, f.snapshot.value);
      var t := LoadBytesWithin(cfg, 0, at, f.snapshot.value);
      if t.Some? && Affordable(limit, t.value) { ReplayBytesExact(cfg, limit, t.value, at, f.aof, offset); }
  }

  /** Room for everything recovery loads and replays is enough, since the peak is then within the limit. */
  lemma RoomCoversPeak(cfg: Config, limit: nat, f: Files, at: int)
    requires RecoverFiles(cfg, f, at).Some? && limit != 0 && RecoveryMemory(cfg, f) <= limit
    ensures RecoveryPeak(cfg, f, at) <= limit
  {
    hide RecoverWithin, RecoverFiles, RecoveryPeak, RecoveryMemory;
    RecoverExact(cfg, limit, f, at);
    RecoverAgrees(cfg, limit, f, at);
  }

  /** Raising a limit, or lifting it, never breaks a recovery and never changes its outcome. */
  lemma MoreMemoryIsSafe(cfg: Config, limit: nat, more: nat, f: Files, at: int)
    requires (limit != 0 && limit <= more) || more == 0
    requires RecoverWithin(cfg, limit, f, at).Some?
    ensures RecoverWithin(cfg, more, f, at) == RecoverWithin(cfg, limit, f, at)
  {
    hide RecoverWithin, RecoverFiles, RecoveryPeak;
    RecoverExact(cfg, limit, f, at);
    RecoverExact(cfg, more, f, at);
  }
}
