/** Commands under a memory limit: the exact table, answer and record, including which expired keys are
    purged on the way and what an MSET has stored when the memory runs out. Without a limit, and whenever
    memory does not run out, no client and no log can tell them from Exec. */
module Bounded {
  import opened Wrappers
  import opened Decimal
  import opened Text
  import opened Store
  import opened Budget
  import opened Commands
  import opened Replay
  import opened Congruence

  const OUT_OF_MEMORY := Failed(Storage(NoMemory))

  // --- Commands on one key --------------------------------------------------------------------

  /** The request gets past its argument and size checks to the shard of its key. */
  predicate Reaches(l: Limits, args: seq<string>)
    requires |args| >= 2 && IsKeyed(VerbOf(args[0]))
  {
    match VerbOf(args[0])
    case SET => |args| >= 3 && SetPlan(args).Ok? && |args[1]| <= l.maxKey && |args[2]| <= l.maxValue
    case INCR => |args| == 2 && |args[1]| <= l.maxKey
    case DECR => |args| == 2 && |args[1]| <= l.maxKey
    case APPEND => |args| == 3 && |args[1]| <= l.maxKey
    case EXPIRE => |args| == 3 && TtlArg(args[2], 1000).Some?
    case PEXPIRE => |args| == 3 && TtlArg(args[2], 1).Some?
    case PEXPIREAT => |args| == 3 && ParseI64(args[2]).Some?
    case PERSIST => |args| == 2
  }

  ghost function KeyedWithin(l: Limits, limit: nat, t: Table, now: int, args: seq<string>): Effect
    requires |args| >= 1 && IsKeyed(VerbOf(args[0]))
  {
    if |args| < 2 || !Reaches(l, args) then ExecKeyed(l, t, now, args)
    else
      var k := args[1];
      var e := ExecCell(l, Look(t, k, now), now, args);
      if e.record.None? then Effect(Purged(t, k, now), e.reply, None)
      else if !Affordable(limit, Put(t, k, e.cell)) then Effect(Purged(t, k, now), OUT_OF_MEMORY, None)
      else Effect(Put(t, k, e.cell), e.reply, e.record)
  }

  // --- Commands on several keys ---------------------------------------------------------------

  /** The table without the keys from position i on. */
  function Without(t: Table, args: seq<string>, i: nat): Table
    requires i <= |args|
    decreases |args| - i
  {
    if i == |args| then t else Without(Put(t, args[i], None), args, i + 1)
  }

  ghost function DelWithin(t: Table, now: int, args: seq<string>): Effect
    requires |args| >= 1
  {
    var e := ExecDel(t, now, args);
    e.(table := if |args| < 2 then t else Without(t, args, 1))
  }

  /** How far an MSET gets: its result, the table left, and the first pair not stored. */
  datatype PairsRun = PairsRun(code: WriteCode, table: Table, upto: nat)

  ghost function PairsWithin(l: Limits, limit: nat, t: Table, now: int, args: seq<string>, i: nat): (r: PairsRun)
    requires i <= |args| && (|args| - i) % 2 == 0
    ensures i <= r.upto <= |args| && (r.upto - i) % 2 == 0
    ensures r.code.Stored? <==> r.upto == |args|
    decreases |args| - i
  {
    if i == |args| then PairsRun(Stored, t, i)
    else
      var w := SetCell(l, args[i], None, args[i + 1], None, Always);
      if !w.code.Stored? then PairsRun(w.code, t, i)
      else if !Affordable(limit, Put(t, args[i], w.cell)) then PairsRun(NoMemory, Purged(t, args[i], now), i)
      else PairsWithin(l, limit, Put(t, args[i], w.cell), now, args, i + 2)
  }

  ghost function MsetWithin(l: Limits, limit: nat, t: Table, now: int, args: seq<string>): Effect
    requires |args| >= 1
  {
    if |args| < 3 || |args| % 2 == 0 then Effect(t, Failed(WrongArguments), None)
    else
      var r := PairsWithin(l, limit, t, now, args, 1);
      if r.code.Stored? then Effect(r.table, OkReply, Some(args)) else Effect(r.table, Failed(Storage(r.code)), None)
  }

  // --- Reads ----------------------------------------------------------------------------------

  /** The table once the keys from position i on have been purged. */
  function PurgedAll(t: Table, args: seq<string>, i: nat, now: int): Table
    requires i <= |args|
    decreases |args| - i
  {
    if i == |args| then t else PurgedAll(Purged(t, args[i], now), args, i + 1, now)
  }

  function ReadTable(t: Table, now: int, q: Query, args: seq<string>): Table {
    if !ReadArity(q, |args|) then t
    else
      match q
      case PING => t
      case ECHO => t
      case GET => Purged(t, args[1], now)
      case STRLEN => Purged(t, args[1], now)
      case EXISTS => PurgedAll(t, args, 1, now)
      case MGET => PurgedAll(t, args, 1, now)
      case TTL => Purged(t, args[1], now)
      case PTTL => Purged(t, args[1], now)
      case DBSIZE => LiveTable(t, now)
  }

  // --- All commands ---------------------------------------------------------------------------

  /** One request at one clock reading under a memory limit; zero is no limit. */
  ghost function ExecWithin(l: Limits, limit: nat, t: Table, now: int, args: seq<string>): Effect {
    if args == [] then Exec(l, t, now, args)
    else
      match VerbOf(args[0])
      case DEL => DelWithin(t, now, args)
      case MSET => MsetWithin(l, limit, t, now, args)
      case FLUSHDB => Exec(l, t, now, args)
      case READ(q) => Effect(ReadTable(t, now, q, args), ReadReply(t, now, q, args), None)
      case OTHER => Exec(l, t, now, args)
      case _ => KeyedWithin(l, limit, t, now, args)
  }

  /** The first pair an MSET did not store when the memory ran out; 1 for any other command. */
  ghost function KeptUpTo(l: Limits, limit: nat, t: Table, now: int, args: seq<string>): nat {
    if |args| >= 3 && |args| % 2 == 1 && VerbOf(args[0]) == MSET then PairsWithin(l, limit, t, now, args, 1).upto else 1
  }

  // --- How this compares with Exec ------------------------------------------------------------

  /** The same for clients and logs; or out of memory, with nothing logged and, apart from the pairs an
      MSET had stored, nothing changed for readers. */
  ghost predicate Tracks(l: Limits, limit: nat, t: Table, now: int, args: seq<string>, e: Effect) {
    if e.reply == OUT_OF_MEMORY then
      limit != 0 && e.record.None? && Same(e.table, KeptPairs(l, t, args, KeptUpTo(l, limit, t, now, args)), now)
    else Alike(e, Exec(l, t, now, args), now)
  }

  lemma KeyedTracks(l: Limits, limit: nat, t: Table, now: int, args: seq<string>)
    requires |args| >= 1 && IsKeyed(VerbOf(args[0]))
    ensures var e, f := KeyedWithin(l, limit, t, now, args), ExecKeyed(l, t, now, args);
            if e.reply == OUT_OF_MEMORY then limit != 0 && e.record.None? && Same(e.table, t, now) else Alike(e, f, now)
  {
    hide ExecCell, Reaches, Bytes, Purged;
    if |args| >= 2 {
      PurgedSame(t, args[1], now);
      KeyedNeverOutOfMemory(l, Look(t, args[1], now), now, args);
    }
  }

  /** Exec itself knows no memory limit. */
  lemma KeyedNeverOutOfMemory(l: Limits, c: Cell, now: int, args: seq<string>)
    requires |args| >= 2 && IsKeyed(VerbOf(args[0]))
    ensures ExecCell(l, c, now, args).reply != OUT_OF_MEMORY
  {
    hide VerbOf, IntText, ParseI64, ParseI64Exact, TtlArg, ExpireCell, ExpireAtCell, PersistCell, SetOptions;
    if VerbOf(args[0]) == SET && |args| >= 3 { PlanErrors(args, 3, NO_OPTIONS); }
  }

  lemma {:induction false} PlanErrors(args: seq<string>, i: nat, plan: Plan)
    requires i <= |args|
    ensures var r := SetOptions(args, i, plan); r.Err? ==> r.error.SyntaxError? || r.error.InvalidExpire?
    decreases |args| - i
  {
    hide OptionOf, ParseI64, TtlArg;
    if i < |args| {
      match OptionOf(args[i])
      case NxOption => PlanErrors(args, i + 1, plan.(cond := NX));
      case XxOption => PlanErrors(args, i + 1, plan.(cond := XX));
      case TimeOption(unit) =>
        if i + 1 < |args| {
          var next := TimeStep(plan, unit, args[i + 1]);
          if next.Ok? { PlanErrors(args, i + 2, next.value); }
        }
      case NoOption =>
    }
  }

  lemma {:induction false} WithoutSame(t: Table, u: Table, now: int, args: seq<string>, i: nat)
    requires i <= |args| && Same(t, u, now)
    ensures Same(Without(t, args, i), DelKeys(u, now, args, i).0, now)
    decreases |args| - i
  {
    if i < |args| {
      var k := args[i];
      PutSame(t, u, k, None, None, now);
      if Look(u, k, now).None? {
        EraseUnseen(u, k, now);
        SameTrans(Put(t, k, None), Put(u, k, None), u, now);
        WithoutSame(Put(t, k, None), u, now, args, i + 1);
      } else {
        WithoutSame(Put(t, k, None), Put(u, k, None), now, args, i + 1);
      }
    }
  }

  lemma {:induction false} PairsTrack(l: Limits, limit: nat, t: Table, now: int, args: seq<string>, i: nat)
    requires i <= |args| && (|args| - i) % 2 == 0
    ensures var r, s := PairsWithin(l, limit, t, now, args, i), SetPairs(l, t, args, i);
            && (r.code.NoMemory? ==> limit != 0)
            && (!r.code.NoMemory? ==> r.code == s.0 && r.table == s.1)
            && Same(r.table, PutPairs(t, args, i, r.upto), now)
    decreases |args| - i
  {
    hide Bytes;
    if i < |args| {
      var w := SetCell(l, args[i], None, args[i + 1], None, Always);
      if w.code.Stored? {
        if Affordable(limit, Put(t, args[i], w.cell)) {
          PairsTrack(l, limit, Put(t, args[i], w.cell), now, args, i + 2);
        } else {
          PurgedSame(t, args[i], now);
        }
      }
    }
  }

  lemma {:induction false} PurgedAllSame(t: Table, args: seq<string>, i: nat, now: int)
    requires i <= |args|
    ensures Same(PurgedAll(t, args, i, now), t, now)
    decreases |args| - i
  {
    if i < |args| {
      PurgedSame(t, args[i], now);
      PurgedAllSame(Purged(t, args[i], now), args, i + 1, now);
      SameTrans(PurgedAll(t, args, i, now), Purged(t, args[i], now), t, now);
    }
  }

  lemma ReadTracks(t: Table, now: int, q: Query, args: seq<string>)
    ensures Same(ReadTable(t, now, q, args), t, now)
  {
    hide Purged, LiveTable, PurgedAll;
    LiveSame(t, now);
    if |args| >= 2 {
      PurgedSame(t, args[1], now);
      PurgedAllSame(t, args, 1, now);
    }
  }

  lemma MsetTracks(l: Limits, limit: nat, t: Table, now: int, args: seq<string>)
    requires |args| >= 1 && VerbOf(args[0]) == MSET
    ensures Tracks(l, limit, t, now, args, MsetWithin(l, limit, t, now, args))
  {
    hide PairsWithin, SetPairs, VerbOf, PutPairs;
    if |args| >= 3 && |args| % 2 == 1 {
      PairsTrack(l, limit, t, now, args, 1);
      KeptFits(l, limit, t, now, args, 1);
      NoPairs(t, args);
    }
  }

  /** An MSET stops at the latest where the size limits stop it. */
  lemma {:induction false} KeptFits(l: Limits, limit: nat, t: Table, now: int, args: seq<string>, i: nat)
    requires i <= |args| && (|args| - i) % 2 == 0
    ensures PairsWithin(l, limit, t, now, args, i).upto <= FirstRefused(l, args, i)
    decreases |args| - i
  {
    hide Affordable;
    if i < |args| {
      var w := SetCell(l, args[i], None, args[i + 1], None, Always);
      if w.code.Stored? { KeptFits(l, limit, Put(t, args[i], w.cell), now, args, i + 2); }
    }
  }

  lemma NoPairs(t: Table, args: seq<string>)
    requires |args| >= 1
    ensures PutPairs(t, args, 1, 1) == t
  {
  }

  /** Under any limit: either exactly what Exec does, for clients and logs; or out of memory. */
  lemma WithinTracks(l: Limits, limit: nat, t: Table, now: int, args: seq<string>)
    ensures Tracks(l, limit, t, now, args, ExecWithin(l, limit, t, now, args))
  {
    hide KeyedWithin, MsetWithin, ExecKeyed, Without, DelKeys, KeptPairs, PairsWithin;
    if args != [] {
      match VerbOf(args[0])
      case DEL => if |args| >= 2 { WithoutSame(t, t, now, args, 1); }
      case MSET => MsetTracks(l, limit, t, now, args);
      case FLUSHDB =>
      case READ(q) => ReadNeverOutOfMemory(t, now, q, args); ReadTracks(t, now, q, args);
      case OTHER =>
      case _ => KeyedTracks(l, limit, t, now, args); KeepsNothing(l, t, args);
    }
  }

  lemma KeepsNothing(l: Limits, t: Table, args: seq<string>)
    ensures KeptPairs(l, t, args, 1) == t
  {
  }

  lemma ReadNeverOutOfMemory(t: Table, now: int, q: Query, args: seq<string>)
    ensures ReadReply(t, now, q, args) != OUT_OF_MEMORY
  {
  }

  // --- How much memory a request can take -----------------------------------------------------

  /** The bytes the pairs of an MSET from position i on account for. */
  function PairsMemory(args: seq<string>, i: nat): nat
    requires i <= |args| && (|args| - i) % 2 == 0
    decreases |args| - i
  {
    if i == |args| then 0 else EntryMemory(args[i], args[i + 1]) + PairsMemory(args, i + 2)
  }

  /** A bound on what a request adds to the memory, from the request alone. A counter takes at most 20
      characters. */
  function WriteMemory(args: seq<string>): nat {
    if |args| < 2 then 0
    else
      match VerbOf(args[0])
      case SET => if |args| >= 3 then EntryMemory(args[1], args[2]) else 0
      case MSET => if |args| % 2 == 1 then PairsMemory(args, 1) else 0
      case INCR => ENTRY_OVERHEAD + |args[1]| + 20
      case DECR => ENTRY_OVERHEAD + |args[1]| + 20
      case APPEND => if |args| == 3 then EntryMemory(args[1], args[2]) else 0
      case _ => 0
  }

  lemma CellGrows(l: Limits, c: Cell, now: int, args: seq<string>)
    requires |args| >= 2 && IsKeyed(VerbOf(args[0])) && ExecCell(l, c, now, args).record.Some?
    ensures CellMemory(args[1], ExecCell(l, c, now, args).cell) <= CellMemory(args[1], c) + WriteMemory(args)
  {
    hide VerbOf, SetPlan, ParseI64, TtlArg, IntText, ParseI64Exact;
    if VerbOf(args[0]) == INCR || VerbOf(args[0]) == DECR {
      I64Width(CounterValue(c).value + if VerbOf(args[0]) == INCR then 1 else -1);
    }
  }

  lemma KeyedGrows(l: Limits, limit: nat, t: Table, now: int, args: seq<string>)
    requires |args| >= 1 && IsKeyed(VerbOf(args[0])) && Affordable(limit, t)
    ensures var e := KeyedWithin(l, limit, t, now, args);
            && Affordable(limit, e.table) && Bytes(e.table) <= Bytes(t) + WriteMemory(args)
            && (limit == 0 || Bytes(t) + WriteMemory(args) <= limit ==> e.reply != OUT_OF_MEMORY)
  {
    hide ExecCell, Reaches, Bytes, WriteMemory, VerbOf, Put;
    if |args| >= 2 {
      var k, c := args[1], Look(t, args[1], now);
      var e := ExecCell(l, c, now, args);
      if !Reaches(l, args) { UnreachedKeeps(l, t, now, args); }
      KeyedNeverOutOfMemory(l, c, now, args);
      ErasedAffordable(limit, t, k);
      BytesPut(t, k, e.cell);
      if e.record.Some? { CellGrows(l, c, now, args); }
    }
  }

  /** A request turned away by its checks logs nothing. */
  lemma UnreachedKeeps(l: Limits, t: Table, now: int, args: seq<string>)
    requires |args| >= 2 && IsKeyed(VerbOf(args[0])) && !Reaches(l, args)
    ensures ExecKeyed(l, t, now, args).table == t && ExecKeyed(l, t, now, args).record.None?
  {
    hide VerbOf, SetPlan, ParseI64, TtlArg, IntText, ParseI64Exact;
  }

  lemma {:induction false} PairsGrow(l: Limits, limit: nat, t: Table, now: int, args: seq<string>, i: nat)
    requires i <= |args| && (|args| - i) % 2 == 0 && Affordable(limit, t)
    ensures var r := PairsWithin(l, limit, t, now, args, i);
            && Affordable(limit, r.table) && Bytes(r.table) <= Bytes(t) + PairsMemory(args, i)
            && (limit == 0 || Bytes(t) + PairsMemory(args, i) <= limit ==> !r.code.NoMemory?)
    decreases |args| - i
  {
    hide Bytes, Put;
    if i < |args| {
      var w := SetCell(l, args[i], None, args[i + 1], None, Always);
      BytesPut(t, args[i], w.cell);
      ErasedAffordable(limit, t, args[i]);
      if w.code.Stored? && Affordable(limit, Put(t, args[i], w.cell)) {
        PairsGrow(l, limit, Put(t, args[i], w.cell), now, args, i + 2);
      }
    }
  }

  lemma {:induction false} WithoutCheaper(t: Table, args: seq<string>, i: nat)
    requires i <= |args|
    ensures Bytes(Without(t, args, i)) <= Bytes(t)
    decreases |args| - i
  {
    hide Bytes, Put;
    if i < |args| {
      BytesPut(t, args[i], None);
      WithoutCheaper(Put(t, args[i], None), args, i + 1);
    }
  }

  lemma PurgedCheaper(t: Table, k: string, now: int)
    ensures Bytes(Purged(t, k, now)) <= Bytes(t)
  {
    hide Bytes, Put;
    BytesPut(t, k, None);
  }

  lemma {:induction false} PurgedAllCheaper(t: Table, args: seq<string>, i: nat, now: int)
    requires i <= |args|
    ensures Bytes(PurgedAll(t, args, i, now)) <= Bytes(t)
    decreases |args| - i
  {
    hide Bytes, Purged;
    if i < |args| {
      PurgedCheaper(t, args[i], now);
      PurgedAllCheaper(Purged(t, args[i], now), args, i + 1, now);
    }
  }

  lemma ReadCheaper(t: Table, now: int, q: Query, args: seq<string>)
    ensures Bytes(ReadTable(t, now, q, args)) <= Bytes(t)
  {
    hide Bytes, LiveTable, Purged, PurgedAll;
    LiveCheaper(t, now);
    if |args| >= 2 {
      PurgedCheaper(t, args[1], now);
      PurgedAllCheaper(t, args, 1, now);
    }
  }

  /** Every request keeps the table within the limit, adds at most what the request announces, and runs
      out of memory only if that much was not left. */
  lemma WithinGrows(l: Limits, limit: nat, t: Table, now: int, args: seq<string>)
    requires Affordable(limit, t)
    ensures var e := ExecWithin(l, limit, t, now, args);
            && Affordable(limit, e.table) && Bytes(e.table) <= Bytes(t) + WriteMemory(args)
            && (limit == 0 || Bytes(t) + WriteMemory(args) <= limit ==> e.reply != OUT_OF_MEMORY)
  {
    hide KeyedWithin, PairsWithin, Without, DelKeys, Bytes, ReadTable, PairsMemory;
    NoBytes();
    if args != [] {
      match VerbOf(args[0])
      case DEL => if |args| >= 2 { WithoutCheaper(t, args, 1); }
      case MSET => if |args| >= 3 && |args| % 2 == 1 { PairsGrow(l, limit, t, now, args, 1); }
      case FLUSHDB =>
      case READ(q) => ReadNeverOutOfMemory(t, now, q, args); ReadCheaper(t, now, q, args);
      case OTHER =>
      case _ => KeyedGrows(l, limit, t, now, args);
    }
  }
}
