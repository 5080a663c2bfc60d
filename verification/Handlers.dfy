/** The append-only file and the handlers of src/commands/commands.cpp, as they change the engine and the
    file. Each is proved to do exactly what ExecWithin says under the engine's memory limit. */
module Handlers {
  import opened Wrappers
  import opened Decimal
  import opened Text
  import opened Resp
  import opened Store
  import opened Commands
  import opened Budget
  import opened Bounded
  import opened Engine
  import opened Shards

  /** The open log: the bytes of the file and the size kept beside it. */
  class Aof {
    var file: string
    var currentSize: nat

    ghost predicate Valid()
      reads this
    {
      currentSize == |file|
    }

    /** Open a log at its end. */
    constructor (content: string)
      ensures Valid() && file == content
    {
      file := content;
      currentSize := |content|;
    }

    method Append(args: seq<string>)
      requires Valid()
      modifies this
      ensures Valid() && file == old(file) + Encode(args)
    {
      var encoded := EncodeCommand(args);
      file := file + encoded;
      currentSize := currentSize + |encoded|;
    }
  }

  /** What a handler works on. During recovery nothing is logged. */
  datatype Context = Context(engine: StorageEngine, aof: Aof, replay: bool) {
    ghost predicate Valid()
      reads engine, aof
    {
      engine.Valid() && aof.Valid()
    }
  }

  method Persist(ctx: Context, record: seq<string>)
    requires ctx.aof.Valid()
    modifies ctx.aof
    ensures ctx.aof.Valid() && ctx.aof.file == old(ctx.aof.file) + LoggedBytes(ctx, Some(record))
  {
    if ctx.replay {
      assert ctx.aof.file + "" == ctx.aof.file;
      return;
    }
    ctx.aof.Append(record);
  }

  /** The bytes a handler adds to the log for a record. */
  function LoggedBytes(ctx: Context, record: Option<seq<string>>): string {
    if ctx.replay then "" else EncodedRecord(record)
  }

  /** The handler did exactly what ExecWithin says of the table before the call. */
  ghost predicate Handled(ctx: Context, args: seq<string>, now: int, reply: Reply,
                          before: Table, after: Table, fileBefore: string, fileAfter: string) {
    var e := ExecWithin(ctx.engine.limits, ctx.engine.maxMemory, before, now, args);
    reply == e.reply && after == e.table && fileAfter == fileBefore + LoggedBytes(ctx, e.record)
  }

  lemma NothingLogged(ctx: Context, before: string)
    ensures before + LoggedBytes(ctx, None) == before
  {
  }

  // --- SET ------------------------------------------------------------------------------------

  /** One expiry option of SET and its check. */
  method ReadTimeOption(plan: Plan, unit: TimeUnit, arg: string) returns (r: Result<Plan, Reason>)
    ensures r == TimeStep(plan, unit, arg)
    ensures r.Err? ==> r.error.InvalidExpire?
  {
    hide TtlArg, ParseI64;
    var ttl, pxat := plan.ttl, plan.pxat;
    match unit {
      case EX => ttl := TtlArg(arg, 1000);
      case PX => ttl := TtlArg(arg, 1);
      case EXAT =>
        var parsed := ParseI64(arg);
        if parsed.None? {
          return Err(InvalidExpire);
        }
        pxat := Some(parsed.value * 1000);
      case PXAT =>
        var parsed := ParseI64(arg);
        if parsed.None? {
          return Err(InvalidExpire);
        }
        pxat := parsed;
    }
    if (ttl.Some? && ttl.value <= 0) || (pxat.Some? && pxat.value <= 0) {
      return Err(InvalidExpire);
    }
    r := Ok(Plan(plan.cond, ttl, pxat));
  }

  /** The option loop of SET. */
  method ReadSetOptions(args: seq<string>) returns (r: Result<Plan, Reason>)
    requires |args| >= 3
    ensures r == SetPlan(args)
    ensures r.Err? ==> r.error.SyntaxError? || r.error.InvalidExpire?
  {
    var plan := NO_OPTIONS;
    var i := 3;
    while i < |args|
      invariant 3 <= i <= |args|
      invariant SetPlan(args) == SetOptions(args, i, plan)
    {
      hide TimeStep, OptionOf;
      match OptionOf(args[i]) {
        case NxOption =>
          if plan.cond.XX? {
            return Err(SyntaxError);
          }
          plan := plan.(cond := NX);
        case XxOption =>
          if plan.cond.NX? {
            return Err(SyntaxError);
          }
          plan := plan.(cond := XX);
        case TimeOption(unit) =>
          if i + 1 >= |args| || plan.ttl.Some? || plan.pxat.Some? {
            return Err(SyntaxError);
          }
          i := i + 1;
          var next := ReadTimeOption(plan, unit, args[i]);
          if next.Err? {
            return next;
          }
          plan := next.value;
        case NoOption => return Err(SyntaxError);
      }
      i := i + 1;
    }
    r := Ok(plan);
  }

  /** Storing at a purged key is storing in the table as it was. */
  lemma StorePurged(limit: nat, t: Table, k: string, now: int, w: Written)
    ensures StoreWithin(limit, Purged(t, k, now), k, w) ==
              if !w.code.Stored? then (Purged(t, k, now), w.code)
              else if !Affordable(limit, Put(t, k, w.cell)) then (Purged(t, k, now), NoMemory)
              else (Put(t, k, w.cell), Stored)
  {
    hide Bytes;
    PurgedPut(t, k, now, w.cell);
  }

  /** Setting or dropping an expiry takes no memory. */
  lemma ExpiryAffordable(l: Limits, limit: nat, t: Table, now: int, args: seq<string>)
    requires |args| >= 2 && VerbOf(args[0]) in {EXPIRE, PEXPIRE, PEXPIREAT, PERSIST} && Affordable(limit, t)
    requires ExecCell(l, Look(t, args[1], now), now, args).record.Some?
    ensures Affordable(limit, Put(t, args[1], ExecCell(l, Look(t, args[1], now), now, args).cell))
  {
    hide Bytes, Put, ExecCell, VerbOf;
    CellGrows(l, Look(t, args[1], now), now, args);
    BytesPut(t, args[1], ExecCell(l, Look(t, args[1], now), now, args).cell);
  }

  /** A command that sets or drops an expiry never runs out of memory. */
  lemma ExpiryWithin(l: Limits, limit: nat, t: Table, now: int, args: seq<string>)
    requires |args| >= 2 && VerbOf(args[0]) in {EXPIRE, PEXPIRE, PEXPIREAT, PERSIST} && Affordable(limit, t)
    ensures var e := ExecCell(l, Look(t, args[1], now), now, args);
            ExecWithin(l, limit, t, now, args) ==
              if !Reaches(l, args) then Effect(t, e.reply, None)
              else if e.record.None? then Effect(Purged(t, args[1], now), e.reply, None)
              else Effect(Put(t, args[1], e.cell), e.reply, e.record)
  {
    hide VerbOf, ExecCell, Put, Purged, Look, Affordable, Reaches;
    if !Reaches(l, args) {
      UnreachedKeeps(l, t, now, args);
    } else if ExecCell(l, Look(t, args[1], now), now, args).record.Some? {
      ExpiryAffordable(l, limit, t, now, args);
    }
  }

  method HandleSet(ctx: Context, args: seq<string>, now: int) returns (reply: Reply)
    requires ctx.Valid() && args != [] && VerbOf(args[0]) == SET
    modifies ctx.engine, ctx.aof
    ensures ctx.Valid()
    ensures Handled(ctx, args, now, reply, old(ctx.engine.table), ctx.engine.table, old(ctx.aof.file), ctx.aof.file)
  {
    hide Sized, Represents, Ledger, SetPlan, Bytes, VerbOf;
    NothingLogged(ctx, ctx.aof.file);
    ghost var t := ctx.engine.table;
    ghost var l, limit := ctx.engine.limits, ctx.engine.maxMemory;
    assert ExecWithin(l, limit, t, now, args) == KeyedWithin(l, limit, t, now, args);
    if |args| < 3 {
      return Failed(WrongArguments);
    }
    var options := ReadSetOptions(args);
    if options.Err? {
      return Failed(options.error);
    }
    var plan := options.value;
    var ttl := if plan.pxat.Some? then Some(plan.pxat.value - now) else plan.ttl;
    assert Deadline(ttl, now) == PlanExpiry(plan, now);
    StorePurged(limit, t, args[1], now, SetCell(l, args[1], Look(t, args[1], now), args[2], PlanExpiry(plan, now), plan.cond));
    hide Purged, Put, StoreWithin;
    var code := ctx.engine.Set(args[1], args[2], ttl, plan.cond, now);
    if code.NotSet? {
      return Nil;
    }
    if !code.Stored? {
      return Failed(Storage(code));
    }
    var record := ["SET", args[1], args[2]];
    if ttl.Some? {
      record := record + ["PXAT", IntText(if plan.pxat.Some? then plan.pxat.value else now + ttl.value)];
    }
    assert record == SetRecord(args[1], args[2], PlanExpiry(plan, now));
    Persist(ctx, record);
    reply := OkReply;
  }

  // --- Other commands on one key --------------------------------------------------------------

  method HandleIncr(ctx: Context, args: seq<string>, delta: int64, now: int) returns (reply: Reply)
    requires ctx.Valid() && args != [] && VerbOf(args[0]) == (if delta == 1 then INCR else DECR) && (delta == 1 || delta == -1)
    modifies ctx.engine, ctx.aof
    ensures ctx.Valid()
    ensures Handled(ctx, args, now, reply, old(ctx.engine.table), ctx.engine.table, old(ctx.aof.file), ctx.aof.file)
  {
    hide Sized, Represents, Ledger, IncrCell, Bytes, VerbOf;
    NothingLogged(ctx, ctx.aof.file);
    ghost var t := ctx.engine.table;
    ghost var l, limit := ctx.engine.limits, ctx.engine.maxMemory;
    assert ExecWithin(l, limit, t, now, args) == KeyedWithin(l, limit, t, now, args);
    if |args| != 2 {
      return Failed(WrongArguments);
    }
    IncrStored(l, args[1], Look(t, args[1], now), delta as int);
    StorePurged(limit, t, args[1], now, IncrCell(l, args[1], Look(t, args[1], now), delta as int));
    hide Purged, Put, StoreWithin;
    var code, n := ctx.engine.IncrBy(args[1], delta, now);
    if !code.Stored? {
      return Failed(Storage(code));
    }
    Persist(ctx, args);
    reply := Number(n as int);
  }

  lemma IncrStored(l: Limits, k: string, c: Cell, delta: int)
    ensures IncrCell(l, k, c, delta).code.Stored? ==> |k| <= l.maxKey && IncrCell(l, k, c, delta).cell.Some?
    ensures |k| > l.maxKey ==> IncrCell(l, k, c, delta).code.KeyTooLarge?
  {
  }

  method HandleAppend(ctx: Context, args: seq<string>, now: int) returns (reply: Reply)
    requires ctx.Valid() && args != [] && VerbOf(args[0]) == APPEND
    modifies ctx.engine, ctx.aof
    ensures ctx.Valid()
    ensures Handled(ctx, args, now, reply, old(ctx.engine.table), ctx.engine.table, old(ctx.aof.file), ctx.aof.file)
  {
    hide Sized, Represents, Ledger, Bytes, VerbOf;
    NothingLogged(ctx, ctx.aof.file);
    ghost var t := ctx.engine.table;
    ghost var l, limit := ctx.engine.limits, ctx.engine.maxMemory;
    assert ExecWithin(l, limit, t, now, args) == KeyedWithin(l, limit, t, now, args);
    if |args| != 3 {
      return Failed(WrongArguments);
    }
    StorePurged(limit, t, args[1], now, AppendCell(l, args[1], Look(t, args[1], now), args[2]));
    hide Purged, Put, StoreWithin;
    var code, n := ctx.engine.Append(args[1], args[2], now);
    if !code.Stored? {
      return Failed(Storage(code));
    }
    Persist(ctx, args);
    reply := Number(n);
  }

  lemma NoKeyWithin(l: Limits, limit: nat, t: Table, now: int, args: seq<string>)
    requires |args| == 1 && IsKeyed(VerbOf(args[0]))
    ensures ExecWithin(l, limit, t, now, args) == Effect(t, Failed(WrongArguments), None)
  {
    hide VerbOf;
  }

  method HandleExpire(ctx: Context, args: seq<string>, multiplier: int, now: int) returns (reply: Reply)
    requires ctx.Valid() && args != [] && VerbOf(args[0]) == (if multiplier == 1000 then EXPIRE else PEXPIRE)
    requires multiplier == 1000 || multiplier == 1
    modifies ctx.engine, ctx.aof
    ensures ctx.Valid()
    ensures Handled(ctx, args, now, reply, old(ctx.engine.table), ctx.engine.table, old(ctx.aof.file), ctx.aof.file)
  {
    hide Sized, Represents, Ledger, ExpireCell, TtlArg, Bytes, VerbOf, Put, Purged, Look, ExecWithin, KeyedWithin, Affordable;
    ctx.engine.WithinLimit();
    NothingLogged(ctx, ctx.aof.file);
    ghost var t := ctx.engine.table;
    if |args| >= 2 {
      ExpiryWithin(ctx.engine.limits, ctx.engine.maxMemory, t, now, args);
    } else {
      NoKeyWithin(ctx.engine.limits, ctx.engine.maxMemory, t, now, args);
    }
    if |args| != 3 {
      return Failed(WrongArguments);
    }
    var ttl := TtlArg(args[2], multiplier);
    if ttl.None? {
      return Failed(InvalidExpire);
    }
    var changed := ctx.engine.Expire(args[1], ttl.value, now);
    if changed {
      Persist(ctx, ["PEXPIREAT", args[1], IntText(now + ttl.value)]);
    }
    reply := Number(if changed then 1 else 0);
  }

  method HandleExpireAt(ctx: Context, args: seq<string>, now: int) returns (reply: Reply)
    requires ctx.Valid() && args != [] && VerbOf(args[0]) == PEXPIREAT
    modifies ctx.engine, ctx.aof
    ensures ctx.Valid()
    ensures Handled(ctx, args, now, reply, old(ctx.engine.table), ctx.engine.table, old(ctx.aof.file), ctx.aof.file)
  {
    hide Sized, Represents, Ledger, ExpireAtCell, ParseI64, Bytes, VerbOf, Put, Purged, Look, ExecWithin, KeyedWithin, Affordable;
    ctx.engine.WithinLimit();
    NothingLogged(ctx, ctx.aof.file);
    ghost var t := ctx.engine.table;
    if |args| >= 2 {
      ExpiryWithin(ctx.engine.limits, ctx.engine.maxMemory, t, now, args);
    } else {
      NoKeyWithin(ctx.engine.limits, ctx.engine.maxMemory, t, now, args);
    }
    if |args| != 3 {
      return Failed(WrongArguments);
    }
    var when := ParseI64(args[2]);
    if when.None? {
      return Failed(InvalidExpire);
    }
    var changed := ctx.engine.ExpireAt(args[1], when.value, now);
    if changed {
      Persist(ctx, args);
    }
    reply := Number(if changed then 1 else 0);
  }

  method HandlePersist(ctx: Context, args: seq<string>, now: int) returns (reply: Reply)
    requires ctx.Valid() && args != [] && VerbOf(args[0]) == PERSIST
    modifies ctx.engine, ctx.aof
    ensures ctx.Valid()
    ensures Handled(ctx, args, now, reply, old(ctx.engine.table), ctx.engine.table, old(ctx.aof.file), ctx.aof.file)
  {
    hide Sized, Represents, Ledger, PersistCell, Bytes, VerbOf, Put, Purged, Look, ExecWithin, KeyedWithin, Affordable;
    ctx.engine.WithinLimit();
    NothingLogged(ctx, ctx.aof.file);
    ghost var t := ctx.engine.table;
    if |args| >= 2 {
      ExpiryWithin(ctx.engine.limits, ctx.engine.maxMemory, t, now, args);
    } else {
      NoKeyWithin(ctx.engine.limits, ctx.engine.maxMemory, t, now, args);
    }
    if |args| != 2 {
      return Failed(WrongArguments);
    }
    var changed := ctx.engine.Persist(args[1], now);
    if changed {
      Persist(ctx, args);
    }
    reply := Number(if changed then 1 else 0);
  }

  // --- Commands on several keys ---------------------------------------------------------------

  method HandleDel(ctx: Context, args: seq<string>, now: int) returns (reply: Reply)
    requires ctx.Valid() && args != [] && VerbOf(args[0]) == DEL
    modifies ctx.engine, ctx.aof
    ensures ctx.Valid()
    ensures Handled(ctx, args, now, reply, old(ctx.engine.table), ctx.engine.table, old(ctx.aof.file), ctx.aof.file)
  {
    hide Sized, Represents, Ledger, VerbOf, DelKeys, Without;
    NothingLogged(ctx, ctx.aof.file);
    if |args| < 2 {
      return Failed(WrongArguments);
    }
    var deleted := DeleteAll(ctx.engine, args, now);
    if deleted != 0 {
      Persist(ctx, args);
    }
    reply := Number(deleted);
  }

  /** The key loop of DEL. */
  method DeleteAll(engine: StorageEngine, args: seq<string>, now: int) returns (deleted: nat)
    requires engine.Valid() && |args| >= 1
    modifies engine
    ensures engine.Valid() && deleted == DelKeys(old(engine.table), now, args, 1).1
    ensures engine.table == Without(old(engine.table), args, 1)
  {
    hide Sized, Represents, Ledger;
    deleted := 0;
    ghost var t, flat := engine.table, engine.table;
    for i := 1 to |args|
      invariant engine.Valid() && Same(engine.table, flat, now)
      invariant Without(engine.table, args, i) == Without(t, args, 1)
      invariant DelKeys(t, now, args, 1).1 == deleted + DelKeys(flat, now, args, i).1
    {
      ghost var before := engine.table;
      assert Look(before, args[i], now) == Look(flat, args[i], now);
      var n := engine.Del(args[i], now);
      DelStepSame(before, flat, args[i], now);
      flat := if n == 0 then flat else Put(flat, args[i], None);
      deleted := deleted + n;
    }
  }

  lemma DelStepSame(before: Table, flat: Table, k: string, now: int)
    requires Same(before, flat, now)
    ensures Same(Put(before, k, None), if Look(flat, k, now).None? then flat else Put(flat, k, None), now)
  {
    PutSame(before, flat, k, None, None, now);
    if Look(flat, k, now).None? {
      EraseUnseen(flat, k, now);
      SameTrans(Put(before, k, None), Put(flat, k, None), flat, now);
    }
  }

  method HandleMset(ctx: Context, args: seq<string>, now: int) returns (reply: Reply)
    requires ctx.Valid() && args != [] && VerbOf(args[0]) == MSET
    modifies ctx.engine, ctx.aof
    ensures ctx.Valid()
    ensures Handled(ctx, args, now, reply, old(ctx.engine.table), ctx.engine.table, old(ctx.aof.file), ctx.aof.file)
  {
    hide Sized, Represents, Ledger, VerbOf, PairsWithin;
    NothingLogged(ctx, ctx.aof.file);
    if |args| < 3 || |args| % 2 == 0 {
      return Failed(WrongArguments);
    }
    var code := StorePairs(ctx.engine, args, now);
    if !code.Stored? {
      return Failed(Storage(code));
    }
    Persist(ctx, args);
    reply := OkReply;
  }

  /** The pair loop of MSET: it stops at the first pair refused, for its size or for lack of memory. */
  method StorePairs(engine: StorageEngine, args: seq<string>, now: int) returns (code: WriteCode)
    requires engine.Valid() && |args| % 2 == 1
    modifies engine
    ensures engine.Valid()
    ensures var r := PairsWithin(engine.limits, engine.maxMemory, old(engine.table), now, args, 1);
            code == r.code && engine.table == r.table
  {
    hide Sized, Represents, Ledger, PairsWithin, StoreWithin, Purged, SetCell, Look;
    ghost var t := engine.table;
    var i := 1;
    while i < |args|
      invariant 1 <= i <= |args| && i % 2 == 1 && engine.Valid()
      invariant PairsWithin(engine.limits, engine.maxMemory, t, now, args, 1) ==
                PairsWithin(engine.limits, engine.maxMemory, engine.table, now, args, i)
    {
      PairsStep(engine.limits, engine.maxMemory, engine.table, now, args, i);
      code := engine.Set(args[i], args[i + 1], None, Always, now);
      if !code.Stored? {
        return;
      }
      i := i + 2;
    }
    PairsEnd(engine.limits, engine.maxMemory, engine.table, now, args);
    code := Stored;
  }

  /** One storage call of the pair loop. */
  lemma PairsStep(l: Limits, limit: nat, t: Table, now: int, args: seq<string>, i: nat)
    requires i < |args| && (|args| - i) % 2 == 0
    ensures var w := SetCell(l, args[i], Look(t, args[i], now), args[i + 1], None, Always);
            var r := if |args[i]| > l.maxKey || |args[i + 1]| > l.maxValue then (t, w.code)
                     else StoreWithin(limit, Purged(t, args[i], now), args[i], w);
            var all := PairsWithin(l, limit, t, now, args, i);
            if r.1.Stored? then all == PairsWithin(l, limit, r.0, now, args, i + 2) else all.code == r.1 && all.table == r.0
  {
    hide Bytes;
    PurgedPut(t, args[i], now, Some(Entry(args[i + 1], None)));
  }

  lemma PairsEnd(l: Limits, limit: nat, t: Table, now: int, args: seq<string>)
    ensures PairsWithin(l, limit, t, now, args, |args|) == PairsRun(Stored, t, |args|)
  {
  }

  method HandleFlush(ctx: Context, args: seq<string>, now: int) returns (reply: Reply)
    requires ctx.Valid() && args != [] && VerbOf(args[0]) == FLUSHDB
    modifies ctx.engine, ctx.aof
    ensures ctx.Valid()
    ensures Handled(ctx, args, now, reply, old(ctx.engine.table), ctx.engine.table, old(ctx.aof.file), ctx.aof.file)
  {
    hide VerbOf;
    NothingLogged(ctx, ctx.aof.file);
    if |args| != 1 {
      return Failed(WrongArguments);
    }
    ctx.engine.FlushDb();
    Persist(ctx, ["FLUSHDB"]);
    reply := OkReply;
  }

  // --- Reads ----------------------------------------------------------------------------------

  method HandleRead(ctx: Context, args: seq<string>, q: Query, now: int) returns (reply: Reply)
    requires ctx.Valid() && args != [] && VerbOf(args[0]) == READ(q)
    modifies ctx.engine, ctx.aof
    ensures ctx.Valid()
    ensures Handled(ctx, args, now, reply, old(ctx.engine.table), ctx.engine.table, old(ctx.aof.file), ctx.aof.file)
  {
    hide Sized, Represents, Ledger, VerbOf, Purged, LiveTable, LiveKeys, PurgedAll, CountLive, ValuesAt;
    NothingLogged(ctx, ctx.aof.file);
    if !ReadArity(q, |args|) {
      return Failed(WrongArguments);
    }
    match q
    case PING => reply := Text(if |args| == 1 then "PONG" else args[1]);
    case ECHO => reply := Text(args[1]);
    case GET =>
      var value := ctx.engine.Get(args[1], now);
      reply := if value.Some? then Text(value.value) else Nil;
    case STRLEN =>
      var value := ctx.engine.Get(args[1], now);
      reply := Number(if value.Some? then |value.value| else 0);
    case EXISTS =>
      var count := CountExisting(ctx.engine, args, now);
      reply := Number(count);
    case MGET =>
      var values := GetAll(ctx.engine, args, now);
      reply := Texts(values);
    case TTL =>
      var ttl := ctx.engine.TimeToLive(args[1], now);
      reply := Number(TtlNumber(ttl, false));
    case PTTL =>
      var ttl := ctx.engine.TimeToLive(args[1], now);
      reply := Number(TtlNumber(ttl, true));
    case DBSIZE =>
      var n := ctx.engine.DbSize(now);
      reply := Number(n);
  }

  /** The loop of EXISTS. */
  method CountExisting(engine: StorageEngine, args: seq<string>, now: int) returns (count: nat)
    requires engine.Valid() && |args| >= 1
    modifies engine
    ensures engine.Valid() && engine.table == PurgedAll(old(engine.table), args, 1, now)
    ensures count == CountLive(old(engine.table), now, args, 1)
  {
    hide Sized, Represents, Ledger, Purged;
    ghost var t := engine.table;
    count := 0;
    for i := 1 to |args|
      invariant engine.Valid() && Same(engine.table, t, now)
      invariant PurgedAll(engine.table, args, i, now) == PurgedAll(t, args, 1, now)
      invariant CountLive(t, now, args, 1) == count + CountLive(t, now, args, i)
    {
      ghost var before := engine.table;
      assert Look(before, args[i], now) == Look(t, args[i], now);
      PurgedSame(before, args[i], now);
      var value := engine.Get(args[i], now);
      SameTrans(engine.table, before, t, now);
      if value.Some? {
        count := count + 1;
      }
    }
  }

  /** The loop of MGET. */
  method GetAll(engine: StorageEngine, args: seq<string>, now: int) returns (values: seq<Option<string>>)
    requires engine.Valid() && |args| >= 1
    modifies engine
    ensures engine.Valid() && engine.table == PurgedAll(old(engine.table), args, 1, now)
    ensures values == ValuesAt(old(engine.table), now, args, 1)
  {
    hide Sized, Represents, Ledger, Purged;
    ghost var t := engine.table;
    values := [];
    for i := 1 to |args|
      invariant engine.Valid() && Same(engine.table, t, now)
      invariant PurgedAll(engine.table, args, i, now) == PurgedAll(t, args, 1, now)
      invariant ValuesAt(t, now, args, 1) == values + ValuesAt(t, now, args, i)
    {
      ghost var before := engine.table;
      assert Look(before, args[i], now) == Look(t, args[i], now);
      PurgedSame(before, args[i], now);
      var value := engine.Get(args[i], now);
      SameTrans(engine.table, before, t, now);
      assert values + ([value] + ValuesAt(t, now, args, i + 1)) == values + [value] + ValuesAt(t, now, args, i + 1);
      values := values + [value];
    }
  }

  // --- Dispatch -------------------------------------------------------------------------------

  /** The registry: every command does to the engine and the log exactly what ExecWithin says. */
  method Execute(ctx: Context, args: seq<string>, now: int) returns (reply: Reply)
    requires ctx.Valid()
    modifies ctx.engine, ctx.aof
    ensures ctx.Valid()
    ensures Handled(ctx, args, now, reply, old(ctx.engine.table), ctx.engine.table, old(ctx.aof.file), ctx.aof.file)
  {
    hide Handled, VerbOf, Sized, Represents, Ledger;
    if args == [] {
      IgnoredHandled(ctx, args, now, ctx.engine.table, ctx.aof.file);
      return Failed(EmptyCommand);
    }
    match VerbOf(args[0])
    case SET => reply := HandleSet(ctx, args, now);
    case DEL => reply := HandleDel(ctx, args, now);
    case MSET => reply := HandleMset(ctx, args, now);
    case INCR => reply := HandleIncr(ctx, args, 1, now);
    case DECR => reply := HandleIncr(ctx, args, -1, now);
    case APPEND => reply := HandleAppend(ctx, args, now);
    case EXPIRE => reply := HandleExpire(ctx, args, 1000, now);
    case PEXPIRE => reply := HandleExpire(ctx, args, 1, now);
    case PEXPIREAT => reply := HandleExpireAt(ctx, args, now);
    case PERSIST => reply := HandlePersist(ctx, args, now);
    case FLUSHDB => reply := HandleFlush(ctx, args, now);
    case READ(q) => reply := HandleRead(ctx, args, q, now);
    case OTHER =>
      IgnoredHandled(ctx, args, now, ctx.engine.table, ctx.aof.file);
      reply := Failed(NotModelled);
  }

  lemma IgnoredHandled(ctx: Context, args: seq<string>, now: int, t: Table, file: string)
    requires args == [] || VerbOf(args[0]) == OTHER
    ensures Handled(ctx, args, now, Failed(if args == [] then EmptyCommand else NotModelled), t, t, file, file)
  {
    NothingLogged(ctx, file);
  }
}
