/** The running server, from an empty disk through any number of lives: writes, SAVE, BGREWRITEAOF, loss of
    the memory, recovery from the files. Under any memory limit the objects of the server do what the
    sequential model of Durability says. */
module Lifetime {
  import opened Wrappers
  import opened Decimal
  import opened Store
  import opened Budget
  import opened Commands
  import opened Replay
  import opened Congruence
  import opened Bounded
  import opened Node
  import opened Manifest
  import opened Disk
  import opened Durability
  import opened Limited
  import opened Peak
  import opened Shards
  import opened Engine
  import opened Handlers
  import opened Startup

  datatype Order = WriteOrder(args: seq<string>, now: int) | SaveOrder(now: int) | RewriteOrder(now: int)

  /** The event an order became: a write as it is or refused for memory, a checkpoint with the listing the
      engine gave. */
  predicate Became(o: Order, ev: Event) {
    match o
    case WriteOrder(args, now) => ev == Write(args, now) || (ev.Refused? && ev.args == args && ev.now == now)
    case SaveOrder(now) => ev.Save? && ev.now == now
    case RewriteOrder(now) => ev.Rewrite? && ev.now == now
  }

  /** The server as event i finds it. */
  function Until(cfg: Config, events: seq<Event>, i: nat): Server
    requires i <= |events|
  {
    FilesAfter(cfg, events[..i])
  }

  /** An event as the objects produce it: checkpoints list what a reader of the model's table sees, and a
      restart has come up. */
  ghost predicate HonestAt(cfg: Config, s: Server, ev: Event) {
    match ev
    case Save(now, items) => Lists(items, s.table, now)
    case Rewrite(now, items) => Lists(items, s.table, now)
    case Restart(now) => RecoverFiles(cfg, s.files, now).Some?
    case Write(_, _) => true
    case Refused(_, _, _) => true
  }

  ghost predicate Honest(cfg: Config, events: seq<Event>) {
    forall i | 0 <= i < |events| :: HonestAt(cfg, Until(cfg, events, i), events[i])
  }

  predicate Ordered(events: seq<Event>) {
    forall i, j | 0 <= i < j < |events| :: events[i].now <= events[j].now
  }

  predicate NotAfter(events: seq<Event>, now: int) {
    forall ev | ev in events :: ev.now <= now
  }

  lemma UntilMore(cfg: Config, events: seq<Event>, ev: Event)
    ensures forall i | 0 <= i <= |events| :: Until(cfg, events + [ev], i) == Until(cfg, events, i)
    ensures Until(cfg, events, |events|) == FilesAfter(cfg, events)
    ensures FilesAfter(cfg, events + [ev]) == StepFiles(cfg, FilesAfter(cfg, events), ev)
  {
    hide StepFiles;
    var all := events + [ev];
    assert forall i | 0 <= i <= |events| :: all[..i] == events[..i];
    assert all[..|events|] == events && events[..|events|] == events;
  }

  lemma HonestMore(cfg: Config, events: seq<Event>, ev: Event)
    requires Honest(cfg, events) && HonestAt(cfg, FilesAfter(cfg, events), ev)
    requires Ordered(events) && NotAfter(events, ev.now)
    ensures Honest(cfg, events + [ev]) && Ordered(events + [ev]) && NotAfter(events + [ev], ev.now)
  {
    hide HonestAt, FilesAfter;
    UntilMore(cfg, events, ev);
    var all := events + [ev];
    assert forall i | 0 <= i < |events| :: all[i] == events[i] && events[i] in events;
  }

  /** The objects agree with the model's server at a clock reading. */
  ghost predicate Mirrors(ctx: Context, store: SnapshotStore, s: Server, now: int)
    reads ctx.engine, ctx.aof, store
  {
    FilesNow(ctx.aof, store) == s.files && Same(ctx.engine.table, s.table, now)
  }

  lemma ListsAlike(items: seq<Item>, t: Table, u: Table, now: int)
    requires Lists(items, t, now) && Same(t, u, now)
    ensures Lists(items, u, now)
  {
    SameTrans(Listed(items), t, u, now);
  }

  lemma KeptAlike(l: Limits, t: Table, u: Table, args: seq<string>, upto: nat, now: int)
    requires Same(t, u, now)
    ensures Same(KeptPairs(l, t, args, upto), KeptPairs(l, u, args, upto), now)
  {
    if upto != 1 && Keepable(l, args, upto) {
      forall k
        ensures Look(PutPairs(t, args, 1, upto), k, now) == Look(PutPairs(u, args, 1, upto), k, now)
      {
        GetPutPairs(t, args, 1, upto, k);
        GetPutPairs(u, args, 1, upto, k);
        assert Look(t, k, now) == Look(u, k, now);
      }
    }
  }

  // --- One order ------------------------------------------------------------------------------

  /** The event a write became and the answer to the client. */
  ghost predicate AnsweredAt(cfg: Config, limit: nat, s: Server, ev: Event, reply: Reply) {
    && (ev.Write? ==> reply == Exec(cfg.Limits(), s.table, ev.now, ev.args).reply)
    && (ev.Refused? ==> limit != 0 && reply == OUT_OF_MEMORY)
  }

  method ServeWrite(cfg: Config, ctx: Context, store: SnapshotStore, args: seq<string>, now: int, ghost s: Server)
    returns (reply: Reply, ghost ev: Event)
    requires ctx.Valid() && !ctx.replay && ctx.engine.limits == cfg.Limits() && Mirrors(ctx, store, s, now)
    modifies ctx.engine, ctx.aof
    ensures ctx.Valid() && Mirrors(ctx, store, StepFiles(cfg, s, ev), now)
    ensures Became(WriteOrder(args, now), ev) && AnsweredAt(cfg, ctx.engine.maxMemory, s, ev, reply)
    ensures ev.Refused? <==> ExecWithin(cfg.Limits(), ctx.engine.maxMemory, old(ctx.engine.table), now, args).reply == OUT_OF_MEMORY
  {
    hide Sized, Represents, Ledger, Exec, ExecWithin, KeptPairs, KeptUpTo;
    ghost var t, l, limit := ctx.engine.table, cfg.Limits(), ctx.engine.maxMemory;
    WithinTracks(l, limit, t, now, args);
    ExecAlike(l, t, s.table, now, args);
    ghost var e, f, g := ExecWithin(l, limit, t, now, args), Exec(l, t, now, args), Exec(l, s.table, now, args);
    NothingLogged(ctx, ctx.aof.file);
    reply := Execute(ctx, args, now);
    if reply == OUT_OF_MEMORY {
      ghost var upto := KeptUpTo(l, limit, t, now, args);
      ev := Event.Refused(args, upto, now);
      KeptAlike(l, t, s.table, args, upto, now);
      SameTrans(ctx.engine.table, KeptPairs(l, t, args, upto), KeptPairs(l, s.table, args, upto), now);
    } else {
      ev := Write(args, now);
      SameTrans(ctx.engine.table, f.table, g.table, now);
    }
  }

  method ServeOne(cfg: Config, ctx: Context, store: SnapshotStore, order: Order, ghost s: Server)
    returns (reply: Reply, ghost ev: Event)
    requires ctx.Valid() && !ctx.replay && ctx.engine.limits == cfg.Limits() && Mirrors(ctx, store, s, order.now)
    modifies ctx.engine, ctx.aof, store
    ensures ctx.Valid() && Mirrors(ctx, store, StepFiles(cfg, s, ev), order.now)
    ensures Became(order, ev) && AnsweredAt(cfg, ctx.engine.maxMemory, s, ev, reply) && HonestAt(cfg, s, ev)
  {
    hide Sized, Represents, Ledger, Exec, LiveTable, Lists;
    ghost var t := ctx.engine.table;
    match order
    case WriteOrder(args, now) =>
      reply, ev := ServeWrite(cfg, ctx, store, args, now, s);
    case SaveOrder(now) =>
      ghost var items := Startup.Save(cfg, ctx, store, now);
      ev := Event.Save(now, items);
      reply := OkReply;
      ListsAlike(items, t, s.table, now);
      LiveSame(t, now);
      SameTrans(ctx.engine.table, t, s.table, now);
    case RewriteOrder(now) =>
      ghost var items := Startup.Rewrite(cfg, ctx, store, now);
      ev := Event.Rewrite(now, items);
      reply := OkReply;
      ListsAlike(items, t, s.table, now);
      LiveSame(t, now);
      SameTrans(ctx.engine.table, t, s.table, now);
  }

  // --- One life -------------------------------------------------------------------------------

  predicate InOrder(orders: seq<Order>) {
    forall i, j | 0 <= i < j < |orders| :: orders[i].now <= orders[j].now
  }

  /** The events are the orders, one for one. */
  predicate Enacts(orders: seq<Order>, events: seq<Event>) {
    |events| == |orders| && forall i | 0 <= i < |orders| :: Became(orders[i], events[i])
  }

  /** Clients were told what the model answers, or that the memory is full. */
  ghost predicate Answered(cfg: Config, limit: nat, events: seq<Event>, from: nat, replies: seq<Reply>) {
    from + |replies| == |events| &&
    forall i | 0 <= i < |replies| :: AnsweredAt(cfg, limit, Until(cfg, events, from + i), events[from + i], replies[i])
  }

  lemma AnsweredMore(cfg: Config, limit: nat, events: seq<Event>, from: nat, replies: seq<Reply>, ev: Event, reply: Reply)
    requires Answered(cfg, limit, events, from, replies) && AnsweredAt(cfg, limit, FilesAfter(cfg, events), ev, reply)
    ensures Answered(cfg, limit, events + [ev], from, replies + [reply])
  {
    hide AnsweredAt, FilesAfter;
    UntilMore(cfg, events, ev);
  }

  /** Any sequence of orders under a monotone clock, with any hash, shard count and memory limit, from any
      state the model describes: replies, files and visible table are those of the sequential model. */
  method ServeOrders(cfg: Config, ctx: Context, store: SnapshotStore, orders: seq<Order>, ghost past: seq<Event>, ghost since: int)
    returns (replies: seq<Reply>, ghost events: seq<Event>, ghost last: int)
    requires ctx.Valid() && !ctx.replay && ctx.engine.limits == cfg.Limits()
    requires Mirrors(ctx, store, FilesAfter(cfg, past), since)
    requires InOrder(orders) && forall i | 0 <= i < |orders| :: since <= orders[i].now
    requires Honest(cfg, past) && Ordered(past) && NotAfter(past, since)
    modifies ctx.engine, ctx.aof, store
    ensures ctx.Valid() && last == (if orders == [] then since else orders[|orders| - 1].now)
    ensures Mirrors(ctx, store, FilesAfter(cfg, events), last)
    ensures |past| <= |events| && events[..|past|] == past && Enacts(orders, events[|past|..])
    ensures Honest(cfg, events) && Ordered(events) && NotAfter(events, last)
    ensures Answered(cfg, ctx.engine.maxMemory, events, |past|, replies)
  {
    hide Sized, Represents, Ledger, StepFiles, AnsweredAt, HonestAt, FilesAfter, Honest, Ordered, Answered, Became, Until;
    replies, events, last := [], past, since;
    ghost var more: seq<Event> := [];
    assert past + more == past;
    AnsweredNone(cfg, ctx.engine.maxMemory, past);
    for n := 0 to |orders|
      invariant ctx.Valid() && events == past + more && |more| == n
      invariant last == (if n == 0 then since else orders[n - 1].now)
      invariant Mirrors(ctx, store, FilesAfter(cfg, events), last)
      invariant forall i | 0 <= i < n :: Became(orders[i], more[i])
      invariant Honest(cfg, events) && Ordered(events) && NotAfter(events, last)
      invariant Answered(cfg, ctx.engine.maxMemory, events, |past|, replies)
    {
      ghost var s := FilesAfter(cfg, events);
      SameLater(ctx.engine.table, s.table, last, orders[n].now);
      var reply, ev := ServeOne(cfg, ctx, store, orders[n], s);
      BecameNow(orders[n], ev);
      UntilMore(cfg, events, ev);
      HonestMore(cfg, events, ev);
      AnsweredMore(cfg, ctx.engine.maxMemory, events, |past|, replies, ev, reply);
      assert past + more + [ev] == past + (more + [ev]);
      more := more + [ev];
      events, replies, last := events + [ev], replies + [reply], orders[n].now;
    }
    assert events[|past|..] == more && events[..|past|] == past;
  }

  lemma BecameNow(o: Order, ev: Event)
    requires Became(o, ev)
    ensures ev.now == o.now && !ev.Restart?
  {
  }

  lemma AnsweredNone(cfg: Config, limit: nat, past: seq<Event>)
    ensures Answered(cfg, limit, past, |past|, [])
  {
    hide FilesAfter, AnsweredAt;
  }

  // --- Several lives --------------------------------------------------------------------------

  /** The orders of one life and the time of the restart that ends it. */
  datatype Life = Life(orders: seq<Order>, end: int)

  /** A life whose orders come in order, after `since` and before its end. */
  predicate Lived(life: Life, since: int) {
    && InOrder(life.orders) && since <= life.end
    && forall i | 0 <= i < |life.orders| :: since <= life.orders[i].now <= life.end
  }

  predicate LivedAll(lives: seq<Life>, since: int) {
    lives == [] || (Lived(lives[0], since) && LivedAll(lives[1..], lives[0].end))
  }

  /** Lose the memory and recover from the files. It comes up exactly when the model's server does and the
      most memory recovery holds is within the limit, as it is with room for everything recovery loads and
      replays; it then mirrors the model's server after a restart. */
  method Reborn(cfg: Config, ctx: Context, store: SnapshotStore, maxMemory: nat, shardCount: nat, hash: Hash, now: int, ghost s: Server)
    returns (ok: bool, next: Context)
    requires ctx.Valid() && FilesNow(ctx.aof, store) == s.files
    ensures fresh(next.engine) && fresh(next.aof) && next.Valid() && !next.replay
    ensures next.engine.limits == cfg.Limits() && next.engine.maxMemory == maxMemory
    ensures ok == RecoverWithin(cfg, maxMemory, s.files, now).Some?
    ensures ok ==> RecoverFiles(cfg, s.files, now).Some? && Mirrors(next, store, StepFiles(cfg, s, Event.Restart(now)), now)
    ensures ok == (RecoverFiles(cfg, s.files, now).Some? && (maxMemory == 0 || RecoveryPeak(cfg, s.files, now) <= maxMemory))
    ensures maxMemory == 0 || RecoveryMemory(cfg, s.files) <= maxMemory ==> ok == RecoverFiles(cfg, s.files, now).Some?
  {
    hide Sized, Represents, Ledger, RecoverWithin, RecoverFiles, RecoveryMemory, RecoveryPeak, Bytes;
    var files := Files(ctx.aof.file, store.file, store.manifest);
    RecoverAgrees(cfg, maxMemory, files, now);
    RecoverExact(cfg, maxMemory, files, now);
    var up, engine := Startup.Recover(cfg, files, maxMemory, shardCount, hash, now);
    var aof := new Aof(ctx.aof.file);
    ok, next := up, Context(engine, aof, false);
  }

  /** One life and the restart that ends it. */
  method LiveOnce(cfg: Config, ctx: Context, store: SnapshotStore, life: Life, maxMemory: nat, shardCount: nat, hash: Hash,
                  ghost past: seq<Event>, ghost since: int)
    returns (ok: bool, next: Context, ghost events: seq<Event>, ghost last: int)
    requires ctx.Valid() && !ctx.replay && ctx.engine.limits == cfg.Limits() && Lived(life, since)
    requires Mirrors(ctx, store, FilesAfter(cfg, past), since)
    requires Honest(cfg, past) && Ordered(past) && NotAfter(past, since)
    modifies ctx.engine, ctx.aof, store
    ensures fresh(next.engine) && fresh(next.aof) && next.Valid() && !next.replay
    ensures next.engine.limits == cfg.Limits() && next.engine.maxMemory == maxMemory
    ensures Honest(cfg, events) && Ordered(events) && NotAfter(events, last)
    ensures LifeEvents(life, past, events, ok)
    ensures ok ==> last == life.end && Mirrors(next, store, FilesAfter(cfg, events), last)
    ensures !ok ==> RecoverWithin(cfg, maxMemory, FilesAfter(cfg, events).files, life.end).None?
  {
    hide Sized, Represents, Ledger, StepFiles, Honest, Ordered, FilesAfter, RecoverFiles, RecoverWithin, RecoveryMemory, RecoveryPeak, Answered, Enacts;
    var replies;
    replies, events, last := ServeOrders(cfg, ctx, store, life.orders, past, since);
    ghost var s := FilesAfter(cfg, events);
    ok, next := Reborn(cfg, ctx, store, maxMemory, shardCount, hash, life.end, s);
    if ok {
      EndLater(events, last, life.end);
      HonestRestart(cfg, events, life.end);
      UntilMore(cfg, events, Event.Restart(life.end));
      ghost var all := events + [Event.Restart(life.end)];
      assert all[..|past|] == past && all[|past|..|all| - 1] == events[|past|..];
      events, last := all, life.end;
    }
  }

  /** The events of a life after those of the past, with its restart if that came up. */
  predicate LifeEvents(life: Life, past: seq<Event>, events: seq<Event>, ok: bool) {
    |past| <= |events| && events[..|past|] == past &&
    if ok then |events| > |past| && events[|events| - 1] == Event.Restart(life.end) && Enacts(life.orders, events[|past|..|events| - 1])
    else Enacts(life.orders, events[|past|..])
  }

  /** Any number of lives, each ended by the loss of the memory and a restart, as long as the restarts come
      up: the objects follow the sequential model throughout. */
  method ServeLives(cfg: Config, lives: seq<Life>, maxMemory: nat, shardCount: nat, hash: Hash, since: int)
    returns (ok: bool, ctx: Context, store: SnapshotStore, ghost events: seq<Event>, ghost last: int)
    requires LivedAll(lives, since)
    ensures fresh(ctx.engine) && fresh(ctx.aof) && fresh(store) && ctx.Valid() && !ctx.replay
    ensures ctx.engine.limits == cfg.Limits() && ctx.engine.maxMemory == maxMemory
    ensures Honest(cfg, events) && Ordered(events) && NotAfter(events, last)
    ensures ok ==> last == (if lives == [] then since else lives[|lives| - 1].end)
    ensures !ok ==> exists n :: 0 <= n < |lives| && RecoverWithin(cfg, maxMemory, FilesAfter(cfg, events).files, lives[n].end).None?
    ensures ok ==> Mirrors(ctx, store, FilesAfter(cfg, events), last) && Scripted(lives, events)
    ensures forall ev | ev in events && !ev.Restart? :: OrderedIn(lives, ev)
  {
    hide Sized, Represents, Ledger, StepFiles, Honest, Ordered, FilesAfter, RecoverFiles, RecoverWithin, RecoveryMemory, RecoveryPeak, Answered, Scripted, LifeEvents, OrderedIn, NotAfter, Lived;
    var engine := new StorageEngine(cfg.Limits(), maxMemory, shardCount, hash);
    var aof := new Aof("");
    ctx := Context(engine, aof, false);
    store := new SnapshotStore(None, None);
    events, last, ok := [], since, true;
    FreshStart(cfg);
    assert lives[0..] == lives && lives[..0] == [];
    for n := 0 to |lives|
      invariant fresh(ctx.engine) && fresh(ctx.aof) && fresh(store) && ctx.Valid() && !ctx.replay
      invariant ctx.engine.limits == cfg.Limits() && ctx.engine.maxMemory == maxMemory
      invariant Honest(cfg, events) && Ordered(events) && NotAfter(events, last) && ok
      invariant last == (if n == 0 then since else lives[n - 1].end) && LivedAll(lives[n..], last)
      invariant Mirrors(ctx, store, FilesAfter(cfg, events), last) && Scripted(lives[..n], events)
      invariant forall ev | ev in events && !ev.Restart? :: OrderedIn(lives, ev)
    {
      NextLife(lives, n, last);
      ghost var past := events;
      var next;
      ok, next, events, last := LiveOnce(cfg, ctx, store, lives[n], maxMemory, shardCount, hash, past, last);
      FromLife(lives, n, past, events, ok);
      ctx := next;
      if !ok {
        return;
      }
      ScriptedMore(lives[..n], lives[n], past, events);
      assert lives[..n + 1] == lives[..n] + [lives[n]];
    }
    assert lives[..|lives|] == lives;
  }

  /** The events are those of the lives one after the other, each life ended by its restart. */
  predicate Scripted(lives: seq<Life>, events: seq<Event>) {
    if lives == [] then events == []
    else
      var life := lives[|lives| - 1];
      |events| >= |life.orders| + 1 &&
      var last := |events| - 1;
      var first := last - |life.orders|;
      && events[last] == Event.Restart(life.end) && Enacts(life.orders, events[first..last])
      && Scripted(lives[..|lives| - 1], events[..first])
  }

  lemma ScriptedMore(front: seq<Life>, life: Life, past: seq<Event>, events: seq<Event>)
    requires Scripted(front, past) && LifeEvents(life, past, events, true)
    ensures Scripted(front + [life], events)
  {
    var lives := front + [life];
    assert |events[|past|..|events| - 1]| == |life.orders|;
    hide Enacts;
    assert lives[..|lives| - 1] == front && lives[|lives| - 1] == life;
  }

  lemma NextLife(lives: seq<Life>, n: nat, since: int)
    requires n < |lives| && LivedAll(lives[n..], since)
    ensures Lived(lives[n], since) && LivedAll(lives[n + 1..], lives[n].end)
  {
    hide Lived;
    assert lives[n..][0] == lives[n] && lives[n..][1..] == lives[n + 1..];
  }

  lemma FreshStart(cfg: Config)
    ensures FilesAfter(cfg, []) == FRESH && Honest(cfg, []) && Ordered([]) && Scripted([], []) && forall now :: NotAfter([], now)
  {
  }

  lemma EndLater(events: seq<Event>, end: int, later: int)
    requires NotAfter(events, end) && end <= later
    ensures NotAfter(events, later)
  {
  }

  lemma HonestRestart(cfg: Config, events: seq<Event>, now: int)
    requires Honest(cfg, events) && Ordered(events) && NotAfter(events, now) && RecoverFiles(cfg, FilesAfter(cfg, events).files, now).Some?
    ensures Honest(cfg, events + [Event.Restart(now)]) && Ordered(events + [Event.Restart(now)])
    ensures NotAfter(events + [Event.Restart(now)], now)
  {
    hide RecoverFiles, FilesAfter, Honest, Ordered;
    HonestMore(cfg, events, Event.Restart(now));
  }

  /** The event stems from an order of some life. */
  ghost predicate OrderedIn(lives: seq<Life>, ev: Event) {
    exists n, i :: 0 <= n < |lives| && 0 <= i < |lives[n].orders| && Became(lives[n].orders[i], ev)
  }

  lemma FromLife(lives: seq<Life>, n: nat, past: seq<Event>, events: seq<Event>, ok: bool)
    requires n < |lives| && LifeEvents(lives[n], past, events, ok)
    requires forall ev | ev in past && !ev.Restart? :: OrderedIn(lives, ev)
    ensures forall ev | ev in events && !ev.Restart? :: OrderedIn(lives, ev)
  {
    hide Became;
    var end := if ok then |events| - 1 else |events|;
    var more := events[|past|..end];
    assert events == past + more + events[end..];
    assert ok ==> events[end..] == [events[end]];
    forall ev | ev in events && !ev.Restart?
      ensures OrderedIn(lives, ev)
    {
      if ev !in past {
        assert ev in more;
        var i :| 0 <= i < |more| && more[i] == ev;
        assert Became(lives[n].orders[i], ev);
      }
    }
  }

  // --- Restart --------------------------------------------------------------------------------

  /** An order that comes before `at`, within 64 bits, off the wire. */
  predicate Ordinary(cfg: Config, o: Order, at: int) {
    o.now <= at && InI64(o.now) && (o.WriteOrder? ==> InRange(o.args, o.now) && ArgsFit(cfg.Options(), o.args))
  }

  lemma OrdinaryTime(cfg: Config, o: Order, at: int)
    requires Ordinary(cfg, o, at)
    ensures o.now <= at
  {
  }

  predicate OrdinaryEvent(cfg: Config, ev: Event) {
    && (ev.Save? ==> InI64(ev.now))
    && (ev.Write? ==> InRange(ev.args, ev.now) && ArgsFit(cfg.Options(), ev.args))
  }

  lemma OrdinaryBecame(cfg: Config, o: Order, ev: Event, at: int)
    requires Ordinary(cfg, o, at) && Became(o, ev)
    ensures OrdinaryEvent(cfg, ev)
  {
    hide InRange, ArgsFit;
  }

  /** What the objects produce from ordinary orders is a legal run of the model. */
  lemma {:induction false} EventsAreLegal(cfg: Config, events: seq<Event>, n: nat, at: int)
    requires Configured(cfg) && n <= |events| && Honest(cfg, events) && Ordered(events) && SmallAtRestarts(cfg, events)
    requires forall ev | ev in events :: OrdinaryEvent(cfg, ev)
    requires forall ev | ev in events[..n] :: ev.now <= at
    ensures LegalRun(cfg.Limits(), events[..n], at)
    decreases n
  {
    hide InRange, ArgsFit, FilesAfter, After, Lists, RecoverFiles, SmallAtRestarts, Small, Configured, OrdinaryEvent, HonestAt, Legal, Ordered;
    if n > 0 {
      var front, ev := events[..n - 1], events[n - 1];
      assert events[..n][..n - 1] == front && events[..n][n - 1] == ev;
      LastOfPrefix(events, n, at);
      EventsAreLegal(cfg, events, n - 1, at);
      assert HonestAt(cfg, Until(cfg, events, n - 1), ev);
      if ev.Restart? {
        EventsAreLegal(cfg, events, n - 1, ev.now);
      }
      NextIsLegal(cfg, events, n, at);
    }
  }

  lemma LastOfPrefix(events: seq<Event>, n: nat, at: int)
    requires 0 < n <= |events| && Ordered(events) && forall ev | ev in events[..n] :: ev.now <= at
    ensures events[n - 1].now <= at && forall e | e in events[..n - 1] :: e.now <= at && e.now <= events[n - 1].now
  {
    var front := events[..n - 1];
    assert events[..n][n - 1] == events[n - 1];
    forall e | e in front
      ensures e.now <= at && e.now <= events[n - 1].now
    {
      var i :| 0 <= i < |front| && front[i] == e;
      assert events[i] == e && events[..n][i] == e;
    }
  }

  lemma NextIsLegal(cfg: Config, events: seq<Event>, n: nat, at: int)
    requires Configured(cfg) && 0 < n <= |events| && SmallAtRestarts(cfg, events)
    requires forall ev | ev in events :: OrdinaryEvent(cfg, ev)
    requires var front, ev := events[..n - 1], events[n - 1];
             LegalRun(cfg.Limits(), front, at) && HonestAt(cfg, FilesAfter(cfg, front), ev) && ev.now <= at
    ensures Legal(cfg.Limits(), After(cfg.Limits(), events[..n - 1]), events[n - 1], at)
  {
    hide LegalRun, InRange, FilesAfter, After, Lists, RecoverFiles, SmallAtRestarts, Small, Workable, Clean, Readable;
    var front, ev, l := events[..n - 1], events[n - 1], cfg.Limits();
    assert ev in events && forall e | e in front :: e in events;
    assert OrdinaryEvent(cfg, ev) && forall e | e in front :: OrdinaryEvent(cfg, e);
    PrefixSmall(cfg, events, n - 1);
    PrefixSmall(cfg, events, n);
    FilesFollow(cfg, front, at);
    if ev.Restart? {
      LastSmall(cfg, events[..n]);
      assert events[..n][..n - 1] == front;
      SmallIsReadable(cfg, front, at);
      RecoverFilesIsRecover(cfg, After(l, front), ev.now);
    }
  }

  lemma {:induction false} PrefixSmall(cfg: Config, events: seq<Event>, j: nat)
    requires SmallAtRestarts(cfg, events) && j <= |events|
    ensures SmallAtRestarts(cfg, events[..j])
    decreases |events|
  {
    hide Small, FilesAfter;
    if j == |events| {
      assert events[..j] == events;
    } else {
      var front := events[..|events| - 1];
      PrefixSmall(cfg, front, j);
      assert front[..j] == events[..j];
    }
  }

  lemma LastSmall(cfg: Config, events: seq<Event>)
    requires SmallAtRestarts(cfg, events) && events != [] && events[|events| - 1].Restart?
    ensures Small(cfg, FilesAfter(cfg, events[..|events| - 1]).files)
  {
  }

  lemma EventsAreServed(cfg: Config, events: seq<Event>, at: int)
    requires Configured(cfg) && Honest(cfg, events) && Ordered(events) && NotAfter(events, at)
    requires forall ev | ev in events :: OrdinaryEvent(cfg, ev)
    requires SmallAtRestarts(cfg, events) && Small(cfg, FilesAfter(cfg, events).files)
    ensures Served(cfg, events, at)
  {
    hide InRange, ArgsFit, FilesAfter, LegalRun, Honest, Ordered, Small, SmallAtRestarts, Workable, Clean;
    assert events[..|events|] == events;
    EventsAreLegal(cfg, events, |events|, at);
  }

  /** The whole life of a server: any number of lives ended by restarts, then more orders, then a last
      restart at any later time. If all earlier restarts came up, what recovery reads fits the request
      buffer, and the writes since the last checkpoint are lasting, the restarted engine reads like the lost
      one; and it comes up if and only if there is no memory limit or the most memory recovery holds is within
      it, as it is with room for everything recovery loads and replays. */
  method ServeAndRestart(cfg: Config, lives: seq<Life>, orders: seq<Order>, maxMemory: nat, shardCount: nat, hash: Hash,
                         since: int, at: int)
    returns (ok: bool, up: bool, lost: Context, next: Context, ghost events: seq<Event>)
    requires Configured(cfg) && LivedAll(lives, since) && InOrder(orders)
    requires forall n, i | 0 <= n < |lives| && 0 <= i < |lives[n].orders| :: Ordinary(cfg, lives[n].orders[i], at)
    requires var end := if lives == [] then since else lives[|lives| - 1].end;
             end <= at && forall i | 0 <= i < |orders| :: end <= orders[i].now && Ordinary(cfg, orders[i], at)
    ensures lost.Valid() && next.Valid() && next.engine.maxMemory == maxMemory
    ensures ok ==> |events| >= |orders| &&
                   var n := |events| - |orders|; Scripted(lives, events[..n]) && Enacts(orders, events[n..])
    ensures !ok ==> exists n :: 0 <= n < |lives| && RecoverWithin(cfg, maxMemory, FilesAfter(cfg, events).files, lives[n].end).None?
    ensures ok ==> var s := FilesAfter(cfg, events);
                   up == RecoverWithin(cfg, maxMemory, s.files, at).Some? && Same(lost.engine.table, s.table, at)
    ensures var files := FilesAfter(cfg, events).files;
            ok && SmallAtRestarts(cfg, events) && Small(cfg, files) && LastingSince(cfg.Limits(), events, at) ==>
              && (up ==> Same(next.engine.table, lost.engine.table, at))
              && (up <==> maxMemory == 0 || RecoveryPeak(cfg, files, at) <= maxMemory)
              && (maxMemory == 0 || RecoveryMemory(cfg, files) <= maxMemory ==> up)
  {
    hide Sized, Represents, Ledger, StepFiles, Honest, Ordered, FilesAfter, RecoverFiles, RecoverWithin, RecoveryMemory, RecoveryPeak, Answered, Scripted, SmallAtRestarts, Small, LastingSince, Workable, Clean, Became, Ordinary, Served;
    var store;
    ghost var last: int;
    ok, lost, store, events, last := ServeLives(cfg, lives, maxMemory, shardCount, hash, since);
    if !ok {
      return ok, false, lost, lost, events;
    }
    ghost var past := events;
    var replies;
    replies, events, last := ServeOrders(cfg, lost, store, orders, past, last);
    ghost var s := FilesAfter(cfg, events);
    up, next := Reborn(cfg, lost, store, maxMemory, shardCount, hash, at, s);
    if orders != [] { OrdinaryTime(cfg, orders[|orders| - 1], at); }
    SameLater(lost.engine.table, s.table, last, at);
    if SmallAtRestarts(cfg, events) && Small(cfg, s.files) && LastingSince(cfg.Limits(), events, at) {
      AllOrdinary(cfg, lives, orders, past, events, at);
      EndLater(events, last, at);
      EventsAreServed(cfg, events, at);
      RestartFaithful(cfg, events, at);
      RestartedTable(cfg, s, at);
      if up {
        SameTrans(next.engine.table, RecoverFiles(cfg, s.files, at).value, s.table, at);
        SameTrans(next.engine.table, s.table, lost.engine.table, at);
      }
    }
  }

  lemma RestartedTable(cfg: Config, s: Server, at: int)
    ensures RecoverFiles(cfg, s.files, at).Some? ==>
              StepFiles(cfg, s, Event.Restart(at)).table == RecoverFiles(cfg, s.files, at).value
  {
    hide RecoverFiles;
  }

  lemma AllOrdinary(cfg: Config, lives: seq<Life>, orders: seq<Order>, past: seq<Event>, events: seq<Event>, at: int)
    requires forall n, i | 0 <= n < |lives| && 0 <= i < |lives[n].orders| :: Ordinary(cfg, lives[n].orders[i], at)
    requires forall i | 0 <= i < |orders| :: Ordinary(cfg, orders[i], at)
    requires forall ev | ev in past && !ev.Restart? :: OrderedIn(lives, ev)
    requires |past| <= |events| && events[..|past|] == past && Enacts(orders, events[|past|..])
    ensures forall ev | ev in events :: OrdinaryEvent(cfg, ev)
  {
    hide Became, Ordinary, InRange, ArgsFit;
    var more := events[|past|..];
    assert events == past + more;
    forall ev | ev in events
      ensures OrdinaryEvent(cfg, ev)
    {
      if ev !in past {
        var j :| 0 <= j < |more| && more[j] == ev;
        OrdinaryBecame(cfg, orders[j], more[j], at);
      } else if !ev.Restart? {
        var n, i :| 0 <= n < |lives| && 0 <= i < |lives[n].orders| && Became(lives[n].orders[i], ev);
        OrdinaryBecame(cfg, lives[n].orders[i], ev, at);
      }
    }
  }
}
