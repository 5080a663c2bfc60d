/** Concurrent workers. Every storage call is a step of its own; a write holds the barrier shared from
    before its first storage call until after its append, and SAVE and BGREWRITEAOF hold it exclusively.
    Whatever the interleaving, the state seen under the exclusive barrier is that of a sequential run
    in the order of the appends, provided writes in flight together touch different keys. */
module Workers {
  import opened Wrappers
  import opened Decimal
  import opened Store
  import opened Commands
  import opened Replay
  import opened Node
  import opened Shards

  // --- One request, storage call by storage call ----------------------------------------------

  /** Where a handler is: the next argument or shard to visit and the keys removed so far, or all
      storage calls made and the record decided. */
  datatype Progress = At(pos: nat, hits: nat) | Finished(record: Option<seq<string>>)

  datatype Layout = Layout(limits: Limits, hash: Hash, shardCount: nat)

  predicate ByKeys(args: seq<string>) {
    |args| >= 2 && VerbOf(args[0]) == DEL
  }

  predicate ByPairs(args: seq<string>) {
    |args| >= 3 && |args| % 2 == 1 && VerbOf(args[0]) == MSET
  }

  predicate ByShards(args: seq<string>) {
    |args| == 1 && VerbOf(args[0]) == FLUSHDB
  }

  function First(args: seq<string>): Progress {
    At(if ByKeys(args) || ByPairs(args) then 1 else 0, 0)
  }

  function ClearShard(y: Layout, t: Table, i: nat): Table
    requires y.shardCount > 0
  {
    map k | k in t && Route(y.hash, y.shardCount, k) != i :: t[k]
  }

  /** One storage call of the DEL loop. */
  function AdvanceDel(t: Table, r: Request, pos: nat, hits: nat): (Table, Progress) {
    if pos >= |r.args| then (t, Finished(if hits != 0 then Some(r.args) else None))
    else if Look(t, r.args[pos], r.now).None? then (t, At(pos + 1, hits))
    else (Put(t, r.args[pos], None), At(pos + 1, hits + 1))
  }

  /** One storage call of the MSET loop. */
  function AdvanceMset(l: Limits, t: Table, r: Request, pos: nat): (Table, Progress) {
    if pos + 1 >= |r.args| then (t, Finished(Some(r.args)))
    else
      var w := SetCell(l, r.args[pos], None, r.args[pos + 1], None, Always);
      if w.code.Stored? then (Put(t, r.args[pos], w.cell), At(pos + 2, 0)) else (t, Finished(None))
  }

  /** One shard of FLUSHDB. */
  function AdvanceFlush(y: Layout, t: Table, pos: nat): (Table, Progress)
    requires y.shardCount > 0
  {
    if pos >= y.shardCount then (t, Finished(Some(["FLUSHDB"]))) else (ClearShard(y, t, pos), At(pos + 1, 0))
  }

  /** The next storage call of a handler. */
  function Advance(y: Layout, t: Table, r: Request, pos: nat, hits: nat): (Table, Progress)
    requires y.shardCount > 0
  {
    if ByKeys(r.args) then AdvanceDel(t, r, pos, hits)
    else if ByPairs(r.args) then AdvanceMset(y.limits, t, r, pos)
    else if ByShards(r.args) then AdvanceFlush(y, t, pos)
    else
      var e := Exec(y.limits, t, r.now, r.args);
      (e.table, Finished(e.record))
  }

  function Continue(y: Layout, p: (Table, Progress), r: Request): (Table, Progress)
    requires y.shardCount > 0
  {
    if p.1.At? then Advance(y, p.0, r, p.1.pos, p.1.hits) else p
  }

  /** A request run alone on a table for a number of storage calls. */
  function Micro(y: Layout, t: Table, r: Request, calls: nat): (Table, Progress)
    requires y.shardCount > 0
  {
    if calls == 0 then (t, First(r.args)) else Continue(y, Micro(y, t, r, calls - 1), r)
  }

  // --- Alone, the storage calls add up to the command -----------------------------------------

  /** What is left to do from here leads to what the command does from `t`. */
  predicate OnTheWay(y: Layout, t: Table, r: Request, p: (Table, Progress))
    requires y.shardCount > 0
  {
    match p.1
    case Finished(record) =>
      var e := Exec(y.limits, t, r.now, r.args);
      p.0 == e.table && record == e.record
    case At(pos, hits) =>
      if ByKeys(r.args) then
        pos <= |r.args| &&
        var all, rest := DelKeys(t, r.now, r.args, 1), DelKeys(p.0, r.now, r.args, pos);
        all.0 == rest.0 && all.1 == hits + rest.1
      else if ByPairs(r.args) then
        pos <= |r.args| && (|r.args| - pos) % 2 == 0 &&
        SetPairs(y.limits, t, r.args, 1) == SetPairs(y.limits, p.0, r.args, pos)
      else if ByShards(r.args) then
        forall k | k in p.0 :: Route(y.hash, y.shardCount, k) >= pos
      else p.0 == t
  }

  lemma NoShardLeft(y: Layout, u: Table)
    requires y.shardCount > 0 && forall k | k in u :: Route(y.hash, y.shardCount, k) >= y.shardCount
    ensures u == map[]
  {
    if k :| k in u {
      assert false;
    }
  }

  lemma AdvanceOnTheWay(y: Layout, t: Table, r: Request, u: Table, pos: nat, hits: nat)
    requires y.shardCount > 0 && OnTheWay(y, t, r, (u, At(pos, hits)))
    ensures OnTheWay(y, t, r, Advance(y, u, r, pos, hits))
  {
    hide VerbOf, ExecKeyed;
    if ByKeys(r.args) {
      assert Exec(y.limits, t, r.now, r.args) == ExecDel(t, r.now, r.args);
    } else if ByPairs(r.args) {
      assert Exec(y.limits, t, r.now, r.args) == ExecMset(y.limits, t, r.args);
    } else if ByShards(r.args) {
      assert Exec(y.limits, t, r.now, r.args) == ExecFlush(t, r.args);
      if pos >= y.shardCount {
        NoShardLeft(y, u);
      }
    }
  }

  lemma {:induction false} MicroOnTheWay(y: Layout, t: Table, r: Request, calls: nat)
    requires y.shardCount > 0
    ensures OnTheWay(y, t, r, Micro(y, t, r, calls))
  {
    if calls == 0 {
      FirstCall(y, t, r);
    } else {
      hide OnTheWay, Micro, Advance;
      MicroOnTheWay(y, t, r, calls - 1);
      NextCall(y, t, r, calls - 1);
      var p := Micro(y, t, r, calls - 1);
      if p.1.At? { AdvanceOnTheWay(y, t, r, p.0, p.1.pos, p.1.hits); }
    }
  }

  /** A handler that has made all its storage calls has done what the command does, and logs its record. */
  lemma MicroCompletes(y: Layout, t: Table, r: Request, calls: nat)
    requires y.shardCount > 0 && Micro(y, t, r, calls).1.Finished?
    ensures var e := Exec(y.limits, t, r.now, r.args);
            Micro(y, t, r, calls) == (e.table, Finished(e.record))
  {
    MicroOnTheWay(y, t, r, calls);
  }

  // --- Which keys a request touches -----------------------------------------------------------

  /** The keys whose cells a request may read or change. */
  predicate Touches(args: seq<string>, k: string) {
    if ByKeys(args) then k in args[1..]
    else if ByPairs(args) then exists i :: 0 < i < |args| && i % 2 == 1 && args[i] == k
    else if ByShards(args) then true
    else |args| >= 2 && IsKeyed(VerbOf(args[0])) && k == args[1]
  }

  /** Two tables hold the same at every key the request touches. */
  ghost predicate AgreeOn(args: seq<string>, t: Table, u: Table) {
    forall k | Touches(args, k) :: Get(t, k) == Get(u, k)
  }

  lemma PutAgrees(args: seq<string>, t: Table, u: Table, k: string, c: Cell)
    requires AgreeOn(args, t, u)
    ensures AgreeOn(args, Put(t, k, c), Put(u, k, c))
  {
    forall j | Touches(args, j)
      ensures Get(Put(t, k, c), j) == Get(Put(u, k, c), j)
    {
      assert Get(t, j) == Get(u, j);
    }
  }

  lemma PosTouched(args: seq<string>, pos: nat)
    requires (ByKeys(args) && 0 < pos < |args|) || (ByPairs(args) && pos % 2 == 1 && pos < |args|)
    ensures Touches(args, args[pos])
  {
    if ByKeys(args) {
      assert args[1..][pos - 1] == args[pos];
    }
  }

  /** Where the loops of a handler can be. */
  predicate PosOk(args: seq<string>, pos: nat) {
    (ByKeys(args) ==> 0 < pos) && (ByPairs(args) ==> pos % 2 == 1)
  }

  lemma AdvancePos(y: Layout, t: Table, r: Request, pos: nat, hits: nat)
    requires y.shardCount > 0 && PosOk(r.args, pos)
    ensures Advance(y, t, r, pos, hits).1.At? ==> PosOk(r.args, Advance(y, t, r, pos, hits).1.pos)
  {
    hide Exec, SetCell;
  }

  /** A storage call leaves every other key alone. */
  lemma AdvanceLocal(y: Layout, t: Table, r: Request, pos: nat, hits: nat, k: string)
    requires y.shardCount > 0 && PosOk(r.args, pos) && !Touches(r.args, k)
    ensures Get(Advance(y, t, r, pos, hits).0, k) == Get(t, k)
  {
    if ByKeys(r.args) || ByPairs(r.args) {
      if pos < |r.args| { PosTouched(r.args, pos); }
    } else if !ByShards(r.args) {
      ExecLocal(y.limits, t, r, k);
    }
  }

  lemma ExecLocal(l: Limits, t: Table, r: Request, k: string)
    requires !ByKeys(r.args) && !ByPairs(r.args) && !ByShards(r.args) && !Touches(r.args, k)
    ensures Get(Exec(l, t, r.now, r.args).table, k) == Get(t, k)
  {
    hide ExecCell;
  }

  /** A storage call does the same on tables that agree on the request's keys. */
  lemma AdvanceAgrees(y: Layout, t: Table, u: Table, r: Request, pos: nat, hits: nat)
    requires y.shardCount > 0 && PosOk(r.args, pos) && AgreeOn(r.args, t, u)
    ensures Advance(y, t, r, pos, hits).1 == Advance(y, u, r, pos, hits).1
    ensures AgreeOn(r.args, Advance(y, t, r, pos, hits).0, Advance(y, u, r, pos, hits).0)
  {
    if ByKeys(r.args) || ByPairs(r.args) {
      if pos < |r.args| {
        var k := r.args[pos];
        PosTouched(r.args, pos);
        assert Get(t, k) == Get(u, k);
        forall c { PutAgrees(r.args, t, u, k, c); }
      }
    } else if ByShards(r.args) {
      assert t == u by { SameMaps(t, u); }
    } else {
      ExecAgrees(y.limits, t, u, r);
    }
  }

  lemma ExecAgrees(l: Limits, t: Table, u: Table, r: Request)
    requires !ByKeys(r.args) && !ByPairs(r.args) && !ByShards(r.args) && AgreeOn(r.args, t, u)
    ensures Exec(l, t, r.now, r.args).record == Exec(l, u, r.now, r.args).record
    ensures AgreeOn(r.args, Exec(l, t, r.now, r.args).table, Exec(l, u, r.now, r.args).table)
  {
    hide ExecCell;
    if |r.args| >= 2 && IsKeyed(VerbOf(r.args[0])) {
      var k := r.args[1];
      assert Touches(r.args, k);
      assert Get(t, k) == Get(u, k);
      var e := ExecCell(l, Look(t, k, r.now), r.now, r.args);
      PutAgrees(r.args, t, u, k, e.cell);
    }
  }

  // --- Requests that touch different keys -----------------------------------------------------

  lemma {:induction false} MicroPos(y: Layout, t: Table, r: Request, calls: nat)
    requires y.shardCount > 0
    ensures Micro(y, t, r, calls).1.At? ==> PosOk(r.args, Micro(y, t, r, calls).1.pos)
  {
    if calls > 0 {
      hide Advance, ByKeys, ByPairs, Micro;
      MicroPos(y, t, r, calls - 1);
      NextCall(y, t, r, calls - 1);
      var p := Micro(y, t, r, calls - 1);
      if p.1.At? { AdvancePos(y, p.0, r, p.1.pos, p.1.hits); }
    }
  }

  lemma {:induction false} MicroLocal(y: Layout, t: Table, r: Request, calls: nat, k: string)
    requires y.shardCount > 0 && !Touches(r.args, k)
    ensures Get(Micro(y, t, r, calls).0, k) == Get(t, k)
  {
    if calls > 0 {
      hide Advance, Touches, Micro, PosOk;
      MicroLocal(y, t, r, calls - 1, k);
      MicroPos(y, t, r, calls - 1);
      NextCall(y, t, r, calls - 1);
      var p := Micro(y, t, r, calls - 1);
      if p.1.At? { AdvanceLocal(y, p.0, r, p.1.pos, p.1.hits, k); }
    }
  }

  lemma ContinueAgrees(y: Layout, p: (Table, Progress), q: (Table, Progress), r: Request)
    requires y.shardCount > 0 && p.1 == q.1 && AgreeOn(r.args, p.0, q.0) && (p.1.At? ==> PosOk(r.args, p.1.pos))
    ensures Continue(y, p, r).1 == Continue(y, q, r).1 && AgreeOn(r.args, Continue(y, p, r).0, Continue(y, q, r).0)
  {
    hide Advance, AgreeOn, PosOk;
    if p.1.At? { AdvanceAgrees(y, p.0, q.0, r, p.1.pos, p.1.hits); }
  }

  lemma {:induction false} MicroAgrees(y: Layout, t: Table, u: Table, r: Request, calls: nat)
    requires y.shardCount > 0 && AgreeOn(r.args, t, u)
    ensures Micro(y, t, r, calls).1 == Micro(y, u, r, calls).1
    ensures AgreeOn(r.args, Micro(y, t, r, calls).0, Micro(y, u, r, calls).0)
  {
    hide *;
    if calls == 0 {
      FirstCall(y, t, r);
      FirstCall(y, u, r);
    } else {
      MicroAgrees(y, t, u, r, calls - 1);
      MicroPos(y, t, r, calls - 1);
      NextCall(y, t, r, calls - 1);
      NextCall(y, u, r, calls - 1);
      ContinueAgrees(y, Micro(y, t, r, calls - 1), Micro(y, u, r, calls - 1), r);
    }
  }

  // --- The pool -------------------------------------------------------------------------------

  /** A worker is idle; or inside the barrier, having made some storage calls and not yet appended; or
      done with its append and about to release. */
  datatype Worker = Idle | Inside(r: Request, calls: nat, progress: Progress) | Recorded

  /** The server and its workers. The last three fields are history: the events in the order of their
      appends, the records decided since the last rewrite, and the length of the log that rewrite left. */
  datatype Pool = Pool(
    node: Node, workers: seq<Worker>, exclusive: bool,
    history: seq<Event>, decided: seq<seq<string>>, since: nat)

  datatype Move =
    | Enter(w: nat, r: Request)
    | Mutate(w: nat)
    | Append(w: nat)
    | Release(w: nat)
    | Block
    | Checkpoint(ev: Event)
    | Unblock

  predicate AllIdle(workers: seq<Worker>) {
    forall w | 0 <= w < |workers| :: workers[w].Idle?
  }

  predicate Can(s: Pool, m: Move) {
    match m
    case Enter(w, _) => w < |s.workers| && s.workers[w].Idle? && !s.exclusive
    case Mutate(w) => w < |s.workers| && s.workers[w].Inside? && s.workers[w].progress.At?
    case Append(w) => w < |s.workers| && s.workers[w].Inside? && s.workers[w].progress.Finished?
    case Release(w) => w < |s.workers| && s.workers[w].Recorded?
    case Block => !s.exclusive && AllIdle(s.workers)
    case Checkpoint(ev) => s.exclusive && (ev.Save? || ev.Rewrite?)
    case Unblock => s.exclusive
  }

  function MutatePool(y: Layout, s: Pool, w: nat): Pool
    requires y.shardCount > 0 && Can(s, Mutate(w))
  {
    var a := s.workers[w];
    var next := Advance(y, s.node.table, a.r, a.progress.pos, a.progress.hits);
    s.(node := s.node.(table := next.0),
       workers := s.workers[w := Inside(a.r, a.calls + 1, next.1)],
       decided := if next.1.Finished? then s.decided + Logged(next.1.record) else s.decided)
  }

  function AppendPool(s: Pool, w: nat): Pool
    requires Can(s, Append(w))
  {
    var a := s.workers[w];
    s.(node := s.node.(log := s.node.log + Logged(a.progress.record)),
       workers := s.workers[w := Recorded],
       history := s.history + [Write(a.r.args, a.r.now)])
  }

  function CheckpointPool(y: Layout, s: Pool, ev: Event): Pool {
    var s' := s.(node := Step(y.limits, s.node, ev), history := s.history + [ev]);
    if ev.Rewrite? then s'.(decided := [], since := |s'.node.log|) else s'
  }

  function Make(y: Layout, s: Pool, m: Move): Pool
    requires y.shardCount > 0 && Can(s, m)
  {
    match m
    case Enter(w, r) => s.(workers := s.workers[w := Inside(r, 0, First(r.args))])
    case Mutate(w) => MutatePool(y, s, w)
    case Append(w) => AppendPool(s, w)
    case Release(w) => s.(workers := s.workers[w := Idle])
    case Block => s.(exclusive := true)
    case Checkpoint(ev) => CheckpointPool(y, s, ev)
    case Unblock => s.(exclusive := false)
  }

  /** No two writes between entering and appending touch a common key. */
  ghost predicate Apart(workers: seq<Worker>) {
    forall v, w, k | 0 <= v < w < |workers| && workers[v].Inside? && workers[w].Inside? ::
      !(Touches(workers[v].r.args, k) && Touches(workers[w].r.args, k))
  }

  // --- The invariant --------------------------------------------------------------------------

  /** A worker inside has done to its own keys what it would have done alone, on the table that the
      appended events leave. */
  ghost predicate InStep(y: Layout, base: Table, t: Table, a: Worker)
    requires y.shardCount > 0
  {
    a.Inside? ==>
      var p := Micro(y, base, a.r, a.calls);
      p.1 == a.progress && AgreeOn(a.r.args, t, p.0)
  }

  ghost predicate Untouched(workers: seq<Worker>, k: string) {
    forall w | 0 <= w < |workers| && workers[w].Inside? :: !Touches(workers[w].r.args, k)
  }

  ghost predicate Inv(y: Layout, s: Pool)
    requires y.shardCount > 0
  {
    var base := After(y.limits, s.history);
    && s.node == base.(table := s.node.table)
    && (forall w | 0 <= w < |s.workers| :: InStep(y, base.table, s.node.table, s.workers[w]))
    && (forall k | Untouched(s.workers, k) :: Get(s.node.table, k) == Get(base.table, k))
    && (s.exclusive ==> AllIdle(s.workers))
  }

  lemma ApartFrom(workers: seq<Worker>, v: nat, w: nat, k: string)
    requires Apart(workers) && v < |workers| && w < |workers| && v != w
    requires workers[v].Inside? && workers[w].Inside? && Touches(workers[v].r.args, k)
    ensures !Touches(workers[w].r.args, k)
  {
    hide Touches;
  }

  lemma EnterKeeps(y: Layout, s: Pool, w: nat, r: Request)
    requires y.shardCount > 0 && Inv(y, s) && Can(s, Enter(w, r))
    requires Apart(Make(y, s, Enter(w, r)).workers)
    ensures Inv(y, Make(y, s, Enter(w, r)))
  {
    hide Touches, First, Micro, After;
    var s' := Make(y, s, Enter(w, r));
    var base := After(y.limits, s.history);
    forall k | Touches(r.args, k)
      ensures Get(s.node.table, k) == Get(base.table, k)
    {
      forall v | 0 <= v < |s.workers| && s.workers[v].Inside?
        ensures !Touches(s.workers[v].r.args, k)
      {
        ApartFrom(s'.workers, w, v, k);
      }
      assert Untouched(s.workers, k);
    }
    assert Micro(y, base.table, r, 0) == (base.table, First(r.args)) by { FirstCall(y, base.table, r); }
    forall v | 0 <= v < |s'.workers|
      ensures InStep(y, base.table, s.node.table, s'.workers[v])
    {
      assert v != w ==> InStep(y, base.table, s.node.table, s.workers[v]);
    }
    forall k | Untouched(s'.workers, k)
      ensures Get(s.node.table, k) == Get(base.table, k)
    {
      assert forall v | 0 <= v < |s.workers| && s.workers[v].Inside? :: s'.workers[v] == s.workers[v];
      assert Untouched(s.workers, k);
    }
  }

  lemma FirstCall(y: Layout, t: Table, r: Request)
    requires y.shardCount > 0
    ensures Micro(y, t, r, 0) == (t, First(r.args))
  {
  }

  lemma NextCall(y: Layout, t: Table, r: Request, calls: nat)
    requires y.shardCount > 0
    ensures Micro(y, t, r, calls + 1) == Continue(y, Micro(y, t, r, calls), r)
  {
  }

  /** A worker's own storage call keeps it in step. */
  lemma MutateOwn(y: Layout, base: Table, t: Table, a: Worker)
    requires y.shardCount > 0 && a.Inside? && a.progress.At? && InStep(y, base, t, a)
    ensures PosOk(a.r.args, a.progress.pos)
    ensures var next := Advance(y, t, a.r, a.progress.pos, a.progress.hits);
            InStep(y, base, next.0, Inside(a.r, a.calls + 1, next.1))
  {
    hide Advance, Micro, AgreeOn, ByKeys, ByPairs;
    var p := Micro(y, base, a.r, a.calls);
    NextCall(y, base, a.r, a.calls);
    MicroPos(y, base, a.r, a.calls);
    AdvanceAgrees(y, t, p.0, a.r, a.progress.pos, a.progress.hits);
  }

  /** Another worker stays in step when a table change spares its keys. */
  lemma OtherInStep(y: Layout, base: Table, t: Table, t': Table, b: Worker)
    requires y.shardCount > 0 && InStep(y, base, t, b)
    requires b.Inside? ==> forall k | Touches(b.r.args, k) :: Get(t', k) == Get(t, k)
    ensures InStep(y, base, t', b)
  {
    hide Touches, Micro;
  }

  lemma MutateKeeps(y: Layout, s: Pool, w: nat)
    requires y.shardCount > 0 && Inv(y, s) && Can(s, Mutate(w)) && Apart(s.workers)
    ensures Inv(y, Make(y, s, Mutate(w)))
  {
    hide Touches, Micro, After, Advance, InStep, PosOk;
    var s', a := Make(y, s, Mutate(w)), s.workers[w];
    var base := After(y.limits, s.history).table;
    assert InStep(y, base, s.node.table, a);
    MutateOwn(y, base, s.node.table, a);
    forall v | 0 <= v < |s'.workers|
      ensures InStep(y, base, s'.node.table, s'.workers[v])
    {
      if v != w {
        var b := s.workers[v];
        assert InStep(y, base, s.node.table, b);
        if b.Inside? {
          forall k | Touches(b.r.args, k)
            ensures Get(s'.node.table, k) == Get(s.node.table, k)
          {
            ApartFrom(s.workers, v, w, k);
            AdvanceLocal(y, s.node.table, a.r, a.progress.pos, a.progress.hits, k);
          }
        }
        OtherInStep(y, base, s.node.table, s'.node.table, b);
      }
    }
    forall k | Untouched(s'.workers, k)
      ensures Get(s'.node.table, k) == Get(base, k)
    {
      assert s'.workers[w].r == a.r;
      assert Untouched(s.workers, k) by {
        assert forall v | 0 <= v < |s.workers| && s.workers[v].Inside? :: s'.workers[v].Inside? && s'.workers[v].r == s.workers[v].r;
      }
      AdvanceLocal(y, s.node.table, a.r, a.progress.pos, a.progress.hits, k);
    }
  }

  /** An append moves the base; a worker with other keys stays in step with the new one. */
  lemma RebaseInStep(y: Layout, base: Table, base': Table, t: Table, b: Worker)
    requires y.shardCount > 0 && InStep(y, base, t, b)
    requires b.Inside? ==> AgreeOn(b.r.args, base, base')
    ensures InStep(y, base', t, b)
  {
    hide Micro, Touches;
    if b.Inside? {
      MicroAgrees(y, base, base', b.r, b.calls);
    }
  }

  lemma AppendBase(y: Layout, s: Pool, w: nat)
    requires y.shardCount > 0 && Inv(y, s) && Can(s, Append(w))
    ensures var a, s' := s.workers[w], AppendPool(s, w);
            var base' := After(y.limits, s'.history);
            base'.table == Micro(y, After(y.limits, s.history).table, a.r, a.calls).0 && s'.node == base'.(table := s.node.table)
  {
    hide Micro, Exec, AgreeOn;
    var a, s' := s.workers[w], AppendPool(s, w);
    var base := After(y.limits, s.history);
    assert InStep(y, base.table, s.node.table, a);
    MicroCompletes(y, base.table, a.r, a.calls);
    assert s'.history[..|s'.history| - 1] == s.history;
    assert After(y.limits, s'.history) == Step(y.limits, base, Write(a.r.args, a.r.now));
  }

  lemma AppendKeeps(y: Layout, s: Pool, w: nat)
    requires y.shardCount > 0 && Inv(y, s) && Can(s, Append(w)) && Apart(s.workers)
    ensures Inv(y, Make(y, s, Append(w)))
  {
    hide Touches, Micro, After;
    AppendBase(y, s, w);
    var s', a := AppendPool(s, w), s.workers[w];
    var base, base' := After(y.limits, s.history).table, After(y.limits, s'.history).table;
    assert InStep(y, base, s.node.table, a);
    forall k | !Touches(a.r.args, k)
      ensures Get(base', k) == Get(base, k)
    {
      MicroLocal(y, base, a.r, a.calls, k);
    }
    forall v | 0 <= v < |s'.workers|
      ensures InStep(y, base', s.node.table, s'.workers[v])
    {
      if v != w {
        var b := s.workers[v];
        assert InStep(y, base, s.node.table, b);
        if b.Inside? {
          forall k | Touches(b.r.args, k)
            ensures Get(base, k) == Get(base', k)
          {
            ApartFrom(s.workers, v, w, k);
          }
        }
        RebaseInStep(y, base, base', s.node.table, b);
      }
    }
    forall k | Untouched(s'.workers, k)
      ensures Get(s.node.table, k) == Get(base', k)
    {
      if !Touches(a.r.args, k) {
        assert forall v | 0 <= v < |s.workers| && v != w :: s'.workers[v] == s.workers[v];
        assert Untouched(s.workers, k);
      }
    }
  }

  /** With no write in flight the table is exactly the one the appended events leave. */
  lemma NoneInside(y: Layout, s: Pool)
    requires y.shardCount > 0 && Inv(y, s) && forall w | 0 <= w < |s.workers| :: !s.workers[w].Inside?
    ensures s.node == After(y.limits, s.history)
  {
    hide After, InStep;
    assert forall k :: Untouched(s.workers, k);
    SameMaps(s.node.table, After(y.limits, s.history).table);
  }

  lemma CheckpointKeeps(y: Layout, s: Pool, ev: Event)
    requires y.shardCount > 0 && Inv(y, s) && Can(s, Checkpoint(ev))
    ensures Inv(y, Make(y, s, Checkpoint(ev)))
  {
    hide InStep, Touches;
    NoneInside(y, s);
    var s' := CheckpointPool(y, s, ev);
    assert s'.history[..|s'.history| - 1] == s.history;
    assert After(y.limits, s'.history) == Step(y.limits, s.node, ev);
    forall w | 0 <= w < |s'.workers|
      ensures InStep(y, s'.node.table, s'.node.table, s'.workers[w])
    {
      IdleInStep(y, s'.node.table, s'.node.table, s'.workers[w]);
    }
  }

  lemma IdleInStep(y: Layout, base: Table, t: Table, b: Worker)
    requires y.shardCount > 0 && !b.Inside?
    ensures InStep(y, base, t, b)
  {
  }

  lemma OutsideKeeps(y: Layout, s: Pool, m: Move)
    requires y.shardCount > 0 && Inv(y, s) && Can(s, m) && (m.Release? || m.Block? || m.Unblock?)
    ensures Inv(y, Make(y, s, m))
  {
    hide Touches, Micro, After, AgreeOn;
    var s' := Make(y, s, m);
    var base := After(y.limits, s.history).table;
    forall v | 0 <= v < |s'.workers|
      ensures InStep(y, base, s.node.table, s'.workers[v])
    {
      assert InStep(y, base, s.node.table, s.workers[v]);
    }
    forall k | Untouched(s'.workers, k)
      ensures Get(s.node.table, k) == Get(base, k)
    {
      assert forall v | 0 <= v < |s.workers| && s.workers[v].Inside? :: s'.workers[v] == s.workers[v];
      assert Untouched(s.workers, k);
    }
  }

  lemma MoveKeeps(y: Layout, s: Pool, m: Move)
    requires y.shardCount > 0 && Inv(y, s) && Can(s, m) && Apart(s.workers) && Apart(Make(y, s, m).workers)
    ensures Inv(y, Make(y, s, m))
  {
    hide *;
    match m
    case Enter(w, r) => EnterKeeps(y, s, w, r);
    case Mutate(w) => MutateKeeps(y, s, w);
    case Append(w) => AppendKeeps(y, s, w);
    case Release(_) => OutsideKeeps(y, s, m);
    case Block => OutsideKeeps(y, s, m);
    case Checkpoint(ev) => CheckpointKeeps(y, s, ev);
    case Unblock => OutsideKeeps(y, s, m);
  }

  // --- Whole runs -----------------------------------------------------------------------------

  function Fresh(workers: nat): Pool {
    Pool(EMPTY, seq(workers, _ => Idle), false, [], [], 0)
  }

  predicate Goes(y: Layout, s: Pool, moves: seq<Move>)
    requires y.shardCount > 0
    decreases |moves|
  {
    moves == [] || (Can(s, moves[0]) && Goes(y, Make(y, s, moves[0]), moves[1..]))
  }

  function Final(y: Layout, s: Pool, moves: seq<Move>): Pool
    requires y.shardCount > 0 && Goes(y, s, moves)
    decreases |moves|
  {
    if moves == [] then s else Final(y, Make(y, s, moves[0]), moves[1..])
  }

  /** At no point of the run do two writes in flight touch a common key. */
  ghost predicate AlwaysApart(y: Layout, s: Pool, moves: seq<Move>)
    requires y.shardCount > 0 && Goes(y, s, moves)
    decreases |moves|
  {
    Apart(s.workers) && (moves != [] ==> AlwaysApart(y, Make(y, s, moves[0]), moves[1..]))
  }

  lemma {:induction false} RunKeeps(y: Layout, s: Pool, moves: seq<Move>)
    requires y.shardCount > 0 && Goes(y, s, moves) && Inv(y, s) && AlwaysApart(y, s, moves)
    ensures Inv(y, Final(y, s, moves))
    decreases |moves|
  {
    hide Inv, Can, Make, Apart;
    if moves != [] {
      MoveKeeps(y, s, moves[0]);
      RunKeeps(y, Make(y, s, moves[0]), moves[1..]);
    }
  }

  lemma FreshInv(y: Layout, workers: nat)
    requires y.shardCount > 0
    ensures Inv(y, Fresh(workers))
  {
    hide InStep;
    var s := Fresh(workers);
    forall w | 0 <= w < |s.workers|
      ensures InStep(y, map[], map[], s.workers[w])
    {
      IdleInStep(y, map[], map[], s.workers[w]);
    }
  }

  /** Serializability: in every interleaving of any number of workers, whenever no write is between its
      entry and its append, in particular whenever the barrier is held exclusively, the table, the log,
      the snapshot and the manifest are those of the sequential run of the same events in the order of
      their appends. */
  lemma WorkersSerialize(y: Layout, workers: nat, moves: seq<Move>)
    requires y.shardCount > 0 && Goes(y, Fresh(workers), moves) && AlwaysApart(y, Fresh(workers), moves)
    ensures var s := Final(y, Fresh(workers), moves);
            s.exclusive || (forall w | 0 <= w < |s.workers| :: !s.workers[w].Inside?) ==>
              s.node == After(y.limits, s.history)
  {
    hide Goes, Final, AlwaysApart, After, Fresh, InStep, Untouched;
    FreshInv(y, workers);
    RunKeeps(y, Fresh(workers), moves);
    var s := Final(y, Fresh(workers), moves);
    if s.exclusive || forall w | 0 <= w < |s.workers| :: !s.workers[w].Inside? {
      NoneInside(y, s);
    }
  }

  // --- Two writes that cross ------------------------------------------------------------------

  /** A request that makes one storage call. */
  predicate OneCall(args: seq<string>) {
    !ByKeys(args) && !ByPairs(args) && !ByShards(args)
  }

  /** Executing `a` then `b` leaves the same table as `b` then `a`; and what the two log when `a` executes
      first, `b`'s record before `a`'s, is what they log when `b` executes first. */
  predicate Commute(l: Limits, t: Table, a: Request, b: Request) {
    var ea := Exec(l, t, a.now, a.args);
    var eab := Exec(l, ea.table, b.now, b.args);
    var eb := Exec(l, t, b.now, b.args);
    var eba := Exec(l, eb.table, a.now, a.args);
    eab.table == eba.table && Logged(eab.record) + Logged(ea.record) == Logged(eb.record) + Logged(eba.record)
  }

  /** One storage call and its record. */
  lemma MutateOneCall(y: Layout, s: Pool, w: nat)
    requires y.shardCount > 0 && w < |s.workers| && s.workers[w].Inside? && OneCall(s.workers[w].r.args)
    requires s.workers[w].calls == 0 && s.workers[w].progress == First(s.workers[w].r.args)
    ensures var r := s.workers[w].r;
            var e, s' := Exec(y.limits, s.node.table, r.now, r.args), MutatePool(y, s, w);
            && Can(s, Mutate(w)) && s'.node == s.node.(table := e.table) && s'.history == s.history
            && s'.workers == s.workers[w := Inside(r, 1, Finished(e.record))]
  {
    hide Exec;
  }

  /** Store first `v`, then `w`; append first `w`, then `v`. */
  function Crossed(v: nat, w: nat): seq<Move> {
    [Mutate(v), Mutate(w), Append(w), Append(v)]
  }

  lemma RunFour(y: Layout, s: Pool, a: Move, b: Move, c: Move, d: Move)
    requires y.shardCount > 0 && Can(s, a) && Can(Make(y, s, a), b) && Can(Make(y, Make(y, s, a), b), c)
    requires Can(Make(y, Make(y, Make(y, s, a), b), c), d)
    ensures Goes(y, s, [a, b, c, d])
    ensures Final(y, s, [a, b, c, d]) == Make(y, Make(y, Make(y, Make(y, s, a), b), c), d)
  {
    hide Can, Make, Goes, Final;
    var s1 := Make(y, s, a);
    var s2 := Make(y, s1, b);
    var s3 := Make(y, s2, c);
    OneMove(y, s, a);
    OneMove(y, s1, b);
    OneMove(y, s2, c);
    OneMove(y, s3, d);
    GoesOn(y, s2, [c], [d]);
    GoesOn(y, s1, [b], [c] + [d]);
    GoesOn(y, s, [a], [b] + ([c] + [d]));
    assert [a] + ([b] + ([c] + [d])) == [a, b, c, d];
  }

  /** What a crossed run leaves. */
  lemma CrossedEnds(y: Layout, s: Pool, v: nat, w: nat)
    requires y.shardCount > 0 && v < |s.workers| && w < |s.workers| && v != w
    requires forall u | u == v || u == w :: s.workers[u].Inside? && OneCall(s.workers[u].r.args)
                                         && s.workers[u].calls == 0 && s.workers[u].progress == First(s.workers[u].r.args)
    ensures var a, b := s.workers[v].r, s.workers[w].r;
            var ea := Exec(y.limits, s.node.table, a.now, a.args);
            var eab := Exec(y.limits, ea.table, b.now, b.args);
            && Goes(y, s, Crossed(v, w))
            && var s' := Final(y, s, Crossed(v, w));
               && s'.node == s.node.(table := eab.table, log := s.node.log + Logged(eab.record) + Logged(ea.record))
               && s'.history == s.history + [Write(b.args, b.now)] + [Write(a.args, a.now)]
  {
    hide Exec, MutatePool, OneCall, First;
    MutateOneCall(y, s, v);
    var s1 := MutatePool(y, s, v);
    MutateOneCall(y, s1, w);
    var s2 := MutatePool(y, s1, w);
    RunFour(y, s, Mutate(v), Mutate(w), Append(w), Append(v));
  }

  /** What the sequential run in append order leaves. */
  lemma SequentialEnds(l: Limits, history: seq<Event>, b: Request, a: Request)
    ensures var n := After(l, history);
            var eb := Exec(l, n.table, b.now, b.args);
            var eba := Exec(l, eb.table, a.now, a.args);
            After(l, history + [Write(b.args, b.now)] + [Write(a.args, a.now)]) ==
              n.(table := eba.table, log := n.log + Logged(eb.record) + Logged(eba.record))
  {
    hide Exec;
    var h1 := history + [Write(b.args, b.now)];
    var h2 := h1 + [Write(a.args, a.now)];
    assert h1[..|h1| - 1] == history && h2[..|h2| - 1] == h1;
  }

  /** Two writes in flight together, whatever their keys, stored in one order and logged in the other: the
      outcome is that of the sequential run in append order if and only if the two commute. */
  lemma CrossedIffCommute(y: Layout, s: Pool, v: nat, w: nat)
    requires y.shardCount > 0 && s.node == After(y.limits, s.history) && v < |s.workers| && w < |s.workers| && v != w
    requires forall u | u == v || u == w :: s.workers[u].Inside? && OneCall(s.workers[u].r.args)
                                         && s.workers[u].calls == 0 && s.workers[u].progress == First(s.workers[u].r.args)
    ensures Goes(y, s, Crossed(v, w))
    ensures var s' := Final(y, s, Crossed(v, w));
            s'.node == After(y.limits, s'.history) <==> Commute(y.limits, s.node.table, s.workers[v].r, s.workers[w].r)
  {
    hide Goes, Final, Exec, After, First, OneCall, Crossed;
    CrossedEnds(y, s, v, w);
    var a, b := s.workers[v].r, s.workers[w].r;
    SequentialEnds(y.limits, s.history, b, a);
    var ea := Exec(y.limits, s.node.table, a.now, a.args);
    var eab := Exec(y.limits, ea.table, b.now, b.args);
    var eb := Exec(y.limits, s.node.table, b.now, b.args);
    var eba := Exec(y.limits, eb.table, a.now, a.args);
    SameTail(s.node.log, Logged(eab.record) + Logged(ea.record), Logged(eb.record) + Logged(eba.record));
    assert s.node.log + Logged(eab.record) + Logged(ea.record) == s.node.log + (Logged(eab.record) + Logged(ea.record));
    assert s.node.log + Logged(eb.record) + Logged(eba.record) == s.node.log + (Logged(eb.record) + Logged(eba.record));
  }

  lemma SameTail(a: seq<seq<string>>, b: seq<seq<string>>, c: seq<seq<string>>)
    ensures a + b == a + c <==> b == c
  {
    if a + b == a + c {
      assert b == (a + b)[|a|..] && c == (a + c)[|a|..];
    }
  }

  /** Steps of one counter commute, as long as no order of them leaves 64 bits: two INCRs or DECRs of one key
      may cross freely. */
  lemma CountersCommute(l: Limits, t: Table, a: Request, b: Request, n: int)
    requires |a.args| == 2 && |b.args| == 2 && a.args[1] == b.args[1]
    requires VerbOf(a.args[0]) in {INCR, DECR} && VerbOf(b.args[0]) in {INCR, DECR}
    requires |a.args[1]| <= l.maxKey && l.maxValue >= 20 && I64_MIN + 2 <= n <= I64_MAX - 2
    requires forall now | now == a.now || now == b.now :: CounterValue(Look(t, a.args[1], now)) == Some(n)
    ensures Commute(l, t, a, b)
  {
    hide *;
    hide VerbOf;
    var da, db := if VerbOf(a.args[0]) == INCR then 1 else -1, if VerbOf(b.args[0]) == INCR then 1 else -1;
    CountersInTurn(l, t, a, b, n, da, db);
    CountersInTurn(l, t, b, a, n, db, da);
    CommuteWhen(l, t, a, b);
  }

  lemma CommuteWhen(l: Limits, t: Table, a: Request, b: Request)
    requires var ea, eb := Exec(l, t, a.now, a.args), Exec(l, t, b.now, b.args);
             var eab, eba := Exec(l, ea.table, b.now, b.args), Exec(l, eb.table, a.now, a.args);
             && eab.table == eba.table && ea.record == eba.record && eb.record == eab.record
    ensures Commute(l, t, a, b)
  {
    hide Exec;
  }

  lemma CountersInTurn(l: Limits, t: Table, a: Request, b: Request, n: int, da: int, db: int)
    requires |a.args| == 2 && |b.args| == 2 && a.args[1] == b.args[1]
    requires VerbOf(a.args[0]) == (if da == 1 then INCR else DECR) && (da == 1 || da == -1)
    requires VerbOf(b.args[0]) == (if db == 1 then INCR else DECR) && (db == 1 || db == -1)
    requires |a.args[1]| <= l.maxKey && l.maxValue >= 20 && I64_MIN + 2 <= n <= I64_MAX - 2
    requires CounterValue(Look(t, a.args[1], a.now)) == Some(n)
    ensures var ea := Exec(l, t, a.now, a.args);
            var eab := Exec(l, ea.table, b.now, b.args);
            && ea.record == Some(a.args) && eab.record == Some(b.args)
            && eab.table == Put(t, a.args[1], Some(Entry(IntText(n + da + db), None)))
  {
    hide Exec, VerbOf, IntText, CounterValue, Look;
    CounterExec(l, t, a, n, da);
    var t' := Put(t, a.args[1], Some(Entry(IntText(n + da), None)));
    assert Get(t', a.args[1]) == Some(Entry(IntText(n + da), None));
    CounterExec(l, t', b, n + da, db);
    assert Put(t', a.args[1], Some(Entry(IntText(n + da + db), None))) == Put(t, a.args[1], Some(Entry(IntText(n + da + db), None)));
  }

  lemma CounterExec(l: Limits, t: Table, r: Request, n: int, delta: int)
    requires |r.args| == 2 && VerbOf(r.args[0]) == (if delta == 1 then INCR else DECR) && (delta == 1 || delta == -1)
    requires |r.args[1]| <= l.maxKey && l.maxValue >= 20 && InI64(n) && InI64(n + delta)
    requires CounterValue(Look(t, r.args[1], r.now)) == Some(n) || Get(t, r.args[1]) == Some(Entry(IntText(n), None))
    ensures var e := Exec(l, t, r.now, r.args);
            e.table == Put(t, r.args[1], Some(Entry(IntText(n + delta), None))) && e.record == Some(r.args)
  {
    hide VerbOf, IntText, ParseI64Exact;
    I64RoundTrip(n);
    I64Width(n + delta);
    assert Exec(l, t, r.now, r.args) == ExecKeyed(l, t, r.now, r.args);
  }

  // --- Records and mutations, one for one -----------------------------------------------------

  /** How often a worker has decided a record without having appended it. */
  function Owes(a: Worker, record: seq<string>): nat {
    if a.Inside? && a.progress == Finished(Some(record)) then 1 else 0
  }

  function Owed(workers: seq<Worker>, record: seq<string>): nat {
    if workers == [] then 0 else Owes(workers[0], record) + Owed(workers[1..], record)
  }

  function Times(records: seq<seq<string>>, record: seq<string>): nat {
    multiset(records)[record]
  }

  lemma TimesLogged(records: seq<seq<string>>, more: Option<seq<string>>, record: seq<string>)
    ensures Times(records + Logged(more), record) == Times(records, record) + if more == Some(record) then 1 else 0
  {
  }

  lemma {:induction false} OwedUpdate(workers: seq<Worker>, w: nat, a: Worker, record: seq<string>)
    requires w < |workers|
    ensures Owed(workers[w := a], record) == Owed(workers, record) - Owes(workers[w], record) + Owes(a, record)
  {
    hide Owes;
    if w == 0 {
      assert workers[w := a][1..] == workers[1..];
    } else {
      assert workers[w := a][1..] == workers[1..][w - 1 := a];
      OwedUpdate(workers[1..], w - 1, a, record);
    }
  }

  lemma {:induction false} OwedIdle(workers: seq<Worker>, record: seq<string>)
    requires AllIdle(workers)
    ensures Owed(workers, record) == 0
  {
    if workers != [] { OwedIdle(workers[1..], record); }
  }

  ghost predicate Matched(s: Pool) {
    && s.since <= |s.node.log|
    && (forall record :: Times(s.decided, record) == Times(s.node.log[s.since..], record) + Owed(s.workers, record))
    && (s.exclusive ==> AllIdle(s.workers))
  }

  lemma WorkerMatched(y: Layout, s: Pool, m: Move)
    requires y.shardCount > 0 && Matched(s) && Can(s, m) && (m.Enter? || m.Release? || m.Mutate? || m.Append?)
    ensures Matched(Make(y, s, m))
  {
    hide Advance, Owed, Times;
    var s', a := Make(y, s, m), s.workers[m.w];
    assert !s.exclusive by { assert m.Enter? || !a.Idle?; }
    assert m.Append? ==> s'.node.log[s.since..] == s.node.log[s.since..] + Logged(a.progress.record);
    forall record
      ensures Times(s'.decided, record) == Times(s'.node.log[s.since..], record) + Owed(s'.workers, record)
    {
      OwedUpdate(s.workers, m.w, s'.workers[m.w], record);
      assert Times(s.decided, record) == Times(s.node.log[s.since..], record) + Owed(s.workers, record);
      if m.Append? {
        TimesLogged(s.node.log[s.since..], a.progress.record, record);
      } else if m.Mutate? && s'.workers[m.w].progress.Finished? {
        TimesLogged(s.decided, s'.workers[m.w].progress.record, record);
      }
    }
  }

  lemma CheckpointMatched(y: Layout, s: Pool, ev: Event)
    requires Matched(s) && Can(s, Checkpoint(ev))
    ensures Matched(CheckpointPool(y, s, ev))
  {
    hide Owed, Step;
    StepLog(y.limits, s.node, ev);
    var s' := CheckpointPool(y, s, ev);
    forall record
      ensures Times(s'.decided, record) == Times(s'.node.log[s'.since..], record) + Owed(s'.workers, record)
    {
      OwedIdle(s.workers, record);
      assert ev.Rewrite? ==> s'.node.log[s'.since..] == [];
    }
  }

  lemma MoveKeepsMatched(y: Layout, s: Pool, m: Move)
    requires y.shardCount > 0 && Matched(s) && Can(s, m)
    ensures Matched(Make(y, s, m))
  {
    hide Owed, CheckpointPool, AppendPool, MutatePool;
    match m
    case Enter(_, _) => WorkerMatched(y, s, m);
    case Mutate(_) => WorkerMatched(y, s, m);
    case Append(_) => WorkerMatched(y, s, m);
    case Release(_) => WorkerMatched(y, s, m);
    case Block =>
    case Checkpoint(ev) => CheckpointMatched(y, s, ev);
    case Unblock =>
  }

  lemma StepLog(l: Limits, n: Node, ev: Event)
    requires ev.Save? || ev.Rewrite?
    ensures ev.Save? ==> Step(l, n, ev).log == n.log
  {
  }

  lemma {:induction false} RunKeepsMatched(y: Layout, s: Pool, moves: seq<Move>)
    requires y.shardCount > 0 && Goes(y, s, moves) && Matched(s)
    ensures Matched(Final(y, s, moves))
    decreases |moves|
  {
    hide Matched, Can, Make;
    if moves != [] {
      MoveKeepsMatched(y, s, moves[0]);
      RunKeepsMatched(y, Make(y, s, moves[0]), moves[1..]);
    }
  }

  /** In every interleaving, with no condition on keys: whenever the barrier is held exclusively, the
      records decided by mutations since the last rewrite and the records in the log since then match
      one for one. */
  lemma MutationsMatchRecords(y: Layout, workers: nat, moves: seq<Move>)
    requires y.shardCount > 0 && Goes(y, Fresh(workers), moves)
    ensures var s := Final(y, Fresh(workers), moves);
            s.exclusive ==> s.since <= |s.node.log| && multiset(s.decided) == multiset(s.node.log[s.since..])
  {
    hide Goes, Final;
    forall record { OwedIdle(Fresh(workers).workers, record); }
    RunKeepsMatched(y, Fresh(workers), moves);
    var s := Final(y, Fresh(workers), moves);
    if s.exclusive {
      forall record { OwedIdle(s.workers, record); }
      SameTimes(s.decided, s.node.log[s.since..]);
    }
  }

  lemma SameTimes(a: seq<seq<string>>, b: seq<seq<string>>)
    requires forall record :: Times(a, record) == Times(b, record)
    ensures multiset(a) == multiset(b)
  {
    assert forall record :: multiset(a)[record] == Times(a, record) && multiset(b)[record] == Times(b, record);
  }

  // --- Recovery of a concurrent server --------------------------------------------------------

  ghost predicate LegalMove(l: Limits, s: Pool, m: Move, at: int) {
    match m
    case Enter(_, r) => r.now <= at && InRange(r.args, r.now)
    case Checkpoint(ev) => Legal(l, s.node, ev, at)
    case _ => true
  }

  ghost predicate LegalMoves(y: Layout, s: Pool, moves: seq<Move>, at: int)
    requires y.shardCount > 0 && Goes(y, s, moves)
    decreases |moves|
  {
    moves == [] || (LegalMove(y.limits, s, moves[0], at) && LegalMoves(y, Make(y, s, moves[0]), moves[1..], at))
  }

  ghost predicate LegalPool(y: Layout, s: Pool, at: int) {
    && LegalRun(y.limits, s.history, at)
    && forall w | 0 <= w < |s.workers| && s.workers[w].Inside? ::
         s.workers[w].r.now <= at && InRange(s.workers[w].r.args, s.workers[w].r.now)
  }

  lemma LegalNext(l: Limits, history: seq<Event>, ev: Event, at: int)
    requires LegalRun(l, history, at) && Legal(l, After(l, history), ev, at) && !ev.Restart?
    ensures LegalRun(l, history + [ev], at)
  {
    var all := history + [ev];
    assert all[..|all| - 1] == history;
  }

  lemma MoveKeepsLegal(y: Layout, s: Pool, m: Move, at: int)
    requires y.shardCount > 0 && Inv(y, s) && Can(s, m) && LegalPool(y, s, at) && LegalMove(y.limits, s, m, at)
    ensures LegalPool(y, Make(y, s, m), at)
  {
    hide InRange, Advance, First, LegalRun, After, Step, InStep, Untouched;
    match m
    case Append(w) => LegalNext(y.limits, s.history, Write(s.workers[w].r.args, s.workers[w].r.now), at);
    case Checkpoint(ev) =>
      NoneInside(y, s);
      LegalNext(y.limits, s.history, ev, at);
    case _ =>
  }

  lemma {:induction false} RunKeepsLegal(y: Layout, s: Pool, moves: seq<Move>, at: int)
    requires y.shardCount > 0 && Goes(y, s, moves) && Inv(y, s) && AlwaysApart(y, s, moves)
    requires LegalPool(y, s, at) && LegalMoves(y, s, moves, at)
    ensures LegalPool(y, Final(y, s, moves), at)
    decreases |moves|
  {
    hide Inv, Can, Make, Apart, LegalPool, LegalMove;
    if moves != [] {
      MoveKeeps(y, s, moves[0]);
      MoveKeepsLegal(y, s, moves[0], at);
      RunKeepsLegal(y, Make(y, s, moves[0]), moves[1..], at);
    }
  }

  /** A concurrent server recovers: from the files found whenever the barrier is held exclusively,
      recovery at any later time gives what a reader of the table then sees, if the writes since the
      last checkpoint, in the order of their appends, are lasting. */
  lemma WorkersRecover(y: Layout, workers: nat, moves: seq<Move>, at: int)
    requires y.shardCount > 0 && Goes(y, Fresh(workers), moves) && AlwaysApart(y, Fresh(workers), moves)
    requires LegalMoves(y, Fresh(workers), moves, at)
    requires var s := Final(y, Fresh(workers), moves); s.exclusive && LastingSince(y.limits, s.history, at)
    ensures var s := Final(y, Fresh(workers), moves);
            Reads(Recover(y.limits, s.node, at), s.node.table, at)
  {
    hide Goes, Final, AlwaysApart, After, Recover, Reads, LegalMoves, Inv, LastingSince;
    FreshInv(y, workers);
    RunKeepsLegal(y, Fresh(workers), moves, at);
    WorkersSerialize(y, workers, moves);
    RecoveryFaithful(y.limits, Final(y, Fresh(workers), moves).history, at);
  }

  /** On the way to a record: it is decided, or will be when the handler's loop ends. */
  predicate Committed(args: seq<string>, p: Progress) {
    match p
    case Finished(record) => record.Some?
    case At(_, hits) => if ByKeys(args) then hits > 0 else ByPairs(args) || ByShards(args)
  }

  /** In every interleaving: a storage call that changes what readers see commits its handler to a record,
      and only a pair of an MSET refused for its size undoes that. */
  lemma ChangesAreRecorded(y: Layout, s: Pool, w: nat)
    requires y.shardCount > 0 && Can(s, Mutate(w))
    ensures var a, s' := s.workers[w], MutatePool(y, s, w);
            var p := a.progress;
            (Committed(a.r.args, p) || !Same(s'.node.table, s.node.table, a.r.now)) ==>
              || Committed(a.r.args, s'.workers[w].progress)
              || (ByPairs(a.r.args) && p.pos + 1 < |a.r.args|
                  && (|a.r.args[p.pos]| > y.limits.maxKey || |a.r.args[p.pos + 1]| > y.limits.maxValue))
  {
    hide VerbOf, ExecKeyed;
    var a := s.workers[w];
    if OneCall(a.r.args) { OneCallRecords(y.limits, s.node.table, a.r); }
  }

  lemma OneCallRecords(l: Limits, t: Table, r: Request)
    requires OneCall(r.args)
    ensures var e := Exec(l, t, r.now, r.args); e.record.None? ==> Same(e.table, t, r.now)
  {
    hide SetPairs, DelKeys;
  }

  /** The only writes that change what readers see and decide no record are MSETs refused part-way, for the
      size of a pair after the first. */
  lemma SilentOnlyMset(y: Layout, t: Table, r: Request, calls: nat)
    requires y.shardCount > 0 && Micro(y, t, r, calls).1 == Finished(None) && !Same(Micro(y, t, r, calls).0, t, r.now)
    ensures ByPairs(r.args) && 1 < FirstRefused(y.limits, r.args, 1) < |r.args|
  {
    hide Micro, DelKeys, SetPairs, FirstRefused, VerbOf, FinalValue;
    MicroCompletes(y, t, r, calls);
    if ByPairs(r.args) {
      SilentPairs(y.limits, t, r);
    } else if |r.args| >= 2 && VerbOf(r.args[0]) == DEL {
      LookDelKeys(t, r.now, r.args, 1, "", r.now);
    }
  }

  lemma SilentPairs(l: Limits, t: Table, r: Request)
    requires ByPairs(r.args) && var e := Exec(l, t, r.now, r.args); e.record.None? && !Same(e.table, t, r.now)
    ensures 1 < FirstRefused(l, r.args, 1) < |r.args|
  {
    hide SetPairs, VerbOf;
    GetSetPairs(l, t, r.args, 1, "");
    if FirstRefused(l, r.args, 1) == 1 {
      forall k
        ensures Look(SetPairs(l, t, r.args, 1).1, k, r.now) == Look(t, k, r.now)
      {
        GetSetPairs(l, t, r.args, 1, k);
      }
    }
  }

  // --- The barrier can always be had ----------------------------------------------------------

  /** How many moves a worker is from being idle again. */
  function MovesLeft(y: Layout, a: Worker): nat {
    match a
    case Idle => 0
    case Recorded => 1
    case Inside(r, _, Finished(_)) => 2
    case Inside(r, _, At(pos, _)) =>
      var end := if ByKeys(r.args) || ByPairs(r.args) then |r.args| else if ByShards(r.args) then y.shardCount else 0;
      3 + if pos < end then end - pos else 0
  }

  /** What a worker that is not idle does next. */
  function NextMove(w: nat, a: Worker): Move
    requires !a.Idle?
  {
    match a
    case Recorded => Release(w)
    case Inside(_, _, Finished(_)) => Append(w)
    case Inside(_, _, At(_, _)) => Mutate(w)
  }

  lemma MovesNearer(y: Layout, s: Pool, w: nat)
    requires y.shardCount > 0 && w < |s.workers| && !s.workers[w].Idle?
    ensures var m := NextMove(w, s.workers[w]);
            && Can(s, m)
            && var s' := Make(y, s, m);
               && s'.exclusive == s.exclusive && s'.workers == s.workers[w := s'.workers[w]]
               && MovesLeft(y, s'.workers[w]) < MovesLeft(y, s.workers[w])
  {
    hide Exec, SetCell, VerbOf;
  }

  lemma {:induction false} WorkerLeaves(y: Layout, s: Pool, w: nat) returns (moves: seq<Move>)
    requires y.shardCount > 0 && w < |s.workers|
    ensures Goes(y, s, moves) && forall m | m in moves :: !m.Enter? && !m.Block?
    ensures var s' := Final(y, s, moves); s'.exclusive == s.exclusive && s'.workers == s.workers[w := Worker.Idle]
    decreases MovesLeft(y, s.workers[w])
  {
    hide Can, Make, MovesLeft;
    if s.workers[w].Idle? {
      moves := [];
      assert s.workers[w := Worker.Idle] == s.workers;
    } else {
      MovesNearer(y, s, w);
      var m := NextMove(w, s.workers[w]);
      var s' := Make(y, s, m);
      var rest := WorkerLeaves(y, s', w);
      moves := [m] + rest;
      assert moves[1..] == rest;
      assert s'.workers[w := Worker.Idle] == s.workers[w := Worker.Idle];
    }
  }

  lemma {:induction false} AllLeave(y: Layout, s: Pool, n: nat) returns (moves: seq<Move>)
    requires y.shardCount > 0 && n <= |s.workers|
    ensures Goes(y, s, moves) && forall m | m in moves :: !m.Enter? && !m.Block?
    ensures var s' := Final(y, s, moves);
            && s'.exclusive == s.exclusive && |s'.workers| == |s.workers| && forall w | 0 <= w < n :: s'.workers[w].Idle?
  {
    hide Goes, Final;
    if n == 0 {
      moves := [];
      NoMoves(y, s);
    } else {
      var before := AllLeave(y, s, n - 1);
      var mid := Final(y, s, before);
      var last := WorkerLeaves(y, mid, n - 1);
      GoesOn(y, s, before, last);
      moves := before + last;
    }
  }

  lemma NoMoves(y: Layout, s: Pool)
    requires y.shardCount > 0
    ensures Goes(y, s, []) && Final(y, s, []) == s
  {
  }

  lemma {:induction false} GoesOn(y: Layout, s: Pool, a: seq<Move>, b: seq<Move>)
    requires y.shardCount > 0 && Goes(y, s, a) && Goes(y, Final(y, s, a), b)
    ensures Goes(y, s, a + b) && Final(y, s, a + b) == Final(y, Final(y, s, a), b)
    decreases |a|
  {
    hide Can, Make;
    if a == [] {
      assert a + b == b;
    } else {
      assert (a + b)[1..] == a[1..] + b;
      GoesOn(y, Make(y, s, a[0]), a[1..], b);
    }
  }

  /** From any state the writes in flight can all be finished, each by its own moves and without a new one
      entering, and the barrier then taken exclusively. */
  lemma BarrierCanBeTaken(y: Layout, s: Pool) returns (moves: seq<Move>)
    requires y.shardCount > 0 && !s.exclusive
    ensures Goes(y, s, moves) && forall m | m in moves :: !m.Enter?
    ensures Final(y, s, moves).exclusive && AllIdle(Final(y, s, moves).workers)
  {
    hide Goes, Final;
    var drained := AllLeave(y, s, |s.workers|);
    var mid := Final(y, s, drained);
    OneMove(y, mid, Block);
    GoesOn(y, s, drained, [Block]);
    moves := drained + [Block];
  }

  lemma OneMove(y: Layout, s: Pool, m: Move)
    requires y.shardCount > 0 && Can(s, m)
    ensures Goes(y, s, [m]) && Final(y, s, [m]) == Make(y, s, m)
  {
    hide Can, Make;
    NoMoves(y, Make(y, s, m));
    assert [m][1..] == [];
  }
}
