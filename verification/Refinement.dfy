/** The sharded, lazily expiring engine answers every sequence of calls like one plain table whose
    entries vanish at their expiry. Under a memory limit it refuses exactly the writes that would make what
    it stores too large, and answers all others like the plain table. */
module Refinement {
  import opened Wrappers
  import opened Decimal
  import opened Store
  import opened Shards
  import opened Budget
  import opened Engine

  datatype Call =
    | CallSet(key: string, value: string, ttl: Option<int>, cond: Condition)
    | CallGet(key: string)
    | CallDel(key: string)
    | CallIncrBy(key: string, delta: int64)
    | CallAppend(key: string, suffix: string)
    | CallExpire(key: string, span: int)
    | CallExpireAt(key: string, when: int)
    | CallTtl(key: string)
    | CallPersist(key: string)
    | CallDbSize
    | CallExpiresCount
    | CallFlush
    | CallActiveExpire(size: nat)
    | CallSnapshot

  datatype Answer =
    | Wrote(code: WriteCode, integer: int)
    | Value(value: Option<string>)
    | Count(n: nat)
    | Flag(flag: bool)
    | TimeLeft(ttl: Ttl)
    | Listing(size: nat, entries: Table)
    | Erased(n: nat)
    | Done

  function AnswerOf(w: Written): Answer {
    Wrote(w.code, if w.code.Stored? then w.integer else 0)
  }

  function StoreIf(t: Table, k: string, w: Written): Table {
    if w.code.Stored? then Put(t, k, w.cell) else t
  }

  function ChangeIf(t: Table, k: string, c: Option<Cell>): Table {
    if c.Some? then Put(t, k, c.value) else t
  }

  /** An answer as far as the plain table can give it: how many entries a sweep erased depends on what is
      stored beyond what readers see. */
  function Seen(answer: Answer): Answer {
    if answer.Erased? then Done else answer
  }

  /** The plain table: no shards, no sweeping, no counters. A snapshot is listed up to its order. */
  function FlatStep(l: Limits, t: Table, now: int, call: Call): (Table, Answer) {
    match call
    case CallSet(k, v, ttl, cond) =>
      var w := SetCell(l, k, Look(t, k, now), v, Deadline(ttl, now), cond);
      (StoreIf(t, k, w), AnswerOf(w))
    case CallGet(k) =>
      var c := Look(t, k, now);
      (t, Value(if c.Some? then Some(c.value.value) else None))
    case CallDel(k) => (Put(t, k, None), Count(if Look(t, k, now).Some? then 1 else 0))
    case CallIncrBy(k, delta) =>
      var w := IncrCell(l, k, Look(t, k, now), delta as int);
      (StoreIf(t, k, w), AnswerOf(w))
    case CallAppend(k, suffix) =>
      var w := AppendCell(l, k, Look(t, k, now), suffix);
      (StoreIf(t, k, w), AnswerOf(w))
    case CallExpire(k, ttl) =>
      var c := ExpireCell(Look(t, k, now), ttl, now);
      (ChangeIf(t, k, c), Flag(c.Some?))
    case CallExpireAt(k, when) =>
      var c := ExpireAtCell(Look(t, k, now), when, now);
      (ChangeIf(t, k, c), Flag(c.Some?))
    case CallTtl(k) => (t, TimeLeft(TtlOf(Look(t, k, now), now)))
    case CallPersist(k) =>
      var c := PersistCell(Look(t, k, now));
      (ChangeIf(t, k, c), Flag(c.Some?))
    case CallDbSize => (t, Count(|LiveKeys(t, now)|))
    case CallExpiresCount => (t, Count(|ExpiringKeys(t, now)|))
    case CallFlush => (map[], Done)
    case CallActiveExpire(_) => (t, Done)
    case CallSnapshot => (t, Listing(|LiveKeys(t, now)|, LiveTable(t, now)))
  }

  /** The plain table cannot tell apart tables that read the same. */
  lemma FlatCongruent(l: Limits, t: Table, u: Table, now: int, call: Call)
    requires Same(t, u, now)
    ensures FlatStep(l, t, now, call).1 == FlatStep(l, u, now, call).1
    ensures Same(FlatStep(l, t, now, call).0, FlatStep(l, u, now, call).0, now)
  {
    SameKeys(t, u, now);
    LiveAlike(t, u, now);
    if call.CallFlush? || call.CallActiveExpire? || call.CallSnapshot? || call.CallDbSize? || call.CallExpiresCount? {
    } else {
      hide SetCell, IncrCell, AppendCell, ExpireCell, ExpireAtCell, PersistCell, TtlOf, LiveKeys, ExpiringKeys, Put;
      var k := call.key;
      assert Look(t, k, now) == Look(u, k, now);
      forall c: Cell
        ensures Same(Put(t, k, c), Put(u, k, c), now)
      {
        PutSame(t, u, k, c, c, now);
      }
    }
  }

  const OUT_OF_MEMORY := Wrote(NoMemory, 0)

  /** The write the plain table would make for a call, if it is a write of a value. */
  function WriteOf(l: Limits, t: Table, now: int, call: Call): Option<Written> {
    match call
    case CallSet(k, v, ttl, cond) => Some(SetCell(l, k, Look(t, k, now), v, Deadline(ttl, now), cond))
    case CallIncrBy(k, delta) => Some(IncrCell(l, k, Look(t, k, now), delta as int))
    case CallAppend(k, suffix) => Some(AppendCell(l, k, Look(t, k, now), suffix))
    case _ => None
  }

  /** The call would store a value and make the stored table, expired entries included, exceed the limit. */
  ghost predicate Overfull(l: Limits, limit: nat, t: Table, now: int, call: Call) {
    var w := WriteOf(l, t, now, call);
    w.Some? && w.value.code.Stored? && !Affordable(limit, Put(t, call.key, w.value.cell))
  }

  lemma FlatNeverRefuses(l: Limits, t: Table, now: int, call: Call)
    ensures FlatStep(l, t, now, call).1 != OUT_OF_MEMORY
  {
    hide ParseI64Exact, IntText, LiveKeys, ExpiringKeys;
  }

  /** A sampling sweep, and only that, answers by how many entries it erased. */
  predicate SweepCounted(call: Call, before: Table, after: Table, answer: Answer) {
    if call.CallActiveExpire? then answer.Erased? && answer.n + |after| == |before| else !answer.Erased?
  }

  /** What the engine did against what the plain table does. */
  ghost predicate Performed(l: Limits, limit: nat, before: Table, after: Table, now: int, call: Call, answer: Answer) {
    var flat := FlatStep(l, before, now, call);
    if Overfull(l, limit, before, now, call) then answer == OUT_OF_MEMORY && Same(after, before, now)
    else Seen(answer) == flat.1 && Same(after, flat.0, now) && SweepCounted(call, before, after, answer)
  }

  /** A write of a value, as the engine stores it. */
  lemma WritePerformed(l: Limits, limit: nat, t: Table, now: int, call: Call, r: (Table, WriteCode))
    requires var w := WriteOf(l, t, now, call);
             w.Some? && (r == StoreWithin(limit, Purged(t, call.key, now), call.key, w.value) || (r == (t, w.value.code) && !r.1.Stored?))
    ensures r.1.Stored? ==> !Overfull(l, limit, t, now, call) && WriteOf(l, t, now, call).value.code.Stored?
    ensures Performed(l, limit, t, r.0, now, call,
                      Wrote(r.1, if r.1.Stored? then WriteOf(l, t, now, call).value.integer else 0))
  {
    hide SetCell, IncrCell, AppendCell, Bytes, Purged, LiveKeys, ExpiringKeys, LiveTable, ExpireCell, ExpireAtCell, PersistCell, TtlOf;
    var k, w := call.key, WriteOf(l, t, now, call).value;
    PurgedSame(t, k, now);
    PurgedPut(t, k, now, w.cell);
  }

  lemma PurgedPerformed(l: Limits, limit: nat, t: Table, now: int, call: Call)
    ensures Same(if call.CallGet? || call.CallTtl? || call.CallExpire? || call.CallExpireAt? || call.CallPersist?
                 then Purged(t, call.key, now) else t, t, now)
    ensures Same(LiveTable(t, now), t, now)
  {
    LiveSame(t, now);
    if call.CallGet? || call.CallTtl? || call.CallExpire? || call.CallExpireAt? || call.CallPersist? {
      PurgedSame(t, call.key, now);
    }
  }

  /** One call on the engine: refused for memory exactly when it would overfill the table, otherwise
      answered like the plain table. */
  method Perform(engine: StorageEngine, call: Call, now: int) returns (answer: Answer)
    requires engine.Valid()
    modifies engine
    ensures engine.Valid()
    ensures Performed(engine.limits, engine.maxMemory, old(engine.table), engine.table, now, call, answer)
    ensures answer == OUT_OF_MEMORY <==> Overfull(engine.limits, engine.maxMemory, old(engine.table), now, call)
  {
    hide FlatStep, Overfull, Sized, Represents, Ledger;
    FlatNeverRefuses(engine.limits, engine.table, now, call);
    answer := Run(engine, call, now);
  }

  method Run(engine: StorageEngine, call: Call, now: int) returns (answer: Answer)
    requires engine.Valid()
    modifies engine
    ensures engine.Valid()
    ensures Performed(engine.limits, engine.maxMemory, old(engine.table), engine.table, now, call, answer)
  {
    hide Sized, Represents, Ledger, LiveKeys, ExpiringKeys, Put, SetCell, IncrCell, AppendCell, ExpireCell, ExpireAtCell, PersistCell, Purged, LiveTable, Affordable, StoreWithin, Performed;
    ghost var t := engine.table;
    match call
    case CallSet(k, v, ttl, cond) =>
      var code := engine.Set(k, v, ttl, cond, now);
      answer := Wrote(code, 0);
      SetAnswersZero(engine.limits, k, Look(t, k, now), v, Deadline(ttl, now), cond);
      WritePerformed(engine.limits, engine.maxMemory, t, now, call, (engine.table, code));
    case CallIncrBy(k, delta) =>
      var code, n := engine.IncrBy(k, delta, now);
      answer := Wrote(code, if code.Stored? then n as int else 0);
      IncrRefused(engine.limits, k, Look(t, k, now), delta as int);
      WritePerformed(engine.limits, engine.maxMemory, t, now, call, (engine.table, code));
    case CallAppend(k, suffix) =>
      var code, n := engine.Append(k, suffix, now);
      answer := Wrote(code, if code.Stored? then n else 0);
      AppendRefused(engine.limits, k, Look(t, k, now), suffix);
      WritePerformed(engine.limits, engine.maxMemory, t, now, call, (engine.table, code));
    case _ =>
      answer := RunOther(engine, call, now);
  }

  /** The calls that store no value. */
  method RunOther(engine: StorageEngine, call: Call, now: int) returns (answer: Answer)
    requires engine.Valid() && !call.CallSet? && !call.CallIncrBy? && !call.CallAppend?
    modifies engine
    ensures engine.Valid()
    ensures Performed(engine.limits, engine.maxMemory, old(engine.table), engine.table, now, call, answer)
  {
    hide Sized, Represents, Ledger, LiveKeys, ExpiringKeys, Put, ExpireCell, ExpireAtCell, PersistCell, Purged, LiveTable, Look, TtlOf, Lists, OnceEach, ItemsMemory, Bytes, Listed, RowCount;
    PurgedPerformed(engine.limits, engine.maxMemory, engine.table, now, call);
    match call
    case CallGet(k) =>
      var value := engine.Get(k, now);
      answer := Value(value);
    case CallDel(k) =>
      var deleted := engine.Del(k, now);
      answer := Count(deleted);
    case CallExpire(k, ttl) =>
      var changed := engine.Expire(k, ttl, now);
      answer := Flag(changed);
    case CallExpireAt(k, when) =>
      var changed := engine.ExpireAt(k, when, now);
      answer := Flag(changed);
    case CallTtl(k) =>
      var ttl := engine.TimeToLive(k, now);
      answer := TimeLeft(ttl);
    case CallPersist(k) =>
      var changed := engine.Persist(k, now);
      answer := Flag(changed);
    case CallDbSize =>
      var n := engine.DbSize(now);
      answer := Count(n);
    case CallExpiresCount =>
      var n := engine.ExpiresCount(now);
      answer := Count(n);
    case CallFlush =>
      engine.FlushDb();
      answer := Done;
    case CallActiveExpire(size) =>
      var expired := engine.ActiveExpire(size, now);
      answer := Erased(expired);
    case CallSnapshot =>
      ghost var t := engine.table;
      var items := engine.Snapshot(now);
      answer := Listing(|items|, Listed(items));
      ListingIsLive(items, t, now);
  }

  /** A listing without repetitions is the live table, up to order. */
  lemma ListingIsLive(items: seq<Item>, t: Table, now: int)
    requires Lists(items, t, now) && OnceEach(items)
    ensures Listed(items) == LiveTable(t, now) && |items| == |LiveKeys(t, now)|
  {
    hide LiveTable, LiveKeys, Listed;
    ListedCells(items);
    forall k
      ensures Store.Get(Listed(items), k) == Store.Get(LiveTable(t, now), k)
    {
      LiveCell(t, k, now);
      ListedLive(items, t, k, now);
    }
    SameMaps(Listed(items), LiveTable(t, now));
    LiveCount(t, now);
  }

  lemma ListedLive(items: seq<Item>, t: Table, k: string, now: int)
    requires Lists(items, t, now) && forall k | k in Listed(items) :: exists p :: 0 <= p < |items| && items[p].key == k && Store.Get(Listed(items), k) == ItemCell(items[p])
    ensures Store.Get(Listed(items), k) == Look(t, k, now)
  {
    hide Listed;
    assert Look(Listed(items), k, now) == Look(t, k, now);
    if k in Listed(items) {
      var p :| 0 <= p < |items| && items[p].key == k && Store.Get(Listed(items), k) == ItemCell(items[p]);
      assert items[p] in items;
    }
  }

  lemma LiveCell(t: Table, k: string, now: int)
    ensures Store.Get(LiveTable(t, now), k) == Look(t, k, now)
  {
  }

  lemma LiveCount(t: Table, now: int)
    ensures |LiveTable(t, now)| == |LiveKeys(t, now)|
  {
    var live := LiveTable(t, now);
    assert live.Keys == LiveKeys(t, now);
    assert |live| == |live.Keys|;
  }

  lemma {:induction false} ListedCells(items: seq<Item>)
    requires OnceEach(items)
    ensures |Listed(items)| == |items|
    ensures forall k | k in Listed(items) :: exists p :: 0 <= p < |items| && items[p].key == k && Store.Get(Listed(items), k) == ItemCell(items[p])
  {
    if items != [] {
      var n := |items| - 1;
      var front, last := items[..n], items[n];
      ListedCells(front);
      assert last.key !in Listed(front);
      assert Listed(items) == Listed(front)[last.key := Entry(last.value, last.expiry)];
      forall k | k in Listed(items)
        ensures exists p :: 0 <= p < |items| && items[p].key == k && Store.Get(Listed(items), k) == ItemCell(items[p])
      {
        if k == last.key {
          assert items[n].key == k;
        } else {
          var p :| 0 <= p < |front| && front[p].key == k && Store.Get(Listed(front), k) == ItemCell(front[p]);
          assert items[p] == front[p];
        }
      }
    }
  }

  lemma SetAnswersZero(l: Limits, k: string, c: Cell, v: string, expiry: Option<int>, cond: Condition)
    ensures SetCell(l, k, c, v, expiry, cond).integer == 0
    ensures |k| > l.maxKey || |v| > l.maxValue ==> !SetCell(l, k, c, v, expiry, cond).code.Stored?
  {
  }

  lemma IncrRefused(l: Limits, k: string, c: Cell, delta: int)
    ensures |k| > l.maxKey ==> !IncrCell(l, k, c, delta).code.Stored?
  {
  }

  lemma AppendRefused(l: Limits, k: string, c: Cell, suffix: string)
    ensures |k| > l.maxKey ==> !AppendCell(l, k, c, suffix).code.Stored?
  {
  }

  datatype TimedCall = TimedCall(call: Call, now: int)

  /** What the plain table answers to a sequence of calls. */
  function FlatRun(l: Limits, t: Table, calls: seq<TimedCall>): (Table, seq<Answer>) {
    if calls == [] then (t, [])
    else
      var front, last := FlatRun(l, t, calls[..|calls| - 1]), calls[|calls| - 1];
      var step := FlatStep(l, front.0, last.now, last.call);
      (step.0, front.1 + [step.1])
  }

  predicate Monotone(calls: seq<TimedCall>) {
    forall i, j | 0 <= i < j < |calls| :: calls[i].now <= calls[j].now
  }

  /** The calls that were not refused for lack of memory. */
  function Accepted(calls: seq<TimedCall>, answers: seq<Answer>): seq<TimedCall>
    requires |calls| == |answers|
  {
    if calls == [] then []
    else
      var n := |calls| - 1;
      var front := Accepted(calls[..n], answers[..n]);
      if answers[n] == OUT_OF_MEMORY then front else front + [calls[n]]
  }

  /** Their answers, as far as the plain table can give them. */
  function AcceptedAnswers(answers: seq<Answer>): seq<Answer> {
    if answers == [] then []
    else
      var n := |answers| - 1;
      var front := AcceptedAnswers(answers[..n]);
      if answers[n] == OUT_OF_MEMORY then front else front + [Seen(answers[n])]
  }

  /** One more call, refused or answered. */
  lemma AcceptedNext(l: Limits, t: Table, calls: seq<TimedCall>, answers: seq<Answer>, call: TimedCall, answer: Answer)
    requires |calls| == |answers|
    ensures var run, more := FlatRun(l, t, Accepted(calls, answers)), FlatRun(l, t, Accepted(calls + [call], answers + [answer]));
            && AcceptedAnswers(answers + [answer]) == (if answer == OUT_OF_MEMORY then AcceptedAnswers(answers) else AcceptedAnswers(answers) + [Seen(answer)])
            && if answer == OUT_OF_MEMORY then more == run
               else var step := FlatStep(l, run.0, call.now, call.call); more == (step.0, run.1 + [step.1])
  {
    hide FlatStep;
    var n := |calls|;
    assert (calls + [call])[..n] == calls && (answers + [answer])[..n] == answers;
    var front := Accepted(calls, answers);
    assert (front + [call])[..|front|] == front;
  }

  /** Any sequence of calls under a monotone clock, for any hash, shard count and memory limit. The calls
      not refused for memory are answered exactly as one plain table answers them, and leave a table that
      reads like it. `tables` are the tables stored before each call and after the last: each reads like the
      plain one, a call is refused exactly when it would overfill the one it finds, and a sampling sweep
      answers by how many entries the next has less. With no limit no call is refused. */
  method ServeAll(engine: StorageEngine, calls: seq<TimedCall>) returns (answers: seq<Answer>, ghost tables: seq<Table>)
    requires engine.Valid() && Monotone(calls)
    modifies engine
    ensures engine.Valid() && |answers| == |calls| && |tables| == |calls| + 1
    ensures tables[0] == old(engine.table) && tables[|calls|] == engine.table
    ensures FlatRun(engine.limits, old(engine.table), Accepted(calls, answers)).1 == AcceptedAnswers(answers)
    ensures calls != [] ==>
              Same(engine.table, FlatRun(engine.limits, old(engine.table), Accepted(calls, answers)).0, calls[|calls| - 1].now)
    ensures forall i | 0 <= i < |calls| ::
              && Same(tables[i], FlatRun(engine.limits, old(engine.table), Accepted(calls[..i], answers[..i])).0, calls[i].now)
              && (answers[i] == OUT_OF_MEMORY <==>
                  Overfull(engine.limits, engine.maxMemory, tables[i], calls[i].now, calls[i].call))
              && SweepCounted(calls[i].call, tables[i], tables[i + 1], answers[i])
    ensures engine.maxMemory == 0 ==> OUT_OF_MEMORY !in answers
  {
    hide Sized, Represents, Ledger, FlatStep, Accepted, FlatRun, AcceptedAnswers, Overfull, SweepCounted, Performed;
    answers, tables := [], [engine.table];
    ghost var l, start, flat := engine.limits, engine.table, engine.table;
    NothingYet(l, start);
    for i := 0 to |calls|
      invariant engine.Valid() && |answers| == i && |tables| == i + 1 && tables[0] == start && tables[i] == engine.table
      invariant FlatRun(l, start, Accepted(calls[..i], answers)) == (flat, AcceptedAnswers(answers))
      invariant if i == 0 then flat == engine.table else Same(engine.table, flat, calls[i - 1].now)
      invariant forall j | 0 <= j < i ::
                  && Same(tables[j], FlatRun(l, start, Accepted(calls[..j], answers[..j])).0, calls[j].now)
                  && (answers[j] == OUT_OF_MEMORY <==> Overfull(l, engine.maxMemory, tables[j], calls[j].now, calls[j].call))
                  && SweepCounted(calls[j].call, tables[j], tables[j + 1], answers[j])
      invariant engine.maxMemory == 0 ==> OUT_OF_MEMORY !in answers
    {
      var now := calls[i].now;
      if i > 0 {
        SameLater(engine.table, flat, calls[i - 1].now, now);
      }
      FlatCongruent(l, engine.table, flat, now, calls[i].call);
      ghost var before, step := engine.table, FlatStep(l, engine.table, now, calls[i].call).0;
      UnlimitedNeverOverfull(l, before, now, calls[i].call);
      var answer := Perform(engine, calls[i].call, now);
      Outcome(l, engine.maxMemory, before, engine.table, now, calls[i].call, answer);
      AcceptedNext(l, start, calls[..i], answers, calls[i], answer);
      assert calls[..i + 1] == calls[..i] + [calls[i]];
      assert forall j | 0 <= j <= i :: (answers + [answer])[..j] == answers[..j];
      assert answers[..i] == answers;
      if answer == OUT_OF_MEMORY {
        SameTrans(engine.table, before, flat, now);
      } else {
        flat := FlatStep(l, flat, now, calls[i].call).0;
        SameTrans(engine.table, step, flat, now);
      }
      answers, tables := answers + [answer], tables + [engine.table];
    }
    assert calls[..|calls|] == calls;
  }

  lemma Outcome(l: Limits, limit: nat, before: Table, after: Table, now: int, call: Call, answer: Answer)
    requires Performed(l, limit, before, after, now, call, answer)
    requires answer == OUT_OF_MEMORY <==> Overfull(l, limit, before, now, call)
    ensures SweepCounted(call, before, after, answer)
    ensures if answer == OUT_OF_MEMORY then Same(after, before, now)
            else var flat := FlatStep(l, before, now, call); Seen(answer) == flat.1 && Same(after, flat.0, now)
  {
    hide FlatStep;
  }

  lemma NothingYet(l: Limits, t: Table)
    ensures FlatRun(l, t, Accepted([], [])) == (t, []) && AcceptedAnswers([]) == []
  {
  }

  lemma UnlimitedNeverOverfull(l: Limits, t: Table, now: int, call: Call)
    ensures !Overfull(l, 0, t, now, call)
  {
    hide WriteOf;
  }

  /** Under a limit the sweeps are observable after all: a SET refused beside an expired entry that nobody
      has swept is accepted once DBSIZE has swept it, although both tables read the same. */
  lemma SweepMakesRoom(l: Limits, key: string, value: string)
    requires key != "a" && |key| <= l.maxKey && |value| <= l.maxValue && 1 <= |value|
    ensures var limit := EntryMemory("a", "") + EntryMemory(key, value) - 1;
            var t: Table, call := map["a" := Entry("", Some(1))], CallSet(key, value, None, Always);
            && Affordable(limit, t) && Same(t, LiveTable(t, 2), 2)
            && Overfull(l, limit, t, 2, call) && !Overfull(l, limit, LiveTable(t, 2), 2, call)
  {
    var t: Table := map["a" := Entry("", Some(1))];
    var c := Some(Entry(value, None));
    hide Bytes;
    LiveSame(t, 2);
    NoBytes();
    assert LiveTable(t, 2) == map[];
    assert t - {"a"} == map[];
    BytesErase(t, "a");
    BytesPut(t, key, c);
    BytesPut(map[], key, c);
  }
}
