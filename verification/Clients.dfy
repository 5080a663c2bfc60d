/** What the commands on one key mean to clients: from the names as they are typed, and in terms of what
    readers see at which times. */
module Clients {
  import opened Wrappers
  import opened Decimal
  import opened Text
  import opened Store
  import opened Commands
  import opened Replay

  // --- Names ----------------------------------------------------------------------------------

  lemma WriteNames()
    ensures VerbOf("SET") == SET && VerbOf("DEL") == DEL && VerbOf("MSET") == MSET
    ensures VerbOf("INCR") == INCR && VerbOf("DECR") == DECR && VerbOf("APPEND") == APPEND
    ensures VerbOf("EXPIRE") == EXPIRE && VerbOf("PEXPIRE") == PEXPIRE && VerbOf("PEXPIREAT") == PEXPIREAT
    ensures VerbOf("PERSIST") == PERSIST && VerbOf("FLUSHDB") == FLUSHDB
  {
    hide VerbOf;
    ValueNames();
    ExpiryNames();
  }

  lemma ValueNames()
    ensures VerbOf("SET") == SET && VerbOf("DEL") == DEL && VerbOf("MSET") == MSET
    ensures VerbOf("INCR") == INCR && VerbOf("DECR") == DECR && VerbOf("APPEND") == APPEND
  {
    UpperIdentity("SET");
    UpperIdentity("DEL");
    UpperIdentity("MSET");
    UpperIdentity("INCR");
    UpperIdentity("DECR");
    UpperIdentity("APPEND");
    hide Upper;
  }

  lemma ExpiryNames()
    ensures VerbOf("EXPIRE") == EXPIRE && VerbOf("PEXPIRE") == PEXPIRE && VerbOf("PEXPIREAT") == PEXPIREAT
    ensures VerbOf("PERSIST") == PERSIST && VerbOf("FLUSHDB") == FLUSHDB
  {
    UpperIdentity("EXPIRE");
    UpperIdentity("PEXPIRE");
    UpperIdentity("PEXPIREAT");
    UpperIdentity("PERSIST");
    UpperIdentity("FLUSHDB");
    hide Upper;
  }

  lemma ReadNames()
    ensures VerbOf("PING") == READ(PING) && VerbOf("ECHO") == READ(ECHO) && VerbOf("GET") == READ(GET)
    ensures VerbOf("STRLEN") == READ(STRLEN) && VerbOf("EXISTS") == READ(EXISTS) && VerbOf("MGET") == READ(MGET)
    ensures VerbOf("TTL") == READ(TTL) && VerbOf("PTTL") == READ(PTTL) && VerbOf("DBSIZE") == READ(DBSIZE)
  {
    hide VerbOf;
    TextNames();
    KeyNames();
    TimeNames();
  }

  lemma TextNames()
    ensures VerbOf("PING") == READ(PING) && VerbOf("ECHO") == READ(ECHO) && VerbOf("GET") == READ(GET)
  {
    UpperIdentity("PING");
    UpperIdentity("ECHO");
    UpperIdentity("GET");
    hide Upper;
  }

  lemma KeyNames()
    ensures VerbOf("STRLEN") == READ(STRLEN) && VerbOf("EXISTS") == READ(EXISTS) && VerbOf("MGET") == READ(MGET)
  {
    UpperIdentity("STRLEN");
    UpperIdentity("EXISTS");
    UpperIdentity("MGET");
    hide Upper;
  }

  lemma TimeNames()
    ensures VerbOf("TTL") == READ(TTL) && VerbOf("PTTL") == READ(PTTL) && VerbOf("DBSIZE") == READ(DBSIZE)
  {
    UpperIdentity("TTL");
    UpperIdentity("PTTL");
    UpperIdentity("DBSIZE");
    hide Upper;
  }

  lemma OptionNames()
    ensures OptionOf("NX") == NxOption && OptionOf("XX") == XxOption
    ensures OptionOf("EX") == TimeOption(EX) && OptionOf("PX") == TimeOption(PX)
    ensures OptionOf("EXAT") == TimeOption(EXAT) && OptionOf("PXAT") == TimeOption(PXAT)
  {
    UpperIdentity("NX");
    UpperIdentity("XX");
    UpperIdentity("EX");
    UpperIdentity("PX");
    UpperIdentity("EXAT");
    UpperIdentity("PXAT");
  }

  /** A command on one key, executed. */
  lemma Keyed(l: Limits, t: Table, now: int, args: seq<string>)
    requires |args| >= 2 && IsKeyed(VerbOf(args[0]))
    ensures var e := ExecCell(l, Look(t, args[1], now), now, args);
            Exec(l, t, now, args) == Effect(if e.record.Some? then Put(t, args[1], e.cell) else t, e.reply, e.record)
  {
    hide VerbOf, ExecCell;
    assert Exec(l, t, now, args) == ExecKeyed(l, t, now, args);
  }

  // --- What a reader sees ---------------------------------------------------------------------

  /** A GET at that time answers with a value. */
  predicate Sees(l: Limits, t: Table, k: string, at: int) {
    Exec(l, t, at, ["GET", k]).reply.Text?
  }

  /** GET answers with the value readers see, or nil; it logs and changes nothing. */
  lemma GetExact(l: Limits, t: Table, k: string, at: int)
    ensures var c := Look(t, k, at);
            Exec(l, t, at, ["GET", k]) == Effect(t, if c.Some? then Text(c.value.value) else Nil, None)
    ensures Sees(l, t, k, at) <==> Look(t, k, at).Some?
  {
    ReadNames();
    hide VerbOf;
  }

  /** Every other key reads as before, at every time. */
  ghost predicate OnlyTouches(t: Table, u: Table, k: string) {
    forall j, at | j != k :: Look(u, j, at) == Look(t, j, at)
  }

  lemma PutTouches(t: Table, k: string, c: Cell)
    ensures OnlyTouches(t, Put(t, k, c), k)
  {
  }

  // --- SET ------------------------------------------------------------------------------------

  /** A plain SET: refused for its sizes and only for them; otherwise every later GET answers the value, for
      ever, and no other key is touched. */
  lemma SetThenGet(l: Limits, t: Table, now: int, k: string, v: string, at: int)
    ensures var e := Exec(l, t, now, ["SET", k, v]);
            if |k| > l.maxKey then e == Effect(t, Failed(Storage(KeyTooLarge)), None)
            else if |v| > l.maxValue then e == Effect(t, Failed(Storage(ValueTooLarge)), None)
            else
              && e.reply == OkReply && e.record == Some(["SET", k, v])
              && Exec(l, e.table, at, ["GET", k]).reply == Text(v) && Exec(l, e.table, at, ["PTTL", k]).reply == Number(-1)
              && OnlyTouches(t, e.table, k)
  {
    WriteNames();
    ReadNames();
    hide VerbOf;
    assert SetPlan(["SET", k, v]) == Ok(NO_OPTIONS);
    Keyed(l, t, now, ["SET", k, v]);
    PutTouches(t, k, Some(Entry(v, None)));
  }

  lemma ConditionPlan(k: string, v: string)
    ensures SetPlan(["SET", k, v]) == Ok(NO_OPTIONS)
    ensures SetPlan(["SET", k, v, "NX"]) == Ok(NO_OPTIONS.(cond := NX))
    ensures SetPlan(["SET", k, v, "XX"]) == Ok(NO_OPTIONS.(cond := XX))
  {
    OptionNames();
    hide OptionOf;
    assert SetOptions(["SET", k, v, "NX"], 4, NO_OPTIONS.(cond := NX)) == Ok(NO_OPTIONS.(cond := NX));
    assert SetOptions(["SET", k, v, "XX"], 4, NO_OPTIONS.(cond := XX)) == Ok(NO_OPTIONS.(cond := XX));
  }

  /** SET with NX does what SET does if and only if readers do not see the key, and with XX if and only if
      they do; otherwise it answers nil and neither changes nor logs anything. */
  lemma ConditionExact(l: Limits, t: Table, now: int, k: string, v: string)
    requires |k| <= l.maxKey && |v| <= l.maxValue
    ensures var plain, seen := Exec(l, t, now, ["SET", k, v]), Sees(l, t, k, now);
            && Exec(l, t, now, ["SET", k, v, "NX"]) == (if seen then Effect(t, Nil, None) else plain)
            && Exec(l, t, now, ["SET", k, v, "XX"]) == (if seen then plain else Effect(t, Nil, None))
            && plain.reply == OkReply && plain.record.Some? && plain.table == Put(t, k, Some(Entry(v, None)))
  {
    hide Exec;
    GetExact(l, t, k, now);
    WriteNames();
    ConditionPlan(k, v);
    hide VerbOf, SetPlan;
    Keyed(l, t, now, ["SET", k, v]);
    Keyed(l, t, now, ["SET", k, v, "NX"]);
    Keyed(l, t, now, ["SET", k, v, "XX"]);
  }

  /** The table after requests made one after another. */
  function TableAfter(l: Limits, t: Table, requests: seq<Request>): Table {
    if requests == [] then t
    else
      var last := requests[|requests| - 1];
      Exec(l, TableAfter(l, t, requests[..|requests| - 1]), last.now, last.args).table
  }

  /** At the clock reading of every request, from the i-th on, readers saw the key. */
  ghost predicate SeenThroughout(l: Limits, t: Table, requests: seq<Request>, i: nat, k: string) {
    forall j | i <= j < |requests| :: Sees(l, TableAfter(l, t, requests[..j]), k, requests[j].now)
  }

  /** Mutual exclusion by SET NX: over any run, once an NX on a key has been accepted, every later NX on it
      answers nil, as long as readers see the key at that moment; so two accepted ones have a moment between
      them, the second at the latest, at which readers do not see it. */
  lemma OnlyOneWins(l: Limits, t: Table, requests: seq<Request>, i: nat, j: nat, k: string, v: string, w: string)
    requires i < j < |requests| && |k| <= l.maxKey && |v| <= l.maxValue && |w| <= l.maxValue
    requires requests[i].args == ["SET", k, v, "NX"] && requests[j].args == ["SET", k, w, "NX"]
    requires Exec(l, TableAfter(l, t, requests[..i]), requests[i].now, requests[i].args).reply == OkReply
    ensures Sees(l, TableAfter(l, t, requests[..i + 1]), k, requests[i].now)
    ensures SeenThroughout(l, t, requests, i + 1, k) ==>
              Exec(l, TableAfter(l, t, requests[..j]), requests[j].now, requests[j].args).reply == Nil
    ensures Exec(l, TableAfter(l, t, requests[..j]), requests[j].now, requests[j].args).reply == OkReply ==>
              !Sees(l, TableAfter(l, t, requests[..j]), k, requests[j].now)
  {
    hide Exec, Sees;
    var before, after := TableAfter(l, t, requests[..i]), TableAfter(l, t, requests[..i + 1]);
    assert requests[..i + 1][..i] == requests[..i];
    ConditionExact(l, before, requests[i].now, k, v);
    ConditionExact(l, TableAfter(l, t, requests[..j]), requests[j].now, k, w);
    GetExact(l, after, k, requests[i].now);
    LookPut(before, k, Some(Entry(v, None)), k, requests[i].now);
  }

  // --- SET with a time ------------------------------------------------------------------------

  lemma TimePlan(k: string, v: string, unit: string, n: int)
    requires InI64(n) && OptionOf(unit).TimeOption?
    ensures SetPlan(["SET", k, v, unit, IntText(n)]) == TimeStep(NO_OPTIONS, OptionOf(unit).unit, IntText(n))
  {
    hide OptionOf, TimeStep, IntText;
    var args := ["SET", k, v, unit, IntText(n)];
    var step := TimeStep(NO_OPTIONS, OptionOf(unit).unit, IntText(n));
    if step.Ok? { assert SetOptions(args, 5, step.value) == step; }
  }

  /** SET with PXAT: the value until that time, and nothing from then on; a time that is not positive is
      refused. */
  lemma SetUntil(l: Limits, t: Table, now: int, k: string, v: string, when: int, at: int)
    requires |k| <= l.maxKey && |v| <= l.maxValue && InI64(when)
    ensures var e := Exec(l, t, now, ["SET", k, v, "PXAT", IntText(when)]);
            if when <= 0 then e == Effect(t, Failed(InvalidExpire), None)
            else
              && e.reply == OkReply && OnlyTouches(t, e.table, k)
              && Exec(l, e.table, at, ["GET", k]).reply == (if at < when then Text(v) else Nil)
  {
    hide Exec, VerbOf, SetPlan, OptionOf, IntText, ParseI64;
    WriteNames();
    OptionNames();
    TimePlan(k, v, "PXAT", when);
    I64ArgRoundTrip(when);
    Keyed(l, t, now, ["SET", k, v, "PXAT", IntText(when)]);
    PutTouches(t, k, Some(Entry(v, Some(when))));
    GetExact(l, Exec(l, t, now, ["SET", k, v, "PXAT", IntText(when)]).table, k, at);
  }

  /** Seconds are a thousand milliseconds, relative or absolute; and a relative time counts from now. */
  lemma SetTimeUnits(l: Limits, t: Table, now: int, k: string, v: string, n: int)
    requires 0 < n && InI64(1000 * n) && InI64(now + n) && 0 < now + n
    ensures Exec(l, t, now, ["SET", k, v, "EX", IntText(n)]) == Exec(l, t, now, ["SET", k, v, "PX", IntText(1000 * n)])
    ensures Exec(l, t, now, ["SET", k, v, "EXAT", IntText(n)]) == Exec(l, t, now, ["SET", k, v, "PXAT", IntText(1000 * n)])
    ensures Exec(l, t, now, ["SET", k, v, "PX", IntText(n)]) == Exec(l, t, now, ["SET", k, v, "PXAT", IntText(now + n)])
  {
    hide Exec, VerbOf, OptionOf, TimeStep;
    WriteNames();
    OptionNames();
    TimeSteps(now, n);
    SetAlike(l, t, now, k, v, "EX", n, "PX", 1000 * n);
    SetAlike(l, t, now, k, v, "EXAT", n, "PXAT", 1000 * n);
    SetAlike(l, t, now, k, v, "PX", n, "PXAT", now + n);
  }

  lemma TimeSteps(now: int, n: int)
    requires 0 < n && InI64(1000 * n) && InI64(now + n) && 0 < now + n
    ensures TimeStep(NO_OPTIONS, EX, IntText(n)) == TimeStep(NO_OPTIONS, PX, IntText(1000 * n)) == Ok(Plan(Always, Some(1000 * n), None))
    ensures TimeStep(NO_OPTIONS, EXAT, IntText(n)) == TimeStep(NO_OPTIONS, PXAT, IntText(1000 * n)) == Ok(Plan(Always, None, Some(1000 * n)))
    ensures TimeStep(NO_OPTIONS, PX, IntText(n)) == Ok(Plan(Always, Some(n), None))
    ensures TimeStep(NO_OPTIONS, PXAT, IntText(now + n)) == Ok(Plan(Always, None, Some(now + n)))
  {
    hide IntText, ParseI64, TtlArg;
    UnitsAgree(n);
    I64ArgRoundTrip(now + n);
  }

  lemma UnitsAgree(n: int)
    requires 0 < n && InI64(1000 * n)
    ensures TtlArg(IntText(n), 1000) == TtlArg(IntText(1000 * n), 1) == Some(1000 * n) && TtlArg(IntText(n), 1) == Some(n)
    ensures ParseI64(IntText(n)) == Some(n) && ParseI64(IntText(1000 * n)) == Some(1000 * n)
  {
    hide ParseI64, IntText;
    I64ArgRoundTrip(n);
    I64ArgRoundTrip(1000 * n);
  }

  lemma SetAlike(l: Limits, t: Table, now: int, k: string, v: string, unit: string, n: int, unit': string, n': int)
    requires InI64(n) && InI64(n')
    requires OptionOf(unit).TimeOption? && OptionOf(unit').TimeOption? && VerbOf("SET") == SET
    requires var p, q := TimeStep(NO_OPTIONS, OptionOf(unit).unit, IntText(n)), TimeStep(NO_OPTIONS, OptionOf(unit').unit, IntText(n'));
             p.Ok? && q.Ok? && PlanExpiry(p.value, now) == PlanExpiry(q.value, now) && p.value.cond == q.value.cond
    ensures Exec(l, t, now, ["SET", k, v, unit, IntText(n)]) == Exec(l, t, now, ["SET", k, v, unit', IntText(n')])
  {
    TimePlan(k, v, unit, n);
    TimePlan(k, v, unit', n');
    hide Exec, VerbOf, SetPlan, OptionOf, IntText, TimeStep;
    Keyed(l, t, now, ["SET", k, v, unit, IntText(n)]);
    Keyed(l, t, now, ["SET", k, v, unit', IntText(n')]);
  }

  // --- EXPIRE, PEXPIRE, PEXPIREAT and PERSIST -------------------------------------------------

  /** PEXPIREAT: a key that is seen keeps its value until that time and is gone from then on; one that is
      not seen answers 0 and nothing happens. */
  lemma ExpireAtExact(l: Limits, t: Table, now: int, k: string, when: int, at: int)
    requires InI64(when) && now <= at
    ensures var e, c := Exec(l, t, now, ["PEXPIREAT", k, IntText(when)]), Look(t, k, now);
            if c.None? then e == Effect(t, Number(0), None)
            else
              && e.reply == Number(1) && e.record == Some(["PEXPIREAT", k, IntText(when)]) && OnlyTouches(t, e.table, k)
              && Exec(l, e.table, at, ["GET", k]).reply == (if at < when then Text(c.value.value) else Nil)
  {
    hide Exec, VerbOf, IntText, ParseI64;
    WriteNames();
    I64ArgRoundTrip(when);
    var args := ["PEXPIREAT", k, IntText(when)];
    Keyed(l, t, now, args);
    PutTouches(t, k, ExecCell(l, Look(t, k, now), now, args).cell);
    GetExact(l, Exec(l, t, now, args).table, k, at);
  }

  /** A relative time is the absolute one counted from now, in table, answer and record. */
  lemma ExpireIsAbsolute(l: Limits, t: Table, now: int, k: string, n: int)
    requires InI64(n) && InI64(now + n)
    ensures Exec(l, t, now, ["PEXPIRE", k, IntText(n)]) == Exec(l, t, now, ["PEXPIREAT", k, IntText(now + n)])
  {
    hide Exec, VerbOf, IntText, ParseI64;
    WriteNames();
    I64ArgRoundTrip(n);
    I64ArgRoundTrip(now + n);
    Keyed(l, t, now, ["PEXPIRE", k, IntText(n)]);
    Keyed(l, t, now, ["PEXPIREAT", k, IntText(now + n)]);
  }

  /** A second is a thousand milliseconds. */
  lemma ExpireIsPexpire(l: Limits, t: Table, now: int, k: string, n: int)
    requires InI64(1000 * n)
    ensures Exec(l, t, now, ["EXPIRE", k, IntText(n)]) == Exec(l, t, now, ["PEXPIRE", k, IntText(1000 * n)])
  {
    hide Exec, VerbOf, IntText, ParseI64;
    WriteNames();
    I64ArgRoundTrip(n);
    I64ArgRoundTrip(1000 * n);
    Keyed(l, t, now, ["EXPIRE", k, IntText(n)]);
    Keyed(l, t, now, ["PEXPIRE", k, IntText(1000 * n)]);
  }

  /** After EXPIRE k n a reader sees k, with its value, at exactly the times before now + 1000 n. */
  lemma ExpireExact(l: Limits, t: Table, now: int, k: string, n: int, at: int)
    requires InI64(1000 * n) && InI64(now + 1000 * n) && now <= at && Sees(l, t, k, now)
    ensures var e := Exec(l, t, now, ["EXPIRE", k, IntText(n)]);
            && e.reply == Number(1) && OnlyTouches(t, e.table, k)
            && (Sees(l, e.table, k, at) <==> at < now + 1000 * n)
            && (at < now + 1000 * n ==> Exec(l, e.table, at, ["GET", k]).reply == Exec(l, t, now, ["GET", k]).reply)
  {
    hide Exec;
    ExpireIsPexpire(l, t, now, k, n);
    ExpireIsAbsolute(l, t, now, k, 1000 * n);
    GetExact(l, t, k, now);
    ExpireAtExact(l, t, now, k, now + 1000 * n, at);
  }

  /** PERSIST: a key that had a time answers 1 and is then seen, with its value, for ever; otherwise it
      answers 0 and nothing happens. */
  lemma PersistExact(l: Limits, t: Table, now: int, k: string, at: int)
    ensures var e, c := Exec(l, t, now, ["PERSIST", k]), Look(t, k, now);
            if c.None? || c.value.expiry.None? then e == Effect(t, Number(0), None)
            else
              && e.reply == Number(1) && e.record == Some(["PERSIST", k]) && OnlyTouches(t, e.table, k)
              && Exec(l, e.table, at, ["GET", k]).reply == Text(c.value.value)
  {
    hide Exec;
    WriteNames();
    hide VerbOf;
    Keyed(l, t, now, ["PERSIST", k]);
    PutTouches(t, k, ExecCell(l, Look(t, k, now), now, ["PERSIST", k]).cell);
    GetExact(l, Exec(l, t, now, ["PERSIST", k]).table, k, at);
  }

  // --- TTL and PTTL ---------------------------------------------------------------------------

  lemma TtlReplies(l: Limits, t: Table, now: int, k: string)
    ensures var ttl := TtlOf(Look(t, k, now), now);
            && Exec(l, t, now, ["PTTL", k]) == Effect(t, Number(TtlNumber(ttl, true)), None)
            && Exec(l, t, now, ["TTL", k]) == Effect(t, Number(TtlNumber(ttl, false)), None)
  {
    ReadNames();
    hide VerbOf;
  }

  /** Readers see the key from now on until p milliseconds have passed, and not from then on. */
  ghost predicate LastsFor(l: Limits, t: Table, k: string, now: int, p: int) {
    forall at | now <= at :: Sees(l, t, k, at) <==> at < now + p
  }

  ghost predicate LastsForEver(l: Limits, t: Table, k: string, now: int) {
    forall at | now <= at :: Sees(l, t, k, at)
  }

  lemma SeesLater(l: Limits, t: Table, k: string, now: int, at: int)
    requires now <= at
    ensures var c := Look(t, k, now); Sees(l, t, k, at) <==> c.Some? && (c.value.expiry.None? || at < c.value.expiry.value)
  {
    hide Exec;
    GetExact(l, t, k, at);
  }

  /** PTTL answers p > 0 if and only if readers see the key for exactly p more milliseconds, -1 if and only
      if they see it for ever, and -2 if and only if they do not see it; it answers nothing else. */
  lemma PttlMeans(l: Limits, t: Table, now: int, k: string, p: int)
    requires p > 0
    ensures var r := Exec(l, t, now, ["PTTL", k]).reply;
            && (r == Number(p) <==> LastsFor(l, t, k, now, p))
            && (r == Number(-1) <==> LastsForEver(l, t, k, now))
            && (r == Number(-2) <==> !Sees(l, t, k, now))
            && r.Number? && (r.n > 0 || r.n == -1 || r.n == -2)
  {
    hide Exec, Sees;
    TtlReplies(l, t, now, k);
    var c := Look(t, k, now);
    forall at | now <= at
      ensures Sees(l, t, k, at) <==> c.Some? && (c.value.expiry.None? || at < c.value.expiry.value)
    {
      SeesLater(l, t, k, now, at);
    }
    if c.Some? && c.value.expiry.None? {
      assert Sees(l, t, k, now + p);
    } else if c.Some? {
      var left := c.value.expiry.value - now;
      assert !Sees(l, t, k, now + left);
      if LastsFor(l, t, k, now, p) {
        assert Sees(l, t, k, now + left) <==> left < p;
        assert Sees(l, t, k, now + p - 1) && !Sees(l, t, k, now + p);
      }
    } else {
      assert !Sees(l, t, k, now);
    }
  }

  /** TTL is PTTL in seconds, rounded up; and the same number when there is no time left to count. */
  lemma TtlRoundsUp(l: Limits, t: Table, now: int, k: string)
    ensures var p, r := Exec(l, t, now, ["PTTL", k]).reply, Exec(l, t, now, ["TTL", k]).reply;
            p.Number? && r.Number? && if p.n > 0 then 1000 * (r.n - 1) < p.n <= 1000 * r.n else r == p
  {
    hide Exec;
    TtlReplies(l, t, now, k);
  }

  // --- Counters and texts ---------------------------------------------------------------------

  /** INCR and DECR: the number the key holds, a missing one holding zero, goes up or down by one; the
      answer is what a GET then reads, for ever. A text that is no number and a step out of 64 bits are
      refused. */
  lemma CountExact(l: Limits, t: Table, now: int, name: string, k: string, at: int)
    requires (name == "INCR" || name == "DECR") && |k| <= l.maxKey && l.maxValue >= 20
    ensures var e, n := Exec(l, t, now, [name, k]), CounterValue(Look(t, k, now));
            var delta := if name == "INCR" then 1 else -1;
            if n.None? then e == Effect(t, Failed(Storage(InvalidInteger)), None)
            else if !InI64(n.value + delta) then e == Effect(t, Failed(Storage(Overflow)), None)
            else
              && e.reply == Number(n.value + delta) && e.record == Some([name, k]) && OnlyTouches(t, e.table, k)
              && Exec(l, e.table, at, ["GET", k]).reply == Text(IntText(n.value + delta))
              && CounterValue(Look(e.table, k, at)) == Some(n.value + delta)
  {
    hide Exec;
    WriteNames();
    hide VerbOf, IntText, ParseI64Exact;
    Keyed(l, t, now, [name, k]);
    var n, delta := CounterValue(Look(t, k, now)), if name == "INCR" then 1 else -1;
    if n.Some? && InI64(n.value + delta) {
      I64Width(n.value + delta);
      I64RoundTrip(n.value + delta);
      PutTouches(t, k, Some(Entry(IntText(n.value + delta), None)));
      GetExact(l, Exec(l, t, now, [name, k]).table, k, at);
    }
  }

  /** A key that is not seen counts from zero. */
  lemma CountFromNothing(l: Limits, t: Table, now: int, k: string)
    requires |k| <= l.maxKey && l.maxValue >= 20 && !Sees(l, t, k, now)
    ensures Exec(l, t, now, ["INCR", k]).reply == Number(1) && Exec(l, t, now, ["DECR", k]).reply == Number(-1)
  {
    hide Exec;
    GetExact(l, t, k, now);
    CountExact(l, t, now, "INCR", k, now);
    CountExact(l, t, now, "DECR", k, now);
  }

  /** DECR undoes INCR, and INCR undoes DECR. */
  lemma DecrUndoesIncr(l: Limits, t: Table, now: int, k: string, n: int, at: int)
    requires |k| <= l.maxKey && l.maxValue >= 20 && I64_MIN < n < I64_MAX && now <= at
    requires Exec(l, t, now, ["GET", k]).reply == Text(IntText(n))
    ensures var up, down := Exec(l, t, now, ["INCR", k]), Exec(l, t, now, ["DECR", k]);
            && up.reply == Number(n + 1) && down.reply == Number(n - 1)
            && Exec(l, up.table, at, ["DECR", k]).reply == Number(n) && Exec(l, down.table, at, ["INCR", k]).reply == Number(n)
            && Exec(l, Exec(l, up.table, at, ["DECR", k]).table, at, ["GET", k]).reply == Text(IntText(n))
            && Exec(l, Exec(l, down.table, at, ["INCR", k]).table, at, ["GET", k]).reply == Text(IntText(n))
  {
    hide Exec;
    hide IntText, ParseI64Exact;
    GetExact(l, t, k, now);
    I64RoundTrip(n);
    CountExact(l, t, now, "INCR", k, at);
    CountExact(l, t, now, "DECR", k, at);
    CountExact(l, Exec(l, t, now, ["INCR", k]).table, at, "DECR", k, at);
    CountExact(l, Exec(l, t, now, ["DECR", k]).table, at, "INCR", k, at);
  }

  /** APPEND: the old text, a missing one being empty, and the new one after it, for ever; the answer is the
      length STRLEN then gives. */
  lemma AppendExact(l: Limits, t: Table, now: int, k: string, suffix: string, at: int)
    requires |k| <= l.maxKey
    ensures var e, c := Exec(l, t, now, ["APPEND", k, suffix]), Look(t, k, now);
            var text := (if c.Some? then c.value.value else "") + suffix;
            if |text| > l.maxValue then e == Effect(t, Failed(Storage(ValueTooLarge)), None)
            else
              && e.reply == Number(|text|) && e.record == Some(["APPEND", k, suffix]) && OnlyTouches(t, e.table, k)
              && Exec(l, e.table, at, ["GET", k]).reply == Text(text)
              && Exec(l, e.table, at, ["STRLEN", k]).reply == e.reply
  {
    hide Exec;
    WriteNames();
    hide VerbOf;
    var args := ["APPEND", k, suffix];
    Keyed(l, t, now, args);
    PutTouches(t, k, ExecCell(l, Look(t, k, now), now, args).cell);
    GetExact(l, Exec(l, t, now, args).table, k, at);
    StrlenExact(l, Exec(l, t, now, args).table, at, k);
  }

  /** STRLEN: the length of what GET answers, zero for nil. */
  lemma StrlenExact(l: Limits, t: Table, now: int, k: string)
    ensures var g, e := Exec(l, t, now, ["GET", k]).reply, Exec(l, t, now, ["STRLEN", k]);
            e == Effect(t, Number(if g.Text? then |g.text| else 0), None)
    ensures Exec(l, t, now, ["STRLEN", k]).reply == Number(|TextValue(Look(t, k, now))|)
  {
    ReadNames();
    hide VerbOf;
  }
}
