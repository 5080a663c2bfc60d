/** Replaying the log. A record is executed again, through the same handlers, at the time of the
    replay. Which commands then do what they did live is decided exactly, command by command and
    for whole runs. */
module Replay {
  import opened Wrappers
  import opened Decimal
  import opened Text
  import opened Store
  import opened Commands

  // --- The condition --------------------------------------------------------------------------

  /** The key is live now but will have expired by `at`. */
  predicate Lapses(c: Cell, at: int) {
    c.Some? && Expired(c.value, at)
  }

  /** The expiry that EXPIRE, PEXPIRE or PEXPIREAT asks for. */
  function AskedExpiry(args: seq<string>, now: int): Option<int>
    requires |args| >= 1
  {
    if |args| != 3 then None
    else
      match VerbOf(args[0])
      case EXPIRE => Shifted(TtlArg(args[2], 1000), now)
      case PEXPIRE => Shifted(TtlArg(args[2], 1), now)
      case PEXPIREAT => ParseI64(args[2])
      case _ => None
  }

  predicate AskedBy(args: seq<string>, now: int, at: int)
    requires |args| >= 1
  {
    AskedExpiry(args, now).Some? && AskedExpiry(args, now).value <= at
  }

  function Shifted(ttl: Option<int>, now: int): Option<int> {
    if ttl.Some? then Some(now + ttl.value) else None
  }

  /** When a single-key command on a live cell will have the same outcome at a replay at `at`:
      it logs nothing, or its key will not have lapsed, or the lapse makes no difference. */
  predicate LastingCell(l: Limits, c: Cell, now: int, args: seq<string>, at: int)
    requires |args| >= 2 && IsKeyed(VerbOf(args[0]))
  {
    ExecCell(l, c, now, args).record.None? || !Lapses(c, at) ||
    match VerbOf(args[0])
    case SET => true
    case INCR => CounterValue(c) == Some(0)
    case DECR => CounterValue(c) == Some(0)
    case APPEND => TextValue(c) == ""
    case PERSIST => false
    case EXPIRE => AskedBy(args, now, at)
    case PEXPIRE => AskedBy(args, now, at)
    case PEXPIREAT => AskedBy(args, now, at)
  }

  /** The value the pairs at positions i, i + 2, ... before j leave at a key they mention. */
  function FinalValue(args: seq<string>, i: nat, j: nat, k: string): Option<string>
    requires i <= j <= |args| && (j - i) % 2 == 0
    decreases j - i
  {
    if i == j then None
    else
      var later := FinalValue(args, i + 2, j, k);
      if later.Some? then later else if args[i] == k then Some(args[i + 1]) else None
  }

  /** The first pair of an MSET that the size limits refuse, or the end. */
  function FirstRefused(l: Limits, args: seq<string>, i: nat): (j: nat)
    requires i <= |args| && (|args| - i) % 2 == 0
    ensures i <= j <= |args| && (j - i) % 2 == 0
    decreases |args| - i
  {
    if i == |args| || |args[i]| > l.maxKey || |args[i + 1]| > l.maxValue then i
    else FirstRefused(l, args, i + 2)
  }

  /** The pairs of an MSET at positions i, i + 2, ... before j, stored. */
  function PutPairs(t: Table, args: seq<string>, i: nat, j: nat): Table
    requires i <= j <= |args| && (j - i) % 2 == 0
    decreases j - i
  {
    if i == j then t else PutPairs(Put(t, args[i], Some(Entry(args[i + 1], None))), args, i + 2, j)
  }

  /** How far a refused write counts: to the first pair not stored, within the size limits; 1 for none. */
  predicate Keepable(l: Limits, args: seq<string>, upto: nat) {
    upto == 1 || (|args| % 2 == 1 && upto % 2 == 1 && upto <= FirstRefused(l, args, 1))
  }

  /** What a write that ran out of memory leaves: the pairs an MSET had stored by then. */
  function KeptPairs(l: Limits, t: Table, args: seq<string>, upto: nat): Table {
    if upto == 1 || !Keepable(l, args, upto) then t else PutPairs(t, args, 1, upto)
  }

  /** Such pairs are not logged: harmless only if what they stored was there already. */
  ghost predicate KeptLasts(l: Limits, t: Table, args: seq<string>, upto: nat, at: int) {
    upto == 1 || !Keepable(l, args, upto) ||
    forall k :: var v := FinalValue(args, 1, upto, k); v.Some? ==> Look(t, k, at) == Some(Entry(v.value, None))
  }

  lemma {:induction false} GetPutPairs(t: Table, args: seq<string>, i: nat, j: nat, k: string)
    requires i <= j <= |args| && (j - i) % 2 == 0
    ensures var v := FinalValue(args, i, j, k);
            Get(PutPairs(t, args, i, j), k) == if v.Some? then Some(Entry(v.value, None)) else Get(t, k)
    decreases j - i
  {
    if i < j {
      GetPutPairs(Put(t, args[i], Some(Entry(args[i + 1], None))), args, i + 2, j, k);
    }
  }

  /** A write that ran out of memory is harmless exactly when what it kept lasts. */
  lemma KeptStep(l: Limits, t: Table, u: Table, args: seq<string>, upto: nat, at: int)
    requires Same(t, u, at)
    ensures Same(KeptPairs(l, t, args, upto), u, at) <==> KeptLasts(l, t, args, upto, at)
  {
    if upto != 1 && Keepable(l, args, upto) {
      var t' := PutPairs(t, args, 1, upto);
      forall k
        ensures var v := FinalValue(args, 1, upto, k);
                Look(t', k, at) == (if v.Some? then Some(Entry(v.value, None)) else Look(t, k, at))
      {
        GetPutPairs(t, args, 1, upto, k);
      }
      hide PutPairs, FinalValue;
      assert forall k :: Look(t, k, at) == Look(u, k, at);
    }
  }

  /** An MSET that is refused part-way logs nothing: harmless only if what it stored was there already. */
  ghost predicate MsetLasts(l: Limits, t: Table, args: seq<string>, at: int)
    requires |args| >= 3 && |args| % 2 == 1
  {
    var j := FirstRefused(l, args, 1);
    j == |args| ||
    forall k :: var v := FinalValue(args, 1, j, k); v.Some? ==> Look(t, k, at) == Some(Entry(v.value, None))
  }

  /** When a request will be replayed faithfully at `at`. */
  ghost predicate Lasting(l: Limits, t: Table, now: int, args: seq<string>, at: int) {
    args == [] ||
    match VerbOf(args[0])
    case DEL => true
    case FLUSHDB => true
    case READ(_) => true
    case OTHER => true
    case MSET => |args| < 3 || |args| % 2 == 0 || MsetLasts(l, t, args, at)
    case _ => |args| < 2 || LastingCell(l, Look(t, args[1], now), now, args, at)
  }

  // --- Records read back ----------------------------------------------------------------------

  lemma UpperIdentity(s: string)
    requires forall i | 0 <= i < |s| :: !('a' <= s[i] <= 'z')
    ensures Upper(s) == s
  {
  }

  lemma RecordNames()
    ensures VerbOf("SET") == SET && VerbOf("PEXPIREAT") == PEXPIREAT && VerbOf("FLUSHDB") == FLUSHDB
    ensures OptionOf("PXAT") == TimeOption(PXAT)
  {
    UpperIdentity("SET");
    UpperIdentity("PEXPIREAT");
    UpperIdentity("FLUSHDB");
    UpperIdentity("PXAT");
  }

  /** A SET record parses to an unconditional SET with that absolute expiry. */
  lemma SetRecordPlan(k: string, v: string, expiry: Option<int>)
    requires expiry.Some? ==> 0 < expiry.value <= I64_MAX
    ensures SetPlan(SetRecord(k, v, expiry)) == Ok(Plan(Always, None, expiry))
  {
    var r := SetRecord(k, v, expiry);
    RecordNames();
    if expiry.Some? {
      I64ArgRoundTrip(expiry.value);
      assert r[3] == "PXAT" && r[4] == IntText(expiry.value);
      assert SetOptions(r, 5, Plan(Always, None, expiry)) == Ok(Plan(Always, None, expiry));
    }
  }

  // --- One key --------------------------------------------------------------------------------

  /** The cell a record leaves when replayed on a cell. */
  function ReplayedCell(l: Limits, c: Cell, at: int, record: seq<string>): Cell
    requires |record| >= 2 && IsKeyed(VerbOf(record[0]))
  {
    var e := ExecCell(l, c, at, record);
    if e.record.Some? then e.cell else c
  }

  /** The record of a single-key command is a single-key command on the same key. */
  lemma RecordKeyed(l: Limits, c: Cell, now: int, args: seq<string>)
    requires |args| >= 2 && IsKeyed(VerbOf(args[0]))
    requires ExecCell(l, c, now, args).record.Some?
    ensures var r := ExecCell(l, c, now, args).record.value;
            |r| >= 2 && r[1] == args[1] && IsKeyed(VerbOf(r[0]))
  {
    hide VerbOf, SetPlan, SetCell, IncrCell, AppendCell, ExpireCell, ExpireAtCell, PersistCell, TtlArg, ParseI64, IntText;
    RecordNames();
  }

  /** What it means for the record of a command to be faithful on one key. */
  predicate FaithfulCell(l: Limits, c: Cell, now: int, args: seq<string>, at: int)
    requires |args| >= 2 && IsKeyed(VerbOf(args[0]))
    requires ExecCell(l, c, now, args).record.Some?
  {
    var e := ExecCell(l, c, now, args);
    RecordKeyed(l, c, now, args);
    Alive(e.cell, at) == Alive(ReplayedCell(l, Alive(c, at), at, e.record.value), at)
  }

  lemma SetFaithful(l: Limits, c: Cell, now: int, args: seq<string>, at: int)
    requires |args| >= 3 && VerbOf(args[0]) == SET && InRange(args, now)
    requires ExecCell(l, c, now, args).record.Some?
    ensures FaithfulCell(l, c, now, args, at)
    ensures var r := ExecCell(l, c, now, args).record.value;
            |r| >= 2 && VerbOf(r[0]) == SET && ExecCell(l, Alive(c, at), at, r).reply == OkReply
  {
    var expiry := PlanExpiry(SetPlan(args).value, now);
    SetRecordPlan(args[1], args[2], expiry);
    RecordNames();
  }

  lemma CountFaithful(l: Limits, c: Cell, now: int, args: seq<string>, at: int)
    requires |args| == 2 && (VerbOf(args[0]) == INCR || VerbOf(args[0]) == DECR)
    requires ExecCell(l, c, now, args).record.Some?
    ensures FaithfulCell(l, c, now, args, at) <==> LastingCell(l, c, now, args, at)
    ensures LastingCell(l, c, now, args, at) ==> !ExecCell(l, Alive(c, at), at, args).reply.Failed?
  {
    hide IntText, ParseI64Exact, VerbOf;
    var delta := if VerbOf(args[0]) == INCR then 1 else -1;
    var n := CounterValue(c).value;
    if Lapses(c, at) && n != 0 {
      I64RoundTrip(n + delta);
      I64RoundTrip(delta);
    }
  }

  lemma AppendFaithful(l: Limits, c: Cell, now: int, args: seq<string>, at: int)
    requires |args| == 3 && VerbOf(args[0]) == APPEND
    requires ExecCell(l, c, now, args).record.Some?
    ensures FaithfulCell(l, c, now, args, at) <==> LastingCell(l, c, now, args, at)
    ensures LastingCell(l, c, now, args, at) ==> !ExecCell(l, Alive(c, at), at, args).reply.Failed?
  {
    var v := TextValue(c);
    assert "" + args[2] == args[2];
    if v != "" {
      assert |v + args[2]| != |args[2]|;
    }
  }

  lemma PersistFaithful(l: Limits, c: Cell, now: int, args: seq<string>, at: int)
    requires |args| == 2 && VerbOf(args[0]) == PERSIST
    requires ExecCell(l, c, now, args).record.Some?
    ensures FaithfulCell(l, c, now, args, at) <==> LastingCell(l, c, now, args, at)
    ensures !ExecCell(l, Alive(c, at), at, args).reply.Failed?
  {
  }

  /** Setting an expiry on a cell now, and again later on what is left of the cell. */
  lemma ExpireAgain(c: Cell, when: int, now: int, at: int)
    requires now <= at && c.Some?
    ensures var live := ExpireAtCell(c, when, now);
            var again := ExpireAtCell(Alive(c, at), when, at);
            live.Some? &&
            ((Alive(live.value, at) == Alive(if again.Some? then again.value else Alive(c, at), at)) <==>
             (!Lapses(c, at) || when <= at))
  {
  }

  /** The record of EXPIRE and PEXPIRE is a PEXPIREAT with the absolute time. */
  lemma RelativeRecord(c: Cell, now: int, args: seq<string>, multiplier: int)
    requires |args| == 3 && multiplier > 0 && TtlInRange(args[2], multiplier, now)
    requires ExecExpire(c, now, args, multiplier).record.Some?
    ensures var when := Shifted(TtlArg(args[2], multiplier), now);
            var e := ExecExpire(c, now, args, multiplier);
            && c.Some? && when.Some? && Some(e.cell) == ExpireAtCell(c, when.value, now)
            && e.record.value == ["PEXPIREAT", args[1], IntText(when.value)] && InI64(when.value)
  {
  }

  /** Every record of the EXPIRE family is a PEXPIREAT that reads back to the time asked for. */
  lemma ExpireRecord(l: Limits, c: Cell, now: int, args: seq<string>)
    requires |args| == 3 && VerbOf(args[0]) in {EXPIRE, PEXPIRE, PEXPIREAT} && InRange(args, now)
    requires ExecCell(l, c, now, args).record.Some?
    ensures c.Some? && AskedExpiry(args, now).Some?
    ensures var e := ExecCell(l, c, now, args);
            var r := e.record.value;
            && Some(e.cell) == ExpireAtCell(c, AskedExpiry(args, now).value, now)
            && |r| == 3 && VerbOf(r[0]) == PEXPIREAT && ParseI64(r[2]) == AskedExpiry(args, now)
  {
    if VerbOf(args[0]) != PEXPIREAT {
      hide ExecExpire;
      RelativeRecord(c, now, args, if VerbOf(args[0]) == EXPIRE then 1000 else 1);
      I64ArgRoundTrip(AskedExpiry(args, now).value);
      RecordNames();
    }
  }

  lemma ExpireFaithful(l: Limits, c: Cell, now: int, args: seq<string>, at: int)
    requires |args| == 3 && VerbOf(args[0]) in {EXPIRE, PEXPIRE, PEXPIREAT} && InRange(args, now) && now <= at
    requires ExecCell(l, c, now, args).record.Some?
    ensures FaithfulCell(l, c, now, args, at) <==> LastingCell(l, c, now, args, at)
    ensures var r := ExecCell(l, c, now, args).record.value;
            |r| >= 2 && VerbOf(r[0]) == PEXPIREAT && !ExecCell(l, Alive(c, at), at, r).reply.Failed?
  {
    ExpireRecord(l, c, now, args);
    ExpireAgain(c, AskedExpiry(args, now).value, now, at);
    var r := ExecCell(l, c, now, args).record.value;
    assert ExecCell(l, Alive(c, at), at, r) == ExecExpireAt(Alive(c, at), at, r);
  }

  /** A logged single-key command is faithful at a replay exactly when it is lasting, and a lasting
      one is not refused there. */
  lemma CellFaithful(l: Limits, c: Cell, now: int, args: seq<string>, at: int)
    requires |args| >= 2 && IsKeyed(VerbOf(args[0])) && InRange(args, now) && now <= at
    requires ExecCell(l, c, now, args).record.Some?
    ensures FaithfulCell(l, c, now, args, at) <==> LastingCell(l, c, now, args, at)
    ensures var r := ExecCell(l, c, now, args).record.value;
            && |r| >= 2 && r[1] == args[1] && IsKeyed(VerbOf(r[0]))
            && (LastingCell(l, c, now, args, at) ==> !ExecCell(l, Alive(c, at), at, r).reply.Failed?)
  {
    RecordKeyed(l, c, now, args);
    hide ExecCell, FaithfulCell, LastingCell;
    match VerbOf(args[0])
    case SET => SetFaithful(l, c, now, args, at);
    case INCR => CountFaithful(l, c, now, args, at);
    case DECR => CountFaithful(l, c, now, args, at);
    case APPEND => AppendFaithful(l, c, now, args, at);
    case PERSIST => PersistFaithful(l, c, now, args, at);
    case EXPIRE => ExpireFaithful(l, c, now, args, at);
    case PEXPIRE => ExpireFaithful(l, c, now, args, at);
    case PEXPIREAT => ExpireFaithful(l, c, now, args, at);
  }

  // --- One request ----------------------------------------------------------------------------

  /** One record through the replay callback: a refused command stops the recovery. */
  function ReplayOne(l: Limits, t: Table, at: int, record: seq<string>): Option<Table> {
    var e := Exec(l, t, at, record);
    if e.reply.Failed? then None else Some(e.table)
  }

  function ReplayNext(l: Limits, t: Option<Table>, at: int, record: Option<seq<string>>): Option<Table> {
    if t.None? || record.None? then t else ReplayOne(l, t.value, at, record.value)
  }

  /** A replay that went through and left a table that reads like `t` at `at`. */
  ghost predicate Reads(recovered: Option<Table>, t: Table, at: int) {
    recovered.Some? && Same(t, recovered.value, at)
  }

  lemma KeyedStep(l: Limits, t: Table, u: Table, now: int, args: seq<string>, at: int)
    requires |args| >= 1 && IsKeyed(VerbOf(args[0])) && InRange(args, now) && now <= at && Same(t, u, at)
    ensures var e := ExecKeyed(l, t, now, args);
            Reads(ReplayNext(l, Some(u), at, e.record), e.table, at) <==>
            (|args| < 2 || LastingCell(l, Look(t, args[1], now), now, args, at))
  {
    if |args| >= 2 {
      var k, c := args[1], Look(t, args[1], now);
      var e := ExecCell(l, c, now, args);
      AliveLater(Get(t, k), now, at);
      assert Look(u, k, at) == Alive(c, at);
      if e.record.Some? {
        hide ExecCell, LastingCell;
        CellFaithful(l, c, now, args, at);
        RecordStep(l, t, u, at, e.cell, e.record.value);
      }
    }
  }

  /** Replaying the record of a single-key command that made the cell `c`. */
  lemma RecordStep(l: Limits, t: Table, u: Table, at: int, c: Cell, r: seq<string>)
    requires |r| >= 2 && IsKeyed(VerbOf(r[0])) && Same(t, u, at)
    ensures Reads(ReplayOne(l, u, at, r), Put(t, r[1], c), at) <==>
            && !ExecCell(l, Look(u, r[1], at), at, r).reply.Failed?
            && Alive(c, at) == Alive(ReplayedCell(l, Look(u, r[1], at), at, r), at)
  {
    hide ExecCell;
    var k := r[1];
    var d := ExecCell(l, Look(u, k, at), at, r);
    assert Exec(l, u, at, r) == ExecKeyed(l, u, at, r);
    if d.record.Some? {
      PutSame(t, u, k, c, d.cell, at);
    } else {
      PutSameAs(t, u, k, c, at);
    }
  }

  lemma {:induction false} LookDelKeys(t: Table, now: int, args: seq<string>, i: nat, k: string, at: int)
    requires i <= |args| && now <= at
    ensures Look(DelKeys(t, now, args, i).0, k, at) == if k in args[i..] then None else Look(t, k, at)
    ensures DelKeys(t, now, args, i).1 == 0 ==> DelKeys(t, now, args, i).0 == t
    decreases |args| - i
  {
    if i < |args| {
      assert args[i..] == [args[i]] + args[i + 1..];
      var t' := if Look(t, args[i], now).None? then t else Put(t, args[i], None);
      LookDelKeys(t', now, args, i + 1, k, at);
      LookPut(t, args[i], None, k, at);
    }
  }

  lemma DelStep(l: Limits, t: Table, u: Table, now: int, args: seq<string>, at: int)
    requires |args| >= 1 && VerbOf(args[0]) == DEL && now <= at && Same(t, u, at)
    ensures var e := ExecDel(t, now, args);
            Reads(ReplayNext(l, Some(u), at, e.record), e.table, at)
  {
    if |args| >= 2 {
      LookDelKeys(t, now, args, 1, "", at);
      forall k
        ensures Look(DelKeys(t, now, args, 1).0, k, at) == Look(DelKeys(u, at, args, 1).0, k, at)
      {
        LookDelKeys(t, now, args, 1, k, at);
        LookDelKeys(u, at, args, 1, k, at);
        assert Look(t, k, at) == Look(u, k, at);
      }
    }
  }

  /** What the pairs of an MSET leave at each key, whole or refused part-way. */
  lemma {:induction false} GetSetPairs(l: Limits, t: Table, args: seq<string>, i: nat, k: string)
    requires i <= |args| && (|args| - i) % 2 == 0
    ensures var v := FinalValue(args, i, FirstRefused(l, args, i), k);
            var r := SetPairs(l, t, args, i);
            && (r.0.Stored? <==> FirstRefused(l, args, i) == |args|)
            && Get(r.1, k) == if v.Some? then Some(Entry(v.value, None)) else Get(t, k)
    decreases |args| - i
  {
    if i < |args| && FirstRefused(l, args, i) != i {
      var t' := Put(t, args[i], Some(Entry(args[i + 1], None)));
      GetSetPairs(l, t', args, i + 2, k);
    }
  }

  lemma MsetStep(l: Limits, t: Table, u: Table, now: int, args: seq<string>, at: int)
    requires |args| >= 3 && |args| % 2 == 1 && VerbOf(args[0]) == MSET && Same(t, u, at)
    ensures var e := ExecMset(l, t, args);
            Reads(ReplayNext(l, Some(u), at, e.record), e.table, at) <==> MsetLasts(l, t, args, at)
  {
    var j := FirstRefused(l, args, 1);
    var t' := SetPairs(l, t, args, 1).1;
    var u' := SetPairs(l, u, args, 1).1;
    forall k
      ensures var v := FinalValue(args, 1, j, k);
              && Look(t', k, at) == (if v.Some? then Some(Entry(v.value, None)) else Look(t, k, at))
              && Look(u', k, at) == (if v.Some? then Some(Entry(v.value, None)) else Look(u, k, at))
    {
      GetSetPairs(l, t, args, 1, k);
      GetSetPairs(l, u, args, 1, k);
    }
    GetSetPairs(l, t, args, 1, "");
    GetSetPairs(l, u, args, 1, "");
    if j == |args| {
      assert Same(t', u', at);
    } else {
      assert Same(t', u, at) <==> MsetLasts(l, t, args, at);
    }
  }

  /** One request on tables that read the same at `at`: its record replays faithfully there exactly
      when the request is lasting. */
  lemma StepFaithful(l: Limits, t: Table, u: Table, now: int, args: seq<string>, at: int)
    requires InRange(args, now) && now <= at && Same(t, u, at)
    ensures var e := Exec(l, t, now, args);
            Reads(ReplayNext(l, Some(u), at, e.record), e.table, at) <==> Lasting(l, t, now, args, at)
  {
    if args != [] {
      hide ExecKeyed, ExecMset, ExecDel, LastingCell, MsetLasts;
      match VerbOf(args[0])
      case DEL => DelStep(l, t, u, now, args, at);
      case MSET =>
        if |args| >= 3 && |args| % 2 == 1 {
          MsetStep(l, t, u, now, args, at);
        } else {
          assert ExecMset(l, t, args).table == t && ExecMset(l, t, args).record.None?;
        }
      case FLUSHDB =>
        FlushStep(l, t, u, args, at);
      case READ(_) =>
      case OTHER =>
      case _ => KeyedStep(l, t, u, now, args, at);
    }
  }

  lemma FlushStep(l: Limits, t: Table, u: Table, args: seq<string>, at: int)
    requires Same(t, u, at)
    ensures var e := ExecFlush(t, args);
            Reads(ReplayNext(l, Some(u), at, e.record), e.table, at)
  {
    RecordNames();
  }

  // --- Whole runs -----------------------------------------------------------------------------

  datatype Request = Request(args: seq<string>, now: int)

  datatype State = State(table: Table, log: seq<seq<string>>)

  function Logged(record: Option<seq<string>>): seq<seq<string>> {
    if record.Some? then [record.value] else []
  }

  function Serve(l: Limits, s: State, r: Request): State {
    var e := Exec(l, s.table, r.now, r.args);
    State(e.table, s.log + Logged(e.record))
  }

  /** The server after serving requests from an empty start. */
  function Run(l: Limits, requests: seq<Request>): State {
    if requests == [] then State(map[], [])
    else Serve(l, Run(l, requests[..|requests| - 1]), requests[|requests| - 1])
  }

  /** The replay loop over a whole log. */
  function ReplayLog(l: Limits, start: Option<Table>, at: int, log: seq<seq<string>>): Option<Table> {
    if log == [] then start
    else ReplayNext(l, ReplayLog(l, start, at, log[..|log| - 1]), at, Some(log[|log| - 1]))
  }

  /** A run whose requests all come before `at` and compute expiries within 64 bits. */
  predicate RunBefore(requests: seq<Request>, at: int) {
    forall r | r in requests :: r.now <= at && InRange(r.args, r.now)
  }

  /** The server as request i finds it. */
  function Before(l: Limits, requests: seq<Request>, i: nat): State
    requires i <= |requests|
  {
    Run(l, requests[..i])
  }

  ghost predicate LastingRun(l: Limits, requests: seq<Request>, at: int) {
    forall i | 0 <= i < |requests| ::
      Lasting(l, Before(l, requests, i).table, requests[i].now, requests[i].args, at)
  }

  /** Replaying the log written by the first i requests gives what a reader of the live table sees. */
  ghost predicate FaithfulAt(l: Limits, requests: seq<Request>, i: nat, at: int)
    requires i <= |requests|
  {
    var s := Before(l, requests, i);
    Reads(ReplayLog(l, Some(map[]), at, s.log), s.table, at)
  }

  lemma ReplayLogged(l: Limits, start: Option<Table>, at: int, log: seq<seq<string>>, record: Option<seq<string>>)
    ensures ReplayLog(l, start, at, log + Logged(record)) == ReplayNext(l, ReplayLog(l, start, at, log), at, record)
  {
    if record.Some? {
      var all := log + [record.value];
      assert all[..|all| - 1] == log;
    } else {
      assert log + [] == log;
    }
  }

  lemma BeforeNext(l: Limits, requests: seq<Request>, i: nat)
    requires i < |requests|
    ensures Before(l, requests, i + 1) == Serve(l, Before(l, requests, i), requests[i])
  {
    assert requests[..i + 1][..i] == requests[..i];
  }

  /** If the log is faithful up to request i, it stays so after it exactly when request i is lasting. */
  lemma FaithfulNext(l: Limits, requests: seq<Request>, i: nat, at: int)
    requires i < |requests| && RunBefore(requests, at) && FaithfulAt(l, requests, i, at)
    ensures var r := requests[i];
            FaithfulAt(l, requests, i + 1, at) <==> Lasting(l, Before(l, requests, i).table, r.now, r.args, at)
  {
    hide Exec, Lasting, InRange;
    var s, r := Before(l, requests, i), requests[i];
    var u := ReplayLog(l, Some(map[]), at, s.log).value;
    assert r in requests;
    BeforeNext(l, requests, i);
    ReplayLogged(l, Some(map[]), at, s.log, Exec(l, s.table, r.now, r.args).record);
    StepFaithful(l, s.table, u, r.now, r.args, at);
  }

  /** Log replay is faithful, exactly: over every run, the log of every prefix replays at `at` to the
      table a reader then sees, if and only if every request of the run is lasting. */
  lemma {:induction false} ReplayFaithful(l: Limits, requests: seq<Request>, at: int)
    requires RunBefore(requests, at)
    ensures (forall i | 0 <= i <= |requests| :: FaithfulAt(l, requests, i, at)) <==> LastingRun(l, requests, at)
  {
    if forall i | 0 <= i <= |requests| :: FaithfulAt(l, requests, i, at) {
      forall i | 0 <= i < |requests|
        ensures Lasting(l, Before(l, requests, i).table, requests[i].now, requests[i].args, at)
      {
        FaithfulNext(l, requests, i, at);
      }
    }
    if LastingRun(l, requests, at) {
      forall i | 0 <= i <= |requests|
        ensures FaithfulAt(l, requests, i, at)
      {
        LastingIsFaithful(l, requests, i, at);
      }
    }
  }

  lemma {:induction false} LastingIsFaithful(l: Limits, requests: seq<Request>, i: nat, at: int)
    requires RunBefore(requests, at) && i <= |requests| && LastingRun(l, requests, at)
    ensures FaithfulAt(l, requests, i, at)
  {
    if i == 0 {
      assert requests[..0] == [];
    } else {
      hide FaithfulAt, Lasting, RunBefore;
      LastingIsFaithful(l, requests, i - 1, at);
      FaithfulNext(l, requests, i - 1, at);
    }
  }
}
