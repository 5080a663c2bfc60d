/** The commands of src/commands/commands.cpp: what a request does to the table, what it answers, and
    which record it appends to the log. Conditions and relative expiries are resolved here, so a
    record never carries NX, XX or a relative time. */
module Commands {
  import opened Wrappers
  import opened Decimal
  import opened Text
  import opened Store

  datatype Verb =
    SET | DEL | MSET | INCR | DECR | APPEND | EXPIRE | PEXPIRE | PEXPIREAT | PERSIST | FLUSHDB | READ(query: Query) | OTHER

  datatype Query = PING | ECHO | GET | STRLEN | EXISTS | MGET | TTL | PTTL | DBSIZE

  /** The registry looks names up in upper case. */
  function VerbOf(name: string): Verb {
    var n := Upper(name);
    if n == "SET" then SET
    else if n == "DEL" then DEL
    else if n == "MSET" then MSET
    else if n == "INCR" then INCR
    else if n == "DECR" then DECR
    else if n == "APPEND" then APPEND
    else if n == "EXPIRE" then EXPIRE
    else if n == "PEXPIRE" then PEXPIRE
    else if n == "PEXPIREAT" then PEXPIREAT
    else if n == "PERSIST" then PERSIST
    else if n == "FLUSHDB" then FLUSHDB
    else if QueryOf(n).Some? then READ(QueryOf(n).value)
    else OTHER
  }

  function QueryOf(n: string): Option<Query> {
    if n == "PING" then Some(PING)
    else if n == "ECHO" then Some(ECHO)
    else if n == "GET" then Some(GET)
    else if n == "STRLEN" then Some(STRLEN)
    else if n == "EXISTS" then Some(EXISTS)
    else if n == "MGET" then Some(MGET)
    else if n == "TTL" then Some(TTL)
    else if n == "PTTL" then Some(PTTL)
    else if n == "DBSIZE" then Some(DBSIZE)
    else None
  }

  /** NotModelled stands for every other name, administrative or unknown. */
  datatype Reason =
    EmptyCommand | NotModelled | WrongArguments | SyntaxError | InvalidExpire | Storage(code: WriteCode)

  datatype Reply =
    | OkReply
    | Nil
    | Number(n: int)
    | Text(text: string)
    | Texts(texts: seq<Option<string>>)
    | Failed(reason: Reason)

  // --- Expiry arguments -----------------------------------------------------------------------

  /** parse_ttl_ms: a duration in milliseconds; only positive overflow is refused. */
  function TtlArg(s: string, multiplier: int): Option<int>
    requires multiplier > 0
  {
    match ParseI64(s)
    case None => None
    case Some(n) => if n > 0 && n > I64_MAX / multiplier then None else Some(n * multiplier)
  }

  /** What the option loop of SET has collected. */
  datatype Plan = Plan(cond: Condition, ttl: Option<int>, pxat: Option<int>)

  datatype SetOption = NxOption | XxOption | TimeOption(unit: TimeUnit) | NoOption

  datatype TimeUnit = EX | PX | EXAT | PXAT

  function OptionOf(arg: string): SetOption {
    var o := Upper(arg);
    if o == "NX" then NxOption
    else if o == "XX" then XxOption
    else if o == "EX" then TimeOption(EX)
    else if o == "PX" then TimeOption(PX)
    else if o == "EXAT" then TimeOption(EXAT)
    else if o == "PXAT" then TimeOption(PXAT)
    else NoOption
  }

  /** One expiry option. A relative time that does not parse is accepted and sets nothing. */
  function TimeStep(plan: Plan, unit: TimeUnit, arg: string): Result<Plan, Reason> {
    match unit
    case EX => CheckTime(plan.(ttl := TtlArg(arg, 1000)))
    case PX => CheckTime(plan.(ttl := TtlArg(arg, 1)))
    case EXAT =>
      (match ParseI64(arg)
       case None => Err(InvalidExpire)
       case Some(n) => CheckTime(plan.(pxat := Some(n * 1000))))
    case PXAT =>
      match ParseI64(arg)
      case None => Err(InvalidExpire)
      case Some(n) => CheckTime(plan.(pxat := Some(n)))
  }

  function CheckTime(plan: Plan): Result<Plan, Reason> {
    if (plan.ttl.Some? && plan.ttl.value <= 0) || (plan.pxat.Some? && plan.pxat.value <= 0)
    then Err(InvalidExpire)
    else Ok(plan)
  }

  /** The options of SET from position i on. */
  function SetOptions(args: seq<string>, i: nat, plan: Plan): Result<Plan, Reason>
    requires i <= |args|
    decreases |args| - i
  {
    if i == |args| then Ok(plan)
    else
      match OptionOf(args[i])
      case NxOption =>
        if plan.cond.XX? then Err(SyntaxError) else SetOptions(args, i + 1, plan.(cond := NX))
      case XxOption =>
        if plan.cond.NX? then Err(SyntaxError) else SetOptions(args, i + 1, plan.(cond := XX))
      case TimeOption(unit) =>
        if i + 1 >= |args| || plan.ttl.Some? || plan.pxat.Some? then Err(SyntaxError)
        else
          (match TimeStep(plan, unit, args[i + 1])
           case Err(e) => Err(e)
           case Ok(next) => SetOptions(args, i + 2, next))
      case NoOption => Err(SyntaxError)
  }

  const NO_OPTIONS := Plan(Always, None, None)

  function SetPlan(args: seq<string>): Result<Plan, Reason>
    requires |args| >= 3
  {
    SetOptions(args, 3, NO_OPTIONS)
  }

  /** A time argument the option loop takes without setting an expiry. */
  predicate Ignored(unit: TimeUnit, arg: string) {
    match unit
    case EX => TtlArg(arg, 1000).None?
    case PX => TtlArg(arg, 1).None?
    case EXAT => false
    case PXAT => false
  }

  /** The time options from position i on, with their arguments. */
  function TimeArgs(args: seq<string>, i: nat): seq<(TimeUnit, string)>
    requires i <= |args|
    decreases |args| - i
  {
    if i == |args| then []
    else
      match OptionOf(args[i])
      case TimeOption(unit) => if i + 1 == |args| then [] else [(unit, args[i + 1])] + TimeArgs(args, i + 2)
      case _ => TimeArgs(args, i + 1)
  }

  predicate NoTime(plan: Plan) {
    plan.ttl.None? && plan.pxat.None?
  }

  /** Once an expiry is set, a further time option is a syntax error. */
  lemma {:induction false} TimeKept(args: seq<string>, i: nat, plan: Plan)
    requires i <= |args| && !NoTime(plan) && SetOptions(args, i, plan).Ok?
    ensures !NoTime(SetOptions(args, i, plan).value)
    decreases |args| - i
  {
    hide OptionOf, TimeStep;
    if i < |args| {
      match OptionOf(args[i])
      case NxOption => TimeKept(args, i + 1, plan.(cond := NX));
      case XxOption => TimeKept(args, i + 1, plan.(cond := XX));
      case TimeOption(_) =>
      case NoOption =>
    }
  }

  /** A SET that is accepted stores without expiry if and only if each of its time options is an EX or PX
      whose argument is no duration; there may be any number of those. An EXAT or PXAT always sets an expiry
      or refuses. */
  lemma {:induction false} TimesIgnored(args: seq<string>, i: nat, plan: Plan)
    requires i <= |args| && NoTime(plan) && SetOptions(args, i, plan).Ok?
    ensures NoTime(SetOptions(args, i, plan).value) <==> forall o | o in TimeArgs(args, i) :: Ignored(o.0, o.1)
    decreases |args| - i
  {
    hide OptionOf, TtlArg, ParseI64;
    if i < |args| {
      match OptionOf(args[i])
      case NxOption => TimesIgnored(args, i + 1, plan.(cond := NX));
      case XxOption => TimesIgnored(args, i + 1, plan.(cond := XX));
      case TimeOption(unit) =>
        var next := TimeStep(plan, unit, args[i + 1]).value;
        assert (unit, args[i + 1]) in TimeArgs(args, i);
        if NoTime(next) { TimesIgnored(args, i + 2, next); } else { TimeKept(args, i + 2, next); }
      case NoOption =>
    }
  }

  /** The absolute expiry a plan asks for at a clock reading. */
  function PlanExpiry(plan: Plan, now: int): Option<int> {
    if plan.pxat.Some? then plan.pxat
    else if plan.ttl.Some? then Some(now + plan.ttl.value)
    else None
  }

  // --- Commands on one key --------------------------------------------------------------------

  /** What a command makes of its key: when there is a record, the key gets the new cell. */
  datatype CellEffect = CellEffect(cell: Cell, reply: Reply, record: Option<seq<string>>)

  function Unchanged(reply: Reply): CellEffect {
    CellEffect(None, reply, None)
  }

  function SetRecord(k: string, v: string, expiry: Option<int>): seq<string> {
    if expiry.Some? then ["SET", k, v, "PXAT", IntText(expiry.value)] else ["SET", k, v]
  }

  function ExecSet(l: Limits, c: Cell, now: int, args: seq<string>): CellEffect {
    if |args| < 3 then Unchanged(Failed(WrongArguments))
    else
      match SetPlan(args)
      case Err(e) => Unchanged(Failed(e))
      case Ok(plan) =>
        var expiry := PlanExpiry(plan, now);
        var w := SetCell(l, args[1], c, args[2], expiry, plan.cond);
        if w.code.NotSet? then Unchanged(Nil)
        else if !w.code.Stored? then Unchanged(Failed(Storage(w.code)))
        else CellEffect(w.cell, OkReply, Some(SetRecord(args[1], args[2], expiry)))
  }

  function Counted(w: Written, args: seq<string>): CellEffect {
    if w.code.Stored? then CellEffect(w.cell, Number(w.integer), Some(args)) else Unchanged(Failed(Storage(w.code)))
  }

  function ExecIncr(l: Limits, c: Cell, args: seq<string>, delta: int): CellEffect {
    if |args| != 2 then Unchanged(Failed(WrongArguments))
    else Counted(IncrCell(l, args[1], c, delta), args)
  }

  function ExecAppend(l: Limits, c: Cell, args: seq<string>): CellEffect {
    if |args| != 3 then Unchanged(Failed(WrongArguments))
    else Counted(AppendCell(l, args[1], c, args[2]), args)
  }

  function Changed(c: Option<Cell>, record: seq<string>): CellEffect {
    if c.Some? then CellEffect(c.value, Number(1), Some(record)) else Unchanged(Number(0))
  }

  function ExecExpire(c: Cell, now: int, args: seq<string>, multiplier: int): CellEffect
    requires multiplier > 0
  {
    if |args| != 3 then Unchanged(Failed(WrongArguments))
    else
      match TtlArg(args[2], multiplier)
      case None => Unchanged(Failed(InvalidExpire))
      case Some(ttl) => Changed(ExpireCell(c, ttl, now), ["PEXPIREAT", args[1], IntText(now + ttl)])
  }

  function ExecExpireAt(c: Cell, now: int, args: seq<string>): CellEffect {
    if |args| != 3 then Unchanged(Failed(WrongArguments))
    else
      match ParseI64(args[2])
      case None => Unchanged(Failed(InvalidExpire))
      case Some(when) => Changed(ExpireAtCell(c, when, now), args)
  }

  function ExecPersist(c: Cell, args: seq<string>): CellEffect {
    if |args| != 2 then Unchanged(Failed(WrongArguments)) else Changed(PersistCell(c), args)
  }

  predicate IsKeyed(v: Verb) {
    !v.DEL? && !v.MSET? && !v.FLUSHDB? && !v.READ? && !v.OTHER?
  }

  /** A single-key command, on the live cell of its key. */
  function ExecCell(l: Limits, c: Cell, now: int, args: seq<string>): CellEffect
    requires |args| >= 2 && IsKeyed(VerbOf(args[0]))
  {
    match VerbOf(args[0])
    case SET => ExecSet(l, c, now, args)
    case INCR => ExecIncr(l, c, args, 1)
    case DECR => ExecIncr(l, c, args, -1)
    case APPEND => ExecAppend(l, c, args)
    case EXPIRE => ExecExpire(c, now, args, 1000)
    case PEXPIRE => ExecExpire(c, now, args, 1)
    case PEXPIREAT => ExecExpireAt(c, now, args)
    case PERSIST => ExecPersist(c, args)
  }

  // --- Commands on several keys ---------------------------------------------------------------

  /** DEL from position i on: the table left and the number of live keys removed. */
  function DelKeys(t: Table, now: int, args: seq<string>, i: nat): (Table, nat)
    requires i <= |args|
    decreases |args| - i
  {
    if i == |args| then (t, 0)
    else if Look(t, args[i], now).None? then DelKeys(t, now, args, i + 1)
    else
      var r := DelKeys(Put(t, args[i], None), now, args, i + 1);
      (r.0, r.1 + 1)
  }

  /** MSET from position i on: pairs are stored one by one until one is refused. */
  function SetPairs(l: Limits, t: Table, args: seq<string>, i: nat): (WriteCode, Table)
    requires i <= |args| && (|args| - i) % 2 == 0
    decreases |args| - i
  {
    if i == |args| then (Stored, t)
    else
      var w := SetCell(l, args[i], None, args[i + 1], None, Always);
      if !w.code.Stored? then (w.code, t)
      else SetPairs(l, Put(t, args[i], w.cell), args, i + 2)
  }

  // --- Reads ----------------------------------------------------------------------------------

  /** EXISTS from position i on: a key named twice counts twice. */
  function CountLive(t: Table, now: int, args: seq<string>, i: nat): nat
    requires i <= |args|
    decreases |args| - i
  {
    if i == |args| then 0
    else (if Look(t, args[i], now).Some? then 1 else 0) + CountLive(t, now, args, i + 1)
  }

  function ValueAt(t: Table, now: int, k: string): Option<string> {
    var c := Look(t, k, now);
    if c.Some? then Some(c.value.value) else None
  }

  /** MGET from position i on. */
  function ValuesAt(t: Table, now: int, args: seq<string>, i: nat): seq<Option<string>>
    requires i <= |args|
    decreases |args| - i
  {
    if i == |args| then [] else [ValueAt(t, now, args[i])] + ValuesAt(t, now, args, i + 1)
  }

  /** TTL rounds up to whole seconds; a missing key is -2, a key without expiry -1. */
  function TtlNumber(ttl: Ttl, millis: bool): int {
    match ttl
    case Missing => -2
    case NoExpiry => -1
    case HasExpiry(ms) => if millis then ms else (ms + 999) / 1000
  }

  predicate ReadArity(q: Query, n: nat) {
    match q
    case PING => n == 1 || n == 2
    case ECHO => n == 2
    case GET => n == 2
    case STRLEN => n == 2
    case EXISTS => n >= 2
    case MGET => n >= 2
    case TTL => n == 2
    case PTTL => n == 2
    case DBSIZE => n == 1
  }

  function ReadReply(t: Table, now: int, q: Query, args: seq<string>): Reply {
    if !ReadArity(q, |args|) then Failed(WrongArguments)
    else
      match q
      case PING => Text(if |args| == 1 then "PONG" else args[1])
      case ECHO => Text(args[1])
      case GET => (var v := ValueAt(t, now, args[1]); if v.Some? then Text(v.value) else Nil)
      case STRLEN => Number(|TextValue(Look(t, args[1], now))|)
      case EXISTS => Number(CountLive(t, now, args, 1))
      case MGET => Texts(ValuesAt(t, now, args, 1))
      case TTL => Number(TtlNumber(TtlOf(Look(t, args[1], now), now), false))
      case PTTL => Number(TtlNumber(TtlOf(Look(t, args[1], now), now), true))
      case DBSIZE => Number(|LiveKeys(t, now)|)
  }

  // --- All commands ---------------------------------------------------------------------------

  datatype Effect = Effect(table: Table, reply: Reply, record: Option<seq<string>>)

  function ExecDel(t: Table, now: int, args: seq<string>): Effect
    requires |args| >= 1
  {
    if |args| < 2 then Effect(t, Failed(WrongArguments), None)
    else
      var r := DelKeys(t, now, args, 1);
      Effect(r.0, Number(r.1), if r.1 != 0 then Some(args) else None)
  }

  function ExecMset(l: Limits, t: Table, args: seq<string>): Effect
    requires |args| >= 1
  {
    if |args| < 3 || |args| % 2 == 0 then Effect(t, Failed(WrongArguments), None)
    else
      var r := SetPairs(l, t, args, 1);
      if r.0.Stored? then Effect(r.1, OkReply, Some(args)) else Effect(r.1, Failed(Storage(r.0)), None)
  }

  function ExecFlush(t: Table, args: seq<string>): Effect {
    if |args| != 1 then Effect(t, Failed(WrongArguments), None)
    else Effect(map[], OkReply, Some(["FLUSHDB"]))
  }

  function ExecKeyed(l: Limits, t: Table, now: int, args: seq<string>): Effect
    requires |args| >= 1 && IsKeyed(VerbOf(args[0]))
  {
    if |args| < 2 then Effect(t, Failed(WrongArguments), None)
    else
      var e := ExecCell(l, Look(t, args[1], now), now, args);
      Effect(if e.record.Some? then Put(t, args[1], e.cell) else t, e.reply, e.record)
  }

  /** One request at one clock reading. */
  function Exec(l: Limits, t: Table, now: int, args: seq<string>): Effect {
    if args == [] then Effect(t, Failed(EmptyCommand), None)
    else
      match VerbOf(args[0])
      case DEL => ExecDel(t, now, args)
      case MSET => ExecMset(l, t, args)
      case FLUSHDB => ExecFlush(t, args)
      case READ(q) => Effect(t, ReadReply(t, now, q, args), None)
      case OTHER => Effect(t, Failed(NotModelled), None)
      case _ => ExecKeyed(l, t, now, args)
  }

  /** Every product the option loop of SET forms stays inside 64 bits, whatever becomes of the request. */
  predicate OptionsInRange(args: seq<string>, i: nat, plan: Plan)
    requires i <= |args|
    decreases |args| - i
  {
    i == |args| ||
    match OptionOf(args[i])
    case NxOption => plan.cond.XX? || OptionsInRange(args, i + 1, plan.(cond := NX))
    case XxOption => plan.cond.NX? || OptionsInRange(args, i + 1, plan.(cond := XX))
    case TimeOption(unit) =>
      i + 1 >= |args| || plan.ttl.Some? || plan.pxat.Some? ||
      (ProductInRange(unit, args[i + 1]) &&
       match TimeStep(plan, unit, args[i + 1])
       case Err(_) => true
       case Ok(next) => OptionsInRange(args, i + 2, next))
    case NoOption => true
  }

  /** EX refuses a product above the range by itself; EXAT has no guard at all. */
  predicate ProductInRange(unit: TimeUnit, arg: string) {
    var n := ParseI64(arg);
    n.Some? ==> (unit.EX? ==> I64_MIN <= n.value * 1000) && (unit.EXAT? ==> InI64(n.value * 1000))
  }

  /** The times the request computes stay inside 64 bits, as the source assumes. */
  predicate InRange(args: seq<string>, now: int) {
    |args| >= 3 ==>
      match VerbOf(args[0])
      case SET =>
        OptionsInRange(args, 3, NO_OPTIONS) &&
        (match SetPlan(args)
         case Err(_) => true
         case Ok(plan) =>
           PlanExpiry(plan, now).Some? ==> 0 < PlanExpiry(plan, now).value <= I64_MAX)
      case EXPIRE => TtlInRange(args[2], 1000, now)
      case PEXPIRE => TtlInRange(args[2], 1, now)
      case _ => true
  }

  predicate TtlInRange(arg: string, multiplier: int, now: int)
    requires multiplier > 0
  {
    var n, ttl := ParseI64(arg), TtlArg(arg, multiplier);
    && (n.Some? ==> I64_MIN <= n.value * multiplier)
    && (ttl.Some? ==> InI64(ttl.value) && InI64(now + ttl.value))
  }

  // --- Names and times ------------------------------------------------------------------------

  /** The same letter in either case, or the same character. */
  predicate SameLetter(c: char, d: char) {
    c == d || ('a' <= c <= 'z' && d as int == c as int - 32) || ('a' <= d <= 'z' && c as int == d as int - 32)
  }

  predicate SameLetters(s: string, t: string) {
    |s| == |t| && forall i | 0 <= i < |s| :: SameLetter(s[i], t[i])
  }

  /** Two texts fold together exactly when they differ in letter case only. */
  lemma UpperFolds(s: string, t: string)
    ensures Upper(s) == Upper(t) <==> SameLetters(s, t)
  {
    if SameLetters(s, t) {
      assert forall i | 0 <= i < |s| :: UpperChar(s[i]) == UpperChar(t[i]) by {
        assert forall i | 0 <= i < |s| :: SameLetter(s[i], t[i]);
      }
    }
    if Upper(s) == Upper(t) {
      assert |s| == |t|;
      forall i | 0 <= i < |s|
        ensures SameLetter(s[i], t[i])
      {
        assert Upper(s)[i] == Upper(t)[i];
      }
    }
  }

  /** Command names and SET options are recognised in any letter case. */
  lemma NamesAreCaseless(s: string, t: string)
    requires SameLetters(s, t)
    ensures VerbOf(s) == VerbOf(t) && OptionOf(s) == OptionOf(t)
  {
    hide Upper;
    UpperFolds(s, t);
  }

  /** Wherever the product does not fall below 64 bits, a duration is refused exactly when it is no
      integer or its milliseconds exceed 64 bits; otherwise it is the exact product. */
  lemma TtlArgExact(s: string, multiplier: int)
    requires multiplier > 0
    ensures var n, r := ParseI64(s), TtlArg(s, multiplier);
            (n.Some? ==> I64_MIN <= n.value * multiplier) ==>
              && (r.Some? <==> n.Some? && InI64(n.value * multiplier))
              && (r.Some? ==> r.value == n.value * multiplier)
  {
    hide ParseI64;
    var n := ParseI64(s);
    if n.Some? {
      GuardIsExact(n.value, multiplier, I64_MAX);
    }
  }

  lemma GuardIsExact(n: int, m: int, max: int)
    requires m > 0 && max >= 0
    ensures n > 0 && n > max / m <==> n * m > max
  {
    var q := max / m;
    assert max == q * m + max % m;
    if n > q {
      MulAtLeast(n - q - 1, m);
      assert n * m == (n - q - 1) * m + q * m + m;
    } else {
      MulAtLeast(q - n, m);
      assert q * m == (q - n) * m + n * m;
    }
  }

  lemma MulAtLeast(a: nat, m: nat)
    ensures a * m >= 0
  {
  }
}
