/** What the commands on several keys, on none, and on all of them mean to clients; how many arguments each
    command takes; and that no other name does anything. */
module ManyKeys {
  import opened Wrappers
  import opened Text
  import opened Store
  import opened Commands
  import opened Replay
  import opened Clients

  // --- DEL, EXISTS and MGET -------------------------------------------------------------------

  /** The keys among the arguments from position i on that readers see. */
  function SeenKeys(t: Table, now: int, args: seq<string>, i: nat): set<string>
    requires i <= |args|
  {
    set k | k in args[i..] && Look(t, k, now).Some?
  }

  lemma SeenKeysNext(t: Table, now: int, args: seq<string>, i: nat)
    requires i < |args|
    ensures var k, rest := args[i], SeenKeys(t, now, args, i + 1);
            SeenKeys(t, now, args, i) == if Look(t, k, now).Some? then rest + {k} else rest
  {
    hide Look;
    assert args[i..] == [args[i]] + args[i + 1..];
  }

  lemma SeenKeysErased(t: Table, now: int, args: seq<string>, i: nat, k: string)
    requires i <= |args|
    ensures SeenKeys(Put(t, k, None), now, args, i) == SeenKeys(t, now, args, i) - {k}
  {
    hide Look, Put;
    forall j
      ensures Look(Put(t, k, None), j, now) == if j == k then None else Look(t, j, now)
    {
      LookPut(t, k, None, j, now);
    }
  }

  lemma {:induction false} DelCounts(t: Table, now: int, args: seq<string>, i: nat)
    requires i <= |args|
    ensures DelKeys(t, now, args, i).1 == |SeenKeys(t, now, args, i)|
    decreases |args| - i
  {
    hide Look, SeenKeys, Put;
    if i == |args| {
      NoneSeen(t, now, args);
    } else {
      var k := args[i];
      SeenKeysNext(t, now, args, i);
      if Look(t, k, now).None? {
        DelCounts(t, now, args, i + 1);
      } else {
        DelCounts(Put(t, k, None), now, args, i + 1);
        SeenKeysErased(t, now, args, i + 1, k);
        var rest := SeenKeys(t, now, args, i + 1);
        assert rest + {k} == (rest - {k}) + {k};
      }
    }
  }

  lemma NoneSeen(t: Table, now: int, args: seq<string>)
    ensures SeenKeys(t, now, args, |args|) == {}
  {
  }

  /** DEL: the answer is how many different keys it names that readers saw; none of those it names is seen
      ever after, every other reads as before, and it logs itself unless the answer is zero. */
  lemma DelExact(l: Limits, t: Table, now: int, keys: seq<string>, k: string, at: int)
    requires keys != [] && now <= at
    ensures var args := ["DEL"] + keys;
            var e, seen := Exec(l, t, now, args), set k | k in keys && Sees(l, t, k, now);
            && e.reply == Number(|seen|) && e.record == (if seen == {} then None else Some(args))
            && Look(e.table, k, at) == if k in keys then None else Look(t, k, at)
  {
    hide VerbOf, Exec, DelKeys, SeenKeys, Look;
    var args := ["DEL"] + keys;
    assert args[0] == "DEL" && args[1..] == keys;
    DelExecuted(l, t, now, args);
    DelCounts(t, now, args, 1);
    LookDelKeys(t, now, args, 1, k, at);
    SeenAreSeen(l, t, now, keys);
  }

  lemma DelExecuted(l: Limits, t: Table, now: int, args: seq<string>)
    requires |args| >= 2 && args[0] == "DEL"
    ensures var r := DelKeys(t, now, args, 1);
            Exec(l, t, now, args) == Effect(r.0, Number(r.1), if r.1 != 0 then Some(args) else None)
  {
    hide VerbOf;
    WriteNames();
  }

  lemma SeenAreSeen(l: Limits, t: Table, now: int, keys: seq<string>)
    ensures SeenKeys(t, now, ["DEL"] + keys, 1) == set k | k in keys && Sees(l, t, k, now)
  {
    hide Exec, Look, Sees;
    assert (["DEL"] + keys)[1..] == keys;
    forall k
      ensures Sees(l, t, k, now) <==> Look(t, k, now).Some?
    {
      GetExact(l, t, k, now);
    }
  }

  /** EXISTS of one key answers 1 or 0; of several, the sum, so that a key named twice counts twice. */
  lemma ExistsExact(l: Limits, t: Table, now: int, keys: seq<string>, k: string)
    requires keys != []
    ensures Exec(l, t, now, ["EXISTS", k]) == Effect(t, Number(if Sees(l, t, k, now) then 1 else 0), None)
    ensures var one, few, all := Exec(l, t, now, ["EXISTS", k]).reply, Exec(l, t, now, ["EXISTS"] + keys).reply,
                                 Exec(l, t, now, ["EXISTS", k] + keys).reply;
            one.Number? && few.Number? && all == Number(one.n + few.n)
  {
    hide VerbOf, Sees;
    ReadNames();
    GetExact(l, t, k, now);
    var few, all := ["EXISTS"] + keys, ["EXISTS", k] + keys;
    assert few[0] == "EXISTS" && all[0] == "EXISTS" && all[1] == k;
    assert CountLive(t, now, ["EXISTS", k], 2) == 0;
    assert all[2..] == few[1..];
    CountShift(t, now, all, 2, few, 1);
  }

  lemma {:induction false} CountShift(t: Table, now: int, a: seq<string>, i: nat, b: seq<string>, j: nat)
    requires i <= |a| && j <= |b| && a[i..] == b[j..]
    ensures CountLive(t, now, a, i) == CountLive(t, now, b, j)
    decreases |a| - i
  {
    assert |a| - i == |a[i..]| == |b[j..]| == |b| - j;
    if i < |a| {
      assert a[i] == a[i..][0] == b[j..][0] == b[j];
      assert a[i + 1..] == a[i..][1..] && b[j + 1..] == b[j..][1..];
      CountShift(t, now, a, i + 1, b, j + 1);
    }
  }

  /** MGET answers, for each key in turn, what GET answers. */
  lemma MgetExact(l: Limits, t: Table, now: int, keys: seq<string>, i: nat)
    requires i < |keys|
    ensures var e, one := Exec(l, t, now, ["MGET"] + keys), Exec(l, t, now, ["GET", keys[i]]).reply;
            && e.table == t && e.record.None? && e.reply.Texts? && |e.reply.texts| == |keys|
            && e.reply.texts[i] == (if one.Text? then Some(one.text) else None)
  {
    hide VerbOf;
    ReadNames();
    var args := ["MGET"] + keys;
    assert args[0] == "MGET" && args[i + 1] == keys[i];
    GetExact(l, t, keys[i], now);
    ValueOf(t, now, args, 1, i);
  }

  lemma {:induction false} ValueOf(t: Table, now: int, args: seq<string>, from: nat, i: nat)
    requires from + i < |args|
    ensures |ValuesAt(t, now, args, from)| == |args| - from && ValuesAt(t, now, args, from)[i] == ValueAt(t, now, args[from + i])
    decreases |args| - from
  {
    hide ValueAt;
    if i > 0 {
      ValueOf(t, now, args, from + 1, i - 1);
    } else if from + 1 < |args| {
      ValueOf(t, now, args, from + 1, 0);
    } else {
      assert ValuesAt(t, now, args, from + 1) == [];
    }
  }

  // --- MSET -----------------------------------------------------------------------------------

  /** The pairs from position i on, stored by one SET after another until one is refused. */
  function SetsInTurn(l: Limits, t: Table, now: int, args: seq<string>, i: nat): (Table, Reply)
    requires i <= |args| && (|args| - i) % 2 == 0
    decreases |args| - i
  {
    if i == |args| then (t, OkReply)
    else
      var e := Exec(l, t, now, ["SET", args[i], args[i + 1]]);
      if e.reply == OkReply then SetsInTurn(l, e.table, now, args, i + 2) else (t, e.reply)
  }

  lemma {:induction false} PairsAreSets(l: Limits, t: Table, now: int, args: seq<string>, i: nat)
    requires i <= |args| && (|args| - i) % 2 == 0
    ensures var r := SetPairs(l, t, args, i);
            SetsInTurn(l, t, now, args, i) == (r.1, if r.0.Stored? then OkReply else Failed(Storage(r.0)))
    decreases |args| - i
  {
    hide Exec;
    if i < |args| {
      OneSet(l, t, now, args[i], args[i + 1]);
      PairsAreSets(l, Put(t, args[i], Some(Entry(args[i + 1], None))), now, args, i + 2);
    }
  }

  lemma OneSet(l: Limits, t: Table, now: int, k: string, v: string)
    ensures var e, w := Exec(l, t, now, ["SET", k, v]), SetCell(l, k, None, v, None, Always);
            && (w.code.Stored? ==> e.table == Put(t, k, w.cell) && e.reply == OkReply)
            && (!w.code.Stored? ==> e.table == t && e.reply == Failed(Storage(w.code)))
  {
    hide VerbOf;
    WriteNames();
    assert SetPlan(["SET", k, v]) == Ok(NO_OPTIONS);
    Keyed(l, t, now, ["SET", k, v]);
  }

  /** MSET leaves and answers what the SETs of its pairs, one after another, leave and answer, stopping at
      the first refused one; it logs itself if none is. */
  lemma MsetIsSets(l: Limits, t: Table, now: int, args: seq<string>)
    requires |args| >= 3 && |args| % 2 == 1 && args[0] == "MSET"
    ensures var e, sets := Exec(l, t, now, args), SetsInTurn(l, t, now, args, 1);
            e == Effect(sets.0, sets.1, if sets.1 == OkReply then Some(args) else None)
  {
    hide VerbOf, SetPairs, SetsInTurn;
    WriteNames();
    PairsAreSets(l, t, now, args, 1);
  }

  // --- DBSIZE, FLUSHDB, PING and ECHO ---------------------------------------------------------

  /** DBSIZE counts the keys readers see. */
  lemma DbSizeExact(l: Limits, t: Table, now: int, keys: set<string>)
    requires forall k :: k in keys <==> Sees(l, t, k, now)
    ensures Exec(l, t, now, ["DBSIZE"]) == Effect(t, Number(|keys|), None)
  {
    hide VerbOf, Sees;
    ReadNames();
    forall k
      ensures k in keys <==> k in LiveKeys(t, now)
    {
      GetExact(l, t, k, now);
    }
    assert keys == LiveKeys(t, now);
  }

  /** The keys counted as expiring are those PTTL gives a time. */
  lemma ExpiringExact(l: Limits, t: Table, now: int, k: string)
    ensures var r := Exec(l, t, now, ["PTTL", k]).reply; k in ExpiringKeys(t, now) <==> r.Number? && r.n > 0
  {
    hide Exec;
    TtlReplies(l, t, now, k);
  }

  /** After FLUSHDB nothing is seen, at any time. */
  lemma FlushExact(l: Limits, t: Table, now: int, k: string, at: int)
    ensures var e := Exec(l, t, now, ["FLUSHDB"]);
            && e.reply == OkReply && e.record == Some(["FLUSHDB"])
            && Exec(l, e.table, at, ["GET", k]).reply == Nil && Exec(l, e.table, at, ["DBSIZE"]).reply == Number(0)
  {
    hide Exec, Sees;
    FlushExecuted(l, t, now);
    GetExact(l, map[], k, at);
    forall j
      ensures !Sees(l, map[], j, at)
    {
      GetExact(l, map[], j, at);
    }
    DbSizeExact(l, map[], at, {});
  }

  lemma FlushExecuted(l: Limits, t: Table, now: int)
    ensures Exec(l, t, now, ["FLUSHDB"]) == Effect(map[], OkReply, Some(["FLUSHDB"]))
  {
    hide VerbOf;
    WriteNames();
  }

  /** PING answers PONG, or its argument as ECHO does. */
  lemma PingEcho(l: Limits, t: Table, now: int, text: string)
    ensures Exec(l, t, now, ["PING"]) == Effect(t, Text("PONG"), None)
    ensures Exec(l, t, now, ["PING", text]) == Exec(l, t, now, ["ECHO", text]) == Effect(t, Text(text), None)
  {
    hide VerbOf;
    ReadNames();
  }

  // --- How many arguments, and which names ----------------------------------------------------

  /** The argument counts the handlers accept, the name included. */
  predicate Takes(name: string, n: nat) {
    if name in {"GET", "STRLEN", "ECHO", "TTL", "PTTL", "INCR", "DECR", "PERSIST"} then n == 2
    else if name in {"APPEND", "EXPIRE", "PEXPIRE", "PEXPIREAT"} then n == 3
    else if name in {"DEL", "EXISTS", "MGET"} then n >= 2
    else if name in {"DBSIZE", "FLUSHDB"} then n == 1
    else if name == "PING" then n == 1 || n == 2
    else if name == "SET" then n >= 3
    else name == "MSET" && n >= 3 && n % 2 == 1
  }

  const REGISTERED := {"PING", "ECHO", "GET", "SET", "DEL", "EXISTS", "MGET", "MSET", "INCR", "DECR", "APPEND", "STRLEN",
                       "EXPIRE", "PEXPIRE", "PEXPIREAT", "TTL", "PTTL", "PERSIST", "DBSIZE", "FLUSHDB"}

  /** Any other number of arguments is refused, and nothing else is refused for that reason. */
  lemma ArityExact(l: Limits, t: Table, now: int, args: seq<string>)
    requires args != [] && args[0] in REGISTERED
    ensures var e := Exec(l, t, now, args);
            && (e.reply == Failed(WrongArguments) <==> !Takes(args[0], |args|))
            && (e.reply == Failed(WrongArguments) ==> e == Effect(t, Failed(WrongArguments), None))
  {
    hide VerbOf, DelKeys, SetPairs, ExecCell, ReadReply, Look, Takes;
    Registered(args[0]);
    if IsKeyed(VerbOf(args[0])) {
      if |args| >= 2 { KeyedArity(l, Look(t, args[1], now), now, args); } else { TooFew(args[0]); }
    } else {
      RestArity(t, now, args);
    }
  }

  lemma Registered(name: string)
    requires name in REGISTERED
    ensures !VerbOf(name).OTHER?
    ensures IsKeyed(VerbOf(name)) <==> name in {"SET", "INCR", "DECR", "APPEND", "EXPIRE", "PEXPIRE", "PEXPIREAT", "PERSIST"}
  {
    hide VerbOf;
    WriteNames();
    ReadNames();
  }

  lemma TooFew(name: string)
    requires name in {"SET", "INCR", "DECR", "APPEND", "EXPIRE", "PEXPIRE", "PEXPIREAT", "PERSIST"}
    ensures !Takes(name, 1)
  {
  }

  lemma RestArity(t: Table, now: int, args: seq<string>)
    requires args != [] && args[0] in REGISTERED && !IsKeyed(VerbOf(args[0]))
    ensures match VerbOf(args[0])
            case READ(q) => ReadReply(t, now, q, args) == Failed(WrongArguments) <==> !Takes(args[0], |args|)
            case DEL => Takes(args[0], |args|) <==> |args| >= 2
            case MSET => Takes(args[0], |args|) <==> |args| >= 3 && |args| % 2 == 1
            case _ => Takes(args[0], |args|) <==> |args| == 1
  {
    hide VerbOf, Look;
    WriteNames();
    ReadNames();
  }

  lemma KeyedArity(l: Limits, c: Cell, now: int, args: seq<string>)
    requires |args| >= 2 && args[0] in {"SET", "INCR", "DECR", "APPEND", "EXPIRE", "PEXPIRE", "PEXPIREAT", "PERSIST"} && IsKeyed(VerbOf(args[0]))
    ensures var e := ExecCell(l, c, now, args);
            (e.reply == Failed(WrongArguments) <==> !Takes(args[0], |args|)) && (e.reply == Failed(WrongArguments) ==> e.record.None?)
  {
    hide VerbOf, ParseI64, TtlArg, SetOptions;
    WriteNames();
    if args[0] == "SET" && |args| >= 3 { OptionErrors(args, 3, NO_OPTIONS); }
  }

  lemma {:induction false} OptionErrors(args: seq<string>, i: nat, plan: Plan)
    requires i <= |args|
    ensures SetOptions(args, i, plan) != Err(WrongArguments)
    decreases |args| - i
  {
    hide OptionOf, TtlArg, ParseI64;
    if i < |args| {
      match OptionOf(args[i])
      case NxOption => OptionErrors(args, i + 1, plan.(cond := NX));
      case XxOption => OptionErrors(args, i + 1, plan.(cond := XX));
      case TimeOption(unit) =>
        if i + 1 < |args| {
          var step := TimeStep(plan, unit, args[i + 1]);
          if step.Ok? { OptionErrors(args, i + 2, step.value); }
        }
      case NoOption =>
    }
  }

  /** A name that is none of these, in any letter case, does nothing. */
  lemma OtherNames(l: Limits, t: Table, now: int, args: seq<string>)
    ensures args == [] ==> Exec(l, t, now, args) == Effect(t, Failed(EmptyCommand), None)
    ensures args != [] && Upper(args[0]) !in REGISTERED ==> Exec(l, t, now, args) == Effect(t, Failed(NotModelled), None)
  {
    hide Upper;
  }
}
