/** A request cannot tell apart tables that read the same at its clock reading. */
module Congruence {
  import opened Wrappers
  import opened Store
  import opened Commands
  import opened Replay

  /** Two outcomes of one request that no client and no log can tell apart at `now`. */
  ghost predicate Alike(e: Effect, f: Effect, now: int) {
    e.reply == f.reply && e.record == f.record && Same(e.table, f.table, now)
  }

  lemma {:induction false} DelAlike(t: Table, u: Table, now: int, args: seq<string>, i: nat)
    requires i <= |args| && Same(t, u, now)
    ensures DelKeys(t, now, args, i).1 == DelKeys(u, now, args, i).1
    ensures Same(DelKeys(t, now, args, i).0, DelKeys(u, now, args, i).0, now)
    decreases |args| - i
  {
    if i < |args| {
      assert Look(t, args[i], now) == Look(u, args[i], now);
      if Look(t, args[i], now).None? {
        DelAlike(t, u, now, args, i + 1);
      } else {
        PutSame(t, u, args[i], None, None, now);
        DelAlike(Put(t, args[i], None), Put(u, args[i], None), now, args, i + 1);
      }
    }
  }

  lemma {:induction false} PairsAlike(l: Limits, t: Table, u: Table, now: int, args: seq<string>, i: nat)
    requires i <= |args| && (|args| - i) % 2 == 0 && Same(t, u, now)
    ensures SetPairs(l, t, args, i).0 == SetPairs(l, u, args, i).0
    ensures Same(SetPairs(l, t, args, i).1, SetPairs(l, u, args, i).1, now)
    decreases |args| - i
  {
    if i < |args| {
      var w := SetCell(l, args[i], None, args[i + 1], None, Always);
      if w.code.Stored? {
        PutSame(t, u, args[i], w.cell, w.cell, now);
        PairsAlike(l, Put(t, args[i], w.cell), Put(u, args[i], w.cell), now, args, i + 2);
      }
    }
  }

  lemma KeyedAlike(l: Limits, t: Table, u: Table, now: int, args: seq<string>)
    requires |args| >= 1 && IsKeyed(VerbOf(args[0])) && Same(t, u, now)
    ensures Alike(ExecKeyed(l, t, now, args), ExecKeyed(l, u, now, args), now)
  {
    hide ExecCell;
    if |args| >= 2 {
      assert Look(t, args[1], now) == Look(u, args[1], now);
      var e := ExecCell(l, Look(t, args[1], now), now, args);
      PutSame(t, u, args[1], e.cell, e.cell, now);
    }
  }

  lemma {:induction false} CountAlike(t: Table, u: Table, now: int, args: seq<string>, i: nat)
    requires i <= |args| && Same(t, u, now)
    ensures CountLive(t, now, args, i) == CountLive(u, now, args, i)
    ensures ValuesAt(t, now, args, i) == ValuesAt(u, now, args, i)
    decreases |args| - i
  {
    if i < |args| {
      assert Look(t, args[i], now) == Look(u, args[i], now);
      CountAlike(t, u, now, args, i + 1);
    }
  }

  /** Readers of tables that read the same get the same answers. */
  lemma ReadAlike(t: Table, u: Table, now: int, q: Query, args: seq<string>)
    requires Same(t, u, now)
    ensures ReadReply(t, now, q, args) == ReadReply(u, now, q, args)
  {
    hide CountLive, ValuesAt, LiveKeys;
    SameKeys(t, u, now);
    if |args| >= 2 {
      assert Look(t, args[1], now) == Look(u, args[1], now);
      CountAlike(t, u, now, args, 1);
    }
  }

  lemma ExecAlike(l: Limits, t: Table, u: Table, now: int, args: seq<string>)
    requires Same(t, u, now)
    ensures Alike(Exec(l, t, now, args), Exec(l, u, now, args), now)
  {
    if args != [] {
      hide ExecKeyed, DelKeys, SetPairs, ReadReply;
      match VerbOf(args[0])
      case DEL => if |args| >= 2 { DelAlike(t, u, now, args, 1); }
      case MSET => if |args| >= 3 && |args| % 2 == 1 { PairsAlike(l, t, u, now, args, 1); }
      case FLUSHDB =>
      case READ(q) => ReadAlike(t, u, now, q, args);
      case OTHER =>
      case _ => KeyedAlike(l, t, u, now, args);
    }
  }

  /** A record replays alike too. */
  lemma ReplayAlike(l: Limits, t: Table, u: Table, at: int, record: seq<string>)
    requires Same(t, u, at)
    ensures var a, b := ReplayOne(l, t, at, record), ReplayOne(l, u, at, record);
            a.Some? == b.Some? && (a.Some? ==> Same(a.value, b.value, at))
  {
    hide Exec;
    ExecAlike(l, t, u, at, record);
  }

  lemma {:induction false} ReplayLogAlike(l: Limits, t: Table, u: Table, at: int, log: seq<seq<string>>)
    requires Same(t, u, at)
    ensures var a, b := ReplayLog(l, Some(t), at, log), ReplayLog(l, Some(u), at, log);
            a.Some? == b.Some? && (a.Some? ==> Same(a.value, b.value, at))
  {
    hide ReplayOne;
    if log != [] {
      var front := log[..|log| - 1];
      ReplayLogAlike(l, t, u, at, front);
      var a, b := ReplayLog(l, Some(t), at, front), ReplayLog(l, Some(u), at, front);
      if a.Some? {
        ReplayAlike(l, a.value, b.value, at, log[|log| - 1]);
      }
    }
  }
}
