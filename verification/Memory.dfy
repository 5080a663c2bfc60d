/** What entries cost against the memory limit: ninety-six bytes, the key and the value; and when, to the
    byte, a write is refused for it. */
module Memory {
  import opened Wrappers
  import opened Store
  import opened Budget
  import opened Commands
  import opened Bounded
  import opened Clients

  /** What the key costs now, expired or not. */
  function CostOf(t: Table, k: string): nat {
    if k in t then 96 + |k| + |t[k].value| else 0
  }

  /** A plain SET is refused for memory exactly when the new total would pass the limit; otherwise the total
      changes by exactly the cost of the new entry and of the one it replaces. */
  lemma SetCosts(l: Limits, limit: nat, t: Table, now: int, k: string, v: string)
    requires |k| <= l.maxKey && |v| <= l.maxValue
    ensures var e, total := ExecWithin(l, limit, t, now, ["SET", k, v]), Bytes(t) - CostOf(t, k) + 96 + |k| + |v|;
            && (e.reply == OUT_OF_MEMORY <==> limit != 0 && total > limit)
            && (e.reply != OUT_OF_MEMORY ==> e.reply == OkReply && Bytes(e.table) == total)
  {
    hide VerbOf, SetPlan, Bytes;
    var args := ["SET", k, v];
    WriteNames();
    ConditionPlan(k, v);
    assert ExecWithin(l, limit, t, now, args) == KeyedWithin(l, limit, t, now, args);
    BytesPut(t, k, Some(Entry(v, None)));
  }

  /** An empty store takes nothing, so the first entry decides alone. */
  lemma FirstSetCosts(l: Limits, limit: nat, now: int, k: string, v: string)
    requires |k| <= l.maxKey && |v| <= l.maxValue
    ensures ExecWithin(l, limit, map[], now, ["SET", k, v]).reply == OUT_OF_MEMORY <==> limit != 0 && 96 + |k| + |v| > limit
  {
    hide ExecWithin, Bytes;
    NoBytes();
    SetCosts(l, limit, map[], now, k, v);
  }

  /** Appending to a key that is seen costs what is appended. */
  lemma AppendCosts(l: Limits, limit: nat, t: Table, now: int, k: string, suffix: string)
    requires |k| <= l.maxKey && Look(t, k, now).Some? && |Look(t, k, now).value.value + suffix| <= l.maxValue
    ensures var e := ExecWithin(l, limit, t, now, ["APPEND", k, suffix]);
            && (e.reply == OUT_OF_MEMORY <==> limit != 0 && Bytes(t) + |suffix| > limit)
            && (e.reply != OUT_OF_MEMORY ==> Bytes(e.table) == Bytes(t) + |suffix|)
  {
    var args := ["APPEND", k, suffix];
    WriteNames();
    hide VerbOf, Bytes;
    assert ExecWithin(l, limit, t, now, args) == KeyedWithin(l, limit, t, now, args);
    BytesPut(t, k, Some(Entry(Look(t, k, now).value.value + suffix, None)));
  }

  /** Deleting a key that is stored gives back its cost; flushing gives back everything. */
  lemma DeleteFrees(l: Limits, limit: nat, t: Table, now: int, k: string)
    ensures Bytes(ExecWithin(l, limit, t, now, ["DEL", k]).table) == Bytes(t) - CostOf(t, k)
    ensures Bytes(ExecWithin(l, limit, t, now, ["FLUSHDB"]).table) == 0
  {
    WriteNames();
    hide VerbOf, Bytes;
    NoBytes();
    BytesPut(t, k, None);
    assert Without(t, ["DEL", k], 1) == Without(Put(t, k, None), ["DEL", k], 2) == Put(t, k, None);
  }

  /** Reading an expired key gives back its cost; reading any other changes nothing. */
  lemma ReadFrees(l: Limits, limit: nat, t: Table, now: int, name: string, k: string)
    requires name in {"GET", "STRLEN", "TTL", "PTTL", "EXISTS", "MGET"}
    ensures var e := ExecWithin(l, limit, t, now, [name, k]);
            if Sees(l, t, k, now) then e.table == t else k !in e.table && Bytes(e.table) == Bytes(t) - CostOf(t, k)
  {
    hide Exec, Bytes, VerbOf, ReadTable, ReadReply, Sees;
    GetExact(l, t, k, now);
    BytesPut(t, k, None);
    ReadPurges(t, now, name, k);
  }

  lemma ReadPurges(t: Table, now: int, name: string, k: string)
    requires name in {"GET", "STRLEN", "TTL", "PTTL", "EXISTS", "MGET"}
    ensures VerbOf(name).READ? && ReadTable(t, now, VerbOf(name).query, [name, k]) == Purged(t, k, now)
  {
    ReadNames();
    hide VerbOf, Purged;
    var args := [name, k];
    assert PurgedAll(t, args, 1, now) == PurgedAll(Purged(t, k, now), args, 2, now) == Purged(t, k, now);
  }

  /** After DBSIZE nothing expired is stored, and everything else is. */
  lemma DbSizeSweeps(l: Limits, limit: nat, t: Table, now: int, k: string)
    ensures var e := ExecWithin(l, limit, t, now, ["DBSIZE"]);
            k in e.table <==> Sees(l, t, k, now)
  {
    ReadNames();
    GetExact(l, t, k, now);
    hide VerbOf, Sees, ReadReply;
  }
}
