/** A crash inside BGREWRITEAOF between replacing the log and removing the manifest: the old snapshot is
    then read with the end of the new log from the old offset on. When that is harmless, exactly. */
module Rewritten {
  import opened Wrappers
  import opened Resp
  import opened RespTheorems
  import opened Store
  import opened Replay
  import opened Checkpoint
  import opened Node
  import opened Disk
  import opened Durability

  /** Items laid over a table. */
  function Over(u: Table, items: seq<Item>): Table {
    if items == [] then u
    else
      var last := items[|items| - 1];
      Put(Over(u, items[..|items| - 1]), last.key, ItemCell(last))
  }

  lemma {:induction false} ReplayDumpOver(l: Limits, u: Table, items: seq<Item>, at: int)
    requires BoundedItems(l, items)
    ensures Reads(ReplayLog(l, Some(u), at, Dump(items)), Over(u, items), at)
  {
    hide DumpOne, ReplayLog, BoundedItem;
    if items == [] {
      ReplayNoDump(l, u, at);
    } else {
      var front, last := items[..|items| - 1], items[|items| - 1];
      ReplayDumpOver(l, u, front, at);
      ReplaySplit(l, Some(u), at, Dump(front), DumpOne(last));
      ReplayDumpOne(l, Over(u, front), ReplayLog(l, Some(u), at, Dump(front)).value, at, last);
    }
  }

  lemma ReplayNoDump(l: Limits, u: Table, at: int)
    ensures ReplayLog(l, Some(u), at, Dump([])) == Some(u)
  {
  }

  predicate KeyIn(items: seq<Item>, k: string) {
    exists p :: 0 <= p < |items| && items[p].key == k
  }

  /** A listing laid over a table decides its own keys, as in the table it lists, and no others. */
  lemma {:induction false} LookOver(u: Table, items: seq<Item>, t: Table, now: int, at: int, k: string)
    requires now <= at && forall e | e in items :: Look(t, e.key, now) == ItemCell(e)
    ensures Look(Over(u, items), k, at) == if KeyIn(items, k) then Look(t, k, at) else Look(u, k, at)
  {
    if items != [] {
      var n := |items| - 1;
      var front, last := items[..n], items[n];
      LookOver(u, front, t, now, at, k);
      LookPut(Over(u, front), last.key, ItemCell(last), k, at);
      if k == last.key {
        assert items[n].key == k;
      } else {
        assert KeyIn(items, k) ==> KeyIn(front, k) by {
          if KeyIn(items, k) {
            var p :| 0 <= p < |items| && items[p].key == k;
            assert front[p].key == k;
          }
        }
        assert KeyIn(front, k) ==> KeyIn(items, k) by {
          if KeyIn(front, k) {
            var p :| 0 <= p < |front| && front[p].key == k;
            assert items[p].key == k;
          }
        }
      }
    }
  }

  lemma {:induction false} DumpSplit(items: seq<Item>, i: nat)
    requires i <= |items|
    ensures Dump(items) == Dump(items[..i]) + Dump(items[i..])
    decreases |items|
  {
    hide DumpOne;
    if i == |items| {
      assert items[..i] == items && items[i..] == [];
    } else {
      var n := |items| - 1;
      DumpSplit(items[..n], i);
      assert items[..n][..i] == items[..i] && items[..n][i..] == items[i..][..n - i];
      assert items[i..][n - i] == items[n];
    }
  }

  /** The old snapshot reads like the live table wherever the rest of the rewritten log is silent. */
  ghost predicate AgreeOutside(s: Table, t: Table, items: seq<Item>, at: int) {
    forall k | !KeyIn(items, k) :: Look(s, k, at) == Look(t, k, at)
  }

  lemma RestExact(l: Limits, s: Table, t: Table, items: seq<Item>, now: int, at: int)
    requires now <= at && BoundedItems(l, items) && forall e | e in items :: Look(t, e.key, now) == ItemCell(e)
    ensures Reads(ReplayLog(l, Some(s), at, Dump(items)), t, at) <==> AgreeOutside(s, t, items, at)
  {
    hide ReplayLog, Dump, Over, KeyIn, BoundedItem;
    ReplayDumpOver(l, s, items, at);
    var r, o := ReplayLog(l, Some(s), at, Dump(items)).value, Over(s, items);
    forall k
      ensures Look(r, k, at) == if KeyIn(items, k) then Look(t, k, at) else Look(s, k, at)
    {
      LookOver(s, items, t, now, at, k);
    }
  }

  /** What recovery finds when the old offset ends an item of the new log. */
  lemma RecoverRest(cfg: Config, f: Files, s: Table, items: seq<Item>, i: nat, at: int)
    requires i <= |items| && f.aof == EncodeAll(Dump(items)) && UsableOffset(cfg, f) == Some(|EncodeAll(Dump(items[..i]))|)
    requires f.snapshot.Some? && LoadBytes(cfg, at, f.snapshot.value) == Some(s)
    requires AllFit(cfg.Options(), Dump(items)) && |EncodeAll(Dump(items))| <= cfg.maxRequest
    ensures RecoverFiles(cfg, f, at) == ReplayLog(cfg.Limits(), Some(s), at, Dump(items[i..]))
  {
    hide EncodeAll, Dump, Fits, UsableOffset, LoadBytes, ReplayBytes, ReplayLog, NextValue;
    var head, tail := Dump(items[..i]), Dump(items[i..]);
    DumpSplit(items, i);
    EncodeAppend(head, tail);
    assert Dump(items)[..|head|] == head && Dump(items)[|head|..] == tail;
    NothingMore(cfg);
    assert EncodeAll(Dump(items)) + "" == EncodeAll(Dump(items)) && EncodeAll(tail) + "" == EncodeAll(tail);
    ReplayTail(cfg, s, at, Dump(items), |head|, "");
  }

  lemma NothingMore(cfg: Config)
    ensures NextValue(cfg.Options(), "").NeedMore?
  {
  }

  /** A crash between the log rename and the manifest removal, when the old offset ends an item of the new
      log: the restart gives the live view if and only if the old snapshot agrees with the live table on
      every key the rest of the new log does not name. */
  lemma RewriteCrashExact(cfg: Config, events: seq<Event>, ev: Event, i: nat, at: int)
    requires ev.Rewrite? && cfg.manifestNamed && Served(cfg, events, at) && Served(cfg, events + [ev], at) && i <= |ev.items|
    requires UsableOffset(cfg, CrashFiles(cfg, FilesAfter(cfg, events), ev)[1]) == Some(|EncodeAll(Dump(ev.items[..i]))|)
    ensures var s := FilesAfter(cfg, events);
            && s.files.snapshot.Some? && LoadBytes(cfg, at, s.files.snapshot.value).Some?
            && (Reads(RecoverFiles(cfg, CrashFiles(cfg, s, ev)[1], at), s.table, at) <==>
                AgreeOutside(LoadBytes(cfg, at, s.files.snapshot.value).value, s.table, ev.items[i..], at))
  {
    var s := FilesAfter(cfg, events);
    var f := CrashFiles(cfg, s, ev)[1];
    assert f == s.files.(aof := EncodeAll(Dump(ev.items)));
    HasManifest(cfg, f);
    hide CrashFiles, FilesAfter, UsableOffset, LoadBytes, EncodeAll, Dump, Served, RecoverFiles, AgreeOutside, BoundedItem;
    var _, _, _ := ManifestInvariant(cfg, events, at);
    RewriteReadable(cfg, events, ev, at);
    var past := LoadBytes(cfg, at, s.files.snapshot.value).value;
    RecoverRest(cfg, f, past, ev.items, i, at);
    assert forall e | e in ev.items[i..] :: e in ev.items;
    RestExact(cfg.Limits(), past, s.table, ev.items[i..], ev.now, at);
  }

  lemma HasManifest(cfg: Config, f: Files)
    requires UsableOffset(cfg, f).Some?
    ensures f.manifest.Some?
  {
  }

  lemma LastEvent(l: Limits, events: seq<Event>, ev: Event, at: int)
    requires LegalRun(l, events + [ev], at)
    ensures LegalRun(l, events, at) && Legal(l, After(l, events), ev, at) && After(l, events + [ev]) == Step(l, After(l, events), ev)
  {
    hide Legal, Step;
    var all := events + [ev];
    assert all[..|all| - 1] == events;
  }

  lemma RewriteReadable(cfg: Config, events: seq<Event>, ev: Event, at: int)
    requires ev.Rewrite? && cfg.manifestNamed && Served(cfg, events, at) && Served(cfg, events + [ev], at)
    ensures AllFit(cfg.Options(), Dump(ev.items)) && |EncodeAll(Dump(ev.items))| <= cfg.maxRequest && ev.now <= at
    ensures BoundedItems(cfg.Limits(), ev.items)
    ensures forall e | e in ev.items :: Look(FilesAfter(cfg, events).table, e.key, ev.now) == ItemCell(e)
  {
    hide LegalRun, After, SmallAtRestarts, Small, WireRun, Workable, EncodeAll, Dump, Fits, FilesAfter, BoundedItem, BoundedTable, Ranged;
    var l, all := cfg.Limits(), events + [ev];
    var n := After(l, events);
    LastEvent(l, events, ev, at);
    RunIsReadable(cfg, all, at);
    assert Dump(ev.items)[0..] == Dump(ev.items);
    RunIsReadable(cfg, events, at);
    RunIsSound(l, events, at);
    ListingBounded(l, ev.items, n.table, ev.now);
  }
}
