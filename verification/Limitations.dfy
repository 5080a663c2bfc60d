/** Where the unqualified promises fail: concrete runs, each showing that a hypothesis of the
    recovery theorems is needed. */
module Limitations {
  import opened Wrappers
  import opened Decimal
  import opened Resp
  import opened Store
  import opened Budget
  import opened Commands
  import opened Replay
  import opened Bounded
  import opened Checkpoint
  import opened Node
  import opened Manifest
  import opened Disk
  import opened Durability
  import opened Rewritten
  import opened Limited
  import Workers

  // --- Concrete commands ----------------------------------------------------------------------

  lemma Names()
    ensures VerbOf("SET") == SET && VerbOf("DEL") == DEL && VerbOf("INCR") == INCR && VerbOf("MSET") == MSET
  {
    UpperIdentity("SET");
    UpperIdentity("DEL");
    UpperIdentity("INCR");
    UpperIdentity("MSET");
  }

  lemma ExecPlainSet(l: Limits, t: Table, now: int, k: string, v: string)
    requires |k| <= l.maxKey && |v| <= l.maxValue
    ensures Exec(l, t, now, ["SET", k, v]) == Effect(Put(t, k, Some(Entry(v, None))), OkReply, Some(["SET", k, v]))
    ensures InRange(["SET", k, v], now)
  {
    Names();
    assert SetPlan(["SET", k, v]) == Ok(NO_OPTIONS);
    assert Exec(l, t, now, ["SET", k, v]) == ExecKeyed(l, t, now, ["SET", k, v]);
  }

  lemma ExecOneDel(l: Limits, t: Table, now: int, k: string)
    requires Look(t, k, now).Some?
    ensures Exec(l, t, now, ["DEL", k]) == Effect(Put(t, k, None), Number(1), Some(["DEL", k]))
    ensures InRange(["DEL", k], now)
  {
    Names();
    var args := ["DEL", k];
    assert DelKeys(Put(t, k, None), now, args, 2) == (Put(t, k, None), 0);
    assert DelKeys(t, now, args, 1) == (Put(t, k, None), 1);
  }

  lemma ExecIncrDigit(l: Limits, t: Table, now: int, k: string, d: nat)
    requires |k| <= l.maxKey && 1 <= l.maxValue && d < 9
    requires if d == 0 then Look(t, k, now).None? else Look(t, k, now).Some? && Look(t, k, now).value.value == [Digit(d)]
    ensures Exec(l, t, now, ["INCR", k]) ==
            Effect(Put(t, k, Some(Entry([Digit(d + 1)], None))), Number(d + 1), Some(["INCR", k]))
    ensures InRange(["INCR", k], now)
  {
    Names();
    var c := Look(t, k, now);
    if d != 0 {
      assert IntText(d) == [Digit(d)];
      I64RoundTrip(d);
    }
    assert CounterValue(c) == Some(d);
    assert IntText(d + 1) == [Digit(d + 1)];
    assert Exec(l, t, now, ["INCR", k]) == ExecKeyed(l, t, now, ["INCR", k]);
  }

  // --- A lapsed key ---------------------------------------------------------------------------

  /** A counter that expires between an INCR and the replay: the live value is 6, the replayed one 1. */
  lemma LapsedCounterDiverges(l: Limits)
    requires 1 <= l.maxKey && 1 <= l.maxValue
    ensures var t := map["k" := Entry("5", Some(10))];
            var live := Exec(l, t, 5, ["INCR", "k"]);
            && live.record == Some(["INCR", "k"])
            && Look(live.table, "k", 20) == Some(Entry("6", None))
            && ReplayOne(l, t, 20, ["INCR", "k"]) == Some(map["k" := Entry("1", None)])
  {
    hide Exec;
    var t := map["k" := Entry("5", Some(10))];
    assert "5" == [Digit(5)] && "6" == [Digit(6)] && "1" == [Digit(1)];
    ExecIncrDigit(l, t, 5, "k", 5);
    ExecIncrDigit(l, t, 20, "k", 0);
    assert t["k" := Entry("1", None)] == map["k" := Entry("1", None)];
    LookPut(t, "k", Some(Entry("6", None)), "k", 20);
  }

  // --- A partial MSET -------------------------------------------------------------------------

  /** An MSET whose second pair is too large stores the first pair and logs nothing. */
  lemma PartialMsetDiverges(l: Limits, big: string)
    requires 1 <= l.maxKey && 1 <= l.maxValue && |big| > l.maxValue
    ensures var e := Exec(l, map[], 0, ["MSET", "a", "1", "b", big]);
            e.record.None? && e.reply.Failed? && e.table == map["a" := Entry("1", None)]
  {
    Names();
    var args := ["MSET", "a", "1", "b", big];
    var t := Put(map[], "a", Some(Entry("1", None)));
    assert SetPairs(l, t, args, 3) == (ValueTooLarge, t);
    assert SetPairs(l, map[], args, 1) == (ValueTooLarge, t);
  }

  // --- A crash in a second SAVE ---------------------------------------------------------------

  /** One more event. */
  lemma Grow(l: Limits, events: seq<Event>, ev: Event, at: int)
    requires !ev.Restart?
    ensures After(l, events + [ev]) == Step(l, After(l, events), ev)
    ensures LegalRun(l, events + [ev], at) <==> LegalRun(l, events, at) && Legal(l, After(l, events), ev, at)
    ensures ev.Save? ==> LastingSince(l, events + [ev], at)
    ensures ev.Write? && LastingSince(l, events, at) && Lasting(l, After(l, events).table, ev.now, ev.args, at) ==>
              LastingSince(l, events + [ev], at)
  {
    hide Legal, Step, Lasting;
    assert (events + [ev])[..|events|] == events;
  }

  /** Set n to 1, SAVE, and count once. */
  function CountEvents(): seq<Event> {
    [Write(["SET", "n", "1"], 1)] + [Save(2, [Item("n", "1", None)])] + [Write(["INCR", "n"], 3)]
  }

  function CountNode(): Node {
    Node(map["n" := Entry("2", None)], [["SET", "n", "1"], ["INCR", "n"]], Some([["SET", "n", "1"]]), Some(Mark(1, 2)))
  }

  lemma CountSaved(l: Limits, at: int)
    requires 1 <= l.maxKey && 1 <= l.maxValue && 3 <= at
    ensures var events := [Write(["SET", "n", "1"], 1)] + [Save(2, [Item("n", "1", None)])];
            && LegalRun(l, events, at) && LastingSince(l, events, at)
            && After(l, events) == Node(map["n" := Entry("1", None)], [["SET", "n", "1"]], Some([["SET", "n", "1"]]), Some(Mark(1, 2)))
  {
    hide Exec, InRange, Lasting, Lists, Dump;
    var set1 := Write(["SET", "n", "1"], 1);
    Grow(l, [], set1, at);
    assert [] + [set1] == [set1];
    ExecPlainSet(l, map[], 1, "n", "1");
    assert Put(map[], "n", Some(Entry("1", None))) == map["n" := Entry("1", None)];
    DumpSingle(Item("n", "1", None));
    Grow(l, [set1], Save(2, [Item("n", "1", None)]), at);
    assert [] + [["SET", "n", "1"]] == [["SET", "n", "1"]];
  }

  lemma CountReached(l: Limits, at: int)
    requires 1 <= l.maxKey && 1 <= l.maxValue && 3 <= at
    ensures LegalRun(l, CountEvents(), at) && LastingSince(l, CountEvents(), at) && After(l, CountEvents()) == CountNode()
  {
    hide Exec, InRange, After, LegalRun, LastingSince;
    CountSaved(l, at);
    var events := [Write(["SET", "n", "1"], 1)] + [Save(2, [Item("n", "1", None)])];
    Grow(l, events, Write(["INCR", "n"], 3), at);
    var t: Table := map["n" := Entry("1", None)];
    assert "1" == [Digit(1)] && "2" == [Digit(2)];
    ExecIncrDigit(l, t, 3, "n", 1);
    Names();
    assert Put(t, "n", Some(Entry("2", None))) == map["n" := Entry("2", None)];
    assert [["SET", "n", "1"]] + [["INCR", "n"]] == [["SET", "n", "1"], ["INCR", "n"]];
  }

  /** A run that would recover its counter at 2; but if a second SAVE stops between installing its snapshot
      and its manifest, the tail is replayed on top of the new snapshot and the counter recovers as 3. */
  lemma SecondSaveCrashDiverges(l: Limits, at: int)
    requires 1 <= l.maxKey && 1 <= l.maxValue && 4 <= at
    ensures LegalRun(l, CountEvents(), at) && LastingSince(l, CountEvents(), at)
    ensures var n, save := After(l, CountEvents()), Save(4, [Item("n", "2", None)]);
            && Legal(l, n, save, at) && Recover(l, n, at) == Some(n.table) && n.table == map["n" := Entry("2", None)]
            && Recover(l, CrashPoints(l, n, save)[1], at) == Some(map["n" := Entry("3", None)])
  {
    hide Exec, LoadLog, ReplayLog, Dump, Lists, After, LegalRun, LastingSince;
    CountReached(l, at);
    var n := CountNode();
    assert n.log[1..] == [["INCR", "n"]];
    DumpSingle(Item("n", "2", None));
    assert "1" == [Digit(1)] && "2" == [Digit(2)] && "3" == [Digit(3)];
    LoadSingle(l, at, "n", "1");
    LoadSingle(l, at, "n", "2");
    ReplayIncr(l, map["n" := Entry("1", None)], at, 1);
    ReplayIncr(l, map["n" := Entry("2", None)], at, 2);
  }

  lemma LoadSingle(l: Limits, at: int, k: string, v: string)
    requires |k| <= l.maxKey && |v| <= l.maxValue
    ensures LoadLog(l, Some(map[]), at, [["SET", k, v]]) == Some(map[k := Entry(v, None)])
  {
    var log := [["SET", k, v]];
    assert log[..0] == [];
    assert LoadLog(l, Some(map[]), at, []) == Some(map[]);
    assert LoadOne(l, map[], at, ["SET", k, v]) == Some(map[k := Entry(v, None)]);
  }

  lemma ReplayIncr(l: Limits, t: Table, at: int, d: nat)
    requires 1 <= l.maxKey && 1 <= l.maxValue && 0 < d < 9 && t == map["n" := Entry([Digit(d)], None)]
    ensures ReplayLog(l, Some(t), at, [["INCR", "n"]]) == Some(map["n" := Entry([Digit(d + 1)], None)])
  {
    ExecIncrDigit(l, t, at, "n", d);
    hide Exec;
    ReplayLogged(l, Some(t), at, [], Some(["INCR", "n"]));
    assert [] + Logged(Some(["INCR", "n"])) == [["INCR", "n"]];
    assert ReplayLog(l, Some(t), at, []) == Some(t);
    assert Put(t, "n", Some(Entry([Digit(d + 1)], None))) == map["n" := Entry([Digit(d + 1)], None)];
  }

  // --- No manifest path -----------------------------------------------------------------------

  const SET_A := ["SET", "a", "1"]
  const SET_B := ["SET", "b", "1"]

  /** Store a, SAVE, replace a by b, rewrite the log. */
  function StaleEvents(): (events: seq<Event>)
    ensures |events| == 5
  {
    [Write(SET_A, 1), Save(2, [Item("a", "1", None)]), Write(["DEL", "a"], 3), Write(SET_B, 4), Rewrite(5, [Item("b", "1", None)])]
  }

  function Prefix(i: nat): seq<Event>
    requires i <= 5
  {
    StaleEvents()[..i]
  }

  lemma Extend(cfg: Config, i: nat)
    requires i < 5
    ensures var ev, l := StaleEvents()[i], cfg.Limits();
            && FilesAfter(cfg, Prefix(i + 1)) == StepFiles(cfg, FilesAfter(cfg, Prefix(i)), ev)
            && After(l, Prefix(i + 1)) == Step(l, After(l, Prefix(i)), ev)
            && (LegalRun(l, Prefix(i + 1), 6) <==> LegalRun(l, Prefix(i), 6) && Legal(l, After(l, Prefix(i)), ev, 6))
  {
    hide Legal, Step, StepFiles;
    assert !StaleEvents()[i].Restart?;
    assert StaleEvents()[..i + 1][..i] == StaleEvents()[..i];
  }

  const A_TABLE: Table := map["a" := Entry("1", None)]
  const B_TABLE: Table := map["b" := Entry("1", None)]

  function SavedFiles(cfg: Config): Files {
    Files(Encode(SET_A), Some(Encode(SET_A)),
          Some(ManifestText(Manifest(cfg.snapshotPath, cfg.aofPath, |Encode(SET_A)|, 2))))
  }

  /** After the SAVE: a is stored, logged, and in the snapshot. */
  lemma StaleSaved(cfg: Config)
    requires Workable(cfg) && 1 <= cfg.maxKey
    ensures FilesAfter(cfg, Prefix(2)) == Server(A_TABLE, SavedFiles(cfg))
    ensures LegalRun(cfg.Limits(), Prefix(2), 6) && After(cfg.Limits(), Prefix(2)).table == A_TABLE
    ensures LastingSince(cfg.Limits(), Prefix(2), 6)
  {
    hide Exec, InRange, Encode, EncodeAll, ManifestText, Dump, Lists;
    Extend(cfg, 0);
    Extend(cfg, 1);
    ExecPlainSet(cfg.Limits(), map[], 1, "a", "1");
    assert Put(map[], "a", Some(Entry("1", None))) == A_TABLE;
    DumpSingle(Item("a", "1", None));
    EncodeSingle(SET_A);
    assert "" + Encode(SET_A) == Encode(SET_A);
  }

  /** Then a is deleted and b stored. */
  lemma StaleWritten(cfg: Config)
    requires Workable(cfg) && 1 <= cfg.maxKey
    ensures FilesAfter(cfg, Prefix(4)).table == B_TABLE && After(cfg.Limits(), Prefix(4)).table == B_TABLE
    ensures FilesAfter(cfg, Prefix(4)).files.(aof := "") == SavedFiles(cfg).(aof := "")
    ensures LegalRun(cfg.Limits(), Prefix(4), 6)
  {
    hide Exec, InRange, Encode, EncodeAll, ManifestText, Dump, Lists, LegalRun, FilesAfter, After;
    StaleSaved(cfg);
    Extend(cfg, 2);
    Extend(cfg, 3);
    ExecOneDel(cfg.Limits(), A_TABLE, 3, "a");
    assert Put(A_TABLE, "a", None) == map[];
    ExecPlainSet(cfg.Limits(), map[], 4, "b", "1");
    assert Put(map[], "b", Some(Entry("1", None))) == B_TABLE;
  }

  /** After the rewrite: b is stored and logged; snapshot and manifest are those of the SAVE. */
  lemma StaleRewritten(cfg: Config)
    requires Workable(cfg) && 1 <= cfg.maxKey && !cfg.manifestNamed
    ensures FilesAfter(cfg, StaleEvents()) == Server(B_TABLE, SavedFiles(cfg).(aof := Encode(SET_B)))
    ensures LegalRun(cfg.Limits(), StaleEvents(), 6)
  {
    hide Exec, InRange, Encode, EncodeAll, ManifestText, Dump, Lists, LegalRun, FilesAfter, After, Workable;
    StaleWritten(cfg);
    Extend(cfg, 4);
    assert Prefix(5) == StaleEvents();
    DumpSingle(Item("b", "1", None));
    EncodeSingle(SET_B);
  }

  /** Plain SETs of keys and values of the same sizes are equally long. */
  lemma SameLength(k: string, v: string, k': string, v': string)
    requires |k| == |k'| && |v| == |v'|
    ensures |Encode(["SET", k, v])| == |Encode(["SET", k', v'])|
  {
    hide Fragment;
    FragmentLength(k, k');
    FragmentLength(v, v');
    FragmentsOfThree("SET", k, v);
    FragmentsOfThree("SET", k', v');
  }

  lemma FragmentsOfThree(a: string, b: string, c: string)
    ensures Fragments([a, b, c]) == Fragment(a) + (Fragment(b) + (Fragment(c) + ""))
  {
    hide Fragment;
    assert [a, b, c] == [a] + ([b] + ([c] + []));
    FragmentsCons(a, [b, c]);
    FragmentsCons(b, [c]);
    FragmentsCons(c, []);
  }

  lemma FragmentLength(a: string, b: string)
    requires |a| == |b|
    ensures |Fragment(a)| == |Fragment(b)|
  {
  }

  lemma FragmentsCons(a: string, rest: seq<string>)
    ensures Fragments([a] + rest) == Fragment(a) + Fragments(rest)
  {
    assert ([a] + rest)[1..] == rest;
  }

  lemma {:induction false} NeverRestarted(cfg: Config, events: seq<Event>)
    requires forall ev | ev in events :: !ev.Restart?
    ensures SmallAtRestarts(cfg, events)
  {
    if events != [] { NeverRestarted(cfg, events[..|events| - 1]); }
  }

  /** Without a configured manifest path the rewrite leaves a stale manifest behind, and a restart
      brings back the deleted key and loses the stored one. */
  lemma StaleManifestDiverges(cfg: Config)
    requires Workable(cfg) && 1 <= cfg.maxKey && !cfg.manifestNamed && |Encode(SET_A)| <= cfg.maxRequest <= U64_MAX
    requires Clean(cfg.snapshotPath) && Clean(cfg.aofPath)
    ensures Served(cfg, StaleEvents(), 6) && LastingSince(cfg.Limits(), StaleEvents(), 6)
    ensures !Restarts(cfg, StaleEvents(), 6)
  {
    hide Encode, EncodeAll, ManifestText, ReadManifest, LoadBytes, LegalRun, FilesAfter;
    StaleRewritten(cfg);
    SameLength("a", "1", "b", "1");
    var f := FilesAfter(cfg, StaleEvents()).files;
    ManifestRoundTrip(Manifest(cfg.snapshotPath, cfg.aofPath, |Encode(SET_A)|, 2));
    LoadsA(cfg);
    EncodeSingle(SET_B);
    EncodeSome([SET_B]);
    assert RecoverFiles(cfg, f, 6) == Some(A_TABLE);
    assert Look(A_TABLE, "a", 6) != Look(B_TABLE, "a", 6);
    assert WireRun(cfg, StaleEvents());
    NeverRestarted(cfg, StaleEvents());
  }

  lemma LoadsA(cfg: Config)
    requires Workable(cfg) && 1 <= cfg.maxKey && |Encode(SET_A)| <= cfg.maxRequest
    ensures LoadBytes(cfg, 6, Encode(SET_A)) == Some(A_TABLE)
  {
    hide Encode, EncodeAll;
    EncodeSingle(SET_A);
    assert AllArgsFit(cfg.Options(), [SET_A]);
    FitsWithin(cfg.Options(), [SET_A]);
    LoadWhole(cfg, 6, [SET_A]);
    LoadSingle(cfg.Limits(), 6, "a", "1");
  }

  /** On a workable configuration with room for one small command, every lasting run restarts
      faithfully if and only if the manifest path is configured. */
  lemma RestartNeedsManifestPath(cfg: Config)
    requires Workable(cfg) && 1 <= cfg.maxKey && |Encode(SET_A)| <= cfg.maxRequest <= U64_MAX
    requires Clean(cfg.snapshotPath) && Clean(cfg.aofPath)
    ensures (forall events: seq<Event>, at: int ::
              Served(cfg, events, at) && LastingSince(cfg.Limits(), events, at) ==> Restarts(cfg, events, at)) <==>
            cfg.manifestNamed
  {
    hide Served, LastingSince, Restarts;
    if cfg.manifestNamed {
      forall events: seq<Event>, at: int | Served(cfg, events, at) && LastingSince(cfg.Limits(), events, at)
        ensures Restarts(cfg, events, at)
      {
        RestartFaithful(cfg, events, at);
      }
    } else {
      StaleManifestDiverges(cfg);
    }
  }

  // --- A crash in BGREWRITEAOF ----------------------------------------------------------------

  const SET_A2 := ["SET", "a", "2"]
  const BOTH := [Item("a", "2", None), Item("b", "1", None)]

  lemma SetLasts(l: Limits, t: Table, now: int, k: string, v: string, at: int)
    requires now <= at && |k| <= l.maxKey && |v| <= l.maxValue
    ensures Lasting(l, t, now, ["SET", k, v], at)
  {
    Names();
    ExecPlainSet(l, t, now, k, v);
  }

  /** Store a, SAVE, change a, store b. */
  function ChangedEvents(): seq<Event> {
    Prefix(2) + [Write(SET_A2, 3)] + [Write(SET_B, 4)]
  }

  lemma ChangedWritten(cfg: Config)
    requires Workable(cfg) && 1 <= cfg.maxKey
    ensures LegalRun(cfg.Limits(), ChangedEvents(), 6) && Legal(cfg.Limits(), After(cfg.Limits(), ChangedEvents()), Rewrite(5, BOTH), 6)
    ensures LastingSince(cfg.Limits(), ChangedEvents(), 6)
    ensures var s := FilesAfter(cfg, ChangedEvents());
            s.table == map["a" := Entry("2", None), "b" := Entry("1", None)] &&
            s.files == SavedFiles(cfg).(aof := Encode(SET_A) + Encode(SET_A2) + Encode(SET_B))
  {
    hide Exec, InRange, Encode, EncodeAll, ManifestText, Dump, LegalRun, FilesAfter, After, Prefix, Listed, Lasting, LastingSince;
    var l, one := cfg.Limits(), Prefix(2) + [Write(SET_A2, 3)];
    StaleSaved(cfg);
    Grow(l, Prefix(2), Write(SET_A2, 3), 6);
    FilesAfterNext(cfg, Prefix(2), Write(SET_A2, 3));
    ExecPlainSet(l, A_TABLE, 3, "a", "2");
    var t: Table := map["a" := Entry("2", None)];
    assert Put(A_TABLE, "a", Some(Entry("2", None))) == t;
    SetLasts(l, A_TABLE, 3, "a", "2", 6);
    SetLasts(l, t, 4, "b", "1", 6);
    Grow(l, one, Write(SET_B, 4), 6);
    FilesAfterNext(cfg, one, Write(SET_B, 4));
    ExecPlainSet(l, t, 4, "b", "1");
    ListedBoth();
  }

  lemma ListedBoth()
    ensures Listed(BOTH) == map["a" := Entry("2", None), "b" := Entry("1", None)]
    ensures Dump(BOTH) == [SET_A2, SET_B] && Dump(BOTH[..1]) == [SET_A2]
  {
    assert BOTH[..1] == [Item("a", "2", None)];
    DumpSingle(Item("a", "2", None));
    assert Listed([Item("a", "2", None)]) == map["a" := Entry("2", None)];
    assert DumpOne(BOTH[1]) == [SET_B];
  }

  lemma ChangedServed(cfg: Config)
    requires Configured(cfg) && 1 <= cfg.maxKey && 3 * |Encode(SET_A)| <= cfg.maxRequest <= U64_MAX
    ensures Served(cfg, ChangedEvents(), 6) && Served(cfg, ChangedEvents() + [Rewrite(5, BOTH)], 6)
    ensures var f := CrashFiles(cfg, FilesAfter(cfg, ChangedEvents()), Rewrite(5, BOTH))[1];
            UsableOffset(cfg, f) == Some(|EncodeAll(Dump(BOTH[..1]))|)
  {
    hide Encode, EncodeAll, ManifestText, ReadManifest, LegalRun, FilesAfter, After, SmallAtRestarts, Legal, Workable, Clean, ArgsFit;
    var events, ev := ChangedEvents(), Rewrite(5, BOTH);
    ChangedWritten(cfg);
    FilesAfterNext(cfg, events, ev);
    Grow(cfg.Limits(), events, ev, 6);
    ListedBoth();
    SameLength("a", "1", "a", "2");
    SameLength("a", "1", "b", "1");
    EncodeSingle(SET_A2);
    EncodeSingle(SET_B);
    assert [SET_A2] + [SET_B] == [SET_A2, SET_B];
    EncodeAppend([SET_A2], [SET_B]);
    ManifestRoundTrip(Manifest(cfg.snapshotPath, cfg.aofPath, |Encode(SET_A)|, 2));
    NeverRestarted(cfg, events);
    NeverRestarted(cfg, events + [ev]);
    ChangedWire(cfg);
  }

  lemma ChangedWire(cfg: Config)
    requires Workable(cfg)
    ensures WireRun(cfg, ChangedEvents()) && WireRun(cfg, ChangedEvents() + [Rewrite(5, BOTH)])
  {
  }

  /** A rewrite stopped between replacing the log and removing the manifest: the old offset lies behind the
      new value of a, which is lost; the restart brings back the old one. */
  lemma RewriteCrashDiverges(cfg: Config)
    requires Configured(cfg) && 1 <= cfg.maxKey && 3 * |Encode(SET_A)| <= cfg.maxRequest <= U64_MAX
    ensures Served(cfg, ChangedEvents(), 6) && Served(cfg, ChangedEvents() + [Rewrite(5, BOTH)], 6)
    ensures LastingSince(cfg.Limits(), ChangedEvents(), 6)
    ensures var s := FilesAfter(cfg, ChangedEvents());
            !Reads(RecoverFiles(cfg, CrashFiles(cfg, s, Rewrite(5, BOTH))[1], 6), s.table, 6)
  {
    hide Encode, EncodeAll, ManifestText, FilesAfter, UsableOffset, LoadBytes, Served, CrashFiles, RecoverFiles, Dump;
    ChangedWritten(cfg);
    ChangedServed(cfg);
    RewriteCrashExact(cfg, ChangedEvents(), Rewrite(5, BOTH), 1, 6);
    LoadsA(cfg);
    var s := FilesAfter(cfg, ChangedEvents());
    assert BOTH[1..] == [Item("b", "1", None)];
    assert !KeyIn(BOTH[1..], "a");
    assert Look(A_TABLE, "a", 6) != Look(s.table, "a", 6);
  }

  lemma DumpSingle(e: Item)
    requires e.expiry.None?
    ensures Dump([e]) == [["SET", e.key, e.value]]
    ensures forall t: Table, now: int | t == map[e.key := Entry(e.value, None)] :: Lists([e], t, now)
  {
    assert [e][..0] == [];
    assert Dump([]) == [];
    assert DumpOne(e) == [["SET", e.key, e.value]];
    assert Listed([]) == map[];
    assert Listed([e]) == map[e.key := Entry(e.value, None)];
  }

  // --- Two writes to one key ------------------------------------------------------------------

  lemma ExecAppendTo(l: Limits, t: Table, now: int, k: string, v: string)
    requires |k| <= l.maxKey && |TextValue(Look(t, k, now)) + v| <= l.maxValue
    ensures var e := Exec(l, t, now, ["APPEND", k, v]);
            && e.table == Put(t, k, Some(Entry(TextValue(Look(t, k, now)) + v, None)))
            && e.record == Some(["APPEND", k, v]) && !e.reply.Failed?
  {
    UpperIdentity("APPEND");
    assert Exec(l, t, now, ["APPEND", k, v]) == ExecKeyed(l, t, now, ["APPEND", k, v]);
  }

  lemma {:induction false} OneMore(y: Workers.Layout, s: Workers.Pool, moves: seq<Workers.Move>, m: Workers.Move)
    requires y.shardCount > 0 && Workers.Goes(y, s, moves) && Workers.Can(Workers.Final(y, s, moves), m)
    ensures Workers.Goes(y, s, moves + [m])
    ensures Workers.Final(y, s, moves + [m]) == Workers.Make(y, Workers.Final(y, s, moves), m)
    decreases |moves|
  {
    hide Workers.Can, Workers.Make;
    if moves == [] {
      assert moves + [m] == [m] && [m][1..] == [];
    } else {
      OneMore(y, Workers.Make(y, s, moves[0]), moves[1..], m);
      assert (moves + [m])[1..] == moves[1..] + [m];
    }
  }

  /** The storage call of an APPEND. */
  lemma MutateAppend(y: Workers.Layout, s: Workers.Pool, w: nat, k: string, v: string)
    requires y.shardCount > 0 && w < |s.workers|
    requires s.workers[w] == Workers.Inside(Request(["APPEND", k, v], 0), 0, Workers.At(0, 0))
    requires |k| <= y.limits.maxKey && |TextValue(Look(s.node.table, k, 0)) + v| <= y.limits.maxValue
    ensures var s' := Workers.MutatePool(y, s, w);
            var text := TextValue(Look(s.node.table, k, 0)) + v;
            && s'.node == s.node.(table := Put(s.node.table, k, Some(Entry(text, None))))
            && s'.workers == s.workers[w := Workers.Inside(Request(["APPEND", k, v], 0), 1, Workers.Finished(Some(["APPEND", k, v])))]
  {
    hide Exec;
    UpperIdentity("APPEND");
    ExecAppendTo(y.limits, s.node.table, 0, k, v);
  }

  function AppendRequest(v: string): Request {
    Request(["APPEND", "k", v], 0)
  }

  /** Two workers that append to one key have both entered. */
  lemma BothEnter(y: Workers.Layout) returns (moves: seq<Workers.Move>, s: Workers.Pool)
    requires y.shardCount > 0
    ensures Workers.Goes(y, Workers.Fresh(2), moves) && s == Workers.Final(y, Workers.Fresh(2), moves) && s.node == EMPTY
    ensures |s.workers| == 2 && !s.exclusive
    ensures s.workers[0] == Workers.Inside(AppendRequest("a"), 0, Workers.At(0, 0))
    ensures s.workers[1] == Workers.Inside(AppendRequest("b"), 0, Workers.At(0, 0))
  {
    UpperIdentity("APPEND");
    var s0 := Workers.Fresh(2);
    var enter0, enter1 := Workers.Enter(0, AppendRequest("a")), Workers.Enter(1, AppendRequest("b"));
    assert Workers.Goes(y, s0, []);
    OneMore(y, s0, [], enter0);
    moves := [] + [enter0];
    hide Workers.Goes, Workers.Final, Workers.MutatePool, Workers.AppendPool;
    OneMore(y, s0, moves, enter1);
    moves := moves + [enter1];
    s := Workers.Final(y, s0, moves);
  }

  /** Both have stored, the first one first. */
  lemma BothStore(y: Workers.Layout) returns (moves: seq<Workers.Move>, s: Workers.Pool)
    requires y.shardCount > 0 && y.limits.maxKey >= 1 && y.limits.maxValue >= 2
    ensures Workers.Goes(y, Workers.Fresh(2), moves) && s == Workers.Final(y, Workers.Fresh(2), moves)
    ensures s.node == EMPTY.(table := map["k" := Entry("ab", None)]) && |s.workers| == 2
    ensures s.workers[0].Inside? && s.workers[0].progress == Workers.Finished(Some(["APPEND", "k", "a"]))
    ensures s.workers[1].Inside? && s.workers[1].progress == Workers.Finished(Some(["APPEND", "k", "b"]))
  {
    hide Workers.Goes, Workers.Final, Workers.MutatePool;
    moves, s := BothEnter(y);
    MutateAppend(y, s, 0, "k", "a");
    OneMore(y, Workers.Fresh(2), moves, Workers.Mutate(0));
    moves, s := moves + [Workers.Mutate(0)], Workers.MutatePool(y, s, 0);
    assert "" + "a" == "a" && "a" + "b" == "ab";
    MutateAppend(y, s, 1, "k", "b");
    OneMore(y, Workers.Fresh(2), moves, Workers.Mutate(1));
    moves, s := moves + [Workers.Mutate(1)], Workers.MutatePool(y, s, 1);
  }

  lemma ReplayTwoAppends(l: Limits)
    requires l.maxKey >= 1 && l.maxValue >= 2
    ensures ReplayLog(l, Some(map[]), 0, [["APPEND", "k", "b"], ["APPEND", "k", "a"]]) == Some(map["k" := Entry("ba", None)])
  {
    hide Exec;
    var b, a := ["APPEND", "k", "b"], ["APPEND", "k", "a"];
    assert "" + "b" == "b" && "b" + "a" == "ba";
    ExecAppendTo(l, map[], 0, "k", "b");
    ExecAppendTo(l, map["k" := Entry("b", None)], 0, "k", "a");
    ReplayLogged(l, Some(map[]), 0, [], Some(b));
    ReplayLogged(l, Some(map[]), 0, [b], Some(a));
    assert [] + [b] == [b] && [b] + [a] == [b, a];
    var t: Table := map["k" := Entry("b", None)];
    assert Put(map[], "k", Some(Entry("b", None))) == t;
    assert Put(t, "k", Some(Entry("ba", None))) == map["k" := Entry("ba", None)];
  }

  /** Two overlapping writes to one key can be stored in one order and logged in the other; replaying
      the log then gives another value. These two do not commute: Workers.CrossedIffCommute says when
      crossing writes end like a sequential run, Workers.CountersCommute for which it does on one key. */
  lemma CrossedAppendsDiverge(y: Workers.Layout) returns (moves: seq<Workers.Move>, s: Workers.Pool)
    requires y.shardCount > 0 && y.limits.maxKey >= 1 && y.limits.maxValue >= 2
    ensures Workers.Goes(y, Workers.Fresh(2), moves) && s == Workers.Final(y, Workers.Fresh(2), moves)
    ensures forall w | 0 <= w < |s.workers| :: !s.workers[w].Inside?
    ensures s.node.table == map["k" := Entry("ab", None)]
    ensures ReplayLog(y.limits, Some(map[]), 0, s.node.log) == Some(map["k" := Entry("ba", None)])
  {
    hide Workers.Goes, Workers.Final, ReplayLog;
    moves, s := BothStore(y);
    OneMore(y, Workers.Fresh(2), moves, Workers.Append(1));
    moves, s := moves + [Workers.Append(1)], Workers.AppendPool(s, 1);
    OneMore(y, Workers.Fresh(2), moves, Workers.Append(0));
    moves, s := moves + [Workers.Append(0)], Workers.AppendPool(s, 0);
    assert s.node.log == [["APPEND", "k", "b"], ["APPEND", "k", "a"]];
    ReplayTwoAppends(y.limits);
  }

  // --- A dead row under a memory limit --------------------------------------------------------

  /** The record of a SET, executed under a limit. */
  lemma StoreRecord(l: Limits, limit: nat, t: Table, now: int, k: string, v: string, expiry: Option<int>)
    requires |k| <= l.maxKey && |v| <= l.maxValue && (expiry.Some? ==> 0 < expiry.value <= I64_MAX)
    ensures var e, cell := ExecWithin(l, limit, t, now, SetRecord(k, v, expiry)), Some(Entry(v, expiry));
            if Affordable(limit, Put(t, k, cell)) then e == Effect(Put(t, k, cell), OkReply, Some(SetRecord(k, v, expiry)))
            else e.reply == OUT_OF_MEMORY
  {
    Names();
    SetRecordPlan(k, v, expiry);
    hide VerbOf, SetPlan, Bytes;
    var args := SetRecord(k, v, expiry);
    assert args[0] == "SET" && args[1] == k && args[2] == v;
    assert ExecWithin(l, limit, t, now, args) == KeyedWithin(l, limit, t, now, args);
  }

  lemma ReplayTwoWithin(l: Limits, limit: nat, at: int, a: seq<string>, b: seq<string>)
    ensures var t := ReplayOneWithin(l, limit, map[], at, a);
            ReplayWithin(l, limit, Some(map[]), at, [a, b]) == if t.None? then None else ReplayOneWithin(l, limit, t.value, at, b)
  {
    hide ReplayOneWithin;
    assert [a, b][..1] == [a] && [a][..0] == [];
    assert ReplayWithin(l, limit, Some(map[]), at, [a]) == ReplayOneWithin(l, limit, map[], at, a);
  }

  lemma BytesOfOne(k: string, c: Cell)
    ensures Bytes(Put(map[], k, c)) == CellMemory(k, c)
  {
    hide Bytes, EntryMemory;
    NoBytes();
    BytesPut(map[], k, c);
  }

  /** The limit holds either of two entries but not both. The first expires, a DBSIZE sweeps it, the second
      is stored; the log then names both. Replay brings the expired row back, where nothing sweeps it, and
      the second command is refused: the server does not start. */
  lemma DeadRowStopsReplay(l: Limits, limit: nat, a: string, b: string, v: string, now: int, when: int, later: int)
    requires a != b && |a| <= l.maxKey && |b| <= l.maxKey && |v| <= l.maxValue
    requires now < when <= later && 0 < when <= I64_MAX
    requires EntryMemory(a, v) <= limit && EntryMemory(b, v) <= limit < EntryMemory(a, v) + EntryMemory(b, v)
    ensures var first, second := SetRecord(a, v, Some(when)), SetRecord(b, v, None);
            var e1 := ExecWithin(l, limit, map[], now, first);
            var e2 := ExecWithin(l, limit, e1.table, later, ["DBSIZE"]);
            var e3 := ExecWithin(l, limit, e2.table, later, second);
            && e1.reply == OkReply && e3.reply == OkReply && e3.table == map[b := Entry(v, None)]
            && Logged(e1.record) + Logged(e2.record) + Logged(e3.record) == [first, second]
            && ReplayWithin(l, limit, Some(map[]), later, [first, second]).None?
  {
    hide ExecWithin, SetRecord, Bytes, EntryMemory;
    var cellA, cellB := Some(Entry(v, Some(when))), Some(Entry(v, None));
    var t := Put(map[], a, cellA);
    BytesOfOne(a, cellA);
    BytesOfOne(b, cellB);
    BytesPut(t, b, cellB);
    SizePositive(a, v);
    StoreRecord(l, limit, map[], now, a, v, Some(when));
    SweepAll(l, limit, a, v, when, later);
    StoreRecord(l, limit, map[], later, b, v, None);
    StoreRecord(l, limit, map[], later, a, v, Some(when));
    StoreRecord(l, limit, t, later, b, v, None);
    ReplayTwoWithin(l, limit, later, SetRecord(a, v, Some(when)), SetRecord(b, v, None));
    var first, second := SetRecord(a, v, Some(when)), SetRecord(b, v, None);
    assert [first] + [] + [second] == [first, second];
  }

  lemma SizePositive(k: string, v: string)
    ensures EntryMemory(k, v) > 0
  {
  }

  lemma SweepAll(l: Limits, limit: nat, a: string, v: string, when: int, later: int)
    requires when <= later
    ensures var e := ExecWithin(l, limit, Put(map[], a, Some(Entry(v, Some(when)))), later, ["DBSIZE"]);
            e.table == map[] && e.record.None?
  {
    UpperIdentity("DBSIZE");
    assert LiveTable(Put(map[], a, Some(Entry(v, Some(when)))), later) == map[];
  }
}
