/** When a server comes up at all: exactly which logs and snapshots recovery accepts. */
module Readiness {
  import opened Wrappers
  import opened Text
  import opened Resp
  import opened RespTheorems
  import opened Store
  import opened Commands
  import opened Replay
  import opened Checkpoint
  import opened Disk

  // --- Logs -----------------------------------------------------------------------------------

  /** The table after executing commands one after another, all at one time, whatever they answer. */
  function Executed(l: Limits, t: Table, at: int, log: seq<seq<string>>): Table {
    if log == [] then t else Exec(l, Executed(l, t, at, log[..|log| - 1]), at, log[|log| - 1]).table
  }

  /** No command of the log answers with an error when its turn comes. */
  predicate AllSucceed(l: Limits, t: Table, at: int, log: seq<seq<string>>) {
    forall i | 0 <= i < |log| :: !Exec(l, Executed(l, t, at, log[..i]), at, log[i]).reply.Failed?
  }

  /** A replay is the execution of the log, and comes up if and only if no command fails. */
  lemma {:induction false} ReplayIsExecution(l: Limits, t: Table, at: int, log: seq<seq<string>>)
    ensures ReplayLog(l, Some(t), at, log) == if AllSucceed(l, t, at, log) then Some(Executed(l, t, at, log)) else None
  {
    hide Exec, AllSucceed;
    if log == [] {
      NothingFails(l, t, at);
    } else {
      var front, last := log[..|log| - 1], log[|log| - 1];
      assert log == front + [last];
      ReplayIsExecution(l, t, at, front);
      OneMoreSucceeds(l, t, at, front, last);
    }
  }

  lemma NothingFails(l: Limits, t: Table, at: int)
    ensures AllSucceed(l, t, at, [])
  {
  }

  lemma OneMoreSucceeds(l: Limits, t: Table, at: int, log: seq<seq<string>>, last: seq<string>)
    ensures AllSucceed(l, t, at, log + [last]) <==>
            AllSucceed(l, t, at, log) && !Exec(l, Executed(l, t, at, log), at, last).reply.Failed?
  {
    hide Exec, Executed;
    var all := log + [last];
    assert all[..|log|] == log && all[|log|] == last;
    assert forall i | 0 <= i < |log| :: all[i] == log[i] && all[..i] == log[..i];
    if AllSucceed(l, t, at, all) {
      forall i | 0 <= i < |log|
        ensures !Exec(l, Executed(l, t, at, log[..i]), at, log[i]).reply.Failed?
      {
        assert !Exec(l, Executed(l, t, at, all[..i]), at, all[i]).reply.Failed?;
      }
    }
  }

  /** Without a usable manifest the server comes up if and only if the log is empty, or fits the request
      buffer, reads without error, and executes without error; a torn last command is no error. */
  lemma LogAccepted(cfg: Config, f: Files, at: int)
    requires UsableOffset(cfg, f).None?
    ensures var r := ReadLog(cfg.Options(), f.aof);
            RecoverFiles(cfg, f, at) ==
              if f.aof == "" then Some(map[])
              else if |f.aof| <= cfg.maxRequest && r.error.None? && AllSucceed(cfg.Limits(), map[], at, r.commands)
              then Some(Executed(cfg.Limits(), map[], at, r.commands))
              else None
  {
    hide ReadLog, ReplayLog, AllSucceed, Executed, UsableOffset;
    assert f.aof[0..] == f.aof;
    ReplayIsExecution(cfg.Limits(), map[], at, ReadLog(cfg.Options(), f.aof).commands);
  }

  /** A log that holds one unknown command anywhere keeps the server from starting. */
  lemma UnknownCommandStops(cfg: Config, log: seq<seq<string>>, name: string, more: seq<seq<string>>, at: int)
    requires VerbOf(name).OTHER? && AllFit(cfg.Options(), log + [[name]] + more)
    ensures RecoverFiles(cfg, Files(EncodeAll(log + [[name]] + more), None, None), at).None?
  {
    hide ReadLog, Encode, EncodeAll, Fits, Executed;
    var all, n := log + [[name]] + more, |log|;
    var f := Files(EncodeAll(all), None, None);
    EncodingsRoundTrip(cfg.Options(), all);
    NotEmpty(all);
    LogAccepted(cfg, f, at);
    assert all[n] == [name] && Exec(cfg.Limits(), Executed(cfg.Limits(), map[], at, all[..n]), at, [name]).reply.Failed?;
  }

  lemma NotEmpty(all: seq<seq<string>>)
    requires all != []
    ensures EncodeAll(all) != ""
  {
    EncodeUncons(all);
  }

  // --- Snapshots ------------------------------------------------------------------------------

  /** The commands a snapshot may hold, within the limits. */
  predicate SnapshotCommand(l: Limits, args: seq<string>) {
    |args| == 3 &&
    if args[0] == "SET" then |args[1]| <= l.maxKey && |args[2]| <= l.maxValue
    else args[0] == "PEXPIREAT" && ParseI64(args[2]).Some?
  }

  /** A snapshot loads if and only if it holds nothing else. */
  lemma {:induction false} LoadAccepts(l: Limits, t: Table, at: int, commands: seq<seq<string>>)
    ensures LoadLog(l, Some(t), at, commands).Some? <==> forall args | args in commands :: SnapshotCommand(l, args)
  {
    hide LoadOne, SnapshotCommand;
    if commands != [] {
      var front, last := commands[..|commands| - 1], commands[|commands| - 1];
      assert commands == front + [last];
      LoadAccepts(l, t, at, front);
      var r := LoadLog(l, Some(t), at, front);
      if r.Some? { LoadOneAccepts(l, r.value, at, last); }
    }
  }

  lemma LoadOneAccepts(l: Limits, t: Table, at: int, args: seq<string>)
    ensures LoadOne(l, t, at, args).Some? <==> SnapshotCommand(l, args)
  {
    hide ParseI64, Look;
  }

  /** A snapshot cut anywhere but between two commands is refused: unlike a log, it may not be torn. */
  lemma TornSnapshotRefused(cfg: Config, commands: seq<seq<string>>, cut: nat, at: int)
    requires AllFit(cfg.Options(), commands) && cut <= |EncodeAll(commands)| <= cfg.maxRequest
    requires forall args | args in commands :: SnapshotCommand(cfg.Limits(), args)
    ensures LoadBytes(cfg, at, EncodeAll(commands)[..cut]).Some? <==>
            exists n :: 0 <= n <= |commands| && cut == |EncodeAll(commands[..n])|
  {
    hide EncodeAll, ReadLog, LoadLog, Fits, SnapshotCommand;
    var n := WholeBefore(commands, cut);
    var whole := commands[..n];
    TornTail(cfg.Options(), commands, cut);
    var content := EncodeAll(commands)[..cut];
    assert forall args | args in whole :: args in commands;
    LoadAccepts(cfg.Limits(), map[], at, whole);
    if content == "" {
      EncodeNone();
      assert commands[..0] == [];
      assert cut == |EncodeAll(commands[..0])|;
    } else {
      assert LoadBytes(cfg, at, content).Some? <==> cut == |EncodeAll(whole)|;
      if exists m :: 0 <= m <= |commands| && cut == |EncodeAll(commands[..m])| {
        var m :| 0 <= m <= |commands| && cut == |EncodeAll(commands[..m])|;
        WholeCut(cfg, commands, m, cut);
      }
    }
  }

  lemma WholeCut(cfg: Config, commands: seq<seq<string>>, m: nat, cut: nat)
    requires m <= |commands| && cut == |EncodeAll(commands[..m])| && AllFit(cfg.Options(), commands) && cut <= |EncodeAll(commands)|
    requires ReadsWhole(cfg.Options(), commands, cut)
    ensures cut == |EncodeAll(commands[..WholeBefore(commands, cut)])|
  {
    hide EncodeAll, ReadLog, Fits;
    var head, tail := commands[..m], commands[m..];
    assert commands == head + tail;
    EncodeAppend(head, tail);
    assert EncodeAll(commands)[..cut] == EncodeAll(head);
    assert AllFit(cfg.Options(), head) by { assert forall args | args in head :: args in commands; }
    EncodingsRoundTrip(cfg.Options(), head);
  }

  /** With a usable manifest the server comes up only if the snapshot is whole and holds plain commands, and
      both files fit the request buffer. */
  lemma SnapshotNeeded(cfg: Config, f: Files, at: int)
    requires UsableOffset(cfg, f).Some? && RecoverFiles(cfg, f, at).Some?
    ensures var r, rest := ReadLog(cfg.Options(), f.snapshot.value), |f.aof| - UsableOffset(cfg, f).value;
            && rest <= cfg.maxRequest
            && (f.snapshot.value != "" ==>
                  && |f.snapshot.value| <= cfg.maxRequest && r.error.None? && r.rest == ""
                  && forall args | args in r.commands :: SnapshotCommand(cfg.Limits(), args))
  {
    hide ReadLog, LoadLog, ReplayLog, SnapshotCommand;
    LoadAccepts(cfg.Limits(), map[], at, ReadLog(cfg.Options(), f.snapshot.value).commands);
  }
}
