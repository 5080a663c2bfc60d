/** The bytes on disk: the append-only file, the snapshot and the manifest, what recovery makes of
    them, and why torn tails are harmless. */
module Disk {
  import opened Wrappers
  import opened Decimal
  import opened Resp
  import opened RespTheorems
  import opened Store
  import opened Replay
  import opened Checkpoint
  import opened Node
  import opened Manifest

  /** The configuration recovery depends on. Paths are normalized; `manifestNamed` says whether the
      configured manifest path is non-empty. */
  datatype Config = Config(maxRequest: nat, maxElements: nat, maxKey: nat, maxValue: nat,
                           snapshotPath: string, aofPath: string, manifestNamed: bool)
  {
    function Limits(): Limits {
      Store.Limits(maxKey, maxValue)
    }

    /** The parser reads keys and values alike with the value limit. */
    function Options(): Options {
      Resp.Options(maxRequest, maxElements, maxValue)
    }
  }

  datatype Files = Files(aof: string, snapshot: Option<string>, manifest: Option<string>)

  // --- Reading a command stream ---------------------------------------------------------------

  datatype LogRead = LogRead(commands: seq<seq<string>>, rest: string, error: Option<ParseError>)

  /** Call next_command until it wants more bytes or fails. */
  function ReadLog(o: Options, b: string): LogRead
    decreases |b|
  {
    match NextCommand(o, b)
    case (Starved, rest) => LogRead([], rest, None)
    case (Refused(e), rest) => LogRead([], rest, Some(e))
    case (Command(args), rest) =>
      var r := ReadLog(o, rest);
      r.(commands := [args] + r.commands)
  }

  predicate AllFit(o: Options, commands: seq<seq<string>>) {
    forall args | args in commands :: Fits(o, args)
  }

  lemma {:induction false} ReadEncoded(o: Options, commands: seq<seq<string>>, tail: string)
    requires AllFit(o, commands) && NextValue(o, tail).NeedMore?
    ensures ReadLog(o, EncodeAll(commands) + tail) == LogRead(commands, tail, None)
    decreases |commands|
  {
    hide NextValue, Encode, Fits;
    if commands == [] {
      assert "" + tail == tail;
    } else {
      var rest := EncodeAll(commands[1..]) + tail;
      ReadOne(o, commands[0], rest);
      assert EncodeAll(commands) + tail == Encode(commands[0]) + rest;
      ReadEncoded(o, commands[1..], tail);
    }
  }

  lemma ReadOne(o: Options, args: seq<string>, rest: string)
    requires Fits(o, args)
    ensures NextCommand(o, Encode(args) + rest) == (Command(args), rest)
  {
    hide NextValue, Encode, Fits, CommandOf;
    EncodeParses(o, args, rest);
    assert (Encode(args) + rest)[|Encode(args)|..] == rest;
  }

  /** Parsing the concatenated encodings of a list of commands gives exactly that list. */
  lemma EncodingsRoundTrip(o: Options, commands: seq<seq<string>>)
    requires AllFit(o, commands)
    ensures ReadLog(o, EncodeAll(commands)) == LogRead(commands, "", None)
  {
    ReadEncoded(o, commands, "");
    assert EncodeAll(commands) + "" == EncodeAll(commands);
  }

  /** How many commands lie wholly before a cut. */
  function WholeBefore(commands: seq<seq<string>>, cut: nat): (n: nat)
    ensures n <= |commands|
  {
    if commands == [] || |Encode(commands[0])| > cut then 0
    else 1 + WholeBefore(commands[1..], cut - |Encode(commands[0])|)
  }

  /** What reading a log cut at a byte should give. */
  ghost predicate ReadsWhole(o: Options, commands: seq<seq<string>>, cut: nat)
    requires cut <= |EncodeAll(commands)|
  {
    var whole := commands[..WholeBefore(commands, cut)];
    && |EncodeAll(whole)| <= cut
    && ReadLog(o, EncodeAll(commands)[..cut]) == LogRead(whole, EncodeAll(commands)[|EncodeAll(whole)|..cut], None)
    && (whole == commands || cut < |EncodeAll(commands[..|whole| + 1])|)
  }

  lemma TornFirst(o: Options, commands: seq<seq<string>>, cut: nat)
    requires commands != [] && Fits(o, commands[0]) && cut < |Encode(commands[0])| && cut <= |EncodeAll(commands)|
    ensures ReadsWhole(o, commands, cut)
  {
    hide NextValue, Encode, Fits;
    TornNeedsMore(o, commands[0], cut);
    assert EncodeAll(commands)[..cut] == Encode(commands[0])[..cut];
    assert commands[..0] == [];
    assert commands[..1] == [commands[0]];
    EncodeSingle(commands[0]);
    assert EncodeAll(commands)[0..cut] == EncodeAll(commands)[..cut];
  }

  lemma TornLater(o: Options, commands: seq<seq<string>>, cut: nat)
    requires commands != [] && Fits(o, commands[0]) && |Encode(commands[0])| <= cut <= |EncodeAll(commands)|
    requires ReadsWhole(o, commands[1..], cut - |Encode(commands[0])|)
    ensures ReadsWhole(o, commands, cut)
  {
    hide NextCommand, Encode, EncodeAll, Fits;
    EncodeUncons(commands);
    var n := WholeBefore(commands, cut);
    var e, rest, left := Encode(commands[0]), commands[1..], cut - |Encode(commands[0])|;
    var whole := rest[..n - 1];
    ConcatSlices(e, EncodeAll(rest), |EncodeAll(whole)|, left);
    ReadOne(o, commands[0], EncodeAll(rest)[..left]);
    EncodeCons(commands, n);
    if n < |commands| {
      EncodeCons(commands, n + 1);
    }
  }

  lemma EncodeUncons(commands: seq<seq<string>>)
    requires commands != []
    ensures EncodeAll(commands) == Encode(commands[0]) + EncodeAll(commands[1..])
  {
  }

  lemma ConcatSlices(s: string, t: string, i: nat, j: nat)
    requires i <= j <= |t|
    ensures (s + t)[..|s| + j] == s + t[..j] && (s + t)[|s| + i..|s| + j] == t[i..j]
  {
  }

  /** Torn tail: from any cut of a log, reading yields exactly the whole commands before the cut, in
      order and without error, and leaves the bytes of the torn one. */
  lemma {:induction false} TornTail(o: Options, commands: seq<seq<string>>, cut: nat)
    requires AllFit(o, commands) && cut <= |EncodeAll(commands)|
    ensures ReadsWhole(o, commands, cut)
    decreases |commands|
  {
    hide NextValue, Encode, Fits;
    if commands == [] {
      EncodingsRoundTrip(o, []);
      assert commands[..0] == [];
    } else if |Encode(commands[0])| > cut {
      TornFirst(o, commands, cut);
    } else {
      TornTail(o, commands[1..], cut - |Encode(commands[0])|);
      TornLater(o, commands, cut);
    }
  }

  lemma EncodeCons(commands: seq<seq<string>>, n: nat)
    requires 0 < n <= |commands|
    ensures commands[..n] == [commands[0]] + commands[1..][..n - 1]
    ensures EncodeAll(commands[..n]) == Encode(commands[0]) + EncodeAll(commands[1..][..n - 1])
  {
    assert commands[..n][1..] == commands[1..][..n - 1];
  }

  lemma {:induction false} EncodeAppend(commands: seq<seq<string>>, more: seq<seq<string>>)
    ensures EncodeAll(commands + more) == EncodeAll(commands) + EncodeAll(more)
    decreases |commands|
  {
    hide Encode;
    if commands == [] {
      assert commands + more == more;
    } else {
      assert (commands + more)[1..] == commands[1..] + more;
      EncodeAppend(commands[1..], more);
    }
  }

  lemma EncodeSingle(args: seq<string>)
    ensures EncodeAll([args]) == Encode(args)
  {
    hide Encode;
    assert [args][1..] == [];
    assert EncodeAll([]) == "";
  }

  // --- Recovery -------------------------------------------------------------------------------

  /** Aof::replay_file from a byte offset into a table; None if it reports an error. */
  function ReplayBytes(cfg: Config, start: Table, at: int, content: string, offset: nat): Option<Table> {
    if content == "" then Some(start)
    else if offset > |content| then None
    else if offset == |content| then Some(start)
    else if |content| - offset > cfg.maxRequest then None
    else
      var r := ReadLog(cfg.Options(), content[offset..]);
      if r.error.Some? then None else ReplayLog(cfg.Limits(), Some(start), at, r.commands)
  }

  /** SnapshotStore::load into an empty store; None if it reports an error. */
  function LoadBytes(cfg: Config, at: int, content: string): Option<Table> {
    if content == "" then Some(map[])
    else if |content| > cfg.maxRequest then None
    else
      var r := ReadLog(cfg.Options(), content);
      if r.error.Some? || r.rest != "" then None else LoadLog(cfg.Limits(), Some(map[]), at, r.commands)
  }

  /** The offset to resume at, when the manifest can be trusted. */
  function UsableOffset(cfg: Config, f: Files): Option<nat> {
    if f.manifest.None? then None
    else
      match ReadManifest(f.manifest.value)
      case None => None
      case Some(m) =>
        if m.snapshotPath == cfg.snapshotPath && m.aofPath == cfg.aofPath && m.offset <= |f.aof| && f.snapshot.Some?
        then Some(m.offset)
        else None
  }

  /** The recovery sequence of main; None if startup fails. */
  function RecoverFiles(cfg: Config, f: Files, at: int): Option<Table> {
    match UsableOffset(cfg, f)
    case None => ReplayBytes(cfg, map[], at, f.aof, 0)
    case Some(offset) =>
      if f.snapshot.None? then None
      else
        match LoadBytes(cfg, at, f.snapshot.value)
        case None => None
        case Some(t) => ReplayBytes(cfg, t, at, f.aof, offset)
  }

  // --- The files of a node --------------------------------------------------------------------

  function MarkText(cfg: Config, log: seq<seq<string>>, mark: Mark): string
    requires mark.position <= |log|
  {
    ManifestText(Manifest(cfg.snapshotPath, cfg.aofPath, |EncodeAll(log[..mark.position])|, mark.created))
  }

  predicate Placed(n: Node) {
    n.mark.Some? ==> n.mark.value.position <= |n.log| && n.snapshot.Some?
  }

  function FilesOf(cfg: Config, n: Node): Files
    requires Placed(n)
  {
    Files(EncodeAll(n.log),
          if n.snapshot.Some? then Some(EncodeAll(n.snapshot.value)) else None,
          if n.mark.Some? then Some(MarkText(cfg, n.log, n.mark.value)) else None)
  }

  /** Where recovery starts reading the log. */
  function TailStart(n: Node): nat {
    if n.mark.Some? then n.mark.value.position else 0
  }

  /** The manifest survives as text. */
  predicate MarkReadable(cfg: Config, n: Node) {
    n.mark.Some? ==>
      |EncodeAll(n.log)| <= U64_MAX && InI64(n.mark.value.created) && Clean(cfg.snapshotPath) && Clean(cfg.aofPath)
  }

  /** Everything recovery reads can be read back: the commands after the position the manifest names, or
      all of them, within the limits and one request buffer; with a manifest also the snapshot and the
      manifest itself. What lies before that position may be of any size. */
  predicate Readable(cfg: Config, n: Node)
    requires Placed(n)
  {
    var tail := n.log[TailStart(n)..];
    && AllFit(cfg.Options(), tail) && |EncodeAll(tail)| <= cfg.maxRequest && MarkReadable(cfg, n)
    && (n.mark.Some? ==> AllFit(cfg.Options(), n.snapshot.value) && |EncodeAll(n.snapshot.value)| <= cfg.maxRequest)
  }

  /** Replaying from a command boundary, whole or with torn bytes at the end of the file. */
  lemma ReplayTail(cfg: Config, start: Table, at: int, log: seq<seq<string>>, i: nat, torn: string)
    requires i <= |log| && AllFit(cfg.Options(), log[i..]) && NextValue(cfg.Options(), torn).NeedMore?
    requires |EncodeAll(log[i..]) + torn| <= cfg.maxRequest
    ensures |EncodeAll(log[..i])| <= |EncodeAll(log)|
    ensures ReplayBytes(cfg, start, at, EncodeAll(log) + torn, |EncodeAll(log[..i])|) ==
            ReplayLog(cfg.Limits(), Some(start), at, log[i..])
  {
    hide Fits, ReadLog, EncodeAll, NextValue;
    var head, tail := EncodeAll(log[..i]), EncodeAll(log[i..]);
    assert log == log[..i] + log[i..];
    EncodeAppend(log[..i], log[i..]);
    assert (EncodeAll(log) + torn)[|head|..] == tail + torn;
    if log[i..] == [] {
      EncodeNone();
    } else {
      EncodeSome(log[i..]);
    }
    ReadEncoded(cfg.Options(), log[i..], torn);
  }

  lemma EncodeNone()
    ensures EncodeAll([]) == ""
  {
  }

  lemma EncodeSome(commands: seq<seq<string>>)
    requires commands != []
    ensures EncodeAll(commands) != ""
  {
  }

  lemma LoadWhole(cfg: Config, at: int, commands: seq<seq<string>>)
    requires AllFit(cfg.Options(), commands) && |EncodeAll(commands)| <= cfg.maxRequest
    ensures LoadBytes(cfg, at, EncodeAll(commands)) == LoadLog(cfg.Limits(), Some(map[]), at, commands)
  {
    hide Fits, ReadLog, EncodeAll;
    if commands == [] {
      EncodeNone();
    } else {
      EncodeSome(commands);
      EncodingsRoundTrip(cfg.Options(), commands);
    }
  }

  function WithTorn(f: Files, torn: string): Files {
    f.(aof := f.aof + torn)
  }

  lemma MarkIsUsable(cfg: Config, n: Node, torn: string)
    requires Placed(n) && MarkReadable(cfg, n)
    ensures UsableOffset(cfg, WithTorn(FilesOf(cfg, n), torn)) ==
            if n.mark.Some? then Some(|EncodeAll(n.log[..n.mark.value.position])|) else None
  {
    hide Fits, EncodeAll, ManifestText, ReadManifest;
    if n.mark.Some? {
      var i := n.mark.value.position;
      assert n.log == n.log[..i] + n.log[i..];
      EncodeAppend(n.log[..i], n.log[i..]);
      ManifestRoundTrip(Manifest(cfg.snapshotPath, cfg.aofPath, |EncodeAll(n.log[..i])|, n.mark.value.created));
    }
  }

  /** Recovery from the bytes is recovery from the commands they encode; the bytes of a torn last
      command change nothing. */
  lemma RecoverTorn(cfg: Config, n: Node, torn: string, at: int)
    requires Placed(n) && Readable(cfg, n) && NextValue(cfg.Options(), torn).NeedMore?
    requires |EncodeAll(n.log[TailStart(n)..]) + torn| <= cfg.maxRequest
    ensures RecoverFiles(cfg, WithTorn(FilesOf(cfg, n), torn), at) == Recover(cfg.Limits(), n, at)
  {
    hide Fits, EncodeAll, UsableOffset, LoadBytes, ReplayBytes, ReplayNext, LoadNext, NextValue;
    MarkIsUsable(cfg, n, torn);
    if n.mark.Some? {
      LoadWhole(cfg, at, n.snapshot.value);
      var t := LoadLog(cfg.Limits(), Some(map[]), at, n.snapshot.value);
      if t.Some? {
        ReplayTail(cfg, t.value, at, n.log, n.mark.value.position, torn);
      } else {
        ReplayNothing(cfg.Limits(), at, n.log[n.mark.value.position..]);
      }
    } else {
      EncodeNone();
      assert n.log[..0] == [] && n.log[0..] == n.log;
      ReplayTail(cfg, map[], at, n.log, 0, torn);
    }
  }

  lemma RecoverFilesIsRecover(cfg: Config, n: Node, at: int)
    requires Placed(n) && Readable(cfg, n)
    ensures RecoverFiles(cfg, FilesOf(cfg, n), at) == Recover(cfg.Limits(), n, at)
  {
    hide Fits, EncodeAll, RecoverFiles, Recover;
    assert FilesOf(cfg, n).aof + "" == FilesOf(cfg, n).aof;
    var tail := EncodeAll(n.log[TailStart(n)..]);
    assert tail + "" == tail;
    RecoverTorn(cfg, n, "", at);
  }

  lemma {:induction false} ReplayNothing(l: Limits, at: int, log: seq<seq<string>>)
    ensures ReplayLog(l, None, at, log) == None
  {
    if log != [] {
      ReplayNothing(l, at, log[..|log| - 1]);
    }
  }
}
