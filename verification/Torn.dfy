/** Appending after a torn tail. Replay ignores a torn last command, but the file is reopened with those
    bytes still in it, so the next record lands behind them. When the log can then be read, exactly, and
    what may happen when it cannot. */
module Torn {
  import opened Wrappers
  import opened Decimal
  import opened Text
  import opened Resp
  import opened RespTheorems
  import opened Store
  import opened Commands
  import opened Replay
  import opened Disk

  // --- Reading backwards ----------------------------------------------------------------------

  /** Where the parts of an encoded argument lie if it ends at `end`. */
  predicate EndsWith(b: string, end: nat, s: string) {
    |s| <= end <= |b| && b[end - |s|..end] == s
  }

  lemma FragmentBefore(b: string, end: nat, arg: string)
    requires EndsWith(b, end, Fragment(arg))
    ensures var text := end - 2 - |arg|;
            && |Fragment(arg)| == 1 + |NatText(|arg|)| + 2 + |arg| + 2
            && 1 <= text && text + |arg| <= |b| && b[text..text + |arg|] == arg && b[text - 1] == '\n'
            && b[end - |Fragment(arg)|] == '$'
            && forall i | end - |Fragment(arg)| < i < text - 2 :: IsDigit(b[i])
  {
    hide NatText, Fragment;
    var n, start := NatText(|arg|), end - |Fragment(arg)|;
    var text := end - 2 - |arg|;
    var f := Fragment(arg);
    FragmentShape(arg);
    assert b[start..end] == f;
    SliceOfSlice(b, start, end, |n| + 3, |n| + 3 + |arg|);
    assert b[text - 1] == b[start..end][|n| + 2] && b[start] == b[start..end][0];
    forall i | start < i < text - 2
      ensures IsDigit(b[i])
    {
      assert b[i] == b[start..end][i - start] == n[i - start - 1];
    }
  }

  lemma FragmentShape(arg: string)
    ensures var f, n := Fragment(arg), NatText(|arg|);
            && |f| == 1 + |n| + 2 + |arg| + 2 && f[0] == '$' && f[1..1 + |n|] == n && f[|n| + 2] == '\n'
            && f[|n| + 3..|n| + 3 + |arg|] == arg
  {
    hide NatText;
  }

  /** The characters of a number. */
  lemma InNumber(b: string, lo: nat, hi: nat, i: nat)
    requires lo <= i < hi <= |b| && ParseI64Exact(b[lo..hi]).Some?
    ensures IsDigit(b[i]) || b[i] == '-'
  {
    var line := b[lo..hi];
    var digits := if line[0] == '-' then line[1..] else line;
    assert AllDigits(digits);
    assert line[i - lo] == b[i];
    if line[0] == '-' && i > lo { assert digits[i - lo - 1] == b[i]; }
  }

  /** No number of its own ends where the text of an encoded argument ends. */
  lemma NoNumberBack(b: string, pos: nat, crlf: nat, arg: string)
    requires pos < crlf <= |b| && b[pos] == ':' && ParseI64Exact(b[pos + 1..crlf]).Some?
    requires 1 <= |arg| < crlf && b[crlf - |arg|..crlf] == arg && forall i | 0 <= i < |arg| :: IsDigit(arg[i]) || arg[i] == '-'
    ensures b[crlf - |arg| - 1] != '\n'
  {
    hide ParseI64Exact;
    var text := crlf - |arg|;
    assert forall i | text <= i < crlf :: b[i] == arg[i - text];
    if pos < text - 1 { InNumber(b, pos + 1, crlf, text - 1); }
  }

  lemma BulkBack(b: string, pos: nat, crlf: nat, start: nat)
    requires pos < crlf < |b| && b[pos] == '$' && ParseI64Exact(b[pos + 1..crlf]).Some?
    requires start < crlf && b[start] == '$' && forall i | start < i < crlf :: IsDigit(b[i])
    ensures pos == start
  {
    hide ParseI64Exact;
    if pos < start { InNumber(b, pos + 1, crlf, start); }
  }

  lemma ArrayIsNoArg(o: Options, b: string, line: string, after: nat, depth: nat)
    requires after <= |b| && depth <= MAX_DEPTH && ParseArray(o, b, line, after, depth).Done?
    ensures ArgOf(ParseArray(o, b, line, after, depth).value).Err?
  {
  }

  /** A value that ends where an encoded argument ends, and denotes that argument, starts where the
      encoding starts. */
  lemma ElementBack(o: Options, b: string, pos: nat, arg: string, depth: nat)
    requires ParseAt(o, b, pos, depth).Done? && ArgOf(ParseAt(o, b, pos, depth).value) == Ok(arg)
    requires EndsWith(b, ParseAt(o, b, pos, depth).end, Fragment(arg))
    ensures pos == ParseAt(o, b, pos, depth).end - |Fragment(arg)|
  {
    hide ParseArray, FindCrlf, Fragment, EndsWith, IntText, ParseI64Exact, NatText;
    var crlf, end := FindCrlf(b, pos + 1).value, ParseAt(o, b, pos, depth).end;
    LineAt(o, b, pos, depth, crlf);
    FragmentBefore(b, end, arg);
    if b[pos] == '$' {
      BulkBack(b, pos, crlf, end - |Fragment(arg)|);
    } else if b[pos] == ':' {
      NoNumberBack(b, pos, crlf, arg);
    } else if b[pos] == '*' {
      ArrayIsNoArg(o, b, b[pos + 1..crlf], crlf + 2, depth);
    }
  }

  /** Elements that denote the arguments, and end where their encodings end, start where those start. */
  lemma {:induction false} ElementsBack(o: Options, b: string, cursor: nat, args: seq<string>, depth: nat)
    requires cursor <= |b| && ParseItems(o, b, cursor, |args|, depth).Done?
    requires ArgsOf(ParseItems(o, b, cursor, |args|, depth).value.items) == Ok(args)
    requires EndsWith(b, ParseItems(o, b, cursor, |args|, depth).end, Fragments(args))
    ensures cursor == ParseItems(o, b, cursor, |args|, depth).end - |Fragments(args)|
    decreases |args|
  {
    hide ParseAt, Fragment;
    if args != [] {
      var first, all := ParseAt(o, b, cursor, depth), ParseItems(o, b, cursor, |args|, depth);
      var rest := ParseItems(o, b, first.end, |args| - 1, depth);
      assert all.value.items[1..] == rest.value.items;
      assert ArgsOf(rest.value.items) == Ok(args[1..]);
      SplitEnd(b, all.end, Fragment(args[0]), Fragments(args[1..]));
      ElementsBack(o, b, first.end, args[1..], depth);
      ElementBack(o, b, cursor, args[0], depth);
    }
  }

  lemma SplitEnd(b: string, end: nat, s: string, t: string)
    requires EndsWith(b, end, s + t)
    ensures EndsWith(b, end, t) && EndsWith(b, end - |t|, s)
  {
    var u := b[end - |s + t|..end];
    assert b[end - |t|..end] == u[|s|..] == t;
    assert b[end - |s + t|..end - |t|] == u[..|s|] == s;
  }

  // --- A record behind torn bytes -------------------------------------------------------------

  /** Bytes in front of a record: the array they open cannot be that record. */
  lemma NoArrayAround(o: Options, torn: string, w: seq<string>)
    requires torn != "" && torn[0] == '*'
    ensures var b := torn + Encode(w); var r := ParseAt(o, b, 0, 0);
            !(r.Done? && r.end == |b| && CommandOf(r.value) == Ok(w))
  {
    hide FindCrlf, ParseItems, Fragments, ParseI64Exact, NatText;
    var b := torn + Encode(w);
    var r := ParseAt(o, b, 0, 0);
    if r.Done? && r.end == |b| && CommandOf(r.value) == Ok(w) {
      var crlf := FindCrlf(b, 1).value;
      LineAt(o, b, 0, 0, crlf);
      assert EndsWith(b, |b|, Fragments(w));
      ElementsBack(o, b, crlf + 2, w, 1);
      InNumber(b, 1, crlf, |torn|);
    }
  }

  /** Nor can a line of words. */
  lemma NoLineAround(o: Options, torn: string, w: seq<string>)
    requires torn != ""
    ensures var b := torn + Encode(w); var r := ParseInline(o, b);
            !(r.Done? && r.end == |b| && CommandOf(r.value) == Ok(w))
  {
    hide FindCrlf, NatText;
    var b, head := torn + Encode(w), |torn + ArrayHeader(|w|)|;
    assert CrlfAt(b, head - 2) && b[|torn|] == '*';
    var r := ParseInline(o, b);
    if r.Done? && r.end == |b| && CommandOf(r.value) == Ok(w) {
      var crlf := FindCrlf(b, 0).value;
      assert head == |b| && w == [];
      var spans := WordsAreRuns(b[..crlf], 0);
      NonSpaceIn(b[..crlf], |torn|, spans);
    }
  }

  lemma NonSpaceIn(s: string, p: nat, spans: seq<(nat, nat)>)
    requires p < |s| && !IsSpace(s[p]) && AreRuns(s, 0, Words(s, 0), spans)
    ensures Words(s, 0) != []
  {
    assert InSome(spans, p);
  }

  lemma NothingAround(o: Options, torn: string, w: seq<string>)
    requires torn != ""
    ensures ReadLog(o, torn + Encode(w)) != LogRead([w], "", None)
  {
    hide ParseAt, ParseInline, Encode, CommandOf;
    var b := torn + Encode(w);
    NoLineAround(o, torn, w);
    if torn[0] == '*' { NoArrayAround(o, torn, w); }
    if ReadLog(o, b) == LogRead([w], "", None) {
      OneCommandLeft(o, b, w);
      var r := NextValue(o, b);
      if IsPrefix(b[0]) && b[0] != '*' { NoCommand(o, b); }
      assert false;
    }
  }

  lemma OneCommandLeft(o: Options, b: string, w: seq<string>)
    requires ReadLog(o, b) == LogRead([w], "", None)
    ensures NextValue(o, b).Done? && NextValue(o, b).end == |b| && CommandOf(NextValue(o, b).value) == Ok(w)
  {
    hide NextValue, CommandOf;
    var rest := NextCommand(o, b).1;
    var r := ReadLog(o, rest);
    var args := NextCommand(o, b).0.args;
    assert ([args] + r.commands)[0] == args && ([args] + r.commands)[1..] == r.commands;
  }

  /** Only arrays are commands. */
  lemma NoCommand(o: Options, b: string)
    requires b != "" && IsPrefix(b[0]) && b[0] != '*' && ParseAt(o, b, 0, 0).Done?
    ensures CommandOf(ParseAt(o, b, 0, 0).value).Err?
  {
    hide FindCrlf, ParseI64Exact;
    LineAt(o, b, 0, 0, FindCrlf(b, 1).value);
  }

  /** Whole commands in front of a stream are read first, whatever follows. */
  lemma {:induction false} ReadWholeFirst(o: Options, commands: seq<seq<string>>, tail: string)
    requires AllFit(o, commands)
    ensures var r := ReadLog(o, tail);
            ReadLog(o, EncodeAll(commands) + tail) == r.(commands := commands + r.commands)
    decreases |commands|
  {
    hide NextValue, Encode, Fits, NextCommand;
    if commands == [] {
      assert "" + tail == tail;
      assert [] + ReadLog(o, tail).commands == ReadLog(o, tail).commands;
    } else {
      var rest, more := EncodeAll(commands[1..]) + tail, ReadLog(o, tail).commands;
      ReadOne(o, commands[0], rest);
      assert EncodeAll(commands) + tail == Encode(commands[0]) + rest;
      ReadWholeFirst(o, commands[1..], tail);
      assert [commands[0]] + (commands[1..] + more) == commands + more;
    }
  }

  /** A log of whole commands, some bytes, and one more record: it reads as the commands and that record if
      and only if there are no such bytes, whatever they are. */
  lemma TornThenAppended(o: Options, log: seq<seq<string>>, torn: string, w: seq<string>)
    requires AllFit(o, log) && Fits(o, w)
    ensures ReadLog(o, EncodeAll(log) + (torn + Encode(w))) == LogRead(log + [w], "", None) <==> torn == ""
  {
    hide Encode, EncodeAll, ReadLog, Fits;
    ReadWholeFirst(o, log, torn + Encode(w));
    var r := ReadLog(o, torn + Encode(w));
    if torn == "" {
      assert torn + Encode(w) == Encode(w);
      EncodeSingle(w);
      EncodingsRoundTrip(o, [w]);
    } else {
      NothingAround(o, torn, w);
      if log + r.commands == log + [w] { assert r.commands == (log + r.commands)[|log|..] == [w]; }
    }
  }

  // --- What may happen ------------------------------------------------------------------------

  /** One stray byte in front of a record makes its header unreadable. */
  lemma StrayByte(o: Options, args: seq<string>)
    requires |args| <= I64_MAX
    ensures ReadLog(o, "*" + Encode(args)) == LogRead([], "*" + Encode(args), Some(InvalidArrayLength))
  {
    hide NatText, ParseItems, FindCrlf, Fragments;
    var n := NatText(|args|);
    var b, line := "*" + Encode(args), "*" + n;
    assert Encode(args) == "*" + n + "\r\n" + Fragments(args);
    assert b == "*" + line + "\r\n" + Fragments(args);
    assert b[1..1 + |line|] == line;
    DigitsOnly(|args|);
    FirstCrlf(b, 1, line);
    LineAt(o, b, 0, 0, 1 + |line|);
    assert ParseI64Exact(line).None? by { assert !IsDigit(line[0]); }
  }

  /** A log whose torn last command was cut after its first byte still recovers; but the file is
      reopened without dropping that byte, and after any further write the server no longer starts. */
  lemma TornThenAppendedFails(cfg: Config, log: seq<seq<string>>, args: seq<string>, at: int)
    requires AllFit(cfg.Options(), log) && |args| <= I64_MAX && |EncodeAll(log) + "*"| <= cfg.maxRequest
    ensures RecoverFiles(cfg, Files(EncodeAll(log) + "*", None, None), at) == ReplayLog(cfg.Limits(), Some(map[]), at, log)
    ensures RecoverFiles(cfg, Files(EncodeAll(log) + ("*" + Encode(args)), None, None), at).None?
  {
    hide Fits, Encode, EncodeAll, ReadLog, ReplayLog;
    EncodeNone();
    assert log[..0] == [] && log[0..] == log;
    OneStar(cfg.Options());
    ReplayTail(cfg, map[], at, log, 0, "*");
    ReadWholeFirst(cfg.Options(), log, "*" + Encode(args));
    StrayByte(cfg.Options(), args);
    var content := EncodeAll(log) + ("*" + Encode(args));
    assert content[0..] == content;
  }

  lemma OneStar(o: Options)
    ensures NextValue(o, "*").NeedMore?
  {
  }

  /** The bytes of an encoded SET up to its value. */
  function SetHead(k: string, size: nat): string {
    ArrayHeader(3) + Fragment("SET") + Fragment(k) + "$" + NatText(size) + "\r\n"
  }

  lemma SetEncoding(k: string, v: string)
    ensures Encode(["SET", k, v]) == SetHead(k, |v|) + v + "\r\n"
  {
    hide NatText;
    assert ["SET", k, v][1..] == [k, v] && [k, v][1..] == [v] && [v][1..] == [];
    assert Fragments([v]) == Fragment(v) + "";
    assert Fragments([k, v]) == Fragment(k) + Fragments([v]);
  }

  /** A SET torn inside its value, just as far from its end as the next record is long: the record is taken
      for the missing part of the value. The file reads without error, so the server starts; the key holds
      the bytes of the record, and the record itself is lost. */
  lemma TornValueSwallows(cfg: Config, log: seq<seq<string>>, k: string, x: string, y: string, w: seq<string>, at: int)
    requires |y| == |Encode(w)| - 2 && var o := cfg.Options(); AllFit(o, log) && Fits(o, ["SET", k, x + y])
    requires |k| <= cfg.maxKey && |EncodeAll(log) + Encode(["SET", k, x + y])| <= cfg.maxRequest
    requires ReplayLog(cfg.Limits(), Some(map[]), at, log).Some?
    ensures var torn, swallowed := SetHead(k, |x + y|) + x, x + Encode(w)[..|y|];
            && torn < Encode(["SET", k, x + y])
            && ReadLog(cfg.Options(), EncodeAll(log) + (torn + Encode(w))) == LogRead(log + [["SET", k, swallowed]], "", None)
            && RecoverFiles(cfg, Files(EncodeAll(log) + (torn + Encode(w)), None, None), at) ==
               Some(Put(ReplayLog(cfg.Limits(), Some(map[]), at, log).value, k, Some(Entry(swallowed, None))))
  {
    hide EncodeAll, Encode, SetHead, Fits, ReadLog, ReplayLog, ReplayOne;
    var torn, swallowed := SetHead(k, |x + y|) + x, x + Encode(w)[..|y|];
    var record := ["SET", k, swallowed];
    SetEncoding(k, x + y);
    SetEncoding(k, swallowed);
    EndsInCrlf(w);
    assert torn + Encode(w) == Encode(record);
    assert torn == Encode(["SET", k, x + y])[..|torn|];
    SameShapeFits(cfg.Options(), k, x + y, swallowed);
    EncodeSingle(record);
    EncodingsRoundTrip(cfg.Options(), [record]);
    ReadWholeFirst(cfg.Options(), log, Encode(record));
    var content := EncodeAll(log) + Encode(record);
    assert content[0..] == content;
    ReplaySwallowed(cfg.Limits(), ReplayLog(cfg.Limits(), Some(map[]), at, log).value, at, k, swallowed);
    ReplayLogged(cfg.Limits(), Some(map[]), at, log, Some(record));
    assert Logged(Some(record)) == [record];
  }

  lemma EndsInCrlf(w: seq<string>)
    ensures |Encode(w)| >= 2 && Encode(w)[|Encode(w)| - 2..] == "\r\n"
  {
    if w != [] { FragmentsEnd(w); }
  }

  lemma {:induction false} FragmentsEnd(w: seq<string>)
    requires w != []
    ensures |Fragments(w)| >= 2 && Fragments(w)[|Fragments(w)| - 2..] == "\r\n"
  {
    if |w| > 1 { FragmentsEnd(w[1..]); }
  }

  lemma SameShapeFits(o: Options, k: string, v: string, v': string)
    requires Fits(o, ["SET", k, v]) && |v'| == |v|
    ensures Fits(o, ["SET", k, v']) && |v'| <= o.maxBulk
  {
    hide Encode, SetHead;
    SetEncoding(k, v);
    SetEncoding(k, v');
    assert v in ["SET", k, v];
    forall arg | arg in ["SET", k, v']
      ensures ArgFits(o, arg)
    {
      assert arg == v' || arg in ["SET", k, v];
    }
  }

  lemma ReplaySwallowed(l: Limits, t: Table, at: int, k: string, v: string)
    requires |k| <= l.maxKey && |v| <= l.maxValue
    ensures ReplayOne(l, t, at, ["SET", k, v]) == Some(Put(t, k, Some(Entry(v, None))))
  {
    UpperIdentity("SET");
    assert SetPlan(["SET", k, v]) == Ok(NO_OPTIONS);
    assert Exec(l, t, at, ["SET", k, v]) == ExecKeyed(l, t, at, ["SET", k, v]);
  }
}
