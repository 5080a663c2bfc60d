/** The wire format by itself: which texts spell a RESP value, said without a parser; and that the parser
    reads a value off the front of a buffer if and only if the bytes there spell it. */
module Grammar {
  import opened Wrappers
  import opened Decimal
  import opened Resp
  import opened RespTheorems

  /** A line that spells a number. */
  predicate Number(line: string, n: int) {
    ParseI64Exact(line) == Some(n)
  }

  predicate NoCrlf(text: string) {
    forall i: nat | i < |text| :: !CrlfAt(text, i)
  }

  /** The text, standing at a position of the buffer, spells the value within the limits. */
  ghost predicate Spells(o: Options, at: nat, s: string, v: Value, depth: nat)
    decreases Rank(depth), 0
  {
    depth <= MAX_DEPTH &&
    match v
    case Simple(text) => NoCrlf(text) && s == "+" + text + "\r\n"
    case Failure(text) => NoCrlf(text) && s == "-" + text + "\r\n"
    case Integer(n) => exists line :: Number(line, n) && s == ":" + line + "\r\n"
    case NullBulk => exists line :: Number(line, -1) && s == "$" + line + "\r\n"
    case NullArray => exists line :: Number(line, -1) && s == "*" + line + "\r\n"
    case Bulk(text) =>
      exists line ::
        && Number(line, |text|) && s == "$" + line + "\r\n" + text + "\r\n"
        && |text| <= o.maxBulk && at + |line| + 3 + |text| <= o.maxRequest
    case Array(items) => exists line :: SpellsArray(o, at, s, line, items, depth)
  }

  ghost predicate SpellsArray(o: Options, at: nat, s: string, line: string, items: seq<Value>, depth: nat)
    requires depth <= MAX_DEPTH
    decreases Rank(depth + 1), |items| + 2
  {
    && Number(line, |items|) && |items| <= o.maxElements
    && |line| + 3 <= |s| && s[..|line| + 3] == "*" + line + "\r\n"
    && SpellsAll(o, at + |line| + 3, s[|line| + 3..], items, depth + 1)
  }

  /** One value after another. */
  ghost predicate SpellsAll(o: Options, at: nat, s: string, items: seq<Value>, depth: nat)
    decreases Rank(depth), |items| + 1
  {
    if items == [] then s == ""
    else
      exists cut: nat {:trigger s[cut..]} :: cut <= |s| && Spells(o, at, s[..cut], items[0], depth) && SpellsAll(o, at + cut, s[cut..], items[1..], depth)
  }

  // --- What is read is spelled ----------------------------------------------------------------

  lemma LineHasNoCrlf(b: string, pos: nat, crlf: nat)
    requires FindCrlf(b, pos) == Some(crlf)
    ensures NoCrlf(b[pos..crlf]) && b[pos..crlf + 2] == b[pos..crlf] + "\r\n"
  {
    hide FindCrlf;
    var line := b[pos..crlf];
    forall i: nat | i < |line|
      ensures !CrlfAt(line, i)
    {
      var j: nat := pos + i;
      assert CrlfAt(line, i) ==> CrlfAt(b, j);
    }
  }

  lemma {:induction false} ReadIsSpelled(o: Options, b: string, pos: nat, depth: nat)
    requires ParseAt(o, b, pos, depth).Done?
    ensures var r := ParseAt(o, b, pos, depth); Spells(o, pos, b[pos..r.end], r.value, depth)
    decreases Rank(depth), 0
  {
    hide FindCrlf, ParseArray, ParseBulk, ParseI64Exact, SpellsArray;
    var crlf := FindCrlf(b, pos + 1).value;
    var line, r := b[pos + 1..crlf], ParseAt(o, b, pos, depth);
    LineAt(o, b, pos, depth, crlf);
    LineHasNoCrlf(b, pos + 1, crlf);
    assert b[pos..crlf + 2] == [b[pos]] + b[pos + 1..crlf + 2];
    match b[pos]
    case '+' => assert b[pos..r.end] == "+" + line + "\r\n";
    case '-' => assert b[pos..r.end] == "-" + line + "\r\n";
    case ':' => assert b[pos..r.end] == ":" + line + "\r\n" && Number(line, r.value.n);
    case '$' => BulkIsSpelled(o, b, pos, line, crlf, depth);
    case '*' => ArrayIsSpelled(o, b, pos, line, crlf, depth);
    case _ =>
  }

  lemma BulkIsSpelled(o: Options, b: string, pos: nat, line: string, crlf: nat, depth: nat)
    requires depth <= MAX_DEPTH && pos + 1 + |line| == crlf && crlf + 2 <= |b| && b[pos..crlf + 2] == "$" + line + "\r\n"
    requires ParseBulk(o, b, line, crlf + 2).Done?
    ensures var r := ParseBulk(o, b, line, crlf + 2); Spells(o, pos, b[pos..r.end], r.value, depth)
  {
    hide ParseI64Exact, CrlfAt, Spells;
    var r, after := ParseBulk(o, b, line, crlf + 2), crlf + 2;
    if r.value.NullBulk? {
      SpellsNull(o, pos, line, depth);
    } else {
      var text := r.value.text;
      CrlfText(b, after + |text|);
      ThreeSlices(b, pos, after, after + |text|, r.end);
      SpellsBulk(o, pos, line, text, depth);
    }
  }

  lemma SpellsNull(o: Options, at: nat, line: string, depth: nat)
    requires depth <= MAX_DEPTH && Number(line, -1)
    ensures Spells(o, at, "$" + line + "\r\n", NullBulk, depth)
  {
    hide Number;
  }

  lemma SpellsBulk(o: Options, at: nat, line: string, text: string, depth: nat)
    requires depth <= MAX_DEPTH && Number(line, |text|) && |text| <= o.maxBulk && at + |line| + 3 + |text| <= o.maxRequest
    ensures Spells(o, at, "$" + line + "\r\n" + text + "\r\n", Bulk(text), depth)
  {
    hide Number;
  }

  lemma ThreeSlices(b: string, i: nat, j: nat, k: nat, m: nat)
    requires i <= j <= k <= m <= |b|
    ensures b[i..m] == b[i..j] + b[j..k] + b[k..m]
  {
  }

  lemma CutSlice(b: string, i: nat, n: nat, cut: nat)
    requires cut <= n && i + n <= |b|
    ensures b[i..i + n][..cut] == b[i..i + cut] && b[i..i + n][cut..] == b[i + cut..i + n]
  {
  }

  lemma CrlfText(b: string, i: nat)
    requires CrlfAt(b, i)
    ensures i + 2 <= |b| && b[i..i + 2] == "\r\n"
  {
  }

  lemma {:induction false} ArrayIsSpelled(o: Options, b: string, pos: nat, line: string, crlf: nat, depth: nat)
    requires depth <= MAX_DEPTH && pos + 1 + |line| == crlf && crlf + 2 <= |b| && b[pos..crlf + 2] == "*" + line + "\r\n"
    requires ParseArray(o, b, line, crlf + 2, depth).Done?
    ensures var r := ParseArray(o, b, line, crlf + 2, depth); Spells(o, pos, b[pos..r.end], r.value, depth)
    decreases Rank(depth + 1), I64_MAX + 2
  {
    hide ParseI64Exact, SpellsAll, ParseItems;
    var r, n := ParseArray(o, b, line, crlf + 2, depth), ParseI64Exact(line).value;
    if n == -1 {
      assert Number(line, -1);
    } else {
      ItemsAreSpelled(o, b, crlf + 2, n, depth + 1);
      var s := b[pos..r.end];
      assert s[..|line| + 3] == b[pos..crlf + 2] && s[|line| + 3..] == b[crlf + 2..r.end];
      assert SpellsArray(o, pos, s, line, r.value.items, depth);
    }
  }

  lemma {:induction false} ItemsAreSpelled(o: Options, b: string, cursor: nat, count: nat, depth: nat)
    requires cursor <= |b| && ParseItems(o, b, cursor, count, depth).Done?
    ensures var r := ParseItems(o, b, cursor, count, depth); SpellsAll(o, cursor, b[cursor..r.end], r.value.items, depth)
    decreases Rank(depth), count + 1
  {
    hide ParseAt, Spells;
    if count > 0 {
      var r, first := ParseItems(o, b, cursor, count, depth), ParseAt(o, b, cursor, depth);
      ReadIsSpelled(o, b, cursor, depth);
      ItemsAreSpelled(o, b, first.end, count - 1, depth);
      var s, cut, items := b[cursor..r.end], first.end - cursor, r.value.items;
      CutSlice(b, cursor, r.end - cursor, cut);
      assert items[0] == first.value && items[1..] == ParseItems(o, b, first.end, count - 1, depth).value.items;
    }
  }

  // --- What is spelled is read ----------------------------------------------------------------

  /** The text stands in the buffer at a position. */
  predicate Stands(b: string, pos: nat, s: string) {
    pos + |s| <= |b| && b[pos..pos + |s|] == s
  }

  /** A line behind a type byte is found again. */
  lemma LineFound(b: string, pos: nat, c: char, line: string, rest: string)
    requires Stands(b, pos, [c] + line + "\r\n" + rest) && NoCrlf(line)
    ensures pos < |b| && b[pos] == c && FindCrlf(b, pos + 1) == Some(pos + 1 + |line|)
    ensures pos + 1 + |line| <= |b| && b[pos + 1..pos + 1 + |line|] == line
  {
    hide FindCrlf, CrlfAt, NoCrlf;
    LineStands(b, pos, c, line, rest);
    CrlfEnds(b, pos + 1, line);
  }

  lemma LineStands(b: string, pos: nat, c: char, line: string, rest: string)
    requires Stands(b, pos, [c] + line + "\r\n" + rest)
    ensures pos + 1 + |line| <= |b| && b[pos] == c && b[pos + 1..pos + 1 + |line|] == line && CrlfAt(b, pos + 1 + |line|)
  {
    var s, end := [c] + line + "\r\n" + rest, pos + 1 + |line|;
    LineParts(c, line, rest);
    var sub := b[pos..pos + |s|];
    assert sub == s && b[pos] == sub[0];
    SliceOfSlice(b, pos, pos + |s|, 1, 1 + |line|);
    assert b[end] == sub[1 + |line|] && b[end + 1] == sub[2 + |line|];
  }

  lemma LineParts(c: char, line: string, rest: string)
    ensures var s := [c] + line + "\r\n" + rest;
            && |s| == 1 + |line| + 2 + |rest| && s[0] == c && s[1..1 + |line|] == line
            && s[1 + |line|] == '\r' && s[2 + |line|] == '\n'
  {
    var s := [c] + line + "\r\n" + rest;
    assert "\r\n"[0] == '\r' && "\r\n"[1] == '\n';
    assert s == [c] + (line + ("\r\n" + rest));
  }

  lemma CrlfEnds(b: string, pos: nat, line: string)
    requires pos + |line| <= |b| && b[pos..pos + |line|] == line && NoCrlf(line) && CrlfAt(b, pos + |line|)
    ensures FindCrlf(b, pos) == Some(pos + |line|)
  {
    hide FindCrlf;
    forall i: nat | pos <= i < pos + |line|
      ensures !CrlfAt(b, i)
    {
      assert b[i] == line[i - pos] && !CrlfAt(line, i - pos);
      assert i + 1 < pos + |line| ==> b[i + 1] == line[i + 1 - pos];
    }
  }

  lemma NumberHasNoCrlf(line: string, n: int)
    requires Number(line, n)
    ensures NoCrlf(line)
  {
    var digits := if line[0] == '-' then line[1..] else line;
    assert AllDigits(digits);
    forall i: nat | i < |line|
      ensures line[i] != '\r'
    {
      if line[0] == '-' && i > 0 { assert digits[i - 1] == line[i]; }
    }
  }

  lemma {:induction false} SpelledIsRead(o: Options, b: string, pos: nat, s: string, v: Value, depth: nat)
    requires Spells(o, pos, s, v, depth) && Stands(b, pos, s)
    ensures ParseAt(o, b, pos, depth) == Done(v, pos + |s|)
    decreases Rank(depth), 0
  {
    hide FindCrlf, ParseArray, ParseBulk, ParseI64Exact, ParseAt, SpellsArray, Stands, NoCrlf, Number;
    match v
    case Simple(text) => LineAlone(o, b, pos, '+', text, depth);
    case Failure(text) => LineAlone(o, b, pos, '-', text, depth);
    case Integer(n) =>
      var line :| Number(line, n) && s == ":" + line + "\r\n";
      IntegerRead(o, b, pos, line, n, depth);
    case NullBulk =>
      var line :| Number(line, -1) && s == "$" + line + "\r\n";
      NumberHasNoCrlf(line, -1);
      LineAlone(o, b, pos, '$', line, depth);
      NullRead(o, b, line, pos + |s|, depth);
    case NullArray =>
      var line :| Number(line, -1) && s == "*" + line + "\r\n";
      NumberHasNoCrlf(line, -1);
      LineAlone(o, b, pos, '*', line, depth);
      NullRead(o, b, line, pos + |s|, depth);
    case Bulk(text) => BulkSpelled(o, b, pos, s, text, depth);
    case Array(items) =>
      var line :| SpellsArray(o, pos, s, line, items, depth);
      ArrayRead(o, b, pos, s, line, items, depth);
  }

  lemma BulkSpelled(o: Options, b: string, pos: nat, s: string, text: string, depth: nat)
    requires Spells(o, pos, s, Bulk(text), depth) && Stands(b, pos, s)
    ensures ParseAt(o, b, pos, depth) == Done(Bulk(text), pos + |s|)
  {
    hide ParseAt, Stands, Number, SpellsArray;
    var line :| Number(line, |text|) && s == "$" + line + "\r\n" + text + "\r\n" && |text| <= o.maxBulk && pos + |line| + 3 + |text| <= o.maxRequest;
    assert s == "$" + line + "\r\n" + (text + "\r\n");
    BulkRead(o, b, pos, line, text, depth);
  }

  lemma IntegerRead(o: Options, b: string, pos: nat, line: string, n: int, depth: nat)
    requires depth <= MAX_DEPTH && Number(line, n) && Stands(b, pos, ":" + line + "\r\n")
    ensures ParseAt(o, b, pos, depth) == Done(Integer(n), pos + |line| + 3)
  {
    hide ParseAt, Stands, NoCrlf, ParseI64Exact;
    NumberHasNoCrlf(line, n);
    LineAlone(o, b, pos, ':', line, depth);
  }

  lemma NullRead(o: Options, b: string, line: string, after: nat, depth: nat)
    requires Number(line, -1) && after <= |b| && depth <= MAX_DEPTH
    ensures ParseBulk(o, b, line, after) == Done(NullBulk, after) && ParseArray(o, b, line, after, depth) == Done(NullArray, after)
  {
  }

  lemma LineRead(o: Options, b: string, pos: nat, c: char, line: string, rest: string, depth: nat)
    requires depth <= MAX_DEPTH && NoCrlf(line) && Stands(b, pos, [c] + line + "\r\n" + rest)
    ensures pos + |line| + 3 <= |b| && ParseAt(o, b, pos, depth) == ParseLine(o, b, c, line, pos + |line| + 3, depth)
  {
    hide FindCrlf, ParseLine, ParseAt, NoCrlf;
    assert |[c] + line + "\r\n" + rest| >= |line| + 3;
    LineFound(b, pos, c, line, rest);
    LineAt(o, b, pos, depth, pos + 1 + |line|);
  }

  lemma LineAlone(o: Options, b: string, pos: nat, c: char, line: string, depth: nat)
    requires depth <= MAX_DEPTH && NoCrlf(line) && Stands(b, pos, [c] + line + "\r\n")
    ensures pos + |line| + 3 <= |b| && ParseAt(o, b, pos, depth) == ParseLine(o, b, c, line, pos + |line| + 3, depth)
  {
    hide ParseLine, ParseAt, NoCrlf, Stands;
    assert [c] + line + "\r\n" == [c] + line + "\r\n" + "";
    LineRead(o, b, pos, c, line, "", depth);
  }

  lemma BulkRead(o: Options, b: string, pos: nat, line: string, text: string, depth: nat)
    requires depth <= MAX_DEPTH && Number(line, |text|) && Stands(b, pos, "$" + line + "\r\n" + (text + "\r\n"))
    requires |text| <= o.maxBulk && pos + |line| + 3 + |text| <= o.maxRequest
    ensures ParseAt(o, b, pos, depth) == Done(Bulk(text), pos + |line| + 3 + |text| + 2)
  {
    hide ParseI64Exact, ParseAt, NoCrlf, CrlfAt;
    NumberHasNoCrlf(line, |text|);
    LineRead(o, b, pos, '$', line, text + "\r\n", depth);
    TextStands(b, pos, line, text);
  }

  lemma TextStands(b: string, pos: nat, line: string, text: string)
    requires Stands(b, pos, "$" + line + "\r\n" + (text + "\r\n"))
    ensures var after := pos + |line| + 3;
            after + |text| + 2 <= |b| && b[after..after + |text|] == text && CrlfAt(b, after + |text|)
  {
    var s, after := "$" + line + "\r\n" + (text + "\r\n"), pos + |line| + 3;
    var sub := b[pos..pos + |s|];
    assert sub[|line| + 3..|line| + 3 + |text|] == text && b[after..after + |text|] == sub[|line| + 3..|line| + 3 + |text|];
    assert b[after + |text|] == sub[|line| + 3 + |text|] && b[after + |text| + 1] == sub[|line| + 4 + |text|];
  }

  lemma {:induction false} ArrayRead(o: Options, b: string, pos: nat, s: string, line: string, items: seq<Value>, depth: nat)
    requires depth <= MAX_DEPTH && SpellsArray(o, pos, s, line, items, depth) && Stands(b, pos, s)
    ensures ParseAt(o, b, pos, depth) == Done(Array(items), pos + |s|)
    decreases Rank(depth + 1), I64_MAX + |items| + 3
  {
    hide ParseI64Exact, ParseAt, ParseItems, SpellsAll;
    var body := s[|line| + 3..];
    NumberHasNoCrlf(line, |items|);
    assert s == "*" + line + "\r\n" + body;
    LineRead(o, b, pos, '*', line, body, depth);
    assert b[pos + |line| + 3..pos + |s|] == b[pos..pos + |s|][|line| + 3..];
    ItemsRead(o, b, pos + |line| + 3, body, items, depth + 1);
  }

  lemma {:induction false} ItemsRead(o: Options, b: string, cursor: nat, s: string, items: seq<Value>, depth: nat)
    requires SpellsAll(o, cursor, s, items, depth) && Stands(b, cursor, s)
    ensures cursor <= |b| && ParseItems(o, b, cursor, |items|, depth) == Done(Array(items), cursor + |s|)
    decreases Rank(depth), |items| + 1
  {
    hide ParseAt, Spells;
    if items != [] {
      var cut: nat :| cut <= |s| && Spells(o, cursor, s[..cut], items[0], depth) && SpellsAll(o, cursor + cut, s[cut..], items[1..], depth);
      CutSlice(b, cursor, |s|, cut);
      SpelledIsRead(o, b, cursor, s[..cut], items[0], depth);
      ItemsRead(o, b, cursor + cut, s[cut..], items[1..], depth);
      assert [items[0]] + items[1..] == items;
    }
  }

  /** The parser reads a value off the front of a buffer, and exactly its bytes, if and only if those bytes
      spell the value within the limits, whatever follows. */
  lemma ReadsExactly(o: Options, s: string, rest: string, v: Value)
    requires s != "" && s[0] in {'+', '-', ':', '$', '*'}
    ensures NextValue(o, s + rest) == Done(v, |s|) <==> Spells(o, 0, s, v, 0)
  {
    hide ParseAt, Spells;
    var b := s + rest;
    assert b[0] == s[0] && b[0..|s|] == s;
    if NextValue(o, b) == Done(v, |s|) { ReadIsSpelled(o, b, 0, 0); }
    if Spells(o, 0, s, v, 0) { SpelledIsRead(o, b, 0, s, v, 0); }
  }

  // --- Refusals -------------------------------------------------------------------------------

  /** A line behind a type byte that cannot start a value is refused, and for which reason. */
  lemma RefusedLines(o: Options, c: char, line: string, rest: string)
    requires c in {'+', '-', ':', '$', '*'} && NoCrlf(line)
    ensures var r, n := NextValue(o, [c] + line + "\r\n" + rest), ParseI64Exact(line);
            && (c == ':' && n.None? ==> r == Bad(InvalidInteger))
            && (c == '$' && (n.None? || n.value < -1) ==> r == Bad(InvalidBulkLength))
            && (c == '$' && n.Some? && n.value > o.maxBulk ==> r == Bad(BulkTooLarge))
            && (c == '$' && n.Some? && 0 <= n.value <= o.maxBulk && |line| + 3 + n.value > o.maxRequest ==> r == Bad(BulkBeyondRequest))
            && (c == '*' && (n.None? || n.value < -1) ==> r == Bad(InvalidArrayLength))
            && (c == '*' && n.Some? && n.value > o.maxElements ==> r == Bad(TooManyElements))
  {
    hide ParseI64Exact, ParseAt, NoCrlf, ParseItems;
    var b := [c] + line + "\r\n" + rest;
    assert b[0] == c && b[0..|b|] == b;
    LineRead(o, b, 0, c, line, rest, 0);
  }

  /** A bulk string whose text is not followed by a line end is refused. */
  lemma RefusedText(o: Options, line: string, text: string, rest: string)
    requires Number(line, |text|) && |text| <= o.maxBulk && |line| + 3 + |text| <= o.maxRequest
    requires |rest| >= 2 && rest[..2] != "\r\n"
    ensures NextValue(o, "$" + line + "\r\n" + (text + rest)) == Bad(MalformedBulk)
  {
    hide ParseI64Exact, ParseAt, NoCrlf;
    var b := "$" + line + "\r\n" + (text + rest);
    assert b[0] == '$' && b[0..|b|] == b;
    NumberHasNoCrlf(line, |text|);
    LineRead(o, b, 0, '$', line, text + rest, 0);
    var end := |line| + 3 + |text|;
    assert b[end] == rest[0] && b[end + 1] == rest[1] && rest[..2] == [rest[0], rest[1]];
  }

  // --- Commands -------------------------------------------------------------------------------

  /** An element that stands for an argument: any string or number, as text. */
  predicate Denotes(v: Value, arg: string) {
    match v
    case Bulk(text) => text == arg
    case Simple(text) => text == arg
    case Failure(text) => text == arg
    case Integer(n) => IntText(n) == arg
    case _ => false
  }

  /** A value is a command, with these arguments, if and only if it is an array whose elements denote them
      one by one. */
  lemma CommandExact(v: Value, args: seq<string>)
    ensures CommandOf(v) == Ok(args) <==>
            v.Array? && |v.items| == |args| && forall i | 0 <= i < |args| :: Denotes(v.items[i], args[i])
  {
    if v.Array? { ArgsExact(v.items, args); }
  }

  lemma {:induction false} ArgsExact(items: seq<Value>, args: seq<string>)
    ensures ArgsOf(items) == Ok(args) <==> |items| == |args| && forall i | 0 <= i < |args| :: Denotes(items[i], args[i])
    decreases |items|
  {
    hide Denotes, ArgOf;
    if items != [] && args != [] {
      ArgsExact(items[1..], args[1..]);
      FirstDenotes(items[0], args[0]);
      var rest, more := items[1..], args[1..];
      assert [args[0]] + more == args;
      if |items| == |args| && forall i | 0 <= i < |args| :: Denotes(items[i], args[i]) {
        forall i | 0 <= i < |more|
          ensures Denotes(rest[i], more[i])
        {
          assert Denotes(items[i + 1], args[i + 1]);
        }
      }
      if ArgsOf(items) == Ok(args) {
        var first, tail := ArgOf(items[0]).value, ArgsOf(rest).value;
        assert first == ([first] + tail)[0] && tail == ([first] + tail)[1..];
        forall i | 0 <= i < |args|
          ensures Denotes(items[i], args[i])
        {
          if i > 0 { assert Denotes(rest[i - 1], more[i - 1]); }
        }
      }
    }
  }

  lemma FirstDenotes(v: Value, arg: string)
    ensures ArgOf(v) == Ok(arg) <==> Denotes(v, arg)
  {
  }

  /** Otherwise it is refused: for not being an array, or for its first element that denotes nothing. */
  lemma {:induction false} RefusedElement(items: seq<Value>, i: nat)
    requires i < |items| && (items[i].NullBulk? || items[i].NullArray? || items[i].Array?)
    requires forall j | 0 <= j < i :: !items[j].NullBulk? && !items[j].NullArray? && !items[j].Array?
    ensures CommandOf(Array(items)) == Err(if items[i].Array? then NestedArgument else NullArgument)
    decreases |items|
  {
    if i > 0 {
      var rest := items[1..];
      assert rest[i - 1] == items[i] && forall j | 0 <= j < i - 1 :: rest[j] == items[j + 1];
      RefusedElement(rest, i - 1);
    }
  }

  /** A value that is no command is refused and its bytes are gone; what follows is read next. */
  lemma RefusedIsConsumed(o: Options, s: string, rest: string, v: Value)
    requires s != "" && s[0] in {'+', '-', ':', '$', '*'} && Spells(o, 0, s, v, 0) && CommandOf(v).Err?
    ensures NextCommand(o, s + rest) == (Refused(CommandOf(v).error), rest)
  {
    hide NextValue, CommandOf, Spells;
    ReadsExactly(o, s, rest, v);
    assert (s + rest)[|s|..] == rest;
  }

  // --- Nesting --------------------------------------------------------------------------------

  /** A number inside n arrays of one element each. */
  function Nested(n: nat): string {
    if n == 0 then ":0\r\n" else "*1\r\n" + Nested(n - 1)
  }

  function NestedValue(n: nat): Value {
    if n == 0 then Integer(0) else Array([NestedValue(n - 1)])
  }

  lemma {:induction false} NestedAt(o: Options, b: string, pos: nat, n: nat, depth: nat)
    requires o.maxElements >= 1 && Stands(b, pos, Nested(n)) && depth <= 9
    ensures ParseAt(o, b, pos, depth) ==
            if depth + n <= 8 then Done(NestedValue(n), pos + |Nested(n)|) else Bad(NestingDepthExceeded)
    decreases n
  {
    hide ParseAt, NoCrlf, ParseI64Exact, Stands;
    if depth > 8 {
      TooDeep(o, b, pos, depth);
    } else {
      SmallNumbers();
      if n == 0 {
        assert Nested(0) == ":" + "0" + "\r\n";
        IntegerRead(o, b, pos, "0", 0, depth);
      } else {
        assert Nested(n) == "*" + "1" + "\r\n" + Nested(n - 1);
        LineRead(o, b, pos, '*', "1", Nested(n - 1), depth);
        InnerStands(b, pos, n);
        NestedAt(o, b, pos + 4, n - 1, depth + 1);
        OneItem(o, b, pos + 4, depth + 1);
      }
    }
  }

  lemma TooDeep(o: Options, b: string, pos: nat, depth: nat)
    requires depth > 8
    ensures ParseAt(o, b, pos, depth) == Bad(NestingDepthExceeded)
  {
  }

  lemma SmallNumbers()
    ensures Number("0", 0) && Number("1", 1) && NoCrlf("0") && NoCrlf("1")
  {
    assert "0"[..0] == "" && "1"[..0] == "" && DigitsValue("") == 0;
  }

  lemma InnerStands(b: string, pos: nat, n: nat)
    requires n > 0 && Stands(b, pos, Nested(n))
    ensures Stands(b, pos + 4, Nested(n - 1))
  {
    hide Nested;
    NestedStep(n);
    SliceOfSlice(b, pos, pos + |Nested(n)|, 4, |Nested(n)|);
  }

  lemma NestedStep(n: nat)
    requires n > 0
    ensures |Nested(n)| == 4 + |Nested(n - 1)| && Nested(n)[4..] == Nested(n - 1)
  {
  }

  lemma OneItem(o: Options, b: string, cursor: nat, depth: nat)
    requires cursor <= |b|
    ensures var r := ParseAt(o, b, cursor, depth);
            ParseItems(o, b, cursor, 1, depth) == if r.Done? then Done(Array([r.value]), r.end) else r
  {
    hide ParseAt;
    var r := ParseAt(o, b, cursor, depth);
    if r.Done? {
      assert ParseItems(o, b, r.end, 0, depth) == Done(Array([]), r.end);
      assert [r.value] + [] == [r.value];
    }
  }

  /** Eight arrays around a value are read and nine are refused. */
  lemma DepthExact(o: Options, n: nat, rest: string)
    requires o.maxElements >= 1
    ensures NextValue(o, Nested(n) + rest) == if n <= 8 then Done(NestedValue(n), |Nested(n)|) else Bad(NestingDepthExceeded)
  {
    hide ParseAt;
    var b := Nested(n) + rest;
    assert b[0] == (if n == 0 then ':' else '*') && b[0..0 + |Nested(n)|] == Nested(n);
    NestedAt(o, b, 0, n, 0);
  }
}
