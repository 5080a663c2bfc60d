/** Reading a manifest, whoever wrote it: which lines give a key a value, that the first of them decides,
    and when the file as a whole is accepted. */
module Fields {
  import opened Wrappers
  import opened Text
  import opened Manifest

  // --- Trimming -------------------------------------------------------------------------------

  /** White space around a trimmed text is what trimming removes. */
  lemma TrimmedCore(a: string, s: string, b: string)
    requires AllSpace(a) && AllSpace(b) && IsTrimmed(s)
    ensures Trimmed(a + s + b) == s
  {
    var text := a + s + b;
    assert text[..|a|] == a && text[|a|..] == s + b;
    TrimmedFront(text, |a|);
    TrimmedBack(s, b);
  }

  lemma {:induction false} TrimmedBack(s: string, b: string)
    requires AllSpace(b) && IsTrimmed(s)
    ensures Trimmed(s + b) == s
    decreases |b|
  {
    var text := s + b;
    if b == "" {
      assert text == s;
    } else if s == "" {
      assert text == b;
      AllSpaceTrims(b);
    } else {
      assert text[0] == s[0] && text[|text| - 1] == b[|b| - 1];
      assert text[..|text| - 1] == s + b[..|b| - 1];
      TrimmedBack(s, b[..|b| - 1]);
    }
  }

  lemma {:induction false} AllSpaceTrims(b: string)
    requires AllSpace(b)
    ensures Trimmed(b) == ""
  {
    if b != "" { AllSpaceTrims(b[1..]); }
  }

  /** Every text is its trimmed middle with white space around it. */
  lemma TrimSplit(s: string) returns (a: string, b: string)
    ensures AllSpace(a) && AllSpace(b) && s == a + Trimmed(s) + b && IsTrimmed(Trimmed(s))
  {
    var i, j := TrimmedIsMiddle(s);
    a, b := s[..i], s[j..];
    assert s == s[..i] + s[i..j] + s[j..];
  }

  // --- Lines ----------------------------------------------------------------------------------

  /** The line gives the key this value: key, equals sign and value with white space wherever one likes, the
      key without an equals sign and not starting with a hash. */
  ghost predicate Gives(line: string, key: string, value: string) {
    && IsTrimmed(key) && IsTrimmed(value) && '=' !in key && (key == "" || key[0] != '#')
    && exists a, b, c, d | AllSpace(a) && AllSpace(b) && AllSpace(c) && AllSpace(d) :: line == a + key + b + "=" + c + value + d
  }

  /** A text with its white space: nothing if the text is empty. */
  function Padded(text: string, space: string): string {
    if text == "" then "" else text + space
  }

  function Indented(space: string, text: string): string {
    if text == "" then "" else space + text
  }

  lemma Around(x: string, l: string, r: string, y: string)
    ensures x + (l + "=" + r) + y == (x + l) + "=" + (r + y)
  {
  }

  lemma Shift(x: string, y: string, z: string, u: string)
    ensures (x + y + z) + u == x + y + (z + u) && u + (x + y + z) == (u + x) + y + z
  {
  }

  lemma Opened(x: string, y: string, z: string, u: string)
    ensures x + "=" + (y + z + u) == x + "=" + y + z + u
  {
  }

  lemma Regrouped(a: string, key: string, b: string, c: string, value: string, d: string)
    ensures a + key + b + "=" + c + value + d ==
            (if key == "" then a + b else a) + (Padded(key, b) + "=" + Indented(c, value)) + if value == "" then c + d else d
  {
    var front, back := if key == "" then a + b else a, if value == "" then c + d else d;
    Around(front, Padded(key, b), Indented(c, value), back);
    Opened(a + key + b, c, value, d);
    SidesAgree(a, key, b);
    SidesAgree'(c, value, d);
  }

  lemma SidesAgree(a: string, key: string, b: string)
    ensures a + key + b == (if key == "" then a + b else a) + Padded(key, b)
  {
  }

  lemma SidesAgree'(c: string, value: string, d: string)
    ensures c + value + d == Indented(c, value) + if value == "" then c + d else d
  {
  }

  lemma GivenCore(line: string, key: string, value: string, a: string, b: string, c: string, d: string)
    requires AllSpace(a) && AllSpace(b) && AllSpace(c) && AllSpace(d) && line == a + key + b + "=" + c + value + d
    requires IsTrimmed(key) && IsTrimmed(value)
    ensures Trimmed(line) == Padded(key, b) + "=" + Indented(c, value)
  {
    hide Trimmed;
    var front, back := if key == "" then a + b else a, if value == "" then c + d else d;
    var core := Padded(key, b) + "=" + Indented(c, value);
    Regrouped(a, key, b, c, value, d);
    assert core[0] == (if key == "" then '=' else key[0]) && core[|core| - 1] == if value == "" then '=' else value[|value| - 1];
    TrimmedCore(front, core, back);
  }

  lemma CoreParts(key: string, b: string, c: string, value: string)
    requires AllSpace(b) && AllSpace(c) && IsTrimmed(key) && IsTrimmed(value) && '=' !in key
    ensures var core, eq := Padded(key, b) + "=" + Indented(c, value), |Padded(key, b)|;
            && IndexOf(core, '=', 0) == eq && core[..eq] == Padded(key, b) && core[eq + 1..] == Indented(c, value)
            && Trimmed(Padded(key, b)) == key && Trimmed(Indented(c, value)) == value
  {
    hide IndexOf, Trimmed;
    var core, eq := Padded(key, b) + "=" + Indented(c, value), |Padded(key, b)|;
    NoEquals(key, b);
    assert core[eq] == '=' && forall k | 0 <= k < eq :: core[k] == Padded(key, b)[k];
    if key == "" { NothingTrimmed(); } else { TrimmedBack(key, b); }
    if value == "" {
      NothingTrimmed();
    } else {
      TrimmedCore(c, value, "");
      assert c + value + "" == c + value;
    }
  }

  lemma NothingTrimmed()
    ensures Trimmed("") == ""
  {
  }

  lemma NoEquals(key: string, b: string)
    requires AllSpace(b) && '=' !in key
    ensures forall k | 0 <= k < |Padded(key, b)| :: Padded(key, b)[k] != '='
  {
  }

  lemma GivenIsAdded(values: map<string, string>, line: string, key: string, value: string)
    requires Gives(line, key, value)
    ensures AddLine(values, line) == if key in values then values else values[key := value]
  {
    hide Trimmed, IndexOf, IsTrimmed, AllSpace;
    var a, b, c, d :| AllSpace(a) && AllSpace(b) && AllSpace(c) && AllSpace(d) && line == a + key + b + "=" + c + value + d;
    GivenCore(line, key, value, a, b, c, d);
    CoreParts(key, b, c, value);
    var core := Padded(key, b) + "=" + Indented(c, value);
    assert core[0] == if key == "" then '=' else key[0];
  }

  /** Nothing else is added. */
  lemma AddedIsGiven(values: map<string, string>, line: string) returns (key: string, value: string)
    requires AddLine(values, line) != values
    ensures Gives(line, key, value)
  {
    hide Trimmed, IndexOf, Gives;
    var core := Trimmed(line);
    var front, back := TrimSplit(line);
    var eq := IndexOf(core, '=', 0);
    var left, right := core[..eq], core[eq + 1..];
    key, value := Trimmed(left), Trimmed(right);
    var a, b := TrimSplit(left);
    var c, d := TrimSplit(right);
    assert core == left + "=" + right;
    KeyStarts(core, left, a, key, b, eq);
    Around(front, left, right, back);
    Shift(a, key, b, front);
    Shift(c, value, d, back);
    Opened((front + a) + key + b, c, value, d + back);
    WitnessGives(line, front + a, key, b, c, value, d + back);
  }

  lemma WitnessGives(line: string, a: string, key: string, b: string, c: string, value: string, d: string)
    requires IsTrimmed(key) && IsTrimmed(value) && '=' !in key && (key == "" || key[0] != '#')
    requires AllSpace(a) && AllSpace(b) && AllSpace(c) && AllSpace(d) && line == a + key + b + "=" + c + value + d
    ensures Gives(line, key, value)
  {
    hide IsTrimmed, AllSpace;
  }

  lemma KeyStarts(core: string, left: string, a: string, key: string, b: string, eq: nat)
    requires core != "" && IsTrimmed(core) && core[0] != '#' && eq <= |core| && left == core[..eq] == a + key + b
    requires AllSpace(a) && forall k | 0 <= k < eq :: core[k] != '='
    ensures '=' !in key && (key == "" || key[0] != '#')
  {
    forall k | 0 <= k < |key|
      ensures key[k] != '='
    {
      assert left[|a| + k] == key[k] == core[|a| + k];
    }
    if key != "" {
      FirstOf(a, key + b);
      assert left == a + (key + b);
      assert left[|a|] == key[0] == core[|a|] && left[0] == core[0];
    }
  }

  lemma FirstOf(a: string, s: string)
    requires AllSpace(a) && s != ""
    ensures a == "" || IsSpace((a + s)[0])
  {
  }

  // --- Files ----------------------------------------------------------------------------------

  function JoinLines(lines: seq<string>): string {
    if lines == [] then "" else lines[0] + "\n" + JoinLines(lines[1..])
  }

  function AddAll(values: map<string, string>, lines: seq<string>): map<string, string>
    decreases |lines|
  {
    if lines == [] then values else AddAll(AddLine(values, lines[0]), lines[1..])
  }

  predicate OneLine(line: string) {
    '\n' !in line
  }

  /** A file is its lines, the last one with or without a line feed. */
  lemma {:induction false} AddsItsLines(values: map<string, string>, lines: seq<string>, last: string)
    requires (forall line | line in lines :: OneLine(line)) && OneLine(last)
    ensures AddLines(values, JoinLines(lines) + last) == AddLine(AddAll(values, lines), last)
    decreases |lines|
  {
    hide AddLine, IndexOf;
    var text := JoinLines(lines) + last;
    if lines == [] {
      assert text == last;
      LastLine(values, last);
    } else {
      var line, rest := lines[0], JoinLines(lines[1..]) + last;
      assert text == line + "\n" + rest && OneLine(line);
      assert text[|line|] == '\n' && forall k | 0 <= k < |line| :: text[k] == line[k];
      assert IndexOf(text, '\n', 0) == |line| && text[..|line|] == line && text[|line| + 1..] == rest;
      AddsItsLines(AddLine(values, line), lines[1..], last);
    }
  }

  lemma LastLine(values: map<string, string>, last: string)
    requires OneLine(last)
    ensures AddLines(values, last) == AddLine(values, last)
  {
    hide IndexOf;
    if last == "" {
      NothingTrimmed();
    } else {
      assert IndexOf(last, '\n', 0) == |last| && last[..|last|] == last;
      hide AddLine;
      AddNothing(AddLine(values, last));
    }
  }

  /** The line is the first of the list to give the key a value, and gives it this one. */
  ghost predicate FirstGives(lines: seq<string>, key: string, value: string) {
    exists i ::
      && 0 <= i < |lines| && Gives(lines[i], key, value)
      && forall j | 0 <= j < i :: !GivesSome(lines[j], key)
  }

  ghost predicate GivesSome(line: string, key: string) {
    exists value :: Gives(line, key, value)
  }

  lemma LineDecides(values: map<string, string>, line: string, key: string, value: string)
    ensures Field(AddLine(values, line), key) == Some(value) <==>
            Field(values, key) == Some(value) || (key !in values && Gives(line, key, value))
    ensures key in AddLine(values, line) <==> key in values || GivesSome(line, key)
  {
    hide Gives, AddLine;
    if AddLine(values, line) != values {
      var k, v := AddedIsGiven(values, line);
      GivenIsAdded(values, line, k, v);
    }
    if Gives(line, key, value) { GivenIsAdded(values, line, key, value); }
    if GivesSome(line, key) {
      var v :| Gives(line, key, v);
      GivenIsAdded(values, line, key, v);
    }
  }

  lemma {:induction false} FirstDecides(values: map<string, string>, lines: seq<string>, key: string, value: string)
    ensures Field(AddAll(values, lines), key) == Some(value) <==>
            Field(values, key) == Some(value) || (key !in values && FirstGives(lines, key, value))
    decreases |lines|
  {
    hide Gives, AddLine, GivesSome;
    if lines != [] {
      var line, rest := lines[0], lines[1..];
      LineDecides(values, line, key, value);
      FirstDecides(AddLine(values, line), rest, key, value);
      FirstOfMore(line, rest, key, value);
      assert [line] + rest == lines;
    }
  }

  lemma FirstOfMore(line: string, rest: seq<string>, key: string, value: string)
    ensures FirstGives([line] + rest, key, value) <==> Gives(line, key, value) || (!GivesSome(line, key) && FirstGives(rest, key, value))
  {
    hide Gives;
    var lines := [line] + rest;
    if FirstGives(lines, key, value) {
      var i :| 0 <= i < |lines| && Gives(lines[i], key, value) && forall j | 0 <= j < i :: !GivesSome(lines[j], key);
      if i > 0 {
        assert !GivesSome(lines[0], key);
        assert rest[i - 1] == lines[i] && forall j | 0 <= j < i - 1 :: rest[j] == lines[j + 1];
      }
    }
    if Gives(line, key, value) { assert lines[0] == line; }
    if !GivesSome(line, key) && FirstGives(rest, key, value) {
      var i :| 0 <= i < |rest| && Gives(rest[i], key, value) && forall j | 0 <= j < i :: !GivesSome(rest[j], key);
      assert lines[i + 1] == rest[i];
      forall j | 0 <= j < i + 1
        ensures !GivesSome(lines[j], key)
      {
        if j > 0 { assert lines[j] == rest[j - 1]; }
      }
    }
  }

  /** What the lines of a manifest say: version 1, the two paths, and the two numbers. */
  ghost predicate Says(lines: seq<string>, m: Manifest, offset: string, created: string) {
    && FirstGives(lines, "format_version", "1")
    && FirstGives(lines, "snapshot_path", m.snapshotPath) && FirstGives(lines, "aof_path", m.aofPath)
    && FirstGives(lines, "aof_offset", offset) && ParseU64(offset) == Some(m.offset)
    && FirstGives(lines, "created_unix_ms", created) && ParseI64(created) == Some(m.created)
  }

  /** A manifest is accepted, as this record, if and only if the first line for each of the five keys says
      so; other lines, comments and blanks do not matter, whatever their order. */
  lemma ManifestReadExactly(lines: seq<string>, last: string, m: Manifest)
    requires (forall line | line in lines :: OneLine(line)) && OneLine(last)
    ensures ReadManifest(JoinLines(lines) + last) == Some(m) <==> exists offset, created :: Says(lines + [last], m, offset, created)
  {
    hide AddLines, AddLine, FirstGives, JoinLines, ParseU64, ParseI64, OneLine;
    var all, text := lines + [last], JoinLines(lines) + last;
    var values := AddLines(map[], text);
    AddsItsLines(map[], lines, last);
    AddAllLast(map[], lines, last);
    forall key, value
      ensures Field(values, key) == Some(value) <==> FirstGives(all, key, value)
    {
      FirstDecides(map[], all, key, value);
    }
    if ReadManifest(text) == Some(m) {
      assert Says(all, m, values["aof_offset"], values["created_unix_ms"]);
    }
  }

  lemma {:induction false} AddAllLast(values: map<string, string>, lines: seq<string>, last: string)
    ensures AddAll(values, lines + [last]) == AddLine(AddAll(values, lines), last)
    decreases |lines|
  {
    hide AddLine;
    if lines == [] {
      assert lines + [last] == [last] && [last][1..] == [];
      assert AddAll(AddLine(values, last), []) == AddLine(values, last);
    } else {
      assert (lines + [last])[1..] == lines[1..] + [last];
      AddAllLast(AddLine(values, lines[0]), lines[1..], last);
    }
  }
}
