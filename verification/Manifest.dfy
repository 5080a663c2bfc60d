/** The snapshot manifest as text: five key=value lines, as src/persistence/snapshot.cpp writes and
    reads them. Paths are given normalized. */
module Manifest {
  import opened Wrappers
  import opened Decimal
  import opened Text

  datatype Manifest = Manifest(snapshotPath: string, aofPath: string, offset: nat, created: int)

  function Line(key: string, value: string): string {
    key + "=" + value + "\n"
  }

  function ManifestText(m: Manifest): string {
    Line("format_version", "1") +
    (Line("snapshot_path", m.snapshotPath) +
     (Line("aof_path", m.aofPath) +
      (Line("aof_offset", NatText(m.offset)) +
       (Line("created_unix_ms", IntText(m.created)) + ""))))
  }

  // --- Reading --------------------------------------------------------------------------------

  /** The first occurrence of a character at or after i, or the length. */
  function IndexOf(s: string, c: char, i: nat): (j: nat)
    requires i <= |s|
    ensures i <= j <= |s| && (j < |s| ==> s[j] == c) && forall k | i <= k < j :: s[k] != c
    decreases |s| - i
  {
    if i == |s| || s[i] == c then i else IndexOf(s, c, i + 1)
  }

  /** One line of the file: blank lines, comments and lines without '=' add nothing, and the first
      value given for a key stays. */
  function AddLine(values: map<string, string>, raw: string): map<string, string> {
    var line := Trimmed(raw);
    if line == "" || line[0] == '#' then values
    else
      var eq := IndexOf(line, '=', 0);
      if eq == |line| then values
      else
        var key, value := Trimmed(line[..eq]), Trimmed(line[eq + 1..]);
        if key in values then values else values[key := value]
  }

  /** All remaining lines. */
  function AddLines(values: map<string, string>, text: string): map<string, string>
    decreases |text|
  {
    if text == "" then values
    else
      var end := IndexOf(text, '\n', 0);
      AddLines(AddLine(values, text[..end]), if end == |text| then "" else text[end + 1..])
  }

  function Field(values: map<string, string>, key: string): Option<string> {
    if key in values then Some(values[key]) else None
  }

  function FromValues(values: map<string, string>): Option<Manifest> {
    var snapshot, aof := Field(values, "snapshot_path"), Field(values, "aof_path");
    var offset, created := Field(values, "aof_offset"), Field(values, "created_unix_ms");
    if Field(values, "format_version") != Some("1") || snapshot.None? || aof.None? || offset.None? || created.None?
    then None
    else
      var o, c := ParseU64(offset.value), ParseI64(created.value);
      if o.None? || c.None? then None
      else Some(Manifest(snapshot.value, aof.value, o.value, c.value))
  }

  function ReadManifest(text: string): Option<Manifest> {
    FromValues(AddLines(map[], text))
  }

  /** The line loop of parse_manifest_lines. */
  method ParseManifestLines(content: string) returns (values: map<string, string>)
    ensures values == AddLines(map[], content)
  {
    values := map[];
    var rest := content;
    while rest != ""
      invariant AddLines(values, rest) == AddLines(map[], content)
      decreases |rest|
    {
      var end := IndexOf(rest, '\n', 0);
      var line := Trim(rest[..end]);
      if line != "" && line[0] != '#' {
        var eq := IndexOf(line, '=', 0);
        if eq != |line| {
          var key := Trim(line[..eq]);
          var value := Trim(line[eq + 1..]);
          if key !in values {
            values := values[key := value];
          }
        }
      }
      rest := if end == |rest| then "" else rest[end + 1..];
    }
  }

  // --- Round trip -----------------------------------------------------------------------------

  /** A value that survives: no line break, no white space at either end; '=' and '#' are fine. */
  predicate Clean(s: string) {
    '\n' !in s && IsTrimmed(s)
  }

  predicate PlainKey(key: string) {
    Clean(key) && key != "" && key[0] != '#' && '=' !in key
  }

  lemma AddPair(values: map<string, string>, key: string, value: string)
    requires PlainKey(key) && Clean(value) && key !in values
    ensures AddLine(values, key + "=" + value) == values[key := value]
  {
    hide IndexOf;
    var line := key + "=" + value;
    assert line[0] == key[0];
    PairTrimmed(key, value);
    PairSplit(key, value);
    assert Trimmed(key) == key && Trimmed(value) == value;
    hide Trimmed;
    assert line[..|key|] == key && line[|key| + 1..] == value;
  }

  lemma PairTrimmed(key: string, value: string)
    requires PlainKey(key) && Clean(value)
    ensures Trimmed(key + "=" + value) == key + "=" + value
  {
    var line := key + "=" + value;
    assert line[0] == key[0];
    assert line[|line| - 1] == if value == "" then '=' else value[|value| - 1];
  }

  lemma PairSplit(key: string, value: string)
    requires PlainKey(key)
    ensures IndexOf(key + "=" + value, '=', 0) == |key|
  {
    hide IndexOf;
    var line := key + "=" + value;
    assert line[|key|] == '=';
    assert forall k | 0 <= k < |key| :: line[k] == key[k];
  }

  lemma AddWritten(values: map<string, string>, key: string, value: string, rest: string)
    requires PlainKey(key) && Clean(value) && key !in values
    ensures AddLines(values, Line(key, value) + rest) == AddLines(values[key := value], rest)
  {
    var line := key + "=" + value;
    var text := Line(key, value) + rest;
    var end := IndexOf(text, '\n', 0);
    assert end == |line| by {
      assert text[|line|] == '\n';
      assert forall k | 0 <= k < |line| :: text[k] == line[k] && line[k] != '\n';
    }
    assert text[..end] == line && text[end + 1..] == rest;
    AddPair(values, key, value);
  }

  lemma KeysArePlain()
    ensures PlainKey("format_version") && PlainKey("snapshot_path") && PlainKey("aof_path")
    ensures PlainKey("aof_offset") && PlainKey("created_unix_ms") && Clean("1")
  {
    PathKeysArePlain();
    NumberKeysArePlain();
    hide PlainKey, Clean;
  }

  lemma PathKeysArePlain()
    ensures PlainKey("snapshot_path") && PlainKey("aof_path")
  {
  }

  lemma NumberKeysArePlain()
    ensures PlainKey("format_version") && PlainKey("aof_offset") && PlainKey("created_unix_ms") && Clean("1")
  {
  }

  lemma KeysDiffer()
    ensures "format_version" != "snapshot_path" && "format_version" != "aof_path"
    ensures "format_version" != "aof_offset" && "format_version" != "created_unix_ms"
    ensures "snapshot_path" != "aof_path" && "snapshot_path" != "aof_offset" && "snapshot_path" != "created_unix_ms"
    ensures "aof_path" != "aof_offset" && "aof_path" != "created_unix_ms" && "aof_offset" != "created_unix_ms"
  {
    assert "format_version"[0] == 'f' && "snapshot_path"[0] == 's' && "aof_path"[0] == 'a' && "aof_offset"[0] == 'a';
    assert "created_unix_ms"[0] == 'c' && "aof_path"[4] == 'p' && "aof_offset"[4] == 'o';
  }

  lemma NumbersAreClean(n: int)
    ensures Clean(IntText(n)) && (n >= 0 ==> Clean(NatText(n)))
  {
    var s := IntText(n);
    assert !IsSpace(s[0]) && !IsSpace(s[|s| - 1]);
  }

  predicate Writable(m: Manifest) {
    Clean(m.snapshotPath) && Clean(m.aofPath) && m.offset <= U64_MAX && InI64(m.created)
  }

  /** A written manifest reads back as the same record, even when a path contains '=' or '#'. */
  lemma ManifestRoundTrip(m: Manifest)
    requires Writable(m)
    ensures ReadManifest(ManifestText(m)) == Some(m)
  {
    hide AddLines, Line, PlainKey, Clean;
    KeysArePlain();
    KeysDiffer();
    NumbersAreClean(m.offset);
    NumbersAreClean(m.created);
    var created := Line("created_unix_ms", IntText(m.created)) + "";
    var offset := Line("aof_offset", NatText(m.offset)) + created;
    var aof := Line("aof_path", m.aofPath) + offset;
    var snapshot := Line("snapshot_path", m.snapshotPath) + aof;
    var v1 := map["format_version" := "1"];
    var v2 := v1["snapshot_path" := m.snapshotPath];
    var v3 := v2["aof_path" := m.aofPath];
    var v4 := v3["aof_offset" := NatText(m.offset)];
    var v5 := v4["created_unix_ms" := IntText(m.created)];
    AddWritten(map[], "format_version", "1", snapshot);
    AddWritten(v1, "snapshot_path", m.snapshotPath, aof);
    AddWritten(v2, "aof_path", m.aofPath, offset);
    AddWritten(v3, "aof_offset", NatText(m.offset), created);
    AddWritten(v4, "created_unix_ms", IntText(m.created), "");
    AddNothing(v5);
    U64ArgRoundTrip(m.offset);
    I64ArgRoundTrip(m.created);
  }

  lemma AddNothing(values: map<string, string>)
    ensures AddLines(values, "") == values
  {
  }
}
