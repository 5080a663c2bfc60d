/** The string helpers of src/util/string.cpp: trimming, word splitting, upper-casing and
    number arguments. The loops are methods, each proved against a function. */
module Text {
  import opened Wrappers
  import opened Decimal

  /** std::isspace in the C locale. */
  predicate IsSpace(c: char) {
    c == ' ' || '\t' <= c <= '\r'
  }

  predicate AllSpace(s: string) {
    forall i | 0 <= i < |s| :: IsSpace(s[i])
  }

  /** The text without its leading and trailing white space. */
  function Trimmed(s: string): string {
    if s != "" && IsSpace(s[0]) then Trimmed(s[1..])
    else if s != "" && IsSpace(s[|s| - 1]) then Trimmed(s[..|s| - 1])
    else s
  }

  /** Nothing to trim: empty, or no white space at either end. */
  predicate IsTrimmed(s: string) {
    s == "" || (!IsSpace(s[0]) && !IsSpace(s[|s| - 1]))
  }

  /** Trimming cuts white space from both ends and only that. */
  lemma {:induction false} TrimmedIsMiddle(s: string) returns (b: nat, e: nat)
    ensures b <= e <= |s| && Trimmed(s) == s[b..e] && IsTrimmed(Trimmed(s))
    ensures forall i | 0 <= i < b || e <= i < |s| :: IsSpace(s[i])
    decreases |s|
  {
    if s != "" && IsSpace(s[0]) {
      b, e := TrimmedIsMiddle(s[1..]);
      assert s[1..][b..e] == s[1 + b..1 + e];
      b, e := 1 + b, 1 + e;
    } else if s != "" && IsSpace(s[|s| - 1]) {
      b, e := TrimmedIsMiddle(s[..|s| - 1]);
      assert s[..|s| - 1][b..e] == s[b..e];
    } else {
      b, e := 0, |s|;
      assert s[0..|s|] == s;
    }
  }

  lemma {:induction false} TrimmedFront(s: string, b: nat)
    requires b <= |s| && AllSpace(s[..b])
    ensures Trimmed(s) == Trimmed(s[b..])
  {
    if b > 0 {
      assert s[..b][0] == s[0];
      assert s[1..][..b - 1] == s[..b][1..];
      TrimmedFront(s[1..], b - 1);
      assert s[1..][b - 1..] == s[b..];
    } else {
      assert s[0..] == s;
    }
  }

  /** The loop of trim. */
  method Trim(input: string) returns (out: string)
    ensures out == Trimmed(input)
  {
    var begin, end := 0, |input|;
    while begin != end && IsSpace(input[begin])
      invariant 0 <= begin <= end == |input|
      invariant AllSpace(input[..begin])
    {
      assert input[..begin + 1] == input[..begin] + [input[begin]];
      begin := begin + 1;
    }
    TrimmedFront(input, begin);
    assert input[begin..end] == input[begin..];
    while begin != end && IsSpace(input[end - 1])
      invariant 0 <= begin <= end <= |input|
      invariant begin != end ==> !IsSpace(input[begin])
      invariant Trimmed(input) == Trimmed(input[begin..end])
    {
      var s := input[begin..end];
      assert s[..|s| - 1] == input[begin..end - 1];
      end := end - 1;
    }
    out := input[begin..end];
  }

  function SkipSpace(s: string, i: nat): (j: nat)
    requires i <= |s|
    ensures i <= j <= |s|
    ensures AllSpace(s[i..j]) && (j < |s| ==> !IsSpace(s[j]))
    decreases |s| - i
  {
    if i < |s| && IsSpace(s[i]) then
      var j := SkipSpace(s, i + 1);
      assert s[i..j] == [s[i]] + s[i + 1..j];
      j
    else i
  }

  function SkipWord(s: string, i: nat): (j: nat)
    requires i <= |s|
    ensures i <= j <= |s| && (i < |s| && !IsSpace(s[i]) ==> i < j)
    ensures forall k | i <= k < j :: !IsSpace(s[k])
    ensures j < |s| ==> IsSpace(s[j])
    decreases |s| - i
  {
    if i < |s| && !IsSpace(s[i]) then SkipWord(s, i + 1) else i
  }

  /** The white-space separated words of a line, from position i on. */
  function Words(s: string, i: nat): (ws: seq<string>)
    requires i <= |s|
    ensures forall w | w in ws :: w != "" && forall c | c in w :: !IsSpace(c)
    decreases |s| - i
  {
    var begin := SkipSpace(s, i);
    if begin == |s| then []
    else
      var end := SkipWord(s, begin);
      [s[begin..end]] + Words(s, end)
  }

  /** A maximal run of characters other than white space, in the text from i on. */
  predicate IsRun(s: string, i: nat, b: nat, e: nat) {
    && i <= b < e <= |s|
    && (forall p | b <= p < e :: !IsSpace(s[p]))
    && (b == i || IsSpace(s[b - 1])) && (e == |s| || IsSpace(s[e]))
  }

  ghost predicate InSome(spans: seq<(nat, nat)>, p: nat) {
    exists k :: 0 <= k < |spans| && spans[k].0 <= p < spans[k].1
  }

  /** The words are the maximal runs of the text from i on, all of them, in order. */
  ghost predicate AreRuns(s: string, i: nat, words: seq<string>, spans: seq<(nat, nat)>) {
    && |spans| == |words|
    && (forall k | 0 <= k < |spans| :: IsRun(s, i, spans[k].0, spans[k].1) && words[k] == s[spans[k].0..spans[k].1])
    && (forall j, k | 0 <= j < k < |spans| :: spans[j].1 < spans[k].0)
    && (forall p | i <= p < |s| && !IsSpace(s[p]) :: InSome(spans, p))
  }

  lemma {:induction false} WordsAreRuns(s: string, i: nat) returns (spans: seq<(nat, nat)>)
    requires i <= |s|
    ensures AreRuns(s, i, Words(s, i), spans)
    decreases |s| - i
  {
    hide SkipSpace, SkipWord, AreRuns;
    var begin := SkipSpace(s, i);
    SpaceSkipped(s, i);
    if begin == |s| {
      spans := [];
      NoRuns(s, i);
    } else {
      var end := SkipWord(s, begin);
      var rest := WordsAreRuns(s, end);
      spans := [(begin, end)] + rest;
      OneMoreRun(s, i, begin, end, Words(s, end), rest);
    }
  }

  lemma NoRuns(s: string, i: nat)
    requires forall p | i <= p < |s| :: IsSpace(s[p])
    ensures AreRuns(s, i, [], [])
  {
  }

  lemma OneMoreRun(s: string, i: nat, begin: nat, end: nat, words: seq<string>, rest: seq<(nat, nat)>)
    requires IsRun(s, i, begin, end) && (forall p | i <= p < begin :: IsSpace(s[p])) && AreRuns(s, end, words, rest)
    ensures AreRuns(s, i, [s[begin..end]] + words, [(begin, end)] + rest)
  {
    hide IsSpace;
    RunsFollow(s, i, begin, end, rest);
    RunsCover(s, i, begin, end, rest);
    hide IsRun, InSome;
  }

  lemma SpaceSkipped(s: string, i: nat)
    requires i <= |s|
    ensures forall p | i <= p < SkipSpace(s, i) :: IsSpace(s[p])
  {
    hide IsSpace, SkipSpace;
    var j := SkipSpace(s, i);
    forall p | i <= p < j
      ensures IsSpace(s[p])
    {
      assert s[i..j][p - i] == s[p];
    }
  }

  lemma RunsCover(s: string, i: nat, begin: nat, end: nat, rest: seq<(nat, nat)>)
    requires i <= begin < end <= |s| && forall p | i <= p < begin :: IsSpace(s[p])
    requires forall p | end <= p < |s| && !IsSpace(s[p]) :: InSome(rest, p)
    ensures forall p | i <= p < |s| && !IsSpace(s[p]) :: InSome([(begin, end)] + rest, p)
  {
    hide IsSpace;
    var spans := [(begin, end)] + rest;
    forall p | i <= p < |s| && !IsSpace(s[p])
      ensures InSome(spans, p)
    {
      if p < end {
        assert spans[0].0 <= p < spans[0].1;
      } else {
        assert InSome(rest, p);
        var k :| 0 <= k < |rest| && rest[k].0 <= p < rest[k].1;
        assert spans[k + 1] == rest[k];
      }
    }
  }

  lemma RunsFollow(s: string, i: nat, begin: nat, end: nat, rest: seq<(nat, nat)>)
    requires i <= begin < end <= |s| && (end < |s| ==> IsSpace(s[end]))
    requires forall k | 0 <= k < |rest| :: IsRun(s, end, rest[k].0, rest[k].1)
    ensures forall k | 0 <= k < |rest| :: end < rest[k].0 && IsRun(s, i, rest[k].0, rest[k].1)
  {
    forall k | 0 <= k < |rest|
      ensures end < rest[k].0 && IsRun(s, i, rest[k].0, rest[k].1)
    {
      assert IsRun(s, end, rest[k].0, rest[k].1);
      assert !IsSpace(s[rest[k].0]);
    }
  }

  /** The two inner loops of split_words. */
  method PastSpace(line: string, start: nat) returns (pos: nat)
    requires start <= |line|
    ensures pos == SkipSpace(line, start)
  {
    pos := start;
    while pos < |line| && IsSpace(line[pos])
      invariant start <= pos <= |line|
      invariant SkipSpace(line, pos) == SkipSpace(line, start)
    {
      pos := pos + 1;
    }
  }

  method PastWord(line: string, start: nat) returns (pos: nat)
    requires start <= |line|
    ensures pos == SkipWord(line, start)
  {
    pos := start;
    while pos < |line| && !IsSpace(line[pos])
      invariant start <= pos <= |line|
      invariant SkipWord(line, pos) == SkipWord(line, start)
    {
      pos := pos + 1;
    }
  }

  /** The outer loop of split_words. */
  method SplitWords(line: string) returns (words: seq<string>)
    ensures words == Words(line, 0)
  {
    hide IsSpace, SkipSpace, SkipWord;
    words := [];
    var pos := 0;
    while pos < |line|
      invariant 0 <= pos <= |line|
      invariant words + Words(line, pos) == Words(line, 0)
    {
      var begin := PastSpace(line, pos);
      pos := PastWord(line, begin);
      if begin != pos {
        assert words + ([line[begin..pos]] + Words(line, pos)) == words + [line[begin..pos]] + Words(line, pos);
        words := words + [line[begin..pos]];
      }
    }
  }

  function UpperChar(c: char): char {
    if 'a' <= c <= 'z' then (c as int - 32) as char else c
  }

  function Upper(s: string): (u: string)
    ensures |u| == |s|
  {
    seq(|s|, i requires 0 <= i < |s| => UpperChar(s[i]))
  }

  /** The loop of to_upper_ascii. */
  method ToUpperAscii(input: string) returns (out: string)
    ensures out == Upper(input)
  {
    out := "";
    for i := 0 to |input|
      invariant |out| == i && forall k | 0 <= k < i :: out[k] == UpperChar(input[k])
    {
      out := out + [UpperChar(input[i])];
    }
  }

  /** util::parse_i64: white space around the number is allowed. */
  function ParseI64(s: string): (r: Option<int>)
    ensures r.Some? ==> InI64(r.value)
  {
    ParseI64Exact(Trimmed(s))
  }

  /** util::parse_u64. */
  function ParseU64(s: string): (r: Option<nat>)
    ensures r.Some? ==> r.value <= U64_MAX
  {
    ParseU64Exact(Trimmed(s))
  }

  lemma IntTextTrimmed(n: int)
    ensures Trimmed(IntText(n)) == IntText(n)
  {
    var s := IntText(n);
    assert !IsSpace(s[0]) && !IsSpace(s[|s| - 1]);
  }

  /** A printed 64-bit integer reads back through the trimming parser. */
  lemma I64ArgRoundTrip(n: int)
    requires InI64(n)
    ensures ParseI64(IntText(n)) == Some(n)
  {
    IntTextTrimmed(n);
    I64RoundTrip(n);
  }

  lemma U64ArgRoundTrip(n: nat)
    requires n <= U64_MAX
    ensures ParseU64(NatText(n)) == Some(n)
  {
    IntTextTrimmed(n);
    U64RoundTrip(n);
  }
}
