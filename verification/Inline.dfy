/** Inline commands: a line of words typed by hand denotes exactly those words, in order, however they are
    spaced. */
module Inline {
  import opened Wrappers
  import opened Text
  import opened Resp
  import opened RespTheorems

  /** Blanks that cannot be part of a line end: space, tab, vertical tab, form feed. */
  predicate Blank(c: char) {
    c == ' ' || c == '\t' || c == '\U{0B}' || c == '\U{0C}'
  }

  predicate AllBlank(s: string) {
    forall i | 0 <= i < |s| :: Blank(s[i])
  }

  /** A word: not empty, and without blanks, carriage returns and line feeds. */
  predicate IsWord(w: string) {
    w != "" && forall i | 0 <= i < |w| :: !Blank(w[i]) && w[i] != '\r' && w[i] != '\n'
  }

  /** Words with gaps before, between and after them. */
  function Spread(words: seq<string>, gaps: seq<string>): string
    requires |gaps| == |words| + 1
  {
    if words == [] then gaps[0] else gaps[0] + words[0] + Spread(words[1..], gaps[1..])
  }

  /** Gaps are blank, and those between two words are not empty. */
  predicate Spaced(words: seq<string>, gaps: seq<string>) {
    && |gaps| == |words| + 1
    && (forall w | w in words :: IsWord(w)) && (forall gap | gap in gaps :: AllBlank(gap))
    && (forall i | 0 < i < |words| :: gaps[i] != "")
  }

  lemma SpacedRest(words: seq<string>, gaps: seq<string>)
    requires words != [] && Spaced(words, gaps)
    ensures Spaced(words[1..], gaps[1..]) && IsWord(words[0]) && AllBlank(gaps[0])
    ensures |words| > 1 ==> gaps[1] != ""
  {
    hide IsWord, AllBlank;
    var rest, after := words[1..], gaps[1..];
    assert forall i | 0 < i < |rest| :: after[i] == gaps[i + 1];
  }

  /** White space ends where the first other character stands. */
  lemma SpaceEnds(s: string, i: nat, j: nat)
    requires i <= j <= |s| && (forall p | i <= p < j :: IsSpace(s[p])) && (j < |s| ==> !IsSpace(s[j]))
    ensures SkipSpace(s, i) == j
  {
    hide IsSpace, SkipSpace;
    var k := SkipSpace(s, i);
    SpaceSkipped(s, i);
    assert k < |s| ==> !IsSpace(s[k]);
    assert j < |s| ==> !IsSpace(s[j]);
  }

  lemma WordEnds(s: string, i: nat, j: nat)
    requires i <= j <= |s| && (forall p | i <= p < j :: !IsSpace(s[p])) && (j < |s| ==> IsSpace(s[j]))
    ensures SkipWord(s, i) == j
  {
    hide IsSpace, SkipWord;
    var k := SkipWord(s, i);
    assert k < |s| ==> IsSpace(s[k]);
    assert j < |s| ==> IsSpace(s[j]);
  }

  /** What follows a word begins with white space or is nothing. */
  lemma SpreadStarts(words: seq<string>, gaps: seq<string>)
    requires Spaced(words, gaps) && (words != [] ==> gaps[0] != "")
    ensures var s := Spread(words, gaps); s == "" || IsSpace(s[0])
  {
    assert AllBlank(gaps[0]);
  }

  lemma {:induction false} WordsOfSpread(pre: string, words: seq<string>, gaps: seq<string>)
    requires Spaced(words, gaps)
    ensures Words(pre + Spread(words, gaps), |pre|) == words
    decreases |words|
  {
    hide IsSpace, SkipSpace, SkipWord;
    var s := pre + Spread(words, gaps);
    if words == [] {
      BlankIsSpace(gaps[0]);
      assert s == pre + gaps[0];
      SpaceEnds(s, |pre|, |s|);
    } else {
      SpacedRest(words, gaps);
      var gap, word, rest := gaps[0], words[0], Spread(words[1..], gaps[1..]);
      var begin := |pre| + |gap|;
      var end := begin + |word|;
      assert s == pre + gap + word + rest;
      BlankIsSpace(gap);
      WordIsNoSpace(word);
      SpreadStarts(words[1..], gaps[1..]);
      assert forall p | |pre| <= p < begin :: s[p] == gap[p - |pre|];
      assert forall p | begin <= p < end :: s[p] == word[p - begin];
      assert end < |s| ==> s[end] == rest[0];
      SpaceEnds(s, |pre|, begin);
      WordEnds(s, begin, end);
      assert s[begin..end] == word;
      WordsOfSpread(pre + gap + word, words[1..], gaps[1..]);
    }
  }

  lemma BlankIsSpace(s: string)
    requires AllBlank(s)
    ensures forall i | 0 <= i < |s| :: IsSpace(s[i])
  {
  }

  lemma WordIsNoSpace(w: string)
    requires IsWord(w)
    ensures forall i | 0 <= i < |w| :: !IsSpace(w[i])
  {
  }

  predicate NoLineEnd(s: string) {
    forall i | 0 <= i < |s| :: s[i] != '\r'
  }

  lemma {:induction false} SpreadHasNoLineEnd(words: seq<string>, gaps: seq<string>)
    requires Spaced(words, gaps)
    ensures NoLineEnd(Spread(words, gaps))
    decreases |words|
  {
    if words == [] {
      assert AllBlank(gaps[0]);
    } else {
      SpacedRest(words, gaps);
      SpreadHasNoLineEnd(words[1..], gaps[1..]);
    }
  }

  function Bulked(words: seq<string>): seq<Value> {
    seq(|words|, i requires 0 <= i < |words| => Bulk(words[i]))
  }

  lemma {:induction false} BulkedAreArgs(words: seq<string>)
    ensures ArgsOf(Bulked(words)) == Ok(words)
  {
    if words != [] {
      BulkedAreArgs(words[1..]);
      assert Bulked(words)[1..] == Bulked(words[1..]);
      assert [words[0]] + words[1..] == words;
    }
  }

  /** A line that does not start like RESP denotes its words, whatever follows it; it is refused, and then
      left in the buffer, if and only if one of them is too long. */
  lemma LineIsWords(o: Options, line: string, rest: string)
    requires NoLineEnd(line) && (line != "" ==> !IsPrefix(line[0]))
    ensures var b, words := line + "\r\n" + rest, Words(line, 0);
            NextCommand(o, b) == if exists w | w in words :: |w| > o.maxBulk then (Refused(InlineArgumentTooLarge), b)
                                 else (Command(words), rest)
  {
    hide FindCrlf, Words;
    var b, words := line + "\r\n" + rest, Words(line, 0);
    assert b[0] == if line == "" then '\r' else line[0];
    assert b[0..0 + |line|] == line && b[..|line|] == line;
    FirstCrlf(b, 0, line);
    BulkedAreArgs(words);
    assert Bulked(words) == seq(|words|, i requires 0 <= i < |words| => Bulk(words[i]));
    assert b[|line| + 2..] == rest;
  }

  /** Does not start with a type byte of RESP. */
  predicate PlainStart(w: string) {
    w != "" && w[0] != '+' && w[0] != '-' && w[0] != ':' && w[0] != '$' && w[0] != '*'
  }

  /** The round trip of inline commands: words, however spaced, come back as those words in that order. */
  lemma InlineRoundTrip(o: Options, words: seq<string>, gaps: seq<string>, rest: string)
    requires Spaced(words, gaps)
    requires words == [] || gaps[0] != "" || PlainStart(words[0])
    ensures var b := Spread(words, gaps) + "\r\n" + rest;
            if forall w | w in words :: |w| <= o.maxBulk then NextCommand(o, b) == (Command(words), rest)
            else NextCommand(o, b) == (Refused(InlineArgumentTooLarge), b)
  {
    hide NextCommand, Words, Spread, IsWord, AllBlank, IsPrefix, PlainStart, NoLineEnd;
    var line := Spread(words, gaps);
    WordsOfSpread("", words, gaps);
    assert "" + line == line;
    SpreadHasNoLineEnd(words, gaps);
    if line != "" { FirstByte(words, gaps); }
    LineIsWords(o, line, rest);
  }

  lemma FirstByte(words: seq<string>, gaps: seq<string>)
    requires Spaced(words, gaps) && Spread(words, gaps) != ""
    requires words == [] || gaps[0] != "" || PlainStart(words[0])
    ensures !IsPrefix(Spread(words, gaps)[0])
  {
    assert AllBlank(gaps[0]);
    if gaps[0] == "" {
      assert IsWord(words[0]);
      assert Spread(words, gaps)[0] == words[0][0];
    } else {
      assert Spread(words, gaps)[0] == gaps[0][0];
    }
  }

  /** Words joined by single spaces. */
  function Sentence(words: seq<string>): string {
    if words == [] then "" else if |words| == 1 then words[0] else words[0] + " " + Sentence(words[1..])
  }

  function SingleGaps(n: nat): (gaps: seq<string>)
    ensures |gaps| == n + 1
  {
    seq(n + 1, i => if i == 0 || i == n then "" else " ")
  }

  lemma {:induction false} SentenceIsSpread(words: seq<string>, gaps: seq<string>)
    requires |gaps| == |words| + 1 && forall i | 0 <= i < |gaps| :: gaps[i] == if i == |words| then "" else " "
    ensures words != [] ==> Spread(words, gaps) == " " + Sentence(words)
    ensures words == [] ==> Spread(words, gaps) == ""
    decreases |words|
  {
    if words != [] {
      SentenceIsSpread(words[1..], gaps[1..]);
      if |words| == 1 { assert words[0] + "" == words[0]; }
    }
  }

  /** The same for a sentence: words joined by single spaces. */
  lemma SentenceRoundTrip(o: Options, words: seq<string>, rest: string)
    requires words != [] && (forall w | w in words :: IsWord(w)) && PlainStart(words[0])
    ensures var b := Sentence(words) + "\r\n" + rest;
            if forall w | w in words :: |w| <= o.maxBulk then NextCommand(o, b) == (Command(words), rest)
            else NextCommand(o, b) == (Refused(InlineArgumentTooLarge), b)
  {
    hide NextCommand, IsWord, Spread;
    var gaps := SingleGaps(|words|);
    assert gaps[0] == "" && AllBlank("") && AllBlank(" ");
    assert Spaced(words, gaps);
    SentenceIsSingle(words);
    InlineRoundTrip(o, words, gaps, rest);
  }

  lemma SentenceIsSingle(words: seq<string>)
    requires words != []
    ensures Spread(words, SingleGaps(|words|)) == Sentence(words)
  {
    hide Spread, Sentence;
    var gaps := SingleGaps(|words|);
    SentenceIsSpread(words[1..], gaps[1..]);
    SpreadFirst(words, gaps);
    SentenceFirst(words);
  }

  lemma SpreadFirst(words: seq<string>, gaps: seq<string>)
    requires words != [] && |gaps| == |words| + 1 && gaps[0] == ""
    ensures Spread(words, gaps) == words[0] + Spread(words[1..], gaps[1..])
  {
    assert "" + words[0] == words[0];
  }

  lemma SentenceFirst(words: seq<string>)
    requires words != []
    ensures Sentence(words) == words[0] + if |words| == 1 then "" else " " + Sentence(words[1..])
  {
  }
}
