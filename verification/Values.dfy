/** Every RESP value, written and read back. The server writes replies with these encoders; the parser
    reads exactly what was written, nested arrays included. */
module Values {
  import opened Wrappers
  import opened Decimal
  import opened Resp
  import opened RespTheorems

  function EncodeValue(v: Value): (s: string)
    ensures |s| >= 3
    decreases v, 0
  {
    match v
    case Simple(text) => "+" + (text + "\r\n")
    case Failure(text) => "-" + (text + "\r\n")
    case Integer(n) => ":" + (IntText(n) + "\r\n")
    case Bulk(text) => Fragment(text)
    case NullBulk => "$" + ("-1" + "\r\n")
    case NullArray => "*" + ("-1" + "\r\n")
    case Array(items) => ArrayHeader(|items|) + EncodeItems(items)
  }

  function EncodeItems(items: seq<Value>): string
    decreases items, 1
  {
    if items == [] then "" else EncodeValue(items[0]) + EncodeItems(items[1..])
  }

  /** The text of a status or error line: it contains no line end. */
  predicate OneLine(text: string) {
    forall i | 0 <= i < |text| :: !CrlfAt(text, i)
  }

  /** A value the parser can take at a nesting depth: within the limits and one-line where it must be. */
  predicate Sendable(o: Options, v: Value, depth: nat)
    decreases v, 0
  {
    depth <= MAX_DEPTH &&
    match v
    case Simple(text) => OneLine(text)
    case Failure(text) => OneLine(text)
    case Integer(n) => InI64(n)
    case Bulk(text) => ArgFits(o, text)
    case NullBulk => true
    case NullArray => true
    case Array(items) => |items| <= o.maxElements && |items| <= I64_MAX && AllSendable(o, items, depth + 1)
  }

  predicate AllSendable(o: Options, items: seq<Value>, depth: nat)
    decreases items, 1
  {
    items == [] || (Sendable(o, items[0], depth) && AllSendable(o, items[1..], depth))
  }

  // --- One line -------------------------------------------------------------------------------

  /** A one-line text followed by a line end is found as that line. */
  lemma LineFound(b: string, pos: nat, text: string)
    requires Holds(b, pos, text + "\r\n") && pos <= |b| && OneLine(text)
    ensures FindCrlf(b, pos) == Some(pos + |text|) && b[pos..pos + |text|] == text
  {
    hide FindCrlf, Holds;
    HoldsSlice(b, pos, text + "\r\n");
    HoldsSplit(b, pos, text, "\r\n");
    HoldsCrlf(b, pos + |text|);
    HoldsSlice(b, pos, text);
    forall i: nat | pos <= i < pos + |text|
      ensures !CrlfAt(b, i)
    {
      assert b[i] == text[i - pos];
      assert i + 1 < pos + |text| ==> b[i + 1] == text[i + 1 - pos];
      assert !CrlfAt(text, i - pos);
    }
  }

  /** A value that is a type byte and a line. */
  lemma LineValue(o: Options, b: string, pos: nat, depth: nat, prefix: string, text: string)
    requires depth <= MAX_DEPTH && |prefix| == 1 && Holds(b, pos, prefix + (text + "\r\n")) && OneLine(text)
    ensures pos < |b| && b[pos] == prefix[0] && pos + 1 + |text| + 2 <= |b|
    ensures ParseAt(o, b, pos, depth) == ParseLine(o, b, prefix[0], text, pos + 1 + |text| + 2, depth)
  {
    hide ParseAt, ParseLine, FindCrlf, Holds, OneLine;
    HoldsSplit(b, pos, prefix, text + "\r\n");
    FirstByte(b, pos, prefix);
    LineFound(b, pos + 1, text);
    LineAt(o, b, pos, depth, pos + 1 + |text|);
  }

  lemma FirstByte(b: string, pos: nat, prefix: string)
    requires |prefix| == 1 && Holds(b, pos, prefix)
    ensures pos < |b| && b[pos] == prefix[0]
  {
  }

  lemma NumbersAreOneLine(n: int)
    ensures OneLine(IntText(n))
  {
  }

  lemma MinusOne()
    ensures ParseI64Exact("-1") == Some(-1) && OneLine("-1")
  {
    assert IntText(-1) == "-1" by { assert NatText(1) == "1"; }
    I64RoundTrip(-1);
  }

  /** Every kind of value but the bulk string and the array. */
  lemma PlainValueParses(o: Options, b: string, pos: nat, v: Value, depth: nat)
    requires Sendable(o, v, depth) && !v.Bulk? && !v.Array? && Holds(b, pos, EncodeValue(v))
    ensures ParseAt(o, b, pos, depth) == Done(v, pos + |EncodeValue(v)|)
  {
    hide ParseAt, Holds, IntText, ParseI64Exact, OneLine, FindCrlf;
    match v
    case Simple(text) => LineValue(o, b, pos, depth, "+", text);
    case Failure(text) => LineValue(o, b, pos, depth, "-", text);
    case Integer(n) =>
      NumbersAreOneLine(n);
      LineValue(o, b, pos, depth, ":", IntText(n));
      I64RoundTrip(n);
    case NullBulk =>
      MinusOne();
      LineValue(o, b, pos, depth, "$", "-1");
    case NullArray =>
      MinusOne();
      LineValue(o, b, pos, depth, "*", "-1");
  }

  // --- Arrays ---------------------------------------------------------------------------------

  lemma HeaderAt(o: Options, b: string, pos: nat, count: nat, depth: nat)
    requires count <= o.maxElements && count <= I64_MAX && depth <= MAX_DEPTH && Holds(b, pos, ArrayHeader(count))
    ensures pos + |ArrayHeader(count)| <= |b|
    ensures ParseAt(o, b, pos, depth) == ParseItems(o, b, pos + |ArrayHeader(count)|, count, depth + 1)
  {
    hide ParseAt, ParseItems, Holds, IntText, ParseI64Exact, OneLine, FindCrlf;
    var text := IntText(count);
    IntTextOfNat(count);
    NumbersAreOneLine(count);
    assert ArrayHeader(count) == "*" + (text + "\r\n");
    LineValue(o, b, pos, depth, "*", text);
    I64RoundTrip(count);
  }

  /** A value written anywhere in the buffer is read back whole, at any depth that leaves room for it. */
  lemma {:induction false} ValueParses(o: Options, b: string, pos: nat, v: Value, depth: nat)
    requires Sendable(o, v, depth) && Holds(b, pos, EncodeValue(v)) && pos + |EncodeValue(v)| <= o.maxRequest
    ensures ParseAt(o, b, pos, depth) == Done(v, pos + |EncodeValue(v)|)
    decreases v, 0
  {
    hide ParseAt, ParseItems, Holds, ArrayHeader, Fragment, ArgFits, OneLine;
    match v
    case Bulk(text) => FragmentParses(o, b, pos, text, depth);
    case Array(items) =>
      var h := ArrayHeader(|items|);
      HoldsSplit(b, pos, h, EncodeItems(items));
      HeaderAt(o, b, pos, |items|, depth);
      ItemsParse(o, b, pos + |h|, items, depth + 1);
    case _ => PlainValueParses(o, b, pos, v, depth);
  }

  lemma {:induction false} ItemsParse(o: Options, b: string, pos: nat, items: seq<Value>, depth: nat)
    requires AllSendable(o, items, depth) && pos <= |b| && Holds(b, pos, EncodeItems(items))
    requires pos + |EncodeItems(items)| <= o.maxRequest
    ensures ParseItems(o, b, pos, |items|, depth) == Done(Array(items), pos + |EncodeItems(items)|)
    decreases items, 1
  {
    hide *;
    if items == [] {
      NoItems(o, b, pos, depth);
    } else {
      FirstItem(o, b, pos, items, depth);
      var mid := pos + |EncodeValue(items[0])|;
      ValueParses(o, b, pos, items[0], depth);
      ItemsParse(o, b, mid, items[1..], depth);
      ConsItems(o, b, pos, items, depth, mid, pos + |EncodeItems(items)|);
    }
  }

  lemma NoItems(o: Options, b: string, pos: nat, depth: nat)
    requires pos <= |b|
    ensures ParseItems(o, b, pos, 0, depth) == Done(Array([]), pos + |EncodeItems([])|)
  {
  }

  lemma FirstItem(o: Options, b: string, pos: nat, items: seq<Value>, depth: nat)
    requires items != [] && AllSendable(o, items, depth) && pos <= |b| && Holds(b, pos, EncodeItems(items))
    ensures Sendable(o, items[0], depth) && AllSendable(o, items[1..], depth)
    ensures var mid := pos + |EncodeValue(items[0])|;
            && Holds(b, pos, EncodeValue(items[0])) && mid <= |b| && Holds(b, mid, EncodeItems(items[1..]))
            && pos + |EncodeItems(items)| == mid + |EncodeItems(items[1..])|
  {
    var first, rest := EncodeValue(items[0]), EncodeItems(items[1..]);
    hide Holds, EncodeValue, Sendable;
    HoldsSplit(b, pos, first, rest);
    HoldsSlice(b, pos, first);
  }

  lemma ConsItems(o: Options, b: string, pos: nat, items: seq<Value>, depth: nat, mid: nat, end: nat)
    requires items != [] && pos <= mid <= |b| && ParseAt(o, b, pos, depth) == Done(items[0], mid)
    requires ParseItems(o, b, mid, |items| - 1, depth) == Done(Array(items[1..]), end)
    ensures ParseItems(o, b, pos, |items|, depth) == Done(Array(items), end)
  {
    hide ParseAt;
    assert [items[0]] + items[1..] == items;
  }

  /** Writing and reading are inverse on every value within the limits, whatever bytes follow. */
  lemma ValueRoundTrip(o: Options, v: Value, tail: string)
    requires Sendable(o, v, 0) && |EncodeValue(v)| <= o.maxRequest
    ensures NextValue(o, EncodeValue(v) + tail) == Done(v, |EncodeValue(v)|)
  {
    hide ParseAt, Holds;
    var b := EncodeValue(v) + tail;
    PrefixHolds("", EncodeValue(v), tail);
    assert "" + EncodeValue(v) + tail == b;
    ValueParses(o, b, 0, v, 0);
    assert IsPrefix(b[0]) by { TypeByte(v); }
  }

  lemma TypeByte(v: Value)
    ensures IsPrefix(EncodeValue(v)[0])
  {
  }

  /** No written value is a prefix of another. */
  lemma ValuesPrefixFree(o: Options, v: Value, w: Value)
    requires Sendable(o, v, 0) && Sendable(o, w, 0) && |EncodeValue(w)| <= o.maxRequest
    requires EncodeValue(v) <= EncodeValue(w)
    ensures v == w
  {
    hide EncodeValue, NextValue, Sendable;
    var tail := EncodeValue(w)[|EncodeValue(v)|..];
    assert EncodeValue(v) + tail == EncodeValue(w) && EncodeValue(w) + "" == EncodeValue(w);
    ValueRoundTrip(o, v, tail);
    ValueRoundTrip(o, w, "");
  }

  /** A status reply reads back as itself if and only if its text contains no line end. */
  lemma StatusReadable(o: Options, text: string)
    requires |text| + 3 <= o.maxRequest
    ensures NextValue(o, EncodeValue(Simple(text))) == Done(Simple(text), |text| + 3) <==> OneLine(text)
  {
    var s := EncodeValue(Simple(text));
    if OneLine(text) {
      ValueRoundTrip(o, Simple(text), "");
      assert s + "" == s;
    } else {
      var i :| 0 <= i < |text| && CrlfAt(text, i);
      assert s[i + 1] == text[i] && s[i + 2] == text[i + 1];
      assert CrlfAt(s, i + 1);
      StatusCut(o, s, text, i);
    }
  }

  lemma StatusCut(o: Options, s: string, text: string, i: nat)
    requires s == "+" + (text + "\r\n") && i < |text| && CrlfAt(s, i + 1)
    ensures NextValue(o, s) != Done(Simple(text), |text| + 3)
  {
    hide FindCrlf;
    var crlf := FindCrlf(s, 1);
    assert crlf.Some? && crlf.value <= i + 1;
    LineAt(o, s, 0, 0, crlf.value);
  }

  /** The loop of array_of_bulk. */
  method EncodeArrayOfBulk(values: seq<Option<string>>) returns (out: string)
    ensures out == EncodeValue(Array(Optionals(values)))
  {
    hide Fragment, ArrayHeader;
    out := ArrayHeader(|values|);
    assert values[0..] == values;
    for i := 0 to |values|
      invariant out + EncodeItems(Optionals(values[i..])) == EncodeValue(Array(Optionals(values)))
    {
      var item := if values[i].Some? then EncodeValue(Bulk(values[i].value)) else EncodeValue(NullBulk);
      OptionalsNext(values, i);
      assert out + (item + EncodeItems(Optionals(values[i + 1..]))) == out + item + EncodeItems(Optionals(values[i + 1..]));
      out := out + item;
    }
    assert values[|values|..] == [] && out + "" == out;
  }

  /** What an array of optional strings denotes. */
  function Optionals(values: seq<Option<string>>): (items: seq<Value>)
    ensures |items| == |values|
  {
    if values == [] then []
    else [if values[0].Some? then Bulk(values[0].value) else NullBulk] + Optionals(values[1..])
  }

  lemma OptionalsNext(values: seq<Option<string>>, i: nat)
    requires i < |values|
    ensures var item := if values[i].Some? then Bulk(values[i].value) else NullBulk;
            EncodeItems(Optionals(values[i..])) == EncodeValue(item) + EncodeItems(Optionals(values[i + 1..]))
  {
    hide EncodeValue;
    assert values[i..][1..] == values[i + 1..];
    var items := Optionals(values[i..]);
    assert items[1..] == Optionals(values[i + 1..]);
  }
}
