/** What the RESP codec promises: decided parses never change as bytes arrive, encodings parse
    back whatever their arguments hold, chunk boundaries do not matter, and results are bounded. */
module RespTheorems {
  import opened Wrappers
  import opened Decimal
  import opened Resp

  // --- Stability ------------------------------------------------------------------------------

  lemma CrlfStable(b: string, b': string, pos: nat)
    requires b <= b' && FindCrlf(b, pos).Some?
    ensures FindCrlf(b', pos) == FindCrlf(b, pos)
  {
    var c := FindCrlf(b, pos).value;
    assert CrlfAt(b', c);
    assert forall i: nat | pos <= i < c :: CrlfAt(b', i) ==> CrlfAt(b, i);
  }

  lemma BulkStable(o: Options, b: string, b': string, line: string, after: nat)
    requires b <= b' && after <= |b|
    requires !ParseBulk(o, b, line, after).NeedMore?
    ensures ParseBulk(o, b', line, after) == ParseBulk(o, b, line, after)
  {
    var n := ParseI64Exact(line);
    if n.Some? && n.value >= 0 && after + n.value + 2 <= |b| {
      assert b'[after..after + n.value] == b[after..after + n.value];
    }
  }

  lemma LineAt(o: Options, b: string, pos: nat, depth: nat, crlf: nat)
    requires depth <= MAX_DEPTH && pos < |b| && FindCrlf(b, pos + 1) == Some(crlf)
    ensures ParseAt(o, b, pos, depth) == ParseLine(o, b, b[pos], b[pos + 1..crlf], crlf + 2, depth)
  {
    hide ParseLine;
  }

  lemma LineStable(o: Options, b: string, b': string, prefix: char, line: string, after: nat, depth: nat)
    requires b <= b' && after <= |b| && depth <= MAX_DEPTH && !ParseLine(o, b, prefix, line, after, depth).NeedMore?
    ensures ParseLine(o, b', prefix, line, after, depth) == ParseLine(o, b, prefix, line, after, depth)
    decreases Rank(depth), 0
  {
    if prefix == '$' {
      BulkStable(o, b, b', line, after);
    } else if prefix == '*' {
      ArrayStable(o, b, b', line, after, depth);
    }
  }

  /** A parse that has succeeded or failed gives the same answer on every longer buffer. */
  lemma {:induction false} Stable(o: Options, b: string, b': string, pos: nat, depth: nat)
    requires b <= b'
    requires !ParseAt(o, b, pos, depth).NeedMore?
    ensures ParseAt(o, b', pos, depth) == ParseAt(o, b, pos, depth)
    decreases Rank(depth), 1
  {
    if depth <= MAX_DEPTH {
      hide ParseLine;
      CrlfStable(b, b', pos + 1);
      var crlf := FindCrlf(b, pos + 1).value;
      assert b'[pos + 1..crlf] == b[pos + 1..crlf];
      LineAt(o, b, pos, depth, crlf);
      LineAt(o, b', pos, depth, crlf);
      LineStable(o, b, b', b[pos], b[pos + 1..crlf], crlf + 2, depth);
    }
  }

  lemma {:induction false} ArrayStable(o: Options, b: string, b': string, line: string, after: nat, depth: nat)
    requires b <= b' && after <= |b| && depth <= MAX_DEPTH
    requires !ParseArray(o, b, line, after, depth).NeedMore?
    ensures ParseArray(o, b', line, after, depth) == ParseArray(o, b, line, after, depth)
    decreases Rank(depth + 1), I64_MAX + 2
  {
    var n := ParseI64Exact(line);
    if n.Some? && 0 <= n.value <= o.maxElements {
      ItemsStable(o, b, b', after, n.value, depth + 1);
    }
  }

  lemma {:induction false} ItemsStable(o: Options, b: string, b': string, cursor: nat, count: nat, depth: nat)
    requires b <= b' && cursor <= |b|
    requires !ParseItems(o, b, cursor, count, depth).NeedMore?
    ensures ParseItems(o, b', cursor, count, depth) == ParseItems(o, b, cursor, count, depth)
    decreases Rank(depth), count + 1
  {
    if count > 0 {
      Stable(o, b, b', cursor, depth);
      var first := ParseAt(o, b, cursor, depth);
      if first.Done? {
        ItemsStable(o, b, b', first.end, count - 1, depth);
      }
    }
  }

  /** The same at the level of next_value, inline commands included. */
  lemma NextValueStable(o: Options, b: string, b': string)
    requires b <= b'
    requires !NextValue(o, b).NeedMore?
    ensures NextValue(o, b') == NextValue(o, b)
  {
    if IsPrefix(b[0]) {
      Stable(o, b, b', 0, 0);
    } else {
      CrlfStable(b, b', 0);
      var crlf := FindCrlf(b, 0).value;
      assert b'[..crlf] == b[..crlf];
    }
  }

  // --- Chunk independence ---------------------------------------------------------------------

  /** Reads one value off the front of a buffer. */
  type Scanner = string -> Parsed

  ghost predicate Advances(next: Scanner) {
    forall b: string :: next(b).Done? ==> 0 < next(b).end <= |b|
  }

  ghost predicate Settles(next: Scanner) {
    forall b: string, b': string | b <= b' && !next(b).NeedMore? :: next(b') == next(b)
  }

  function Reader(o: Options): (next: Scanner)
    ensures Advances(next)
  {
    b => NextValue(o, b)
  }

  lemma ReaderSettles(o: Options)
    ensures Settles(Reader(o))
  {
    forall b: string, b': string | b <= b' && !Reader(o)(b).NeedMore?
      ensures Reader(o)(b') == Reader(o)(b)
    {
      NextValueStable(o, b, b');
    }
  }

  /** What a reader has got so far: delivered values, the bytes still buffered, and the error that
      stopped it, if any. */
  datatype Reading = Reading(values: seq<Value>, rest: string, error: Option<ParseError>)

  function Continue(values: seq<Value>, r: Reading): Reading {
    r.(values := values + r.values)
  }

  /** Scan until more bytes are wanted or the bytes are malformed. */
  function Drain(next: Scanner, b: string): Reading
    requires Advances(next)
    decreases |b|
  {
    match next(b)
    case NeedMore => Reading([], b, None)
    case Bad(e) => Reading([], b, Some(e))
    case Done(v, end) => Continue([v], Drain(next, b[end..]))
  }

  /** Append each chunk in turn and drain after each; None if an append is refused. */
  function Feed(next: Scanner, limit: nat, start: Reading, chunks: seq<string>): Option<Reading>
    requires Advances(next)
    decreases |chunks|
  {
    if chunks == [] then Some(start)
    else if |start.rest| + |chunks[0]| > limit then None
    else Feed(next, limit, Continue(start.values, Drain(next, start.rest + chunks[0])), chunks[1..])
  }

  function Joined(chunks: seq<string>): string {
    if chunks == [] then "" else chunks[0] + Joined(chunks[1..])
  }

  lemma ContinueTwice(u: seq<Value>, v: seq<Value>, r: Reading)
    ensures Continue(u, Continue(v, r)) == Continue(u + v, r)
  {
    assert u + (v + r.values) == u + v + r.values;
  }

  /** Draining early and continuing with more bytes is the same as draining once at the end. */
  lemma {:induction false} DrainAppend(next: Scanner, b: string, x: string)
    requires Advances(next) && Settles(next)
    ensures Drain(next, b + x) == Continue(Drain(next, b).values, Drain(next, Drain(next, b).rest + x))
    decreases |b|
  {
    assert b <= b + x;
    match next(b)
    case Done(v, end) =>
      assert next(b + x) == next(b);
      assert (b + x)[end..] == b[end..] + x;
      DrainAppend(next, b[end..], x);
      var q := Drain(next, b[end..]);
      ContinueTwice([v], q.values, Drain(next, q.rest + x));
    case _ =>
      var r := Drain(next, b + x);
      assert [] + r.values == r.values;
  }

  /** Nothing more can be drained from what a drain leaves behind. */
  lemma {:induction false} DrainedRest(next: Scanner, b: string)
    requires Advances(next)
    ensures Drain(next, Drain(next, b).rest) == Drain(next, b).(values := [])
    decreases |b|
  {
    match next(b)
    case Done(v, end) => DrainedRest(next, b[end..]);
    case _ =>
  }

  lemma {:induction false} FeedIsDrain(next: Scanner, limit: nat, start: Reading, chunks: seq<string>)
    requires Advances(next) && Settles(next)
    requires Drain(next, start.rest) == start.(values := [])
    requires Feed(next, limit, start, chunks).Some?
    ensures Feed(next, limit, start, chunks) == Some(Continue(start.values, Drain(next, start.rest + Joined(chunks))))
    decreases |chunks|
  {
    if chunks == [] {
      assert start.rest + "" == start.rest;
      assert start.values + [] == start.values;
    } else {
      var b, tail := start.rest + chunks[0], Joined(chunks[1..]);
      var r := Drain(next, b);
      var start' := Continue(start.values, r);
      assert Drain(next, start'.rest) == start'.(values := []) by { DrainedRest(next, b); }
      assert Feed(next, limit, start, chunks) == Feed(next, limit, start', chunks[1..]);
      FeedIsDrain(next, limit, start', chunks[1..]);
      FeedJoin(next, start.values, b, tail);
      JoinedCons(start.rest, chunks);
    }
  }

  lemma JoinedCons(rest: string, chunks: seq<string>)
    requires chunks != []
    ensures rest + chunks[0] + Joined(chunks[1..]) == rest + Joined(chunks)
  {
  }

  lemma FeedJoin(next: Scanner, values: seq<Value>, b: string, tail: string)
    requires Advances(next) && Settles(next)
    ensures var r := Continue(values, Drain(next, b));
            Continue(r.values, Drain(next, r.rest + tail)) == Continue(values, Drain(next, b + tail))
  {
    var r := Drain(next, b);
    DrainAppend(next, b, tail);
    ContinueTwice(values, r.values, Drain(next, r.rest + tail));
  }

  const START := Reading([], "", None)

  /** However a byte stream is cut into appends, the same values, first error and leftover come out. */
  lemma ChunkIndependence(o: Options, chunks: seq<string>, chunks': seq<string>)
    requires Joined(chunks) == Joined(chunks')
    requires Feed(Reader(o), o.maxRequest, START, chunks).Some?
    requires Feed(Reader(o), o.maxRequest, START, chunks').Some?
    ensures Feed(Reader(o), o.maxRequest, START, chunks) == Feed(Reader(o), o.maxRequest, START, chunks')
  {
    ReaderSettles(o);
    FeedIsDrain(Reader(o), o.maxRequest, START, chunks);
    FeedIsDrain(Reader(o), o.maxRequest, START, chunks');
  }

  // --- Bounds ---------------------------------------------------------------------------------

  /** A parsed value nests at most `levels` deep and its strings and arrays respect the limits. */
  predicate Bounded(o: Options, v: Value, levels: int)
    decreases v
  {
    match v
    case Bulk(text) => levels >= 0 && |text| <= o.maxBulk
    case Array(items) =>
      levels >= 0 && |items| <= o.maxElements && forall item | item in items :: Bounded(o, item, levels - 1)
    case Integer(n) => levels >= 0 && InI64(n)
    case _ => levels >= 0
  }

  lemma {:induction false} ParsedIsBounded(o: Options, b: string, pos: nat, depth: nat)
    requires ParseAt(o, b, pos, depth).Done?
    ensures Bounded(o, ParseAt(o, b, pos, depth).value, MAX_DEPTH - depth)
    decreases Rank(depth), 0
  {
    hide ParseArray;
    var crlf := FindCrlf(b, pos + 1).value;
    var line := b[pos + 1..crlf];
    assert ParseAt(o, b, pos, depth) == ParseLine(o, b, b[pos], line, crlf + 2, depth);
    if b[pos] == '*' {
      ArrayIsBounded(o, b, line, crlf + 2, depth);
    }
  }

  lemma {:induction false} ArrayIsBounded(o: Options, b: string, line: string, after: nat, depth: nat)
    requires after <= |b| && depth <= MAX_DEPTH && ParseArray(o, b, line, after, depth).Done?
    ensures Bounded(o, ParseArray(o, b, line, after, depth).value, MAX_DEPTH - depth)
    decreases Rank(depth + 1), I64_MAX + 2
  {
    var n := ParseI64Exact(line).value;
    if n >= 0 {
      ItemsAreBounded(o, b, after, n, depth + 1);
    }
  }

  lemma {:induction false} ItemsAreBounded(o: Options, b: string, cursor: nat, count: nat, depth: nat)
    requires cursor <= |b| && ParseItems(o, b, cursor, count, depth).Done?
    ensures forall item | item in ParseItems(o, b, cursor, count, depth).value.items ::
              Bounded(o, item, MAX_DEPTH - depth)
    decreases Rank(depth), count + 1
  {
    if count > 0 {
      var first := ParseAt(o, b, cursor, depth);
      ParsedIsBounded(o, b, cursor, depth);
      ItemsAreBounded(o, b, first.end, count - 1, depth);
    }
  }

  /** Every RESP value read off the wire is bounded by the configured limits and the nesting depth. */
  lemma RespValuesBounded(o: Options, b: string)
    requires b != "" && IsPrefix(b[0]) && NextValue(o, b).Done?
    ensures Bounded(o, NextValue(o, b).value, MAX_DEPTH)
  {
    ParsedIsBounded(o, b, 0, 0);
  }

  // --- Round trip -----------------------------------------------------------------------------

  predicate ArgFits(o: Options, arg: string) {
    |arg| <= o.maxBulk && |arg| <= I64_MAX
  }

  /** A command whose encoding stays within the parser's limits. */
  predicate Fits(o: Options, args: seq<string>) {
    && |args| <= o.maxElements
    && |args| <= I64_MAX
    && (forall arg | arg in args :: ArgFits(o, arg))
    && |Encode(args)| <= o.maxRequest
  }

  /** The bytes `s` stand in the buffer at `pos`. */
  predicate Holds(b: string, pos: nat, s: string)
    decreases |s|
  {
    s == "" || (pos < |b| && b[pos] == s[0] && Holds(b, pos + 1, s[1..]))
  }

  lemma {:induction false} HoldsSplit(b: string, pos: nat, s: string, t: string)
    requires Holds(b, pos, s + t)
    ensures Holds(b, pos, s) && Holds(b, pos + |s|, t)
    decreases |s|
  {
    if s == "" {
      assert s + t == t;
    } else {
      assert (s + t)[1..] == s[1..] + t;
      HoldsSplit(b, pos + 1, s[1..], t);
    }
  }

  lemma {:induction false} HoldsSlice(b: string, pos: nat, s: string)
    requires Holds(b, pos, s) && pos <= |b|
    ensures pos + |s| <= |b| && b[pos..pos + |s|] == s
    decreases |s|
  {
    if s != "" {
      HoldsSlice(b, pos + 1, s[1..]);
      assert b[pos..pos + |s|] == [b[pos]] + b[pos + 1..pos + |s|];
    }
  }

  lemma {:induction false} PrefixHolds(pre: string, s: string, tail: string)
    ensures Holds(pre + s + tail, |pre|, s)
    decreases |s|
  {
    if s != "" {
      assert pre + s + tail == (pre + [s[0]]) + s[1..] + tail;
      PrefixHolds(pre + [s[0]], s[1..], tail);
    }
  }

  lemma SliceOfSlice(b: string, i: nat, j: nat, p: nat, q: nat)
    requires i <= j <= |b| && p <= q <= j - i
    ensures b[i..j][p..q] == b[i + p..i + q]
  {
    var s, t := b[i..j][p..q], b[i + p..i + q];
    assert |s| == |t|;
    forall k | 0 <= k < |s|
      ensures s[k] == t[k]
    {
    }
  }

  lemma HoldsCrlf(b: string, pos: nat)
    requires Holds(b, pos, "\r\n")
    ensures CrlfAt(b, pos)
  {
    assert Holds(b, pos + 1, "\r\n"[1..]);
  }

  /** A length line: the digits of a number, then CRLF, is found and reads back. */
  lemma DigitsOnly(n: nat)
    ensures forall i | 0 <= i < |NatText(n)| :: NatText(n)[i] != '\r'
  {
  }

  lemma IntTextOfNat(n: nat)
    ensures IntText(n) == NatText(n)
  {
  }

  /** A line without carriage returns ends at its CRLF. */
  lemma FirstCrlf(b: string, pos: nat, s: string)
    requires pos + |s| <= |b| && b[pos..pos + |s|] == s && CrlfAt(b, pos + |s|)
    requires forall i | 0 <= i < |s| :: s[i] != '\r'
    ensures FindCrlf(b, pos) == Some(pos + |s|)
  {
    hide FindCrlf;
    forall i: nat | pos <= i < pos + |s|
      ensures !CrlfAt(b, i)
    {
      assert b[i] == s[i - pos];
    }
  }

  lemma LengthLine(b: string, pos: nat, n: nat)
    requires n <= I64_MAX && pos <= |b| && Holds(b, pos, NatText(n) + "\r\n")
    ensures var w := |NatText(n)|;
            FindCrlf(b, pos) == Some(pos + w) && b[pos..pos + w] == NatText(n)
    ensures ParseI64Exact(NatText(n)) == Some(n)
  {
    hide NatText, ParseI64Exact, Holds;
    var s := NatText(n);
    HoldsSplit(b, pos, s, "\r\n");
    HoldsCrlf(b, pos + |s|);
    HoldsSlice(b, pos, s);
    DigitsOnly(n);
    FirstCrlf(b, pos, s);
    IntTextOfNat(n);
    I64RoundTrip(n);
  }

  lemma BulkLine(o: Options, b: string, pos: nat, depth: nat, crlf: nat, n: nat)
    requires pos < |b| && b[pos] == '$' && depth <= MAX_DEPTH && FindCrlf(b, pos + 1) == Some(crlf)
    requires ParseI64Exact(b[pos + 1..crlf]) == Some(n)
    requires n <= o.maxBulk && crlf + 2 + n <= o.maxRequest && CrlfAt(b, crlf + 2 + n)
    ensures ParseAt(o, b, pos, depth) == Done(Bulk(b[crlf + 2..crlf + 2 + n]), crlf + 2 + n + 2)
  {
    hide ParseArray, ParseInteger, ParseI64Exact;
    assert ParseAt(o, b, pos, depth) == ParseLine(o, b, '$', b[pos + 1..crlf], crlf + 2, depth);
  }

  lemma ArrayLine(o: Options, b: string, pos: nat, depth: nat, crlf: nat, n: nat)
    requires pos < |b| && b[pos] == '*' && depth <= MAX_DEPTH && FindCrlf(b, pos + 1) == Some(crlf)
    requires ParseI64Exact(b[pos + 1..crlf]) == Some(n) && n <= o.maxElements
    ensures ParseAt(o, b, pos, depth) == ParseItems(o, b, crlf + 2, n, depth + 1)
  {
    var line := b[pos + 1..crlf];
    assert ParseAt(o, b, pos, depth) == ParseLine(o, b, '*', line, crlf + 2, depth);
    assert ParseLine(o, b, '*', line, crlf + 2, depth) == ParseArray(o, b, line, crlf + 2, depth);
  }

  /** An encoded argument parses to itself wherever it stands. */
  lemma FragmentParses(o: Options, b: string, pos: nat, arg: string, depth: nat)
    requires ArgFits(o, arg) && depth <= MAX_DEPTH
    requires Holds(b, pos, Fragment(arg)) && pos + |Fragment(arg)| <= o.maxRequest
    ensures ParseAt(o, b, pos, depth) == Done(Bulk(arg), pos + |Fragment(arg)|)
  {
    hide ParseAt, FindCrlf, NatText, Fragment, ParseI64Exact, Holds;
    FragmentParts(b, pos, arg);
    LengthLine(b, pos + 1, |arg|);
    var crlf := pos + 1 + |NatText(|arg|)|;
    HoldsSplit(b, crlf + 2, arg, "\r\n");
    HoldsCrlf(b, crlf + 2 + |arg|);
    HoldsSlice(b, crlf + 2, arg);
    BulkLine(o, b, pos, depth, crlf, |arg|);
  }

  lemma FragmentParts(b: string, pos: nat, arg: string)
    requires Holds(b, pos, Fragment(arg))
    ensures var head := NatText(|arg|) + "\r\n";
            && |Fragment(arg)| == 1 + |head| + |arg| + 2
            && pos < |b| && b[pos] == '$' && Holds(b, pos + 1, head) && Holds(b, pos + 1 + |head|, arg + "\r\n")
  {
    hide NatText, Holds;
    var head := NatText(|arg|) + "\r\n";
    assert Fragment(arg) == "$" + (head + (arg + "\r\n"));
    HoldsSplit(b, pos, "$", head + (arg + "\r\n"));
    HoldsSplit(b, pos + 1, head, arg + "\r\n");
  }

  function Bulks(args: seq<string>): (items: seq<Value>)
    ensures |items| == |args|
  {
    if args == [] then [] else [Bulk(args[0])] + Bulks(args[1..])
  }

  lemma NoFragments(o: Options, b: string, pos: nat, depth: nat)
    requires pos <= |b|
    ensures ParseItems(o, b, pos, 0, depth) == Done(Array(Bulks([])), pos + |Fragments([])|)
  {
  }

  lemma FirstFragment(o: Options, b: string, pos: nat, args: seq<string>, depth: nat)
    requires args != [] && ArgFits(o, args[0]) && depth <= MAX_DEPTH && pos <= |b|
    requires Holds(b, pos, Fragments(args)) && pos + |Fragments(args)| <= o.maxRequest
    ensures var mid := pos + |Fragment(args[0])|;
            && mid <= |b| && ParseAt(o, b, pos, depth) == Done(Bulk(args[0]), mid)
            && Holds(b, mid, Fragments(args[1..])) && pos + |Fragments(args)| == mid + |Fragments(args[1..])|
  {
    hide ParseAt, Fragment, Holds, ArgFits;
    assert Fragments(args) == Fragment(args[0]) + Fragments(args[1..]);
    HoldsSplit(b, pos, Fragment(args[0]), Fragments(args[1..]));
    HoldsSlice(b, pos, Fragment(args[0]));
    FragmentParses(o, b, pos, args[0], depth);
  }

  lemma {:induction false} FragmentsParse(o: Options, b: string, pos: nat, args: seq<string>, depth: nat)
    requires depth <= MAX_DEPTH && forall arg | arg in args :: ArgFits(o, arg)
    requires pos <= |b| && Holds(b, pos, Fragments(args)) && pos + |Fragments(args)| <= o.maxRequest
    ensures ParseItems(o, b, pos, |args|, depth) == Done(Array(Bulks(args)), pos + |Fragments(args)|)
    decreases |args|
  {
    hide *;
    if args == [] {
      NoFragments(o, b, pos, depth);
    } else {
      FirstFragment(o, b, pos, args, depth);
      var mid := pos + |Fragment(args[0])|;
      FragmentsParse(o, b, mid, args[1..], depth);
      ItemsCons(o, b, pos, args, depth, mid, mid + |Fragments(args[1..])|);
    }
  }

  lemma ItemsCons(o: Options, b: string, pos: nat, args: seq<string>, depth: nat, mid: nat, end: nat)
    requires args != [] && pos <= mid <= |b|
    requires ParseAt(o, b, pos, depth) == Done(Bulk(args[0]), mid)
    requires ParseItems(o, b, mid, |args| - 1, depth) == Done(Array(Bulks(args[1..])), end)
    ensures ParseItems(o, b, pos, |args|, depth) == Done(Array(Bulks(args)), end)
  {
  }

  lemma {:induction false} BulksAreArgs(args: seq<string>)
    ensures ArgsOf(Bulks(args)) == Ok(args)
  {
    if args != [] {
      BulksAreArgs(args[1..]);
      assert Bulks(args)[1..] == Bulks(args[1..]);
      assert [args[0]] + args[1..] == args;
    }
  }

  /** The array header of an encoding announces its arguments. */
  lemma HeaderParses(o: Options, b: string, count: nat, depth: nat)
    requires count <= o.maxElements && count <= I64_MAX && depth <= MAX_DEPTH
    requires Holds(b, 0, ArrayHeader(count))
    ensures |ArrayHeader(count)| <= |b| && b[0] == '*'
    ensures ParseAt(o, b, 0, depth) == ParseItems(o, b, |ArrayHeader(count)|, count, depth + 1)
  {
    var head := NatText(count) + "\r\n";
    assert ArrayHeader(count) == "*" + head;
    HoldsSlice(b, 0, ArrayHeader(count));
    HoldsSplit(b, 0, "*", head);
    LengthLine(b, 1, count);
    ArrayLine(o, b, 0, depth, 1 + |NatText(count)|, count);
  }

  /** A buffer that holds an encoded command at its front. */
  lemma HeldCommandParses(o: Options, b: string, args: seq<string>, h: nat, end: nat)
    requires Fits(o, args) && b != ""
    requires h == |ArrayHeader(|args|)| && end == h + |Fragments(args)| && end <= o.maxRequest
    requires Holds(b, 0, ArrayHeader(|args|)) && Holds(b, h, Fragments(args))
    ensures NextValue(o, b) == Done(Array(Bulks(args)), end)
  {
    hide ParseAt, ParseItems;
    HeaderParses(o, b, |args|, 0);
    FragmentsParse(o, b, h, args, 1);
  }

  /** An encoded command parses back, whatever bytes its arguments hold and whatever follows it. */
  lemma EncodeParses(o: Options, args: seq<string>, tail: string)
    requires Fits(o, args)
    ensures NextValue(o, Encode(args) + tail) == Done(Array(Bulks(args)), |Encode(args)|)
    ensures CommandOf(Array(Bulks(args))) == Ok(args)
  {
    PrefixHolds("", Encode(args), tail);
    assert "" + Encode(args) + tail == Encode(args) + tail;
    HoldsSplit(Encode(args) + tail, 0, ArrayHeader(|args|), Fragments(args));
    HeldCommandParses(o, Encode(args) + tail, args, |ArrayHeader(|args|)|, |Encode(args)|);
    BulksAreArgs(args);
  }

  /** A proper prefix of an encoding is undecided: not a value, and not an error. */
  lemma TornNeedsMore(o: Options, args: seq<string>, cut: nat)
    requires Fits(o, args) && cut < |Encode(args)|
    ensures NextValue(o, Encode(args)[..cut]).NeedMore?
  {
    var e := Encode(args);
    EncodeParses(o, args, "");
    assert e + "" == e;
    if !NextValue(o, e[..cut]).NeedMore? {
      NextValueStable(o, e[..cut], e);
    }
  }

  /** No encoding is a proper prefix of another. */
  lemma PrefixFree(args: seq<string>, args': seq<string>)
    requires |args| <= I64_MAX && |args'| <= I64_MAX
    requires forall arg | arg in args + args' :: |arg| <= I64_MAX
    requires Encode(args) <= Encode(args')
    ensures args == args'
  {
    hide Encode, NextValue, CommandOf, Bulks;
    var o := Options(|Encode(args')|, I64_MAX, I64_MAX);
    EncodeParses(o, args', "");
    assert Encode(args') + "" == Encode(args');
    var tail := Encode(args')[|Encode(args)|..];
    EncodeParses(o, args, tail);
    assert Encode(args) + tail == Encode(args');
    assert CommandOf(Array(Bulks(args))) == CommandOf(Array(Bulks(args')));
  }
}
