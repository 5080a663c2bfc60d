/** The incremental parser object of src/protocol/resp.cpp. Its buffer changes in place; every method
    is proved against the grammar in Resp, for buffers that respect the request limit. */
module Parser {
  import opened Wrappers
  import opened Decimal
  import opened Text
  import opened Resp

  /** Put values already read in front of the outcome for the values that follow. */
  function Resume(items: seq<Value>, rest: Parsed): Parsed
    requires rest.Done? ==> rest.value.Array?
  {
    if rest.Done? then Done(Array(items + rest.value.items), rest.end) else rest
  }

  /** Likewise for arguments already converted. */
  function ResumeArgs(args: seq<string>, rest: Result<seq<string>, ParseError>): Result<seq<string>, ParseError> {
    match rest
    case Err(e) => Err(e)
    case Ok(more) => Ok(args + more)
  }

  lemma ResumeNone(rest: Parsed)
    requires rest.Done? ==> rest.value.Array?
    ensures Resume([], rest) == rest
  {
    assert rest.Done? ==> [] + rest.value.items == rest.value.items;
  }

  /** One more element read. */
  lemma ResumeNext(o: Options, b: string, cursor: nat, count: nat, depth: nat, items: seq<Value>)
    requires cursor <= |b| && count > 0
    ensures var first := ParseAt(o, b, cursor, depth);
            Resume(items, ParseItems(o, b, cursor, count, depth)) ==
              if !first.Done? then first
              else Resume(items + [first.value], ParseItems(o, b, first.end, count - 1, depth))
  {
    hide ParseAt;
    var first := ParseAt(o, b, cursor, depth);
    if first.Done? {
      var rest := ParseItems(o, b, first.end, count - 1, depth);
      assert rest.Done? ==> items + ([first.value] + rest.value.items) == items + [first.value] + rest.value.items;
    }
  }

  lemma ResumeEnd(o: Options, b: string, cursor: nat, depth: nat, items: seq<Value>)
    requires cursor <= |b|
    ensures Resume(items, ParseItems(o, b, cursor, 0, depth)) == Done(Array(items), cursor)
  {
    assert items + [] == items;
  }

  class Parser {
    const options: Options
    var buffer: string

    /** The buffer never exceeds the request limit. */
    ghost predicate Valid()
      reads this
    {
      |buffer| <= options.maxRequest
    }

    constructor (options: Options)
      ensures Valid() && this.options == options && buffer == ""
    {
      this.options := options;
      buffer := "";
    }

    method Append(bytes: string) returns (ok: bool)
      requires Valid()
      modifies this
      ensures Valid()
      ensures ok <==> |old(buffer)| + |bytes| <= options.maxRequest
      ensures buffer == if ok then old(buffer) + bytes else old(buffer)
    {
      if |bytes| > options.maxRequest || |buffer| > options.maxRequest - |bytes| {
        return false;
      }
      buffer := buffer + bytes;
      ok := true;
    }

    method Discard(bytes: nat)
      requires Valid()
      modifies this
      ensures Valid()
      ensures buffer == if bytes >= |old(buffer)| then "" else old(buffer)[bytes..]
    {
      if bytes >= |buffer| {
        buffer := "";
        return;
      }
      buffer := buffer[bytes..];
    }

    /** parse_at: its three size checks can never fire on a buffer within the limit. */
    method ParseFrom(pos: nat, depth: nat) returns (r: Parsed)
      requires Valid() && pos <= |buffer|
      ensures r == ParseAt(options, buffer, pos, depth)
      decreases Rank(depth), 1
    {
      if depth > MAX_DEPTH {
        return Bad(NestingDepthExceeded);
      }
      if pos >= |buffer| {
        return NeedMore;
      }
      var found := FindCrlf(buffer, pos + 1);
      if found.None? {
        if |buffer| - pos > options.maxRequest {
          assert false; // "line exceeded maximum request size"
        }
        return NeedMore;
      }
      var line, after := buffer[pos + 1..found.value], found.value + 2;
      assert ParseAt(options, buffer, pos, depth) == ParseLine(options, buffer, buffer[pos], line, after, depth);
      if buffer[pos] == '*' {
        r := ParseElements(pos, line, after, depth);
      } else {
        r := ParseLine(options, buffer, buffer[pos], line, after, depth);
      }
    }

    /** The array case of parse_at, with its cursor loop. */
    method ParseElements(pos: nat, line: string, after: nat, depth: nat) returns (r: Parsed)
      requires Valid() && pos < after <= |buffer| && depth <= MAX_DEPTH
      ensures r == ParseArray(options, buffer, line, after, depth)
      decreases Rank(depth), 0
    {
      var count := ParseI64Exact(line);
      if count.None? || count.value < -1 {
        return Bad(InvalidArrayLength);
      }
      if count.value == -1 {
        return Done(NullArray, after);
      }
      if count.value > options.maxElements {
        return Bad(TooManyElements);
      }
      hide ParseI64Exact, ParseAt, ParseItems, Resume;
      var items, cursor := [], after;
      ResumeNone(ParseItems(options, buffer, after, count.value, depth + 1));
      for i := 0 to count.value
        invariant after <= cursor <= |buffer|
        invariant ParseItems(options, buffer, after, count.value, depth + 1) ==
                  Resume(items, ParseItems(options, buffer, cursor, count.value - i, depth + 1))
      {
        var child := ParseFrom(cursor, depth + 1);
        ResumeNext(options, buffer, cursor, count.value - i, depth + 1, items);
        if !child.Done? {
          return child;
        }
        cursor := child.end;
        if cursor - pos > options.maxRequest {
          assert false; // "request exceeded maximum size"
        }
        items := items + [child.value];
      }
      ResumeEnd(options, buffer, cursor, depth + 1, items);
      r := Done(Array(items), cursor);
    }

    method ParseInlineCommand() returns (r: Parsed)
      requires Valid()
      ensures r == ParseInline(options, buffer)
    {
      var found := FindCrlf(buffer, 0);
      if found.None? {
        if |buffer| > options.maxRequest {
          assert false; // "inline command exceeded maximum size"
        }
        return NeedMore;
      }
      var words := SplitWords(buffer[..found.value]);
      var items := [];
      for i := 0 to |words|
        invariant |items| == i && forall k | 0 <= k < i :: items[k] == Bulk(words[k]) && |words[k]| <= options.maxBulk
      {
        if |words[i]| > options.maxBulk {
          assert words[i] in words;
          return Bad(InlineArgumentTooLarge);
        }
        items := items + [Bulk(words[i])];
      }
      assert items == seq(|words|, i requires 0 <= i < |words| => Bulk(words[i]));
      r := Done(Array(items), found.value + 2);
    }

    /** next_value: reads the grammar's next value and drops exactly its bytes. */
    method NextValue() returns (r: Parsed)
      requires Valid()
      modifies this
      ensures Valid()
      ensures r == Resp.NextValue(options, old(buffer))
      ensures buffer == if r.Done? then old(buffer)[r.end..] else old(buffer)
    {
      if buffer == "" {
        return NeedMore;
      }
      if IsPrefix(buffer[0]) {
        r := ParseFrom(0, 0);
      } else {
        r := ParseInlineCommand();
      }
      if r.Done? {
        if r.end > options.maxRequest {
          assert false; // "request exceeded maximum size"
        }
        Discard(r.end);
      }
    }

    /** next_command. */
    method NextCommand() returns (r: CommandStep)
      requires Valid()
      modifies this
      ensures Valid()
      ensures (r, buffer) == Resp.NextCommand(options, old(buffer))
    {
      var parsed := NextValue();
      match parsed
      case NeedMore => return Starved;
      case Bad(e) => return Refused(e);
      case Done(v, end) =>
        if !v.Array? {
          return Refused(NotACommand);
        }
        var args := CollectArgs(v.items);
        match args
        case Err(e) => return Refused(e);
        case Ok(list) => return Command(list);
    }
  }

  /** The argument loop of next_command. */
  method CollectArgs(items: seq<Value>) returns (r: Result<seq<string>, ParseError>)
    ensures r == ArgsOf(items)
  {
    var args := [];
    assert items[0..] == items;
    ghost var all := ArgsOf(items);
    assert all.Ok? ==> [] + all.value == all.value;
    for i := 0 to |items|
      invariant ArgsOf(items) == ResumeArgs(args, ArgsOf(items[i..]))
    {
      var arg := ArgOf(items[i]);
      assert items[i..][1..] == items[i + 1..];
      if arg.Err? {
        return Err(arg.error);
      }
      ghost var more := ArgsOf(items[i + 1..]);
      assert more.Ok? ==> args + ([arg.value] + more.value) == args + [arg.value] + more.value;
      args := args + [arg.value];
    }
    assert args + [] == args;
    r := Ok(args);
  }
}
