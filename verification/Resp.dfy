/** The RESP2 grammar as src/protocol/resp.cpp reads and writes it: encoder, value parser and
    command parser, as functions of the bytes buffered so far. Bytes are chars. */
module Resp {
  import opened Wrappers
  import opened Decimal
  import opened Text

  const MAX_DEPTH: nat := 8

  datatype Options = Options(maxRequest: nat, maxElements: nat, maxBulk: nat)

  datatype Value =
    | Simple(text: string)
    | Failure(text: string)
    | Integer(n: int)
    | Bulk(text: string)
    | NullBulk
    | Array(items: seq<Value>)
    | NullArray

  datatype ParseError =
    | NestingDepthExceeded
    | InvalidInteger
    | InvalidBulkLength
    | BulkTooLarge
    | BulkBeyondRequest
    | MalformedBulk
    | InvalidArrayLength
    | TooManyElements
    | UnknownType
    | InlineArgumentTooLarge
    | NotACommand
    | NullArgument
    | NestedArgument

  /** One parse attempt: a value and the position after it, too few bytes, or malformed. */
  datatype Parsed = Done(value: Value, end: nat) | NeedMore | Bad(error: ParseError)

  predicate CrlfAt(b: string, i: nat) {
    i + 1 < |b| && b[i] == '\r' && b[i + 1] == '\n'
  }

  /** The first CRLF at or after a position. */
  function FindCrlf(b: string, pos: nat): (r: Option<nat>)
    ensures r.Some? ==> pos <= r.value && CrlfAt(b, r.value)
    ensures r.Some? ==> forall i: nat | pos <= i < r.value :: !CrlfAt(b, i)
    ensures r.None? ==> forall i: nat | pos <= i :: !CrlfAt(b, i)
    decreases |b| - pos
  {
    if pos + 1 >= |b| then None
    else if CrlfAt(b, pos) then Some(pos)
    else FindCrlf(b, pos + 1)
  }

  // --- Values ---------------------------------------------------------------------------------

  predicate IsPrefix(c: char) {
    c == '+' || c == '-' || c == ':' || c == '$' || c == '*'
  }

  function ParseInteger(line: string, after: nat): Parsed {
    match ParseI64Exact(line)
    case None => Bad(InvalidInteger)
    case Some(n) => Done(Integer(n), after)
  }

  /** The body of a bulk string whose length line ends just before `after`. */
  function ParseBulk(o: Options, b: string, line: string, after: nat): (r: Parsed)
    requires after <= |b|
    ensures r.Done? ==> after <= r.end <= |b|
  {
    match ParseI64Exact(line)
    case None => Bad(InvalidBulkLength)
    case Some(n) =>
      if n < -1 then Bad(InvalidBulkLength)
      else if n == -1 then Done(NullBulk, after)
      else if n > o.maxBulk then Bad(BulkTooLarge)
      else if after + n > o.maxRequest then Bad(BulkBeyondRequest)
      else if |b| < after + n + 2 then NeedMore
      else if !CrlfAt(b, after + n) then Bad(MalformedBulk)
      else Done(Bulk(b[after..after + n]), after + n + 2)
  }

  function Rank(depth: nat): nat {
    if depth > MAX_DEPTH then 0 else MAX_DEPTH + 1 - depth
  }

  /** One RESP value starting at `pos`. */
  function ParseAt(o: Options, b: string, pos: nat, depth: nat): (r: Parsed)
    ensures r.Done? ==> pos + 3 <= r.end <= |b|
    decreases Rank(depth), 0
  {
    if depth > MAX_DEPTH then Bad(NestingDepthExceeded)
    else if pos >= |b| then NeedMore
    else
      match FindCrlf(b, pos + 1)
      case None => NeedMore
      case Some(crlf) => ParseLine(o, b, b[pos], b[pos + 1..crlf], crlf + 2, depth)
  }

  /** The value introduced by a type byte and a line ending just before `after`. */
  function ParseLine(o: Options, b: string, prefix: char, line: string, after: nat, depth: nat): (r: Parsed)
    requires after <= |b| && depth <= MAX_DEPTH
    ensures r.Done? ==> after <= r.end <= |b|
    decreases Rank(depth + 1), I64_MAX + 3
  {
    match prefix
    case '+' => Done(Simple(line), after)
    case '-' => Done(Failure(line), after)
    case ':' => ParseInteger(line, after)
    case '$' => ParseBulk(o, b, line, after)
    case '*' => ParseArray(o, b, line, after, depth)
    case _ => Bad(UnknownType)
  }

  /** The elements of an array whose length line ends just before `after`. */
  function ParseArray(o: Options, b: string, line: string, after: nat, depth: nat): (r: Parsed)
    requires after <= |b| && depth <= MAX_DEPTH
    ensures r.Done? ==> after <= r.end <= |b|
    decreases Rank(depth + 1), I64_MAX + 2
  {
    match ParseI64Exact(line)
    case None => Bad(InvalidArrayLength)
    case Some(n) =>
      if n < -1 then Bad(InvalidArrayLength)
      else if n == -1 then Done(NullArray, after)
      else if n > o.maxElements then Bad(TooManyElements)
      else ParseItems(o, b, after, n, depth + 1)
  }

  /** The next `count` values from `cursor` on, as one array. */
  function ParseItems(o: Options, b: string, cursor: nat, count: nat, depth: nat): (r: Parsed)
    requires cursor <= |b|
    ensures r.Done? ==> r.value.Array? && |r.value.items| == count && cursor <= r.end <= |b|
    decreases Rank(depth), count + 1
  {
    if count == 0 then Done(Array([]), cursor)
    else
      var first := ParseAt(o, b, cursor, depth);
      if !first.Done? then first
      else
        var rest := ParseItems(o, b, first.end, count - 1, depth);
        if !rest.Done? then rest
        else Done(Array([first.value] + rest.value.items), rest.end)
  }

  /** A line that does not start like RESP is a command of white-space separated words. */
  function ParseInline(o: Options, b: string): (r: Parsed)
    ensures r.Done? ==> 2 <= r.end <= |b|
  {
    match FindCrlf(b, 0)
    case None => NeedMore
    case Some(crlf) =>
      var words := Words(b[..crlf], 0);
      if exists w | w in words :: |w| > o.maxBulk then Bad(InlineArgumentTooLarge)
      else Done(Array(seq(|words|, i requires 0 <= i < |words| => Bulk(words[i]))), crlf + 2)
  }

  /** What next_value finds at the front of the buffer. */
  function NextValue(o: Options, b: string): (r: Parsed)
    ensures r.Done? ==> 2 <= r.end <= |b|
  {
    if b == "" then NeedMore
    else if IsPrefix(b[0]) then ParseAt(o, b, 0, 0)
    else ParseInline(o, b)
  }

  // --- Commands -------------------------------------------------------------------------------

  function ArgOf(item: Value): Result<string, ParseError> {
    match item
    case Bulk(text) => Ok(text)
    case Simple(text) => Ok(text)
    case Failure(text) => Ok(text)
    case Integer(n) => Ok(IntText(n))
    case Array(_) => Err(NestedArgument)
    case NullBulk => Err(NullArgument)
    case NullArray => Err(NullArgument)
  }

  function ArgsOf(items: seq<Value>): (r: Result<seq<string>, ParseError>)
    ensures r.Ok? ==> |r.value| == |items|
  {
    if items == [] then Ok([])
    else
      match ArgOf(items[0])
      case Err(e) => Err(e)
      case Ok(arg) =>
        match ArgsOf(items[1..])
        case Err(e) => Err(e)
        case Ok(rest) => Ok([arg] + rest)
  }

  /** The command a parsed value denotes, if it is one. */
  function CommandOf(v: Value): Result<seq<string>, ParseError> {
    if v.Array? then ArgsOf(v.items) else Err(NotACommand)
  }

  datatype CommandStep = Command(args: seq<string>) | Starved | Refused(error: ParseError)

  /** What next_command returns, and the buffer it leaves: a value that is no command is consumed. */
  function NextCommand(o: Options, b: string): (r: (CommandStep, string))
    ensures r.0.Command? ==> |r.1| < |b|
  {
    match NextValue(o, b)
    case NeedMore => (Starved, b)
    case Bad(e) => (Refused(e), b)
    case Done(v, end) =>
      match CommandOf(v)
      case Err(e) => (Refused(e), b[end..])
      case Ok(args) => (Command(args), b[end..])
  }

  // --- Encoder --------------------------------------------------------------------------------

  function Fragment(arg: string): string {
    "$" + NatText(|arg|) + "\r\n" + arg + "\r\n"
  }

  function Fragments(args: seq<string>): string {
    if args == [] then "" else Fragment(args[0]) + Fragments(args[1..])
  }

  function ArrayHeader(count: nat): string {
    "*" + NatText(count) + "\r\n"
  }

  /** encode_command: an array of bulk strings. */
  function Encode(args: seq<string>): string {
    ArrayHeader(|args|) + Fragments(args)
  }

  function EncodeAll(commands: seq<seq<string>>): string {
    if commands == [] then "" else Encode(commands[0]) + EncodeAll(commands[1..])
  }

  /** What a log gains by a record. */
  function EncodedRecord(record: Option<seq<string>>): string {
    if record.Some? then Encode(record.value) else ""
  }

  /** The loop of encode_command. */
  method EncodeCommand(args: seq<string>) returns (out: string)
    ensures out == Encode(args)
  {
    out := ArrayHeader(|args|);
    for i := 0 to |args|
      invariant out + Fragments(args[i..]) == Encode(args)
    {
      assert args[i..][1..] == args[i + 1..];
      assert out + (Fragment(args[i]) + Fragments(args[i + 1..])) == out + Fragment(args[i]) + Fragments(args[i + 1..]);
      out := out + Fragment(args[i]);
    }
    assert args[|args|..] == [];
    assert out + "" == out;
  }
}
