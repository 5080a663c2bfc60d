/** Reading a byte stream with the parser object: append a chunk, drain, repeat. */
module Stream {
  import opened Wrappers
  import opened Resp
  import opened RespTheorems
  import P = Parser

  /** Call next_value until it wants more bytes or fails. */
  method DrainParser(parser: P.Parser) returns (values: seq<Value>, error: Option<ParseError>)
    requires parser.Valid()
    modifies parser
    ensures parser.Valid() && |parser.buffer| <= |old(parser.buffer)|
    ensures Drain(Reader(parser.options), old(parser.buffer)) == Reading(values, parser.buffer, error)
  {
    hide Resp.NextValue;
    ghost var next := Reader(parser.options);
    values := [];
    NoValuesYet(Drain(next, parser.buffer));
    while true
      invariant parser.Valid() && |parser.buffer| <= |old(parser.buffer)|
      invariant Drain(next, old(parser.buffer)) == Continue(values, Drain(next, parser.buffer))
      decreases |parser.buffer|
    {
      ghost var buffer := parser.buffer;
      assert next(buffer) == Resp.NextValue(parser.options, buffer);
      var r := parser.NextValue();
      match r
      case NeedMore =>
        assert values + [] == values;
        return values, None;
      case Bad(e) =>
        assert values + [] == values;
        return values, Some(e);
      case Done(v, end) =>
        ContinueTwice(values, [v], Drain(next, parser.buffer));
        values := values + [v];
    }
  }

  lemma NoValuesYet(r: Reading)
    ensures Continue([], r) == r
  {
    assert [] + r.values == r.values;
  }

  /** However the bytes arrive: the values, the first error and the bytes left over are those of Feed,
      so by chunk independence they depend only on the bytes. A refused append stops the reading. */
  method ReadChunks(parser: P.Parser, chunks: seq<string>)
    returns (ok: bool, values: seq<Value>, error: Option<ParseError>)
    requires parser.Valid() && parser.buffer == ""
    modifies parser
    ensures parser.Valid()
    ensures Feed(Reader(parser.options), parser.options.maxRequest, START, chunks) ==
            if ok then Some(Reading(values, parser.buffer, error)) else None
  {
    hide Drain, Resp.NextValue;
    ghost var next, limit := Reader(parser.options), parser.options.maxRequest;
    values, error := [], None;
    assert chunks[0..] == chunks;
    for i := 0 to |chunks|
      invariant parser.Valid()
      invariant Feed(next, limit, START, chunks) == Feed(next, limit, Reading(values, parser.buffer, error), chunks[i..])
    {
      assert chunks[i..][0] == chunks[i] && chunks[i..][1..] == chunks[i + 1..];
      var accepted := parser.Append(chunks[i]);
      if !accepted {
        return false, values, error;
      }
      var more;
      more, error := DrainParser(parser);
      values := values + more;
    }
    ok := true;
  }

  /** Two parsers fed the same bytes in different chunks, none refused, end alike. */
  method ReadTwice(o: Options, chunks: seq<string>, chunks': seq<string>) returns (a: Option<Reading>, b: Option<Reading>)
    requires Joined(chunks) == Joined(chunks')
    ensures a.Some? && b.Some? ==> a == b
  {
    hide Feed;
    var p := new P.Parser(o);
    var p' := new P.Parser(o);
    var ok, values, error := ReadChunks(p, chunks);
    a := if ok then Some(Reading(values, p.buffer, error)) else None;
    ok, values, error := ReadChunks(p', chunks');
    b := if ok then Some(Reading(values, p'.buffer, error)) else None;
    if a.Some? && b.Some? {
      ChunkIndependence(o, chunks, chunks');
    }
  }
}
