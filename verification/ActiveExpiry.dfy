/** Sampled active expiry of one shard: each call looks at a cyclic window of rows from a cursor, and
    the cursor then moves on without regard to the rows erased. */
module ActiveExpiry {
  import opened Store
  import opened Shards

  /** The rows still live at a time. */
  function Kept(rows: seq<Row>, now: int): seq<Row> {
    if rows == [] then []
    else if Expired(rows[0].entry, now) then Kept(rows[1..], now)
    else [rows[0]] + Kept(rows[1..], now)
  }

  /** The rows left when the window of `target` rows from `c` on, wrapping at the end, is cleaned. */
  function Pass(rows: seq<Row>, c: nat, target: nat, now: int): seq<Row>
    requires c <= |rows| && target <= |rows|
  {
    var end := c + target;
    if end <= |rows| then rows[..c] + Kept(rows[c..end], now) + rows[end..]
    else Kept(rows[..end - |rows|], now) + rows[end - |rows|..c] + Kept(rows[c..], now)
  }

  datatype Sampling = Sampling(rows: seq<Row>, cursor: nat)

  function Min(a: nat, b: nat): nat {
    if a <= b then a else b
  }

  /** One call of active_expire on a shard. */
  function Sample(s: Sampling, size: nat, now: int): Sampling {
    if s.rows == [] then Sampling([], 0)
    else
      var c, target := s.cursor % |s.rows|, Min(size, |s.rows|);
      var rows := Pass(s.rows, c, target, now);
      Sampling(rows, if rows == [] then 0 else (c + target) % |rows|)
  }

  /** Calls at successive clock readings, with no writes in between. */
  function Samples(s: Sampling, size: nat, times: seq<int>): Sampling
    decreases |times|
  {
    if times == [] then s else Samples(Sample(s, size, times[0]), size, times[1..])
  }

  // --- The sampling loop, step by step ---------------------------------------------------------

  lemma {:induction false} KeptSplit(a: seq<Row>, b: seq<Row>, now: int)
    ensures Kept(a + b, now) == Kept(a, now) + Kept(b, now)
    decreases |a|
  {
    if a == [] {
      assert a + b == b;
    } else {
      assert (a + b)[1..] == a[1..] + b;
      KeptSplit(a[1..], b, now);
    }
  }

  lemma KeptNext(rows: seq<Row>, a: nat, b: nat, now: int)
    requires a <= b < |rows|
    ensures Kept(rows[a..b + 1], now) == Kept(rows[a..b], now) + if Expired(rows[b].entry, now) then [] else [rows[b]]
  {
    assert rows[a..b + 1] == rows[a..b] + [rows[b]];
    KeptSplit(rows[a..b], [rows[b]], now);
    assert [rows[b]][1..] == [];
  }

  /** Where the iterator stands after `j` rows have been visited. */
  function Position(rows: seq<Row>, c: nat, j: nat, now: int): nat
    requires c < |rows| && j <= |rows|
  {
    if c + j < |rows| then c + |Kept(rows[c..c + j], now)| else |Kept(rows[0..c + j - |rows|], now)|
  }

  lemma PassNextHigh(rows: seq<Row>, c: nat, j: nat, now: int)
    requires c < |rows| && c + j < |rows|
    ensures var p, at := Pass(rows, c, j, now), Position(rows, c, j, now);
            && at < |p| && p[at] == rows[c + j]
            && Pass(rows, c, j + 1, now) == (if Expired(rows[c + j].entry, now) then EraseAt(p, at) else p)
  {
    hide Kept, EraseAt, Pass;
    var r, kept := rows[c + j], Kept(rows[c..c + j], now);
    PassStraight(rows, c, j, now);
    PassStraight(rows, c, j + 1, now);
    var before, after := rows[..c] + kept, rows[c + j + 1..];
    KeptNext(rows, c, c + j, now);
    EraseMiddle(before, r, after);
    assert rows[c + j..] == [r] + after;
    assert before + ([r] + after) == before + [r] + after;
    assert rows[..c] + (kept + []) + after == before + after;
    assert rows[..c] + (kept + [r]) + after == before + [r] + after;
  }

  lemma PassStraight(rows: seq<Row>, c: nat, j: nat, now: int)
    requires c + j <= |rows|
    ensures Pass(rows, c, j, now) == rows[..c] + Kept(rows[c..c + j], now) + rows[c + j..]
  {
  }

  lemma EraseMiddle(a: seq<Row>, r: Row, b: seq<Row>)
    ensures (a + [r] + b)[|a|] == r && EraseAt(a + [r] + b, |a|) == a + b
  {
  }

  lemma PassNextLow(rows: seq<Row>, c: nat, j: nat, now: int)
    requires c < |rows| <= c + j && j < |rows|
    ensures var p, at := Pass(rows, c, j, now), Position(rows, c, j, now);
            var w := c + j - |rows|;
            && at < |p| && p[at] == rows[w]
            && Pass(rows, c, j + 1, now) == (if Expired(rows[w].entry, now) then EraseAt(p, at) else p)
  {
    hide Kept, EraseAt, Pass;
    var w := c + j - |rows|;
    var r, kept, tail := rows[w], Kept(rows[..w], now), Kept(rows[c..], now);
    var after := rows[w + 1..c] + tail;
    KeptNext(rows, 0, w, now);
    assert rows[0..w] == rows[..w] && rows[0..w + 1] == rows[..w + 1];
    PassWrapped(rows, c, j, now);
    PassWrapped(rows, c, j + 1, now);
    EraseMiddle(kept, r, after);
    assert rows[w..c] == [r] + rows[w + 1..c];
    assert kept + ([r] + rows[w + 1..c]) + tail == kept + [r] + after;
    assert kept + [] + rows[w + 1..c] + tail == kept + after;
    assert kept + [r] + rows[w + 1..c] + tail == kept + [r] + after;
  }

  /** Both readings of the window agree when it ends exactly at the last row. */
  lemma PassWrapped(rows: seq<Row>, c: nat, j: nat, now: int)
    requires c < |rows| <= c + j && j <= |rows|
    ensures var w := c + j - |rows|;
            Pass(rows, c, j, now) == Kept(rows[..w], now) + rows[w..c] + Kept(rows[c..], now)
  {
    if c + j == |rows| {
      assert rows[c..|rows|] == rows[c..];
      assert Kept(rows[..0], now) == [] && rows[|rows|..] == [];
    }
  }

  function IndexOf(c: nat, j: nat, n: nat): nat
    requires c < n && j < n
  {
    if c + j < n then c + j else c + j - n
  }

  function WrapAt(x: nat, n: nat): nat {
    if x == n then 0 else x
  }

  /** Visiting one more row erases it exactly if it has expired, and the iterator then stands at the
      next row, going round at the end. */
  lemma PassNext(rows: seq<Row>, c: nat, j: nat, now: int)
    requires c < |rows| && j < |rows|
    ensures var p, at, p' := Pass(rows, c, j, now), Position(rows, c, j, now), Pass(rows, c, j + 1, now);
            var r := rows[IndexOf(c, j, |rows|)];
            && at < |p| && p[at] == r
            && p' == (if Expired(r.entry, now) then EraseAt(p, at) else p)
            && (j + 1 < |rows| ==> Position(rows, c, j + 1, now) == WrapAt(if Expired(r.entry, now) then at else at + 1, |p'|))
  {
    hide Kept;
    if c + j < |rows| {
      PassNextHigh(rows, c, j, now);
      KeptNext(rows, c, c + j, now);
      if c + j + 1 == |rows| {
        assert Kept(rows[0..0], now) == [] by { KeptSplit(rows[0..0], rows[0..0], now); assert rows[0..0] + rows[0..0] == rows[0..0]; }
      } else {
        PassNextHigh(rows, c, j + 1, now);
      }
    } else {
      PassNextLow(rows, c, j, now);
      KeptNext(rows, 0, c + j - |rows|, now);
      if j + 1 < |rows| {
        PassNextLow(rows, c, j + 1, now);
      }
    }
  }

  // --- What one call erases -------------------------------------------------------------------

  lemma {:induction false} KeptMember(rows: seq<Row>, now: int, r: Row)
    ensures r in Kept(rows, now) <==> r in rows && !Expired(r.entry, now)
  {
    if rows != [] {
      KeptMember(rows[1..], now, r);
      assert rows == [rows[0]] + rows[1..];
    }
  }

  lemma {:induction false} KeptLength(rows: seq<Row>, now: int)
    ensures |Kept(rows, now)| <= |rows|
    ensures |Kept(rows, now)| == |rows| ==> Kept(rows, now) == rows && forall r | r in rows :: !Expired(r.entry, now)
  {
    if rows != [] {
      KeptLength(rows[1..], now);
      assert rows == [rows[0]] + rows[1..];
    }
  }

  /** The i-th row is among the `target` rows visited from `c` on. */
  predicate Visited(i: nat, c: nat, target: nat, n: nat) {
    (c <= i < c + target) || i + n < c + target
  }

  /** A call erases exactly the expired rows among those it visits. */
  lemma PassExact(rows: seq<Row>, c: nat, target: nat, now: int, i: nat)
    requires Distinct(rows) && i < |rows| && c < |rows| && target <= |rows|
    ensures rows[i] in Pass(rows, c, target, now) <==> !(Visited(i, c, target, |rows|) && Expired(rows[i].entry, now))
  {
    hide Kept;
    var end := c + target;
    var r := rows[i];
    if end <= |rows| {
      KeptMember(rows[c..end], now, r);
      InSlice(rows, 0, c, i);
      InSlice(rows, c, end, i);
      InSlice(rows, end, |rows|, i);
      assert rows[0..c] == rows[..c] && rows[end..|rows|] == rows[end..];
    } else {
      var wrap := end - |rows|;
      KeptMember(rows[..wrap], now, r);
      KeptMember(rows[c..], now, r);
      InSlice(rows, 0, wrap, i);
      InSlice(rows, wrap, c, i);
      InSlice(rows, c, |rows|, i);
      assert rows[0..wrap] == rows[..wrap] && rows[c..|rows|] == rows[c..];
    }
  }

  lemma InSlice(rows: seq<Row>, a: nat, b: nat, i: nat)
    requires Distinct(rows) && a <= b <= |rows| && i < |rows|
    ensures rows[i] in rows[a..b] <==> a <= i < b
  {
    if a <= i < b {
      assert rows[a..b][i - a] == rows[i];
    }
  }

  /** The visited rows are as many as asked for, or all of them. */
  lemma VisitedCount(c: nat, target: nat, n: nat)
    requires c < n && target <= n
    ensures |set i: nat | i < n && Visited(i, c, target, n)| == target
  {
    var all := set i: nat | i < n && Visited(i, c, target, n);
    if c + target <= n {
      assert all == Range(c, c + target);
    } else {
      assert all == Range(c, n) + Range(0, c + target - n);
      assert Range(c, n) !! Range(0, c + target - n);
    }
  }

  function Range(a: nat, b: nat): (r: set<nat>)
    requires a <= b
    ensures |r| == b - a && forall i: nat :: i in r <==> a <= i < b
    decreases b - a
  {
    if a == b then {} else {a} + Range(a + 1, b)
  }

  // --- Every expired row goes -----------------------------------------------------------------

  /** A call that erases nothing found nothing expired in its window. */
  lemma PassLength(rows: seq<Row>, c: nat, target: nat, now: int)
    requires c <= |rows| && target <= |rows|
    ensures |Pass(rows, c, target, now)| <= |rows|
    ensures |Pass(rows, c, target, now)| == |rows| ==>
              && Pass(rows, c, target, now) == rows
              && forall i: nat | i < |rows| && Visited(i, c, target, |rows|) :: !Expired(rows[i].entry, now)
  {
    hide Kept;
    var end := c + target;
    if end <= |rows| {
      KeptLength(rows[c..end], now);
      assert rows == rows[..c] + rows[c..end] + rows[end..];
      assert forall i | c <= i < end :: rows[i] in rows[c..end];
    } else {
      var wrap := end - |rows|;
      KeptLength(rows[..wrap], now);
      KeptLength(rows[c..], now);
      assert rows == rows[..wrap] + rows[wrap..c] + rows[c..];
      assert forall i | 0 <= i < wrap :: rows[i] in rows[..wrap];
      assert forall i | c <= i < |rows| :: rows[i] in rows[c..];
    }
  }

  lemma {:induction false} SamplesShrink(s: Sampling, size: nat, times: seq<int>)
    ensures |Samples(s, size, times).rows| <= |s.rows|
    decreases |times|
  {
    if times != [] {
      hide Pass;
      var next := Sample(s, size, times[0]);
      if s.rows != [] {
        PassLength(s.rows, s.cursor % |s.rows|, Min(size, |s.rows|), times[0]);
      }
      SamplesShrink(next, size, times[1..]);
    }
  }

  /** How far ahead of the cursor a row is, going round. */
  function Ahead(p: nat, c: nat, n: nat): (d: nat)
    requires p < n && c < n
    ensures d < n
  {
    if p >= c then p - c else p + n - c
  }

  /** A call that erases nothing brings the cursor `size` closer to an expired row it did not reach. */
  lemma NoLuckMovesOn(s: Sampling, size: nat, now: int, p: nat)
    requires size >= 1 && p < |s.rows| && Expired(s.rows[p].entry, now)
    requires |Sample(s, size, now).rows| == |s.rows|
    ensures var next, n := Sample(s, size, now), |s.rows|;
            && next.rows == s.rows && next.cursor < n && size < n
            && Ahead(p, s.cursor % n, n) >= size
            && Ahead(p, next.cursor, n) == Ahead(p, s.cursor % n, n) - size
  {
    hide Pass;
    var n := |s.rows|;
    var c, target := s.cursor % n, Min(size, n);
    PassLength(s.rows, c, target, now);
    assert !Visited(p, c, target, n);
    assert target == size;
    Wrap(c + size, n);
  }

  lemma Wrap(a: nat, n: nat)
    requires n > 0 && a < 2 * n
    ensures a % n == if a < n then a else a - n
  {
    if a >= n {
      assert a == n + (a - n);
    }
  }

  /** Before the cursor has gone round to an expired row, some call has erased something. */
  lemma {:induction false} SomethingGoes(s: Sampling, size: nat, times: seq<int>, p: nat, calls: nat)
    requires size >= 1 && p < |s.rows| && calls <= |times|
    requires Ahead(p, s.cursor % |s.rows|, |s.rows|) < calls * size
    requires forall now | now in times :: Expired(s.rows[p].entry, now)
    ensures |Samples(s, size, times[..calls]).rows| < |s.rows|
    decreases calls
  {
    hide Sample;
    var n := |s.rows|;
    assert calls != 0;
    var next := Sample(s, size, times[0]);
    assert times[..calls][1..] == times[1..][..calls - 1];
    SamplesShrink(s, size, [times[0]]);
    assert Samples(s, size, [times[0]]) == Samples(next, size, []) == next;
    if |next.rows| == n {
      NoLuckMovesOn(s, size, times[0], p);
      assert (calls - 1) * size == calls * size - size;
      Wrap(next.cursor, n);
      SomethingGoes(next, size, times[1..], p, calls - 1);
    } else {
      SamplesShrink(next, size, times[..calls][1..]);
    }
  }

  lemma {:induction false} SamplesSplit(s: Sampling, size: nat, times: seq<int>, k: nat)
    requires k <= |times|
    ensures Samples(s, size, times) == Samples(Samples(s, size, times[..k]), size, times[k..])
    decreases k
  {
    if k == 0 {
      assert times[0..] == times;
    } else {
      hide Sample;
      SamplesSplit(Sample(s, size, times[0]), size, times[1..], k - 1);
      assert times[..k][1..] == times[1..][..k - 1];
      assert times[1..][k - 1..] == times[k..];
    }
  }

  /** No row that was expired at `start` is left. */
  predicate Clean(rows: seq<Row>, start: int) {
    forall r | r in rows :: !Expired(r.entry, start)
  }

  lemma PassMembers(rows: seq<Row>, c: nat, target: nat, now: int, r: Row)
    requires c <= |rows| && target <= |rows| && r in Pass(rows, c, target, now)
    ensures r in rows
  {
    hide Kept;
    var end := c + target;
    if end <= |rows| {
      KeptMember(rows[c..end], now, r);
    } else {
      KeptMember(rows[..end - |rows|], now, r);
      KeptMember(rows[c..], now, r);
    }
  }

  lemma {:induction false} StaysClean(s: Sampling, size: nat, times: seq<int>, start: int)
    requires Clean(s.rows, start)
    ensures Clean(Samples(s, size, times).rows, start)
    decreases |times|
  {
    if times != [] {
      hide Pass;
      if s.rows != [] {
        forall r | r in Sample(s, size, times[0]).rows
          ensures !Expired(r.entry, start)
        {
          PassMembers(s.rows, s.cursor % |s.rows|, Min(size, |s.rows|), times[0], r);
        }
      }
      StaysClean(Sample(s, size, times[0]), size, times[1..], start);
    }
  }

  /** Active expiry leaves a clean shard: with no writes, n rows and samples of `size`, every row
      already expired at the start is gone after n times as many calls as one round takes, although
      the cursor skips rows after erasures. */
  lemma {:induction false} ActiveExpiryCleans(s: Sampling, size: nat, round: nat, times: seq<int>, start: int)
    requires size >= 1 && |s.rows| <= round * size && |s.rows| * round <= |times|
    requires forall now | now in times :: start <= now
    ensures Clean(Samples(s, size, times).rows, start)
    decreases |s.rows|
  {
    if Clean(s.rows, start) {
      StaysClean(s, size, times, start);
    } else {
      hide Samples;
      var n := |s.rows|;
      var p :| 0 <= p < n && Expired(s.rows[p].entry, start);
      RoundsLeft(n, n - 1, round, |times|);
      SomethingGoes(s, size, times, p, round);
      var next := Samples(s, size, times[..round]);
      SamplesSplit(s, size, times, round);
      RoundsLeft(n, |next.rows|, round, |times|);
      var rest := times[round..];
      assert |rest| == |times| - round && forall now | now in rest :: now in times;
      ActiveExpiryCleans(next, size, round, rest, start);
    }
  }

  lemma RoundsLeft(n: nat, m: nat, round: nat, calls: nat)
    requires m < n && n * round <= calls
    ensures round <= calls && m * round <= calls - round
  {
    var more := n - 1 - m;
    assert n * round == (m + 1 + more) * round == m * round + round + more * round;
    assert more * round >= 0 && m * round >= 0;
  }

  /** The number of calls one round takes: the ceiling of n / size. */
  function Round(n: nat, size: nat): (q: nat)
    requires size >= 1
    ensures n <= q * size && (q > 0 ==> (q - 1) * size < n)
  {
    (n + size - 1) / size
  }

  /** The bound in the terms of one shard: n * ceil(n / size) calls. */
  lemma CleansWithinBound(s: Sampling, size: nat, times: seq<int>, start: int)
    requires size >= 1 && |s.rows| * Round(|s.rows|, size) <= |times|
    requires forall now | now in times :: start <= now
    ensures Clean(Samples(s, size, times).rows, start)
  {
    ActiveExpiryCleans(s, size, Round(|s.rows|, size), times, start);
  }
}
