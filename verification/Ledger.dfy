/** The memory counter under concurrency. Any number of threads take shard locks, change rows, and
    update one shared counter by compare-and-swap loops; every load, swap and row change is a step of
    its own, and steps of different threads interleave freely. */
module Ledger {
  import opened Wrappers
  import opened Shards

  /** A shard: its rows, its own byte count, the thread holding its lock, and the bytes a holder has
      already given back to the counter for a row it is about to erase. */
  datatype LockedShard = LockedShard(rows: seq<Row>, memory: int, holder: Option<nat>, owed: nat)

  /** A row change decided under the lock. */
  datatype Change = Replace(p: nat, row: Row) | Insert(p: nat, row: Row)

  predicate Fits(rows: seq<Row>, ch: Change) {
    match ch
    case Replace(p, _) => p < |rows|
    case Insert(p, _) => p <= |rows|
  }

  function Changed(rows: seq<Row>, ch: Change): seq<Row>
    requires Fits(rows, ch)
  {
    match ch
    case Replace(p, row) => rows[p := row]
    case Insert(p, row) => InsertAt(rows, p, row)
  }

  function OldMemory(rows: seq<Row>, ch: Change): nat
    requires Fits(rows, ch)
  {
    match ch
    case Replace(p, _) => RowMemory(rows[p])
    case Insert(_, _) => 0
  }

  /** Where a thread is. `seen` is the counter value its swap loop last loaded. */
  datatype Phase =
    | Idle
    | Holding(shard: nat)
    | Reserving(shard: nat, change: Change, bytes: nat, seen: nat)
    | Reserved(shard: nat, change: Change, bytes: nat)
    | Shrunk(shard: nat, bytes: nat)
    | ReleasingShrunk(shard: nat, bytes: nat, seen: nat)
    | ReleasingRow(shard: nat, p: nat, bytes: nat, seen: nat)
    | RowReleased(shard: nat, p: nat, bytes: nat)
    | Flushing(upto: nat, cleared: int)
    | ReleasingFlushed(bytes: nat, seen: nat)

  datatype State = State(limit: nat, used: nat, shards: seq<LockedShard>, phases: seq<Phase>)

  datatype Step =
    | Lock(t: nat, shard: nat)
    | Unlock(t: nat)
    | LoadForReserve(t: nat, change: Change)
    | SwapReserve(t: nat, spurious: bool)
    | ApplyReserved(t: nat)
    | AbandonReserved(t: nat)
    | ApplyUnreserved(t: nat, change: Change)
    | LoadForShrunk(t: nat)
    | SwapShrunk(t: nat, spurious: bool)
    | LoadForErase(t: nat, p: nat)
    | SwapErase(t: nat, spurious: bool)
    | EraseRow(t: nat)
    | BeginFlush(t: nat)
    | FlushShard(t: nat)
    | LoadForFlush(t: nat)
    | SwapFlush(t: nat, spurious: bool)

  function Grows(rows: seq<Row>, ch: Change): bool
    requires Fits(rows, ch)
  {
    RowMemory(ch.row) > OldMemory(rows, ch)
  }

  /** The steps a thread can take. */
  predicate Enabled(s: State, step: Step) {
    step.t < |s.phases| &&
    var ph := s.phases[step.t];
    match step
    case Lock(_, i) => ph.Idle? && i < |s.shards| && s.shards[i].holder.None?
    case Unlock(_) => ph.Holding? && ph.shard < |s.shards|
    case LoadForReserve(_, ch) =>
      s.limit != 0 && ph.Holding? && ph.shard < |s.shards| && Fits(s.shards[ph.shard].rows, ch) && Grows(s.shards[ph.shard].rows, ch)
    case SwapReserve(_, spurious) => ph.Reserving?
    case ApplyReserved(_) => ph.Reserved? && ph.shard < |s.shards| && Fits(s.shards[ph.shard].rows, ph.change)
    case AbandonReserved(_) => ph.Reserved?
    case ApplyUnreserved(_, ch) =>
      && ph.Holding? && ph.shard < |s.shards| && Fits(s.shards[ph.shard].rows, ch)
      && (s.limit == 0 || !Grows(s.shards[ph.shard].rows, ch))
    case LoadForShrunk(_) => ph.Shrunk?
    case SwapShrunk(_, spurious) => ph.ReleasingShrunk?
    case LoadForErase(_, p) => ph.Holding? && ph.shard < |s.shards| && p < |s.shards[ph.shard].rows|
    case SwapErase(_, spurious) => ph.ReleasingRow? && ph.shard < |s.shards|
    case EraseRow(_) =>
      ph.RowReleased? && ph.shard < |s.shards| && ph.p < |s.shards[ph.shard].rows|
    case BeginFlush(_) => ph.Idle?
    case FlushShard(_) => ph.Flushing? && ph.upto < |s.shards| && s.shards[ph.upto].holder.None?
    case LoadForFlush(_) => ph.Flushing? && ph.upto == |s.shards| && ph.cleared >= 0
    case SwapFlush(_, spurious) => ph.ReleasingFlushed?
  }

  function To(s: State, t: nat, ph: Phase): State
    requires t < |s.phases|
  {
    s.(phases := s.phases[t := ph])
  }

  function WithShard(s: State, i: nat, sh: LockedShard): State
    requires i < |s.shards|
  {
    s.(shards := s.shards[i := sh])
  }

  /** One turn of the loop in release_memory: None when the swap lost, or failed spuriously, and
      must retry; otherwise the counter afterwards, clamped at zero. A counter seen at zero is left alone. */
  function Released(used: nat, seen: nat, bytes: nat, spurious: bool): Option<nat> {
    if seen == 0 then Some(used)
    else if used == seen && !spurious then Some(if bytes > seen then 0 else seen - bytes)
    else None
  }

  /** The effect of a step. */
  function Do(s: State, step: Step): State
    requires Enabled(s, step)
  {
    var t := step.t;
    var ph := s.phases[t];
    match step
    case Lock(_, i) => To(WithShard(s, i, s.shards[i].(holder := Some(t))), t, Holding(i))
    case Unlock(_) => To(WithShard(s, ph.shard, s.shards[ph.shard].(holder := None)), t, Idle)
    case LoadForReserve(_, ch) =>
      var rows := s.shards[ph.shard].rows;
      To(s, t, Reserving(ph.shard, ch, RowMemory(ch.row) - OldMemory(rows, ch), s.used))
    case SwapReserve(_, spurious) =>
      if ph.seen > s.limit || ph.bytes > s.limit - ph.seen then To(s, t, Holding(ph.shard))
      else if s.used == ph.seen && !spurious then To(s.(used := ph.seen + ph.bytes), t, Reserved(ph.shard, ph.change, ph.bytes))
      else To(s, t, Reserving(ph.shard, ph.change, ph.bytes, s.used))
    case ApplyReserved(_) =>
      var sh := s.shards[ph.shard];
      To(WithShard(s, ph.shard, sh.(rows := Changed(sh.rows, ph.change), memory := sh.memory + ph.bytes)), t, Holding(ph.shard))
    case AbandonReserved(_) => To(s, t, Shrunk(ph.shard, ph.bytes))
    case ApplyUnreserved(_, ch) =>
      var sh := s.shards[ph.shard];
      var before := OldMemory(sh.rows, ch);
      var after := RowMemory(ch.row);
      var s' := WithShard(s, ph.shard, sh.(rows := Changed(sh.rows, ch), memory := sh.memory - before + after));
      To(s', t, if before > after then Shrunk(ph.shard, before - after) else Holding(ph.shard))
    case LoadForShrunk(_) => To(s, t, ReleasingShrunk(ph.shard, ph.bytes, s.used))
    case SwapShrunk(_, spurious) =>
      (match Released(s.used, ph.seen, ph.bytes, spurious)
       case None => To(s, t, ReleasingShrunk(ph.shard, ph.bytes, s.used))
       case Some(used) => To(s.(used := used), t, Holding(ph.shard)))
    case LoadForErase(_, p) =>
      To(s, t, ReleasingRow(ph.shard, p, RowMemory(s.shards[ph.shard].rows[p]), s.used))
    case SwapErase(_, spurious) =>
      (match Released(s.used, ph.seen, ph.bytes, spurious)
       case None => To(s, t, ReleasingRow(ph.shard, ph.p, ph.bytes, s.used))
       case Some(used) =>
         var owing := s.shards[ph.shard].(owed := ph.bytes);
         To(WithShard(s.(used := used), ph.shard, owing), t, RowReleased(ph.shard, ph.p, ph.bytes)))
    case EraseRow(_) =>
      var sh := s.shards[ph.shard];
      var erased := sh.(rows := EraseAt(sh.rows, ph.p), memory := sh.memory - ph.bytes, owed := 0);
      To(WithShard(s, ph.shard, erased), t, Holding(ph.shard))
    case BeginFlush(_) => To(s, t, Flushing(0, 0))
    case FlushShard(_) =>
      var sh := s.shards[ph.upto];
      To(WithShard(s, ph.upto, sh.(rows := [], memory := 0)), t, Flushing(ph.upto + 1, ph.cleared + sh.memory))
    case LoadForFlush(_) => To(s, t, if ph.cleared == 0 then Idle else ReleasingFlushed(ph.cleared, s.used))
    case SwapFlush(_, spurious) =>
      match Released(s.used, ph.seen, ph.bytes, spurious)
      case None => To(s, t, ReleasingFlushed(ph.bytes, s.used))
      case Some(used) => To(s.(used := used), t, Idle)
  }

  // --- The invariant --------------------------------------------------------------------------

  /** Bytes of a shard that the counter still includes. */
  function Counted(sh: LockedShard): int {
    sh.memory - sh.owed
  }

  function CountedAll(shards: seq<LockedShard>): int {
    if shards == [] then 0 else Counted(shards[0]) + CountedAll(shards[1..])
  }

  /** Bytes the counter includes on behalf of a thread but no shard does. */
  function Held(ph: Phase): int {
    match ph
    case Reserved(_, _, bytes) => bytes
    case Shrunk(_, bytes) => bytes
    case ReleasingShrunk(_, bytes, _) => bytes
    case Flushing(_, cleared) => cleared
    case ReleasingFlushed(bytes, _) => bytes
    case _ => 0
  }

  function HeldAll(phases: seq<Phase>): int {
    if phases == [] then 0 else Held(phases[0]) + HeldAll(phases[1..])
  }

  predicate ShardSound(sh: LockedShard) {
    sh.memory == RowsMemory(sh.rows) && sh.owed <= sh.memory
  }

  function ShardOf(ph: Phase): Option<nat> {
    if ph.Idle? || ph.Flushing? || ph.ReleasingFlushed? then None else Some(ph.shard)
  }

  /** A thread inside a shard holds its lock, what it decided there still fits, and a release loop has
      only ever seen counter values large enough for what it gives back. */
  predicate ThreadSound(s: State, t: nat)
    requires t < |s.phases|
  {
    var ph := s.phases[t];
    && (ShardOf(ph).Some? ==> ph.shard < |s.shards| && s.shards[ph.shard].holder == Some(t))
    && match ph
       case Holding(i) => s.shards[i].owed == 0
       case Reserving(i, ch, bytes, _) => s.shards[i].owed == 0 && ChangeSound(s.shards[i], ch, bytes)
       case Reserved(i, ch, bytes) => s.shards[i].owed == 0 && ChangeSound(s.shards[i], ch, bytes)
       case Shrunk(i, _) => s.shards[i].owed == 0
       case ReleasingShrunk(i, bytes, seen) => s.shards[i].owed == 0 && (s.limit != 0 ==> bytes <= seen)
       case ReleasingRow(i, p, bytes, seen) =>
         && s.shards[i].owed == 0 && p < |s.shards[i].rows| && bytes == RowMemory(s.shards[i].rows[p])
         && (s.limit != 0 ==> bytes <= seen)
       case RowReleased(i, p, bytes) =>
         s.shards[i].owed == bytes && p < |s.shards[i].rows| && bytes == RowMemory(s.shards[i].rows[p])
       case Flushing(upto, cleared) => upto <= |s.shards| && cleared >= 0
       case ReleasingFlushed(bytes, seen) => s.limit != 0 ==> bytes <= seen
       case _ => true
  }

  predicate ChangeSound(sh: LockedShard, ch: Change, bytes: nat) {
    Fits(sh.rows, ch) && Grows(sh.rows, ch) && bytes == RowMemory(ch.row) - OldMemory(sh.rows, ch)
  }

  /** A free shard owes nothing. */
  predicate FreeSound(sh: LockedShard) {
    sh.holder.None? ==> sh.owed == 0
  }

  /** A lock is held by a thread that is inside that shard. */
  predicate HolderSound(s: State, i: nat)
    requires i < |s.shards|
  {
    var h := s.shards[i].holder;
    h.Some? ==> h.value < |s.phases| && ShardOf(s.phases[h.value]) == Some(i)
  }

  predicate Balanced(s: State) {
    if s.limit == 0 then s.used == 0
    else s.used == CountedAll(s.shards) + HeldAll(s.phases) && s.used <= s.limit
  }

  predicate Inv(s: State) {
    && (forall i | 0 <= i < |s.shards| :: ShardSound(s.shards[i]) && FreeSound(s.shards[i]))
    && (forall i | 0 <= i < |s.shards| :: HolderSound(s, i))
    && (forall t | 0 <= t < |s.phases| :: ThreadSound(s, t))
    && Balanced(s)
  }

  // --- Sums -----------------------------------------------------------------------------------

  lemma {:induction false} CountedUpdate(shards: seq<LockedShard>, i: nat, sh: LockedShard)
    requires i < |shards|
    ensures CountedAll(shards[i := sh]) == CountedAll(shards) - Counted(shards[i]) + Counted(sh)
  {
    if i == 0 {
      assert shards[i := sh][1..] == shards[1..];
    } else {
      assert shards[i := sh][1..] == shards[1..][i - 1 := sh];
      CountedUpdate(shards[1..], i - 1, sh);
    }
  }

  lemma {:induction false} HeldUpdate(phases: seq<Phase>, t: nat, ph: Phase)
    requires t < |phases|
    ensures HeldAll(phases[t := ph]) == HeldAll(phases) - Held(phases[t]) + Held(ph)
  {
    if t == 0 {
      assert phases[t := ph][1..] == phases[1..];
    } else {
      assert phases[t := ph][1..] == phases[1..][t - 1 := ph];
      HeldUpdate(phases[1..], t - 1, ph);
    }
  }

  lemma {:induction false} CountedBound(shards: seq<LockedShard>, i: nat)
    requires forall j | 0 <= j < |shards| :: Counted(shards[j]) >= 0
    ensures CountedAll(shards) >= 0
    ensures i < |shards| ==> Counted(shards[i]) <= CountedAll(shards)
  {
    if shards != [] {
      CountedBound(shards[1..], if i == 0 then 0 else i - 1);
    }
  }

  lemma {:induction false} HeldBound(phases: seq<Phase>, t: nat)
    requires forall j | 0 <= j < |phases| :: Held(phases[j]) >= 0
    ensures HeldAll(phases) >= 0
    ensures t < |phases| ==> Held(phases[t]) <= HeldAll(phases)
  {
    if phases != [] {
      HeldBound(phases[1..], if t == 0 then 0 else t - 1);
    }
  }

  /** The counter covers what any one thread holds together with what any one shard counts. */
  lemma Covers(s: State, t: nat, i: nat)
    requires Inv(s) && s.limit != 0 && t < |s.phases|
    ensures Held(s.phases[t]) <= s.used
    ensures i < |s.shards| ==> Counted(s.shards[i]) + Held(s.phases[t]) <= s.used
  {
    forall j | 0 <= j < |s.shards|
      ensures Counted(s.shards[j]) >= 0
    {
      assert ShardSound(s.shards[j]);
    }
    forall j | 0 <= j < |s.phases|
      ensures Held(s.phases[j]) >= 0
    {
      assert ThreadSound(s, j);
    }
    CountedBound(s.shards, i);
    HeldBound(s.phases, t);
  }

  // --- Every step keeps the invariant ---------------------------------------------------------

  /** A step that changes no shard. */
  lemma FrameThread(s: State, t: nat, used: nat, ph: Phase)
    requires Inv(s) && t < |s.phases|
    requires ThreadSound(To(s.(used := used), t, ph), t) && ShardOf(ph) == ShardOf(s.phases[t])
    requires s.limit == 0 ==> used == 0
    requires s.limit != 0 ==> used - s.used == Held(ph) - Held(s.phases[t]) && used <= s.limit
    ensures Inv(To(s.(used := used), t, ph))
  {
    var s' := To(s.(used := used), t, ph);
    forall u | 0 <= u < |s'.phases|
      ensures ThreadSound(s', u)
    {
      if u != t { assert ThreadSound(s, u); }
    }
    assert forall i | 0 <= i < |s.shards| :: HolderSound(s, i) ==> HolderSound(s', i);
    HeldUpdate(s.phases, t, ph);
  }

  /** A step that changes one shard the thread holds or that nobody holds. */
  lemma FrameShard(s: State, t: nat, used: nat, i: nat, sh: LockedShard, ph: Phase)
    requires Inv(s) && t < |s.phases| && i < |s.shards|
    requires s.shards[i].holder.None? || s.shards[i].holder == Some(t)
    requires ShardSound(sh) && FreeSound(sh)
    requires ShardOf(s.phases[t]).None? || ShardOf(s.phases[t]) == Some(i)
    requires sh.holder.None? || (sh.holder == Some(t) && ShardOf(ph) == Some(i))
    requires ThreadSound(To(WithShard(s.(used := used), i, sh), t, ph), t)
    requires s.limit == 0 ==> used == 0
    requires s.limit != 0 ==>
      used - s.used == Held(ph) - Held(s.phases[t]) + Counted(sh) - Counted(s.shards[i]) && used <= s.limit
    ensures Inv(To(WithShard(s.(used := used), i, sh), t, ph))
  {
    hide RowMemory, RowsMemory;
    var s' := To(WithShard(s.(used := used), i, sh), t, ph);
    forall u | 0 <= u < |s'.phases|
      ensures ThreadSound(s', u)
    {
      if u != t { OthersKeep(s, t, used, i, sh, ph, u); }
    }
    forall j | 0 <= j < |s'.shards|
      ensures HolderSound(s', j)
    {
      assert HolderSound(s, j);
    }
    HeldUpdate(s.phases, t, ph);
    CountedUpdate(s.shards, i, sh);
  }

  lemma OthersKeep(s: State, t: nat, used: nat, i: nat, sh: LockedShard, ph: Phase, u: nat)
    requires t < |s.phases| && i < |s.shards| && u < |s.phases| && u != t
    requires ThreadSound(s, u)
    requires s.shards[i].holder.None? || s.shards[i].holder == Some(t)
    ensures ThreadSound(To(WithShard(s.(used := used), i, sh), t, ph), u)
  {
    hide ChangeSound, RowMemory;
    var other := s.phases[u];
    assert ShardOf(other).Some? ==> other.shard != i;
  }

  lemma KeepsLocks(s: State, step: Step)
    requires Inv(s) && Enabled(s, step) && (step.Lock? || step.Unlock?)
    ensures Inv(Do(s, step))
  {
    hide RowsMemory, RowMemory;
    var t := step.t;
    assert ThreadSound(s, t);
    if step.Lock? {
      FrameShard(s, t, s.used, step.shard, s.shards[step.shard].(holder := Some(t)), Holding(step.shard));
    } else {
      var i := s.phases[t].shard;
      FrameShard(s, t, s.used, i, s.shards[i].(holder := None), Idle);
    }
  }

  lemma KeepsReserve(s: State, step: Step)
    requires Inv(s) && Enabled(s, step) && (step.LoadForReserve? || step.SwapReserve? || step.AbandonReserved?)
    ensures Inv(Do(s, step))
  {
    hide RowsMemory, RowMemory;
    assert ThreadSound(s, step.t);
    var s' := Do(s, step);
    FrameThread(s, step.t, s'.used, s'.phases[step.t]);
  }

  lemma ChangedMemory(rows: seq<Row>, ch: Change)
    requires Fits(rows, ch)
    ensures RowsMemory(Changed(rows, ch)) == RowsMemory(rows) - OldMemory(rows, ch) + RowMemory(ch.row)
  {
    match ch
    case Replace(p, row) => MemoryAt(rows, p);
    case Insert(p, row) => MemoryInsert(rows, p, row);
  }

  lemma KeepsApply(s: State, step: Step)
    requires Inv(s) && Enabled(s, step) && (step.ApplyReserved? || step.ApplyUnreserved?)
    ensures Inv(Do(s, step))
  {
    hide RowsMemory, RowMemory, Changed;
    var t := step.t;
    assert ThreadSound(s, t);
    var i := s.phases[t].shard;
    ChangedMemory(s.shards[i].rows, if step.ApplyReserved? then s.phases[t].change else step.change);
    var s' := Do(s, step);
    FrameShard(s, t, s.used, i, s'.shards[i], s'.phases[t]);
  }

  /** Starting a release: the counter holds at least the bytes about to be given back. */
  lemma KeepsLoad(s: State, step: Step)
    requires Inv(s) && Enabled(s, step) && (step.LoadForShrunk? || step.LoadForFlush? || step.BeginFlush?)
    ensures Inv(Do(s, step))
  {
    hide RowsMemory, RowMemory;
    assert ThreadSound(s, step.t);
    if s.limit != 0 { Covers(s, step.t, 0); }
    FrameThread(s, step.t, s.used, Do(s, step).phases[step.t]);
  }

  lemma KeepsSwap(s: State, step: Step)
    requires Inv(s) && Enabled(s, step) && (step.SwapShrunk? || step.SwapFlush?)
    ensures Inv(Do(s, step))
  {
    hide RowsMemory, RowMemory;
    assert ThreadSound(s, step.t);
    if s.limit != 0 { Covers(s, step.t, 0); }
    var s' := Do(s, step);
    FrameThread(s, step.t, s'.used, s'.phases[step.t]);
  }

  lemma KeepsLoadForErase(s: State, step: Step)
    requires Inv(s) && Enabled(s, step) && step.LoadForErase?
    ensures Inv(Do(s, step))
  {
    hide RowMemory;
    var t, i := step.t, s.phases[step.t].shard;
    assert ThreadSound(s, t);
    MemoryAt(s.shards[i].rows, step.p);
    if s.limit != 0 { Covers(s, t, i); }
    FrameThread(s, t, s.used, Do(s, step).phases[t]);
  }

  lemma KeepsSwapErase(s: State, step: Step)
    requires Inv(s) && Enabled(s, step) && step.SwapErase?
    ensures Inv(Do(s, step))
  {
    hide RowMemory, RowsMemory;
    var t, i := step.t, s.phases[step.t].shard;
    var ph := s.phases[t];
    assert ThreadSound(s, t);
    MemoryAt(s.shards[i].rows, ph.p);
    if s.limit != 0 { Covers(s, t, i); }
    var s' := Do(s, step);
    if Released(s.used, ph.seen, ph.bytes, step.spurious).None? {
      FrameThread(s, t, s.used, s'.phases[t]);
    } else {
      FrameShard(s, t, s'.used, i, s'.shards[i], s'.phases[t]);
    }
  }

  lemma KeepsErase(s: State, step: Step)
    requires Inv(s) && Enabled(s, step) && step.EraseRow?
    ensures Inv(Do(s, step))
  {
    hide RowMemory, RowsMemory, EraseAt;
    var t, i := step.t, s.phases[step.t].shard;
    assert ThreadSound(s, t);
    MemoryAt(s.shards[i].rows, s.phases[t].p);
    var s' := Do(s, step);
    FrameShard(s, t, s.used, i, s'.shards[i], s'.phases[t]);
  }

  lemma ClearedKeeps(s: State, t: nat, i: nat, cleared: int)
    requires Inv(s) && t < |s.phases| && s.phases[t] == Flushing(i, cleared) && i < |s.shards| && s.shards[i].holder.None?
    ensures
      var sh := s.shards[i].(rows := [], memory := 0);
      Inv(To(WithShard(s, i, sh), t, Flushing(i + 1, cleared + s.shards[i].memory)))
  {
    hide RowMemory, CountedAll, HeldAll;
    assert ThreadSound(s, t);
    assert ShardSound(s.shards[i]) && FreeSound(s.shards[i]);
    var sh := s.shards[i].(rows := [], memory := 0);
    FrameShard(s, t, s.used, i, sh, Flushing(i + 1, cleared + s.shards[i].memory));
  }

  lemma KeepsFlushShard(s: State, step: Step)
    requires Inv(s) && Enabled(s, step) && step.FlushShard?
    ensures Inv(Do(s, step))
  {
    hide Inv, RowMemory, RowsMemory;
    var ph := s.phases[step.t];
    ClearedKeeps(s, step.t, ph.upto, ph.cleared);
  }

  lemma StepKeeps(s: State, step: Step)
    requires Inv(s) && Enabled(s, step)
    ensures Inv(Do(s, step))
  {
    hide *;
    match step
    case Lock(_, _) => KeepsLocks(s, step);
    case Unlock(_) => KeepsLocks(s, step);
    case LoadForReserve(_, _) => KeepsReserve(s, step);
    case SwapReserve(_, _) => KeepsReserve(s, step);
    case AbandonReserved(_) => KeepsReserve(s, step);
    case ApplyReserved(_) => KeepsApply(s, step);
    case ApplyUnreserved(_, _) => KeepsApply(s, step);
    case LoadForShrunk(_) => KeepsLoad(s, step);
    case SwapShrunk(_, _) => KeepsSwap(s, step);
    case LoadForErase(_, _) => KeepsLoadForErase(s, step);
    case SwapErase(_, _) => KeepsSwapErase(s, step);
    case EraseRow(_) => KeepsErase(s, step);
    case BeginFlush(_) => KeepsLoad(s, step);
    case FlushShard(_) => KeepsFlushShard(s, step);
    case LoadForFlush(_) => KeepsLoad(s, step);
    case SwapFlush(_, _) => KeepsSwap(s, step);
  }

  // --- Whole runs -----------------------------------------------------------------------------

  function Start(limit: nat, shardCount: nat, threads: nat): State {
    State(limit, 0, seq(shardCount, _ => LockedShard([], 0, None, 0)), seq(threads, _ => Idle))
  }

  predicate Runs(s: State, steps: seq<Step>)
    decreases |steps|
  {
    steps == [] || (Enabled(s, steps[0]) && Runs(Do(s, steps[0]), steps[1..]))
  }

  function End(s: State, steps: seq<Step>): State
    requires Runs(s, steps)
    decreases |steps|
  {
    if steps == [] then s else End(Do(s, steps[0]), steps[1..])
  }

  lemma {:induction false} RunKeeps(s: State, steps: seq<Step>)
    requires Inv(s) && Runs(s, steps)
    ensures Inv(End(s, steps))
    decreases |steps|
  {
    hide Inv, Enabled, Do;
    if steps != [] {
      StepKeeps(s, steps[0]);
      RunKeeps(Do(s, steps[0]), steps[1..]);
    }
  }

  lemma {:induction false} ZeroSums(shards: seq<LockedShard>, phases: seq<Phase>)
    requires forall i | 0 <= i < |shards| :: shards[i] == LockedShard([], 0, None, 0)
    requires forall t | 0 <= t < |phases| :: phases[t] == Idle
    ensures CountedAll(shards) == 0 && HeldAll(phases) == 0
    decreases |shards| + |phases|
  {
    if shards != [] {
      ZeroSums(shards[1..], phases);
    } else if phases != [] {
      ZeroSums(shards, phases[1..]);
    }
  }

  lemma StartInv(limit: nat, shardCount: nat, threads: nat)
    ensures Inv(Start(limit, shardCount, threads))
  {
    var s := Start(limit, shardCount, threads);
    ZeroSums(s.shards, s.phases);
  }

  /** The bytes of every entry stored anywhere. */
  function StoredBytes(shards: seq<LockedShard>): nat {
    if shards == [] then 0 else RowsMemory(shards[0].rows) + StoredBytes(shards[1..])
  }

  predicate Quiescent(s: State) {
    forall t | 0 <= t < |s.phases| :: s.phases[t] == Idle
  }

  lemma {:induction false} QuietSums(shards: seq<LockedShard>, phases: seq<Phase>)
    requires forall i | 0 <= i < |shards| :: ShardSound(shards[i]) && shards[i].owed == 0
    requires forall t | 0 <= t < |phases| :: phases[t] == Idle
    ensures CountedAll(shards) == StoredBytes(shards) && HeldAll(phases) == 0
    decreases |shards| + |phases|
  {
    if shards != [] {
      QuietSums(shards[1..], phases);
    } else if phases != [] {
      QuietSums(shards, phases[1..]);
    }
  }

  lemma QuietBalance(s: State)
    requires Inv(s) && Quiescent(s) && s.limit != 0
    ensures s.used == StoredBytes(s.shards)
  {
    forall i | 0 <= i < |s.shards|
      ensures ShardSound(s.shards[i]) && s.shards[i].owed == 0
    {
      assert HolderSound(s, i);
    }
    QuietSums(s.shards, s.phases);
  }

  /** The bytes a release loop is about to subtract, and the counter value it subtracts them from. */
  predicate Releasing(ph: Phase) {
    ph.ReleasingShrunk? || ph.ReleasingRow? || ph.ReleasingFlushed?
  }

  /** Every interleaving of any number of threads over any number of shards: the counter never passes
      the limit, every shard's own count is exact, a release never meets the clamp, and once no
      operation is in flight the counter is exactly the bytes of the stored entries. With no limit the
      counter stays at zero. */
  lemma LedgerBalances(limit: nat, shardCount: nat, threads: nat, steps: seq<Step>)
    requires Runs(Start(limit, shardCount, threads), steps)
    ensures var s := End(Start(limit, shardCount, threads), steps);
      && s.used <= s.limit
      && (forall i | 0 <= i < |s.shards| :: s.shards[i].memory == RowsMemory(s.shards[i].rows))
      && (s.limit != 0 ==> forall t | 0 <= t < |s.phases| && Releasing(s.phases[t]) :: s.phases[t].bytes <= s.phases[t].seen)
      && (s.limit != 0 && Quiescent(s) ==> s.used == StoredBytes(s.shards))
  {
    hide RowsMemory, StoredBytes, Do, Enabled, Start;
    StartInv(limit, shardCount, threads);
    RunKeeps(Start(limit, shardCount, threads), steps);
    var s := End(Start(limit, shardCount, threads), steps);
    assert Inv(s);
    assert forall i | 0 <= i < |s.shards| :: ShardSound(s.shards[i]);
    forall t | 0 <= t < |s.phases| && Releasing(s.phases[t])
      ensures s.limit != 0 ==> s.phases[t].bytes <= s.phases[t].seen
    {
      assert ThreadSound(s, t);
    }
    if s.limit != 0 && Quiescent(s) { QuietBalance(s); }
  }

  /** What a thread inside an operation does next. */
  function NextOf(t: nat, ph: Phase, shardCount: nat): Step
    requires !ph.Idle?
  {
    match ph
    case Holding(_) => Unlock(t)
    case Reserving(_, _, _, _) => SwapReserve(t, false)
    case Reserved(_, _, _) => ApplyReserved(t)
    case Shrunk(_, _) => LoadForShrunk(t)
    case ReleasingShrunk(_, _, _) => SwapShrunk(t, false)
    case ReleasingRow(_, _, _, _) => SwapErase(t, false)
    case RowReleased(_, _, _) => EraseRow(t)
    case Flushing(upto, _) => if upto == shardCount then LoadForFlush(t) else FlushShard(t)
    case ReleasingFlushed(_, _) => SwapFlush(t, false)
  }

  /** A step a thread may want: an idle one begins to flush or asks for any shard's lock. */
  predicate Wants(s: State, step: Step) {
    step.t < |s.phases| &&
    var ph := s.phases[step.t];
    if ph.Idle? then step == BeginFlush(step.t) || (step.Lock? && step.shard < |s.shards|)
    else step == NextOf(step.t, ph, |s.shards|)
  }

  /** The lock a wanted step needs. */
  function Awaited(s: State, step: Step): Option<nat>
    requires Wants(s, step)
  {
    if step.Lock? then Some(step.shard)
    else if step.FlushShard? then Some(s.phases[step.t].upto)
    else None
  }

  lemma InsideCanStep(s: State, t: nat)
    requires t < |s.phases| && ThreadSound(s, t) && ShardOf(s.phases[t]).Some?
    ensures Enabled(s, NextOf(t, s.phases[t], |s.shards|))
  {
    hide RowMemory, RowsMemory;
  }

  /** No deadlock: a thread can take the step it wants unless that needs a lock another thread holds; and
      the holder is inside that shard, waits for nothing, and can take its next step. */
  lemma NoDeadlock(s: State, step: Step)
    requires Inv(s) && Wants(s, step)
    ensures var lock := Awaited(s, step);
            && (lock.Some? ==> lock.value < |s.shards|)
            && if lock.None? || s.shards[lock.value].holder.None? then Enabled(s, step)
               else
                 var u := s.shards[lock.value].holder.value;
                 && u < |s.phases| && u != step.t && ShardOf(s.phases[u]) == lock
                 && Enabled(s, NextOf(u, s.phases[u], |s.shards|))
  {
    hide RowMemory, RowsMemory, ShardSound, Balanced;
    var t := step.t;
    assert ThreadSound(s, t);
    if ShardOf(s.phases[t]).Some? {
      InsideCanStep(s, t);
    } else if Awaited(s, step).Some? && s.shards[Awaited(s, step).value].holder.Some? {
      hide Enabled;
      var i := Awaited(s, step).value;
      assert HolderSound(s, i) && ThreadSound(s, s.shards[i].holder.value);
      InsideCanStep(s, s.shards[i].holder.value);
    }
  }

  /** How far a thread inside a shard is from letting go of it, if the others pause. */
  function Distance(s: State, ph: Phase): nat {
    match ph
    case Holding(_) => 1
    case Reserved(_, _, _) => 2
    case RowReleased(_, _, _) => 2
    case ReleasingShrunk(_, _, seen) => if seen == 0 || seen == s.used then 2 else 3
    case Shrunk(_, _) => 3
    case Reserving(_, _, _, seen) => if seen == s.used then 3 else 4
    case ReleasingRow(_, _, _, seen) => if seen == 0 || seen == s.used then 3 else 4
    case _ => 0
  }

  /** Each step of the holder brings it nearer. */
  lemma StepsNearer(s: State, t: nat)
    requires Inv(s) && t < |s.phases| && ShardOf(s.phases[t]).Some?
    ensures var ph, step := s.phases[t], NextOf(t, s.phases[t], |s.shards|);
            && Enabled(s, step)
            && var s' := Do(s, step);
               && |s'.phases| == |s.phases| && |s'.shards| == |s.shards| && ph.shard < |s.shards|
               && if ph.Holding? then s'.shards[ph.shard].holder.None?
               else ShardOf(s'.phases[t]) == ShardOf(ph) && Distance(s', s'.phases[t]) < Distance(s, ph)
  {
    hide RowMemory, RowsMemory, Changed, EraseAt, ShardSound, Balanced;
    assert ThreadSound(s, t);
    InsideCanStep(s, t);
  }

  /** No lock is held for ever: from any reachable state its holder, left to itself, lets go of it within
      four steps, however its swap loops stood. */
  lemma HolderLetsGo(s: State, i: nat) returns (steps: seq<Step>)
    requires Inv(s) && i < |s.shards| && s.shards[i].holder.Some?
    ensures |steps| <= 4 && forall step | step in steps :: Some(step.t) == s.shards[i].holder
    ensures Runs(s, steps) && i < |End(s, steps).shards| && End(s, steps).shards[i].holder.None?
  {
    assert HolderSound(s, i);
    var t := s.shards[i].holder.value;
    steps := Leaves(s, t);
  }

  lemma {:induction false} Leaves(s: State, t: nat) returns (steps: seq<Step>)
    requires Inv(s) && t < |s.phases| && ShardOf(s.phases[t]).Some?
    ensures |steps| <= Distance(s, s.phases[t]) && forall step | step in steps :: step.t == t
    ensures Runs(s, steps)
    ensures var i := ShardOf(s.phases[t]).value; i < |End(s, steps).shards| && End(s, steps).shards[i].holder.None?
    decreases Distance(s, s.phases[t])
  {
    hide Inv, Enabled, Do;
    StepsNearer(s, t);
    var step := NextOf(t, s.phases[t], |s.shards|);
    var s' := Do(s, step);
    StepKeeps(s, step);
    var rest := [];
    if !s.phases[t].Holding? {
      rest := Leaves(s', t);
    }
    steps := [step] + rest;
    assert steps[1..] == rest;
  }

  // --- What the steps are for -----------------------------------------------------------------

  /** A swap that finds the counter as it saw it reserves exactly when the bytes fit under the limit, and
      gives up exactly when they do not; one that finds it changed, or fails spuriously, tries again. */
  lemma ReserveExact(s: State, t: nat, spurious: bool)
    requires Inv(s) && t < |s.phases| && s.phases[t].Reserving?
    ensures var ph, s' := s.phases[t], Do(s, SwapReserve(t, spurious));
            var ph' := s'.phases[t];
            && (ph.seen == s.used && !spurious ==>
                  if s.used + ph.bytes <= s.limit then ph' == Reserved(ph.shard, ph.change, ph.bytes) && s'.used == s.used + ph.bytes
                  else ph' == Holding(ph.shard) && s'.used == s.used)
            && (ph.seen + ph.bytes <= s.limit && (ph.seen != s.used || spurious) ==>
                  ph' == Reserving(ph.shard, ph.change, ph.bytes, s.used) && s'.used == s.used)
            && s'.shards == s.shards
  {
    hide RowMemory, RowsMemory;
    assert ThreadSound(s, t);
  }

  /** A write that grows a row of a free shard, left alone, succeeds exactly when the growth fits: its steps
      then leave the changed rows, the counter larger by the growth, and the lock free. */
  lemma WriteAlone(s: State, t: nat, i: nat, ch: Change) returns (steps: seq<Step>)
    requires Inv(s) && t < |s.phases| && s.phases[t].Idle? && i < |s.shards| && s.shards[i].holder.None?
    requires s.limit != 0 && Fits(s.shards[i].rows, ch) && Grows(s.shards[i].rows, ch)
    ensures Runs(s, steps) && forall step | step in steps :: step.t == t
    ensures var growth, s' := RowMemory(ch.row) - OldMemory(s.shards[i].rows, ch), End(s, steps);
            && s'.phases == s.phases && |s'.shards| == |s.shards| && s'.shards[i].holder.None?
            && if s.used + growth <= s.limit
               then s'.used == s.used + growth && s'.shards[i].rows == Changed(s.shards[i].rows, ch)
               else s'.used == s.used && s'.shards[i].rows == s.shards[i].rows
  {
    hide RowMemory, RowsMemory, Changed, Grows, OldMemory, Runs, End;
    var s1 := Do(s, Lock(t, i));
    var s2 := Do(s1, LoadForReserve(t, ch));
    var s3 := Do(s2, SwapReserve(t, false));
    var fits := s.used + (RowMemory(ch.row) - OldMemory(s.shards[i].rows, ch)) <= s.limit;
    var s4 := if fits then Do(s3, ApplyReserved(t)) else s3;
    RunLast(s4, Unlock(t));
    steps := [Unlock(t)];
    if fits {
      RunFirst(s3, ApplyReserved(t), steps);
      steps := [ApplyReserved(t)] + steps;
    }
    RunFirst(s2, SwapReserve(t, false), steps);
    steps := [SwapReserve(t, false)] + steps;
    RunFirst(s1, LoadForReserve(t, ch), steps);
    steps := [LoadForReserve(t, ch)] + steps;
    RunFirst(s, Lock(t, i), steps);
    steps := [Lock(t, i)] + steps;
  }

  lemma RunLast(s: State, step: Step)
    requires Enabled(s, step)
    ensures Runs(s, [step]) && End(s, [step]) == Do(s, step)
  {
    hide Enabled, Do;
    assert [step][1..] == [];
  }

  lemma RunFirst(s: State, step: Step, rest: seq<Step>)
    requires Enabled(s, step) && Runs(Do(s, step), rest)
    ensures Runs(s, [step] + rest) && End(s, [step] + rest) == End(Do(s, step), rest)
  {
    hide Enabled, Do;
    assert ([step] + rest)[1..] == rest;
  }

  /** An entry erased alone gives back exactly its bytes. */
  lemma EraseAlone(s: State, t: nat, p: nat)
    requires Inv(s) && s.limit != 0 && t < |s.phases| && s.phases[t].Holding?
    requires s.phases[t].shard < |s.shards| && p < |s.shards[s.phases[t].shard].rows|
    ensures var i := s.phases[t].shard;
            var s1 := Do(s, LoadForErase(t, p));
            && Enabled(s1, SwapErase(t, false))
            && var s2 := Do(s1, SwapErase(t, false));
               && Enabled(s2, EraseRow(t))
               && var s3 := Do(s2, EraseRow(t));
                  && s3.used == s.used - RowMemory(s.shards[i].rows[p]) && s3.phases[t] == s.phases[t]
                  && s3.shards[i].rows == EraseAt(s.shards[i].rows, p)
  {
    hide RowMemory, RowsMemory;
    var i := s.phases[t].shard;
    assert ThreadSound(s, t) && ShardSound(s.shards[i]);
    MemoryAt(s.shards[i].rows, p);
    Covers(s, t, i);
  }
}
