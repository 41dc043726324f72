/** What each event does to the queue of lib/p2p/dht-queue.ts, and how entries stay and leave. */
module DhtEntries {
  import opened Buffers
  import opened DhtQueue

  // ----- Effects -----

  /** The list without its entry of this key, if it has one; the others keep their order. */
  ghost predicate Without(s: State, pending: seq<nat>, key: string)
    requires WellFormed(s)
  {
    || (pending == s.pending && forall i :: 0 <= i < |s.pending| ==> s.items[s.pending[i]].key != key)
    || exists i :: 0 <= i < |s.pending| && s.items[s.pending[i]].key == key
                   && pending == s.pending[..i] + s.pending[i + 1..]
  }

  lemma DeleteMeans(s: State, key: string)
    requires WellFormed(s)
    ensures Without(s, DeleteKey(s, key).pending, key)
    ensures DeleteKey(s, key).items == s.items && DeleteKey(s, key).flush == s.flush
  {
    if Find(s, key, |s.pending|).None? {
      forall i | 0 <= i < |s.pending| ensures s.items[s.pending[i]].key != key {
        assert KeyAt(s, i) != key;
      }
    }
  }

  /** A settled callback is counted once, under its result. A failure below the allowed number of
      attempts leaves the waiting entries alone; a success or a last failure takes out the entry with
      that key. */
  lemma SettleMeans(cfg: Config, s: State, position: nat, ok: bool)
    requires Inv(cfg, s) && s.flush.Some? && position in s.flush.value.calling
    ensures position < |s.flush.value.snapshot| && s.flush.value.snapshot[position] < |s.items|
    ensures var s1, f := HandleSettle(cfg, s, position, ok), s.flush.value;
      var own := s.items[f.snapshot[position]];
      && s1.items == s.items && s1.flush.Some? && s1.flush.value.snapshot == f.snapshot
      && s1.flush.value.start == f.start && s1.flush.value.calling == f.calling - {position}
      && s1.flush.value.success == (if ok then f.success + 1 else f.success)
      && s1.flush.value.failed == (if ok then f.failed else f.failed + 1)
      && if !ok && own.attempts < cfg.maxRetries then s1.pending == s.pending else Without(s, s1.pending, own.key)
  {
    hide DeleteKey, Without;
    DeleteMeans(s, s.items[s.flush.value.snapshot[position]].key);
  }

  /** A waiting key gets the new announcement and time in place; another key goes behind the others with
      no attempt, and only in a full queue whose first entry of least time has a nonempty key does that
      entry leave. */
  lemma EnqueueMeans(cfg: Config, s: State, key: string, announcement: string, now: int) returns (i: nat)
    requires WellFormed(s)
    ensures var s1 := HandleEnqueue(cfg, s, key, announcement, now);
      s1.flush == s.flush &&
      if i < |s.pending| && s.items[s.pending[i]].key == key then
        && s1.pending == s.pending && |s1.items| == |s.items|
        && s1.items[s.pending[i]] == Item(key, announcement, now, s.items[s.pending[i]].attempts)
        && forall id :: 0 <= id < |s.items| && id != s.pending[i] ==> s1.items[id] == s.items[id]
      else
        && (forall j :: 0 <= j < |s.pending| ==> s.items[s.pending[j]].key != key)
        && s1.items == s.items + [Item(key, announcement, now, 0)]
        && if |s.pending| >= cfg.maxQueueSize && i < |s.pending| && s.items[s.pending[i]].key != "" then
             IsOldest(s, i) && s1.pending == s.pending[..i] + s.pending[i + 1..] + [|s.items|]
           else
             && (|s.pending| < cfg.maxQueueSize || s.pending == [] || IsOldest(s, i))
             && s1.pending == s.pending + [|s.items|]
  {
    hide Oldest, Find;
    var at := Find(s, key, |s.pending|);
    if at.Some? {
      i := at.value;
      assert KeyAt(s, i) == key;
    } else {
      forall j | 0 <= j < |s.pending| ensures s.items[s.pending[j]].key != key {
        assert KeyAt(s, j) != key;
      }
      OldestMeans(s);
      i := if s.pending == [] then 0 else Oldest(s, |s.pending|).value;
    }
  }

  /** The first of the entries with the least time. */
  ghost predicate IsOldest(s: State, i: nat)
    requires WellFormed(s)
  {
    && i < |s.pending|
    && (forall j :: 0 <= j < |s.pending| ==> s.items[s.pending[i]].queuedAt <= s.items[s.pending[j]].queuedAt)
    && (forall j :: 0 <= j < i ==> s.items[s.pending[i]].queuedAt < s.items[s.pending[j]].queuedAt)
  }

  lemma OldestMeans(s: State)
    requires WellFormed(s)
    ensures s.pending == [] ==> Oldest(s, |s.pending|).None?
    ensures s.pending != [] ==> Oldest(s, |s.pending|).Some? && IsOldest(s, Oldest(s, |s.pending|).value)
  {
    var o := Oldest(s, |s.pending|);
    if o.Some? {
      forall j | 0 <= j < |s.pending| ensures s.items[s.pending[o.value]].queuedAt <= s.items[s.pending[j]].queuedAt {
        assert TimeAt(s, o.value) <= TimeAt(s, j);
      }
      forall j | 0 <= j < o.value ensures s.items[s.pending[o.value]].queuedAt < s.items[s.pending[j]].queuedAt {
        assert TimeAt(s, o.value) < TimeAt(s, j);
      }
    }
  }

  /** These and no other callbacks run, and exactly their entries have one more attempt. */
  ghost predicate Begun(s: State, s1: State, snapshot: seq<nat>, lo: nat, hi: nat)
    requires lo <= hi <= |snapshot|
  {
    && s1.pending == s.pending && |s1.items| == |s.items| && s1.flush.Some?
    && (forall p :: p in s1.flush.value.calling <==> lo <= p < hi)
    && forall id :: 0 <= id < |s.items| ==> s1.items[id] == Tried(s.items[id], id in snapshot[lo..hi])
  }

  function Tried(item: Item, again: bool): Item {
    Item(item.key, item.announcement, item.queuedAt, if again then item.attempts + 1 else item.attempts)
  }

  lemma BeginMeans(cfg: Config, s: State, f: Flush)
    requires WellFormed(s) && f.start <= |f.snapshot|
    requires forall k :: 0 <= k < |f.snapshot| ==> f.snapshot[k] < |s.items|
    requires forall a, b :: 0 <= a < b < |f.snapshot| ==> f.snapshot[a] != f.snapshot[b]
    ensures var n, next, s1 := |f.snapshot|, f.start + cfg.flushBatchSize, BeginBatch(cfg, s, f);
      var hi := if next < n then next else n;
      Begun(s, s1, f.snapshot, f.start, hi) && s1.flush.value == f.(calling := s1.flush.value.calling)
  {
    var hi := BatchEnd(cfg, f);
    CountMeans(s.items, f.snapshot, f.start, hi);
  }

  lemma {:induction false} CountMeans(items: seq<Item>, snapshot: seq<nat>, i: nat, hi: nat)
    requires i <= hi <= |snapshot| && forall k :: 0 <= k < |snapshot| ==> snapshot[k] < |items|
    requires forall a, b :: 0 <= a < b < |snapshot| ==> snapshot[a] != snapshot[b]
    ensures var r := CountAttempts(items, snapshot, i, hi);
      |r| == |items| && forall id :: 0 <= id < |items| ==> r[id] == Tried(items[id], id in snapshot[i..hi])
    decreases hi - i
  {
    if i < hi {
      var own := snapshot[i];
      var once := items[own := items[own].(attempts := items[own].attempts + 1)];
      CountMeans(once, snapshot, i + 1, hi);
      OneTried(items, own, snapshot[i + 1..hi]);
      assert snapshot[i..hi] == [own] + snapshot[i + 1..hi];
    }
  }

  /** Trying one entry first and others later is trying them all once. */
  lemma OneTried(items: seq<Item>, own: nat, later: seq<nat>)
    requires own < |items| && own !in later
    ensures var once := items[own := items[own].(attempts := items[own].attempts + 1)];
      forall id :: 0 <= id < |items| ==> Tried(once[id], id in later) == Tried(items[id], id in [own] + later)
  {
  }

  /** A flush of a nonempty queue, when none runs, takes all waiting entries for its snapshot and calls
      the first `flushBatchSize` of them. */
  lemma FlushStartMeans(cfg: Config, s: State)
    requires Inv(cfg, s)
    ensures var s1, n := HandleFlushStart(cfg, s), |s.pending|;
      if s.flush.Some? || s.pending == [] then s1 == s
      else
        && Begun(s, s1, s.pending, 0, if cfg.flushBatchSize < n then cfg.flushBatchSize else n)
        && s1.flush.value == Flush(s.pending, 0, s1.flush.value.calling, 0, 0)
  {
    hide BeginBatch, Begun;
    if s.flush.None? && s.pending != [] {
      BeginMeans(cfg, s, Flush(s.pending, 0, {}, 0, 0));
    }
  }

  /** When no callback runs any more, the next `flushBatchSize` snapshot entries are called, or, when all
      have been, the flush is over. */
  lemma NextBatchMeans(cfg: Config, s: State)
    requires Inv(cfg, s)
    ensures var s1 := HandleNextBatch(cfg, s);
      if s.flush.None? || s.flush.value.calling != {} then s1 == s
      else
        var f := s.flush.value;
        var lo, n := f.start + cfg.flushBatchSize, |f.snapshot|;
        if lo >= n then s1 == s.(flush := None)
        else
          && Begun(s, s1, f.snapshot, lo, if lo + cfg.flushBatchSize < n then lo + cfg.flushBatchSize else n)
          && s1.flush.value == Flush(f.snapshot, lo, s1.flush.value.calling, f.success, f.failed)
  {
    hide BeginBatch, Begun;
    if s.flush.Some? && s.flush.value.calling == {} {
      var f := s.flush.value;
      if f.start + cfg.flushBatchSize < |f.snapshot| {
        BeginMeans(cfg, s, f.(start := f.start + cfg.flushBatchSize));
      }
    }
  }

  /** The elements of ys stand in xs in the same order. */
  ghost predicate InOrder(ys: seq<nat>, xs: seq<nat>) {
    forall a, b :: 0 <= a < b < |ys| ==> Before(xs, ys[a], ys[b])
  }

  ghost predicate Before(xs: seq<nat>, y: nat, z: nat) {
    exists i, j :: 0 <= i < j < |xs| && xs[i] == y && xs[j] == z
  }

  /** Cleanup keeps, in their order, the entries that have waited no longer than the limit. */
  lemma CleanupMeans(cfg: Config, s: State, now: int)
    requires Inv(cfg, s)
    ensures var s1 := Step(cfg, s, Cleanup(now));
      && s1.items == s.items && s1.flush == s.flush && InOrder(s1.pending, s.pending)
      && forall id :: id in s1.pending <==> id in s.pending && now - s.items[id].queuedAt <= cfg.queueTTL
  {
    hide Unexpired, InOrder, AttemptsOk, FlushOk;
    UnexpiredDistinct(cfg, s, now, |s.pending|);
    UnexpiredOrder(cfg, s, now, |s.pending|);
    assert s.pending[..|s.pending|] == s.pending;
    forall id | id in s.pending && now - s.items[id].queuedAt <= cfg.queueTTL
      ensures id in Unexpired(cfg, s, now, |s.pending|)
    {
      var i :| 0 <= i < |s.pending| && s.pending[i] == id;
      assert now - TimeAt(s, i) <= cfg.queueTTL;
    }
  }

  lemma {:induction false} UnexpiredOrder(cfg: Config, s: State, now: int, n: nat)
    requires WellFormed(s) && n <= |s.pending|
    ensures InOrder(Unexpired(cfg, s, now, n), s.pending[..n])
    ensures forall id :: id in Unexpired(cfg, s, now, n) ==> id in s.pending[..n]
  {
    hide WellFormed;
    if n > 0 {
      UnexpiredOrder(cfg, s, now, n - 1);
      Widen(Unexpired(cfg, s, now, n - 1), s.pending[..n - 1], s.pending[n - 1]);
      assert s.pending[..n] == s.pending[..n - 1] + [s.pending[n - 1]];
    }
  }

  lemma Widen(ys: seq<nat>, xs: seq<nat>, x: nat)
    requires InOrder(ys, xs) && forall y :: y in ys ==> y in xs
    ensures InOrder(ys, xs + [x]) && InOrder(ys + [x], xs + [x])
  {
    var zs := xs + [x];
    forall y, z | Before(xs, y, z) ensures Before(zs, y, z) {
      var i, j :| 0 <= i < j < |xs| && xs[i] == y && xs[j] == z;
      assert zs[i] == y && zs[j] == z;
    }
    forall y | y in xs ensures Before(zs, y, x) {
      var i :| 0 <= i < |xs| && xs[i] == y;
      assert zs[i] == y && zs[|xs|] == x;
    }
    LastAfter(ys, x, zs);
  }

  lemma LastAfter(ys: seq<nat>, x: nat, zs: seq<nat>)
    requires InOrder(ys, zs) && forall y :: y in ys ==> Before(zs, y, x)
    ensures InOrder(ys + [x], zs)
  {
    hide Before;
    var r := ys + [x];
    forall a, b | 0 <= a < b < |r| ensures Before(zs, r[a], r[b]) {
      assert r[a] == ys[a] && ys[a] in ys;
      assert b < |ys| ==> r[b] == ys[b];
    }
  }

  // ----- Staying and leaving -----

  /** What takes a waiting entry out: a success or a last allowed failure under its key, expiry, being the
      oldest of a full queue when another key comes, its removal, or clearing. */
  ghost predicate LeavesBy(cfg: Config, s: State, e: Event, id: nat)
    requires WellFormed(s) && id < |s.items|
  {
    match e
    case Settle(position, ok) =>
      s.flush.Some? && position in s.flush.value.calling && position < |s.flush.value.snapshot| &&
      var settled := s.items[s.flush.value.snapshot[position]];
      (ok || settled.attempts >= cfg.maxRetries) && settled.key == s.items[id].key
    case Cleanup(now) => now - s.items[id].queuedAt > cfg.queueTTL
    case Enqueue(key, _, _) =>
      && |s.pending| >= cfg.maxQueueSize && s.items[id].key != ""
      && (forall j :: 0 <= j < |s.pending| ==> s.items[s.pending[j]].key != key)
      && exists i: nat :: IsOldest(s, i) && s.pending[i] == id
    case Remove(key) => s.items[id].key == key
    case Clear => true
    case _ => false
  }

  /** A waiting entry leaves at a step exactly for one of these reasons. */
  lemma LeavesIff(cfg: Config, s: State, e: Event, id: nat)
    requires Inv(cfg, s) && id in s.pending && cfg.flushBatchSize > 0
    ensures id < |s.items| && (id !in Step(cfg, s, e).pending <==> LeavesBy(cfg, s, e, id))
  {
    hide HandleEnqueue, HandleSettle, HandleFlushStart, HandleNextBatch, DeleteKey, Unexpired, IsOldest, Begun, Without,
      AttemptsOk, FlushOk;
    match e
    case Settle(position, ok) =>
      if s.flush.Some? && position in s.flush.value.calling {
        SettleMeans(cfg, s, position, ok);
        WithoutIff(s, HandleSettle(cfg, s, position, ok).pending, s.items[s.flush.value.snapshot[position]].key, id);
      } else {
        IdleSettle(cfg, s, position, ok);
      }
    case Cleanup(now) => CleanupMeans(cfg, s, now);
    case Enqueue(key, announcement, now) => EvictedIff(cfg, s, key, announcement, now, id);
    case Remove(key) =>
      DeleteMeans(s, key);
      WithoutIff(s, DeleteKey(s, key).pending, key, id);
    case FlushStart =>
      FlushStartMeans(cfg, s);
      BegunKeeps(s, Step(cfg, s, e));
    case NextBatch =>
      NextBatchMeans(cfg, s);
      BegunKeeps(s, Step(cfg, s, e));
    case Clear =>
  }

  lemma BegunKeeps(s: State, s1: State)
    ensures forall snapshot, lo, hi | 0 <= lo <= hi <= |snapshot| :: Begun(s, s1, snapshot, lo, hi) ==>
      s1.pending == s.pending && |s1.items| == |s.items|
  {
  }

  lemma IdleSettle(cfg: Config, s: State, position: nat, ok: bool)
    requires WellFormed(s) && (s.flush.None? || position !in s.flush.value.calling)
    ensures HandleSettle(cfg, s, position, ok) == s
  {
  }

  lemma WithoutIff(s: State, pending: seq<nat>, key: string, id: nat)
    requires WellFormed(s) && id in s.pending && (Without(s, pending, key) || pending == s.pending)
    ensures Without(s, pending, key) ==> (id in pending <==> s.items[id].key != key)
  {
    var at :| 0 <= at < |s.pending| && s.pending[at] == id;
    if Without(s, pending, key) {
      if i :| 0 <= i < |s.pending| && s.items[s.pending[i]].key == key
              && pending == s.pending[..i] + s.pending[i + 1..]
      {
        RestIff(s, i, at);
      }
    }
  }

  /** Without position i, the list holds the slot at `at` exactly when that is another position. */
  lemma RestIff(s: State, i: nat, at: nat)
    requires WellFormed(s) && i < |s.pending| && at < |s.pending|
    ensures s.pending[at] in s.pending[..i] + s.pending[i + 1..] <==> at != i
    ensures s.items[s.pending[at]].key == s.items[s.pending[i]].key <==> at == i
  {
    var r := s.pending[..i] + s.pending[i + 1..];
    if at != i {
      assert r[if at < i then at else at - 1] == s.pending[at];
    }
    forall j | 0 <= j < |r| ensures r[j] != s.pending[i] {
      assert r[j] == s.pending[if j < i then j else j + 1];
    }
  }

  lemma EvictedIff(cfg: Config, s: State, key: string, announcement: string, now: int, id: nat)
    requires Inv(cfg, s) && id in s.pending
    ensures id !in HandleEnqueue(cfg, s, key, announcement, now).pending <==>
      LeavesBy(cfg, s, Enqueue(key, announcement, now), id)
  {
    hide HandleEnqueue, AttemptsOk, FlushOk;
    var i := EnqueueMeans(cfg, s, key, announcement, now);
    var at :| 0 <= at < |s.pending| && s.pending[at] == id;
    if i < |s.pending| {
      RestIff(s, i, at);
      forall j: nat | IsOldest(s, j) && IsOldest(s, i) ensures j == i {
        OneOldest(s, i, j);
      }
    }
    var r := s.pending[..if i < |s.pending| then i else 0] + s.pending[if i < |s.pending| then i + 1 else 0..];
    assert id in r + [|s.items|] <==> id in r;
  }

  lemma OneOldest(s: State, i: nat, j: nat)
    requires WellFormed(s) && IsOldest(s, i) && IsOldest(s, j)
    ensures i == j
  {
    var a, b := s.pending[i], s.pending[j];
    assert s.items[a].queuedAt <= s.items[b].queuedAt <= s.items[a].queuedAt;
  }

  lemma NeverReturns(cfg: Config, s: State, e: Event, id: nat)
    requires Inv(cfg, s) && cfg.flushBatchSize > 0 && id < |s.items| && id !in s.pending
    ensures id !in Step(cfg, s, e).pending && id < |Step(cfg, s, e).items|
  {
    hide HandleEnqueue, HandleSettle, HandleFlushStart, HandleNextBatch, DeleteKey, Unexpired, IsOldest, Begun,
      AttemptsOk, FlushOk;
    match e
    case Settle(position, ok) =>
      if s.flush.Some? && position in s.flush.value.calling {
        SettleMeans(cfg, s, position, ok);
      } else {
        IdleSettle(cfg, s, position, ok);
      }
    case Cleanup(now) => CleanupMeans(cfg, s, now);
    case Enqueue(key, announcement, now) =>
      var i := EnqueueMeans(cfg, s, key, announcement, now);
    case Remove(key) => DeleteMeans(s, key);
    case FlushStart =>
      FlushStartMeans(cfg, s);
      BegunKeeps(s, Step(cfg, s, e));
    case NextBatch =>
      NextBatchMeans(cfg, s);
      BegunKeeps(s, Step(cfg, s, e));
    case Clear =>
  }

  /** Some event of the run takes the entry out. */
  ghost predicate TakenOut(cfg: Config, s: State, events: seq<Event>, id: nat)
    requires Inv(cfg, s) && cfg.flushBatchSize > 0 && id in s.pending
    decreases |events|
  {
    events != [] &&
    (StepInv(cfg, s, events[0]);
     var s1 := Step(cfg, s, events[0]);
     LeavesBy(cfg, s, events[0], id) || (id in s1.pending && TakenOut(cfg, s1, events[1..], id)))
  }

  /** Over every run, whatever interleaves: a waiting entry still waits at the end exactly when no event
      on the way took it out for one of those reasons. */
  lemma {:induction false} StaysIff(cfg: Config, s: State, events: seq<Event>, id: nat)
    requires Inv(cfg, s) && cfg.flushBatchSize > 0 && id in s.pending
    ensures id in Exec(cfg, s, events).pending <==> !TakenOut(cfg, s, events, id)
    decreases |events|
  {
    hide Step, LeavesBy, AttemptsOk, FlushOk;
    if events != [] {
      StepInv(cfg, s, events[0]);
      LeavesIff(cfg, s, events[0], id);
      var s1 := Step(cfg, s, events[0]);
      if id in s1.pending {
        StaysIff(cfg, s1, events[1..], id);
      } else {
        SlotStays(cfg, s, events[0], id);
        StaysOut(cfg, s1, events[1..], id);
      }
    }
  }

  /** No event takes a slot away. */
  lemma SlotStays(cfg: Config, s: State, e: Event, id: nat)
    requires Inv(cfg, s) && cfg.flushBatchSize > 0 && id < |s.items|
    ensures id < |Step(cfg, s, e).items|
  {
    hide HandleEnqueue, HandleSettle, HandleFlushStart, HandleNextBatch, DeleteKey, Unexpired, IsOldest, Begun,
      AttemptsOk, FlushOk;
    match e
    case Settle(position, ok) =>
      if s.flush.Some? && position in s.flush.value.calling {
        SettleMeans(cfg, s, position, ok);
      } else {
        IdleSettle(cfg, s, position, ok);
      }
    case Cleanup(now) => CleanupMeans(cfg, s, now);
    case Enqueue(key, announcement, now) =>
      var i := EnqueueMeans(cfg, s, key, announcement, now);
    case Remove(key) => DeleteMeans(s, key);
    case FlushStart =>
      FlushStartMeans(cfg, s);
      BegunKeeps(s, Step(cfg, s, e));
    case NextBatch =>
      NextBatchMeans(cfg, s);
      BegunKeeps(s, Step(cfg, s, e));
    case Clear =>
  }

  lemma {:induction false} StaysOut(cfg: Config, s: State, events: seq<Event>, id: nat)
    requires Inv(cfg, s) && cfg.flushBatchSize > 0 && id < |s.items| && id !in s.pending
    ensures id !in Exec(cfg, s, events).pending
    decreases |events|
  {
    hide Step, AttemptsOk, FlushOk;
    if events != [] {
      StepInv(cfg, s, events[0]);
      NeverReturns(cfg, s, events[0], id);
      StaysOut(cfg, Step(cfg, s, events[0]), events[1..], id);
    }
  }

  // ----- Retries -----

  /** k flushes of one waiting entry whose callback fails each time. */
  function FailedFlushes(k: nat): seq<Event> {
    if k == 0 then [] else FailedFlushes(k - 1) + [FlushStart, Settle(0, false), NextBatch]
  }

  /** From the empty queue: after k failed flushes the entry still waits, with k attempts, as long as k
      is below `maxRetries`; the flush that reaches `maxRetries`, or the first, drops it. */
  lemma {:induction false} RetriedUntilLimit(cfg: Config, key: string, a: string, t: int, k: nat)
    requires cfg.flushBatchSize > 0 && (k == 0 || k < cfg.maxRetries)
    ensures Inv(cfg, INITIAL)
    ensures Exec(cfg, INITIAL, [Enqueue(key, a, t)] + FailedFlushes(k)) == State([Item(key, a, t, k)], [0], None)
    ensures k + 1 >= cfg.maxRetries ==>
      Exec(cfg, INITIAL, [Enqueue(key, a, t)] + FailedFlushes(k + 1)) == State([Item(key, a, t, k + 1)], [], None)
  {
    hide Exec, Step, Inv;
    InitialInv(cfg);
    var start := [Enqueue(key, a, t)];
    if k == 0 {
      EmptyEnqueue(cfg, key, a, t);
      StepInv(cfg, INITIAL, start[0]);
      var none: seq<Event> := [];
      ExecCons(cfg, INITIAL, start[0], none);
      NoEvents(cfg, Waiting(key, a, t));
    } else {
      RetriedUntilLimit(cfg, key, a, t, k - 1);
      FailOnce(cfg, start + FailedFlushes(k - 1), key, a, t, k - 1);
      ConcatAssoc(start, FailedFlushes(k - 1), Round());
    }
    FailOnce(cfg, start + FailedFlushes(k), key, a, t, k);
    ConcatAssoc(start, FailedFlushes(k), Round());
  }

  function Round(): seq<Event> {
    [FlushStart, Settle(0, false), NextBatch]
  }

  lemma NoEvents(cfg: Config, s: State)
    requires Inv(cfg, s) && cfg.flushBatchSize > 0
    ensures Exec(cfg, s, []) == s
  {
  }

  lemma FailOnce(cfg: Config, events: seq<Event>, key: string, a: string, t: int, k: nat)
    requires cfg.flushBatchSize > 0 && Inv(cfg, INITIAL)
    requires Exec(cfg, INITIAL, events) == State([Item(key, a, t, k)], [0], None)
    ensures Exec(cfg, INITIAL, events + Round()) ==
      State([Item(key, a, t, k + 1)], if k + 1 < cfg.maxRetries then [0] else [], None)
  {
    hide Exec, Step, Inv;
    var s := State([Item(key, a, t, k)], [0], None);
    AttemptsBounded(cfg, INITIAL, events);
    ExecConcat(cfg, INITIAL, events, Round());
    OneRound(cfg, s, key, a, t, k);
  }

  lemma {:induction false} ExecConcat(cfg: Config, s: State, es: seq<Event>, fs: seq<Event>)
    requires Inv(cfg, s) && cfg.flushBatchSize > 0
    ensures Inv(cfg, Exec(cfg, s, es)) && Exec(cfg, s, es + fs) == Exec(cfg, Exec(cfg, s, es), fs)
    decreases |es|
  {
    hide Step, AttemptsOk, FlushOk;
    if es == [] {
      assert es + fs == fs;
    } else {
      StepInv(cfg, s, es[0]);
      ExecConcat(cfg, Step(cfg, s, es[0]), es[1..], fs);
      assert (es + fs)[0] == es[0] && (es + fs)[1..] == es[1..] + fs;
    }
  }

  lemma OneRound(cfg: Config, s: State, key: string, a: string, t: int, k: nat)
    requires cfg.flushBatchSize > 0 && s == State([Item(key, a, t, k)], [0], None) && Inv(cfg, s)
    ensures Exec(cfg, s, Round()) == State([Item(key, a, t, k + 1)], if k + 1 < cfg.maxRetries then [0] else [], None)
  {
    hide Exec, Inv, Step;
    var e1, e2, e3 := FlushStart, Settle(0, false), NextBatch;
    CallingOne(cfg, key, a, t, k);
    var s1 := State([Item(key, a, t, k + 1)], [0], Some(Flush([0], 0, {0}, 0, 0)));
    var s2 := State([Item(key, a, t, k + 1)], if k + 1 < cfg.maxRetries then [0] else [],
                    Some(Flush([0], 0, {}, 0, 1)));
    StepInv(cfg, s, e1);
    StepInv(cfg, s1, e2);
    FailOne(cfg, key, a, t, k + 1);
    StepInv(cfg, s2, e3);
    ExecCons(cfg, s, e1, [e2, e3]);
    ExecCons(cfg, s1, e2, [e3]);
    var none: seq<Event> := [];
    ExecCons(cfg, s2, e3, none);
    assert Round() == [e1] + [e2, e3] && [e2, e3] == [e2] + [e3] && [e3] + none == [e3];
    NoEvents(cfg, s2.(flush := None));
  }

  lemma CallingOne(cfg: Config, key: string, a: string, t: int, k: nat)
    requires cfg.flushBatchSize > 0
    ensures var s := State([Item(key, a, t, k)], [0], None);
      WellFormed(s) &&
      Step(cfg, s, FlushStart) == State([Item(key, a, t, k + 1)], [0], Some(Flush([0], 0, {0}, 0, 0)))
  {
    var s := State([Item(key, a, t, k)], [0], None);
    assert BatchEnd(cfg, Flush([0], 0, {}, 0, 0)) == 1;
    assert CountAttempts(s.items, [0], 0, 1) == CountAttempts([Item(key, a, t, k + 1)], [0], 1, 1);
    assert Range(0, 1) == {0};
  }

  lemma FailOne(cfg: Config, key: string, a: string, t: int, k: nat)
    requires cfg.flushBatchSize > 0
    ensures var s := State([Item(key, a, t, k)], [0], Some(Flush([0], 0, {0}, 0, 0)));
      var s1 := State([Item(key, a, t, k)], if k < cfg.maxRetries then [0] else [], Some(Flush([0], 0, {}, 0, 1)));
      && WellFormed(s) && WellFormed(s1)
      && Step(cfg, s, Settle(0, false)) == s1 && Step(cfg, s1, NextBatch) == s1.(flush := None)
  {
    hide DeleteKey;
    var s := State([Item(key, a, t, k)], [0], Some(Flush([0], 0, {0}, 0, 0)));
    var nobody: set<nat> := {};
    assert {0} - {0} == nobody;
    DeleteOnly(s, key);
  }

  lemma DeleteOnly(s: State, key: string)
    requires WellFormed(s) && s.pending == [0] && s.items != [] && s.items[0].key == key
    ensures DeleteKey(s, key) == s.(pending := [])
  {
    assert KeyAt(s, 0) == key && Find(s, key, 1) == Some(0);
    assert Drop([0], 0) == [];
  }
}
