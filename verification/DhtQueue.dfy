/** The announcement queue of lib/p2p/dht-queue.ts as a step machine. Queue entries are shared
    objects in the source: a flush snapshot and the pending map hold the same ones. Here an entry is
    a slot of `items`, and the map and the snapshot hold slot numbers. */
module DhtQueue {
  import opened Buffers

  datatype Config = Config(maxQueueSize: nat, queueTTL: int, maxRetries: nat, flushBatchSize: nat)

  datatype Item = Item(key: string, announcement: string, queuedAt: int, attempts: nat)

  /** A running flush: the snapshot, the start of the current batch, the positions whose callback has
      not settled, and the results so far. */
  datatype Flush = Flush(snapshot: seq<nat>, start: nat, calling: set<nat>, success: nat, failed: nat)

  /** `pending` lists the map's entries in insertion order. */
  datatype State = State(items: seq<Item>, pending: seq<nat>, flush: Option<Flush>)

  datatype Event =
    | Enqueue(key: string, announcement: string, now: int)
    | FlushStart
    | Settle(position: nat, ok: bool)
    | NextBatch
    | Cleanup(now: int)
    | Remove(key: string)
    | Clear

  const INITIAL := State([], [], None)

  // ----- The pending map -----

  ghost predicate WellFormed(s: State) {
    && (forall i :: 0 <= i < |s.pending| ==> s.pending[i] < |s.items|)
    && (forall i, j :: 0 <= i < j < |s.pending| ==> s.items[s.pending[i]].key != s.items[s.pending[j]].key)
    && (s.flush.Some? ==> forall i :: 0 <= i < |s.flush.value.snapshot| ==> s.flush.value.snapshot[i] < |s.items|)
  }

  function KeyAt(s: State, i: nat): string
    requires WellFormed(s) && i < |s.pending|
  {
    s.items[s.pending[i]].key
  }

  function TimeAt(s: State, i: nat): int
    requires WellFormed(s) && i < |s.pending|
  {
    s.items[s.pending[i]].queuedAt
  }

  /** Position of a key among the first n entries. */
  function Find(s: State, key: string, n: nat): (r: Option<nat>)
    requires WellFormed(s) && n <= |s.pending|
    ensures r.Some? ==> r.value < n && KeyAt(s, r.value) == key
    ensures r.None? ==> forall i :: 0 <= i < n ==> KeyAt(s, i) != key
  {
    if n == 0 then None
    else if KeyAt(s, n - 1) == key then Some(n - 1)
    else Find(s, key, n - 1)
  }

  function Drop(pending: seq<nat>, i: nat): (r: seq<nat>)
    requires i < |pending|
    ensures |r| == |pending| - 1
  {
    pending[..i] + pending[i + 1..]
  }

  /** `pendingQueue.delete(key)`. */
  function DeleteKey(s: State, key: string): State
    requires WellFormed(s)
  {
    match Find(s, key, |s.pending|)
    case None => s
    case Some(i) => s.(pending := Drop(s.pending, i))
  }

  /** `_findOldestKey` over the first n entries: the first one with the least time. */
  function Oldest(s: State, n: nat): (r: Option<nat>)
    requires WellFormed(s) && n <= |s.pending|
    ensures r.None? <==> n == 0
    ensures r.Some? ==> r.value < n && (forall i :: 0 <= i < n ==> TimeAt(s, r.value) <= TimeAt(s, i))
    ensures r.Some? ==> forall i :: 0 <= i < r.value ==> TimeAt(s, r.value) < TimeAt(s, i)
  {
    if n == 0 then None
    else
      match Oldest(s, n - 1)
      case None => Some(n - 1)
      case Some(i) => if TimeAt(s, n - 1) < TimeAt(s, i) then Some(n - 1) else Some(i)
  }

  // ----- Handlers -----

  /** The eviction of `enqueue`: an empty oldest key is falsy and nothing is removed. */
  function Evict(cfg: Config, s: State): (r: State)
    requires WellFormed(s)
  {
    if |s.pending| < cfg.maxQueueSize then s
    else
      match Oldest(s, |s.pending|)
      case None => s
      case Some(i) => if KeyAt(s, i) == "" then s else s.(pending := Drop(s.pending, i))
  }

  function HandleEnqueue(cfg: Config, s: State, key: string, announcement: string, now: int): State
    requires WellFormed(s)
  {
    match Find(s, key, |s.pending|)
    case Some(i) =>
      var id := s.pending[i];
      s.(items := s.items[id := s.items[id].(announcement := announcement, queuedAt := now)])
    case None =>
      var s1 := Evict(cfg, s);
      s1.(items := s1.items + [Item(key, announcement, now, 0)], pending := s1.pending + [|s1.items|])
  }

  function Range(lo: nat, hi: nat): (r: set<nat>)
    requires lo <= hi
    ensures |r| == hi - lo
    ensures forall p :: p in r <==> lo <= p < hi
    decreases hi - lo
  {
    if lo == hi then {} else {lo} + Range(lo + 1, hi)
  }

  function BatchEnd(cfg: Config, f: Flush): nat {
    if f.start + cfg.flushBatchSize < |f.snapshot| then f.start + cfg.flushBatchSize else |f.snapshot|
  }

  /** `item.attempts++` for the snapshot positions from i up to hi. */
  function CountAttempts(items: seq<Item>, snapshot: seq<nat>, i: nat, hi: nat): (r: seq<Item>)
    requires i <= hi <= |snapshot| && forall k :: 0 <= k < |snapshot| ==> snapshot[k] < |items|
    ensures |r| == |items|
    decreases hi - i
  {
    if i == hi then items
    else
      var id := snapshot[i];
      CountAttempts(items[id := items[id].(attempts := items[id].attempts + 1)], snapshot, i + 1, hi)
  }

  /** Starts the callbacks of the batch at f.start. */
  function BeginBatch(cfg: Config, s: State, f: Flush): State
    requires WellFormed(s) && f.start <= |f.snapshot|
    requires forall k :: 0 <= k < |f.snapshot| ==> f.snapshot[k] < |s.items|
  {
    var hi := BatchEnd(cfg, f);
    s.(items := CountAttempts(s.items, f.snapshot, f.start, hi),
       flush := Some(f.(calling := Range(f.start, hi))))
  }

  /** `flush` with a callback set; an empty queue returns at once. Flushes do not overlap. */
  function HandleFlushStart(cfg: Config, s: State): State
    requires WellFormed(s)
  {
    if s.flush.Some? || s.pending == [] then s
    else BeginBatch(cfg, s, Flush(s.pending, 0, {}, 0, 0))
  }

  /** A callback returns true, or false or throws; entries leave the map by key. */
  function HandleSettle(cfg: Config, s: State, position: nat, ok: bool): State
    requires WellFormed(s)
  {
    if s.flush.None? || position !in s.flush.value.calling || position >= |s.flush.value.snapshot| then s
    else
      var f := s.flush.value;
      var item := s.items[f.snapshot[position]];
      var f1 := f.(calling := f.calling - {position},
                   success := f.success + (if ok then 1 else 0),
                   failed := f.failed + (if ok then 0 else 1));
      var s1 := if ok || item.attempts >= cfg.maxRetries then DeleteKey(s, item.key) else s;
      s1.(flush := Some(f1))
  }

  /** When the whole batch has settled, the next one starts or the flush returns. */
  function HandleNextBatch(cfg: Config, s: State): State
    requires WellFormed(s)
  {
    if s.flush.None? || s.flush.value.calling != {} then s
    else
      var f := s.flush.value;
      var next := f.start + cfg.flushBatchSize;
      if next < |f.snapshot| then BeginBatch(cfg, s, f.(start := next)) else s.(flush := None)
  }

  /** The entries of the first n that are not older than the limit. */
  function Unexpired(cfg: Config, s: State, now: int, n: nat): (r: seq<nat>)
    requires WellFormed(s) && n <= |s.pending|
    ensures |r| <= n
  {
    if n == 0 then []
    else
      var front := Unexpired(cfg, s, now, n - 1);
      if now - TimeAt(s, n - 1) > cfg.queueTTL then front else front + [s.pending[n - 1]]
  }

  function Step(cfg: Config, s: State, e: Event): State
    requires WellFormed(s)
  {
    match e
    case Enqueue(key, announcement, now) => HandleEnqueue(cfg, s, key, announcement, now)
    case FlushStart => HandleFlushStart(cfg, s)
    case Settle(position, ok) => HandleSettle(cfg, s, position, ok)
    case NextBatch => HandleNextBatch(cfg, s)
    case Cleanup(now) => s.(pending := Unexpired(cfg, s, now, |s.pending|))
    case Remove(key) => DeleteKey(s, key)
    case Clear => s.(pending := [])
  }

  // ----- Shape -----

  ghost predicate DistinctKeys(items: seq<Item>, pending: seq<nat>) {
    && (forall i :: 0 <= i < |pending| ==> pending[i] < |items|)
    && (forall i, j :: 0 <= i < j < |pending| ==> items[pending[i]].key != items[pending[j]].key)
  }

  lemma DropDistinct(items: seq<Item>, pending: seq<nat>, i: nat)
    requires DistinctKeys(items, pending) && i < |pending|
    ensures DistinctKeys(items, Drop(pending, i))
    ensures forall x :: x in Drop(pending, i) ==> x in pending
  {
    var r := Drop(pending, i);
    forall a, b | 0 <= a < b < |r| ensures items[r[a]].key != items[r[b]].key {
      var a' := if a < i then a else a + 1;
      var b' := if b < i then b else b + 1;
      assert r[a] == pending[a'] && r[b] == pending[b'];
    }
  }

  lemma {:induction false} UnexpiredDistinct(cfg: Config, s: State, now: int, n: nat)
    requires WellFormed(s) && n <= |s.pending|
    ensures DistinctKeys(s.items, Unexpired(cfg, s, now, n))
    ensures forall x :: x in Unexpired(cfg, s, now, n) <==>
      exists i :: 0 <= i < n && s.pending[i] == x && now - TimeAt(s, i) <= cfg.queueTTL
  {
    if n > 0 {
      UnexpiredDistinct(cfg, s, now, n - 1);
      var front := Unexpired(cfg, s, now, n - 1);
      if now - TimeAt(s, n - 1) <= cfg.queueTTL {
        var r := front + [s.pending[n - 1]];
        forall a, b | 0 <= a < b < |r| ensures s.items[r[a]].key != s.items[r[b]].key {
          if b == |front| {
            assert r[a] in front;
          }
        }
      }
    }
  }

  lemma {:induction false} CountAttemptsKeys(items: seq<Item>, snapshot: seq<nat>, i: nat, hi: nat)
    requires i <= hi <= |snapshot| && forall k :: 0 <= k < |snapshot| ==> snapshot[k] < |items|
    requires forall a, b :: 0 <= a < b < |snapshot| ==> snapshot[a] != snapshot[b]
    ensures forall id :: 0 <= id < |items| ==>
      var r := CountAttempts(items, snapshot, i, hi);
      r[id].key == items[id].key && r[id].queuedAt == items[id].queuedAt
      && r[id].attempts == items[id].attempts + if exists k :: i <= k < hi && snapshot[k] == id then 1 else 0
    decreases hi - i
  {
    if i < hi {
      var id := snapshot[i];
      CountAttemptsKeys(items[id := items[id].(attempts := items[id].attempts + 1)], snapshot, i + 1, hi);
    }
  }

  // ----- The invariant of every run -----

  function Limit(cfg: Config): nat {
    if cfg.maxRetries > 1 then cfg.maxRetries else 1
  }

  /** The callback of this entry is running. */
  ghost predicate IsCalling(s: State, id: nat) {
    && s.flush.Some?
    && exists p :: p in s.flush.value.calling && p < |s.flush.value.snapshot| && s.flush.value.snapshot[p] == id
  }

  /** No entry has been handed to the callback more than Limit times; waiting entries and snapshot
      entries still to come are below it. */
  ghost predicate AttemptsOk(cfg: Config, s: State)
    requires WellFormed(s)
  {
    && (forall id :: 0 <= id < |s.items| ==> s.items[id].attempts <= Limit(cfg))
    && (forall id :: id in s.pending && !IsCalling(s, id) ==> s.items[id].attempts < Limit(cfg))
    && (s.flush.Some? ==> var f := s.flush.value;
        forall p :: BatchEnd(cfg, f) <= p < |f.snapshot| ==> s.items[f.snapshot[p]].attempts < Limit(cfg))
  }

  /** A running flush has settled, is calling, or has still to begin each snapshot position once. */
  ghost predicate FlushOk(cfg: Config, s: State) {
    s.flush.Some? ==>
      var f := s.flush.value;
      && (forall a, b :: 0 <= a < b < |f.snapshot| ==> f.snapshot[a] != f.snapshot[b])
      && f.start < |f.snapshot|
      && (forall p :: p in f.calling ==> f.start <= p < BatchEnd(cfg, f))
      && f.success + f.failed + |f.calling| == BatchEnd(cfg, f)
  }

  ghost predicate Inv(cfg: Config, s: State) {
    WellFormed(s) && AttemptsOk(cfg, s) && FlushOk(cfg, s)
  }

  // ----- Every step keeps it -----

  lemma DeleteKeyFacts(s: State, key: string)
    requires WellFormed(s)
    ensures WellFormed(DeleteKey(s, key)) && DeleteKey(s, key).items == s.items && DeleteKey(s, key).flush == s.flush
    ensures forall x :: x in DeleteKey(s, key).pending ==> x in s.pending && s.items[x].key != key
    ensures |DeleteKey(s, key).pending| <= |s.pending|
  {
    match Find(s, key, |s.pending|)
    case None =>
      forall x | x in s.pending ensures s.items[x].key != key {
        var j :| 0 <= j < |s.pending| && s.pending[j] == x;
        assert KeyAt(s, j) != key;
      }
    case Some(i) =>
      DropDistinct(s.items, s.pending, i);
      var r := Drop(s.pending, i);
      forall x | x in r ensures x in s.pending && s.items[x].key != key {
        var j :| 0 <= j < |r| && r[j] == x;
        var j' := if j < i then j else j + 1;
        assert r[j] == s.pending[j'] && KeyAt(s, j') != KeyAt(s, i);
      }
  }

  lemma EvictFacts(cfg: Config, s: State)
    requires WellFormed(s)
    ensures WellFormed(Evict(cfg, s)) && Evict(cfg, s).items == s.items && Evict(cfg, s).flush == s.flush
    ensures forall x :: x in Evict(cfg, s).pending ==> x in s.pending
    ensures |Evict(cfg, s).pending| <= |s.pending|
  {
    if |s.pending| >= cfg.maxQueueSize && s.pending != [] {
      DropDistinct(s.items, s.pending, Oldest(s, |s.pending|).value);
    }
  }

  lemma EnqueueInv(cfg: Config, s: State, key: string, announcement: string, now: int)
    requires Inv(cfg, s)
    ensures Inv(cfg, HandleEnqueue(cfg, s, key, announcement, now))
  {
    hide Evict;
    var s1 := HandleEnqueue(cfg, s, key, announcement, now);
    match Find(s, key, |s.pending|)
    case Some(i) => UpdateInv(cfg, s, s.pending[i], announcement, now);
    case None =>
      var e := Evict(cfg, s);
      EvictFacts(cfg, s);
      forall j | 0 <= j < |e.pending| ensures e.items[e.pending[j]].key != key {
        assert e.pending[j] in s.pending;
        var k :| 0 <= k < |s.pending| && s.pending[k] == e.pending[j];
        assert KeyAt(s, k) != key;
      }
      AppendInv(cfg, s, e, Item(key, announcement, now, 0));
  }

  lemma UpdateInv(cfg: Config, s: State, id: nat, announcement: string, now: int)
    requires Inv(cfg, s) && id < |s.items|
    ensures Inv(cfg, s.(items := s.items[id := s.items[id].(announcement := announcement, queuedAt := now)]))
  {
    var s1 := s.(items := s.items[id := s.items[id].(announcement := announcement, queuedAt := now)]);
    assert forall x :: IsCalling(s1, x) <==> IsCalling(s, x);
  }

  lemma AppendInv(cfg: Config, s: State, e: State, item: Item)
    requires Inv(cfg, s) && WellFormed(e) && e.items == s.items && e.flush == s.flush
    requires forall x :: x in e.pending ==> x in s.pending
    requires item.attempts == 0 && forall j :: 0 <= j < |e.pending| ==> e.items[e.pending[j]].key != item.key
    ensures Inv(cfg, e.(items := e.items + [item], pending := e.pending + [|e.items|]))
  {
    var s1 := e.(items := e.items + [item], pending := e.pending + [|e.items|]);
    assert forall x :: IsCalling(s1, x) <==> IsCalling(s, x);
  }

  /** Removing entries from the map keeps the invariant. */
  lemma ShrinkInv(cfg: Config, s: State, s1: State)
    requires Inv(cfg, s) && WellFormed(s1) && s1.items == s.items && s1.flush == s.flush
    requires forall x :: x in s1.pending ==> x in s.pending
    ensures Inv(cfg, s1)
  {
    assert forall x :: IsCalling(s1, x) <==> IsCalling(s, x);
  }

  lemma BeginBatchInv(cfg: Config, s: State, f: Flush)
    requires WellFormed(s) && cfg.flushBatchSize > 0
    requires f.start < |f.snapshot| && f.success + f.failed == f.start
    requires forall k :: 0 <= k < |f.snapshot| ==> f.snapshot[k] < |s.items|
    requires forall a, b :: 0 <= a < b < |f.snapshot| ==> f.snapshot[a] != f.snapshot[b]
    requires forall id :: 0 <= id < |s.items| ==> s.items[id].attempts <= Limit(cfg)
    requires forall id :: id in s.pending ==> s.items[id].attempts < Limit(cfg)
    requires forall p :: f.start <= p < |f.snapshot| ==> s.items[f.snapshot[p]].attempts < Limit(cfg)
    ensures Inv(cfg, BeginBatch(cfg, s, f))
  {
    hide Limit;
    var hi := BatchEnd(cfg, f);
    var s1 := BeginBatch(cfg, s, f);
    CountAttemptsKeys(s.items, f.snapshot, f.start, hi);
    forall id | 0 <= id < |s1.items| ensures s1.items[id].attempts <= Limit(cfg) {
      if k :| f.start <= k < hi && f.snapshot[k] == id {
        assert s.items[f.snapshot[k]].attempts < Limit(cfg);
      }
    }
    forall id | id in s1.pending ensures IsCalling(s1, id) || s1.items[id].attempts < Limit(cfg) {
      if k :| f.start <= k < hi && f.snapshot[k] == id {
        assert k in s1.flush.value.calling;
      }
    }
    assert BatchEnd(cfg, s1.flush.value) == hi;
  }

  lemma FlushStartInv(cfg: Config, s: State)
    requires Inv(cfg, s) && cfg.flushBatchSize > 0
    ensures Inv(cfg, HandleFlushStart(cfg, s))
  {
    if s.flush.None? && s.pending != [] {
      forall id | id in s.pending ensures s.items[id].attempts < Limit(cfg) {
        assert !IsCalling(s, id);
      }
      BeginBatchInv(cfg, s, Flush(s.pending, 0, {}, 0, 0));
    }
  }

  lemma NextBatchInv(cfg: Config, s: State)
    requires Inv(cfg, s) && cfg.flushBatchSize > 0
    ensures Inv(cfg, HandleNextBatch(cfg, s))
  {
    hide BeginBatch, Limit;
    if s.flush.Some? && s.flush.value.calling == {} {
      var f := s.flush.value;
      forall id | id in s.pending ensures s.items[id].attempts < Limit(cfg) {
        assert !IsCalling(s, id);
      }
      var next := f.start + cfg.flushBatchSize;
      if next < |f.snapshot| {
        BeginBatchInv(cfg, s, f.(start := next));
      } else {
        assert forall x :: !IsCalling(s.(flush := None), x);
      }
    }
  }

  lemma SettleInv(cfg: Config, s: State, position: nat, ok: bool)
    requires Inv(cfg, s)
    ensures Inv(cfg, HandleSettle(cfg, s, position, ok))
  {
    if s.flush.Some? && position in s.flush.value.calling && position < |s.flush.value.snapshot| {
      SettleAttempts(cfg, s, position, ok);
      SettleFlush(cfg, s, position, ok);
    }
  }

  lemma SettleFlush(cfg: Config, s: State, position: nat, ok: bool)
    requires WellFormed(s) && FlushOk(cfg, s)
    requires s.flush.Some? && position in s.flush.value.calling && position < |s.flush.value.snapshot|
    ensures FlushOk(cfg, HandleSettle(cfg, s, position, ok))
  {
    hide DeleteKey;
    var f := s.flush.value;
    var f1 := HandleSettle(cfg, s, position, ok).flush.value;
    assert BatchEnd(cfg, f1) == BatchEnd(cfg, f) && f1.calling == f.calling - {position};
  }

  lemma SettleAttempts(cfg: Config, s: State, position: nat, ok: bool)
    requires WellFormed(s) && AttemptsOk(cfg, s)
    requires s.flush.Some? && position in s.flush.value.calling && position < |s.flush.value.snapshot|
    ensures WellFormed(HandleSettle(cfg, s, position, ok)) && AttemptsOk(cfg, HandleSettle(cfg, s, position, ok))
  {
    hide DeleteKey;
    var f := s.flush.value;
    var id := f.snapshot[position];
    var s1 := HandleSettle(cfg, s, position, ok);
    DeleteKeyFacts(s, s.items[id].key);
    assert BatchEnd(cfg, s1.flush.value) == BatchEnd(cfg, f);
    forall x | x in s1.pending ensures IsCalling(s1, x) || s1.items[x].attempts < Limit(cfg) {
      if x != id && IsCalling(s, x) {
        StillCalling(s, s1, position, x);
      }
    }
  }

  lemma StillCalling(s: State, s1: State, position: nat, x: nat)
    requires s.flush.Some? && position < |s.flush.value.snapshot|
    requires s.flush.value.snapshot[position] != x && IsCalling(s, x)
    requires s1.flush.Some? && s1.flush.value.snapshot == s.flush.value.snapshot
    requires s1.flush.value.calling == s.flush.value.calling - {position}
    ensures IsCalling(s1, x)
  {
    var p :| p in s.flush.value.calling && p < |s.flush.value.snapshot| && s.flush.value.snapshot[p] == x;
    assert p in s1.flush.value.calling;
  }

  lemma CleanupInv(cfg: Config, s: State, now: int)
    requires Inv(cfg, s)
    ensures Inv(cfg, s.(pending := Unexpired(cfg, s, now, |s.pending|)))
  {
    UnexpiredDistinct(cfg, s, now, |s.pending|);
    ShrinkInv(cfg, s, s.(pending := Unexpired(cfg, s, now, |s.pending|)));
  }

  lemma StepInv(cfg: Config, s: State, e: Event)
    requires Inv(cfg, s) && cfg.flushBatchSize > 0
    ensures Inv(cfg, Step(cfg, s, e))
  {
    hide HandleEnqueue, HandleFlushStart, HandleSettle, HandleNextBatch, DeleteKey, Unexpired, AttemptsOk, FlushOk;
    match e
    case Enqueue(key, announcement, now) => EnqueueInv(cfg, s, key, announcement, now);
    case FlushStart => FlushStartInv(cfg, s);
    case Settle(position, ok) => SettleInv(cfg, s, position, ok);
    case NextBatch => NextBatchInv(cfg, s);
    case Cleanup(now) => CleanupInv(cfg, s, now);
    case Remove(key) =>
      DeleteKeyFacts(s, key);
      ShrinkInv(cfg, s, DeleteKey(s, key));
    case Clear => ShrinkInv(cfg, s, s.(pending := []));
  }

  // ----- Runs -----

  ghost function Exec(cfg: Config, s: State, events: seq<Event>): State
    requires Inv(cfg, s) && cfg.flushBatchSize > 0
    decreases |events|
  {
    if events == [] then s
    else
      StepInv(cfg, s, events[0]);
      Exec(cfg, Step(cfg, s, events[0]), events[1..])
  }

  /** In every reachable state no entry has been handed to the callback more than
      max(1, maxRetries) times, whatever interleaves with the flushes. */
  lemma {:induction false} AttemptsBounded(cfg: Config, s: State, events: seq<Event>)
    requires Inv(cfg, s) && cfg.flushBatchSize > 0
    ensures Inv(cfg, Exec(cfg, s, events))
    ensures forall id :: 0 <= id < |Exec(cfg, s, events).items| ==>
      Exec(cfg, s, events).items[id].attempts <= Limit(cfg)
    decreases |events|
  {
    hide Step, AttemptsOk, FlushOk;
    if events == [] {
      AttemptsWithinLimit(cfg, s);
    } else {
      StepInv(cfg, s, events[0]);
      AttemptsBounded(cfg, Step(cfg, s, events[0]), events[1..]);
    }
  }

  lemma AttemptsWithinLimit(cfg: Config, s: State)
    requires Inv(cfg, s)
    ensures forall id :: 0 <= id < |s.items| ==> s.items[id].attempts <= Limit(cfg)
  {
  }

  lemma InitialInv(cfg: Config)
    ensures Inv(cfg, INITIAL)
  {
  }

  // ----- What a flush does -----

  /** When the last batch has settled, every snapshot entry has succeeded or failed. */
  lemma FlushAccounting(cfg: Config, s: State)
    requires Inv(cfg, s) && s.flush.Some? && HandleNextBatch(cfg, s).flush.None?
    ensures s.flush.value.success + s.flush.value.failed == |s.flush.value.snapshot|
  {
  }

  /** Since the state s0 in which the flush started, the positions begun so far have had exactly one
      more attempt each, the others none. */
  ghost predicate AttemptedOnce(cfg: Config, s0: State, s: State)
    requires WellFormed(s0) && WellFormed(s)
  {
    s.flush.Some? &&
    var f := s.flush.value;
    && f.snapshot == s0.pending && |s0.items| <= |s.items|
    && forall p :: 0 <= p < |f.snapshot| ==>
      s.items[f.snapshot[p]].attempts == s0.items[f.snapshot[p]].attempts + (if p < BatchEnd(cfg, f) then 1 else 0)
  }

  lemma BeginBatchOnce(cfg: Config, s0: State, s: State, f: Flush)
    requires WellFormed(s0) && WellFormed(s) && cfg.flushBatchSize > 0
    requires f.start < |f.snapshot| && f.snapshot == s0.pending && |s0.items| <= |s.items|
    requires forall k :: 0 <= k < |f.snapshot| ==> f.snapshot[k] < |s.items|
    requires forall a, b :: 0 <= a < b < |f.snapshot| ==> f.snapshot[a] != f.snapshot[b]
    requires forall p :: 0 <= p < |f.snapshot| ==>
      s.items[f.snapshot[p]].attempts == s0.items[f.snapshot[p]].attempts + (if p < f.start then 1 else 0)
    ensures WellFormed(BeginBatch(cfg, s, f)) && AttemptedOnce(cfg, s0, BeginBatch(cfg, s, f))
  {
    var hi := BatchEnd(cfg, f);
    var s1 := BeginBatch(cfg, s, f);
    CountAttemptsKeys(s.items, f.snapshot, f.start, hi);
    assert BatchEnd(cfg, s1.flush.value) == hi;
    forall p | 0 <= p < |f.snapshot|
      ensures s1.items[f.snapshot[p]].attempts == s0.items[f.snapshot[p]].attempts + (if p < hi then 1 else 0)
    {
      var id := f.snapshot[p];
      if k :| f.start <= k < hi && f.snapshot[k] == id {
        assert k == p;
      }
    }
  }

  lemma FlushStartsOnce(cfg: Config, s0: State)
    requires Inv(cfg, s0) && cfg.flushBatchSize > 0 && s0.flush.None? && s0.pending != []
    ensures Inv(cfg, HandleFlushStart(cfg, s0)) && AttemptedOnce(cfg, s0, HandleFlushStart(cfg, s0))
  {
    FlushStartInv(cfg, s0);
    BeginBatchOnce(cfg, s0, s0, Flush(s0.pending, 0, {}, 0, 0));
  }

  /** Between s0 and s every entry of s0's snapshot was handed to the callback exactly once. */
  ghost predicate EachOnce(s0: State, s: State)
    requires WellFormed(s0)
  {
    |s0.items| <= |s.items| &&
    forall p :: 0 <= p < |s0.pending| ==>
      s.items[s0.pending[p]].attempts == s0.items[s0.pending[p]].attempts + 1
  }

  /** The flush of s is over after this step, and it accounted for the snapshot of s0. */
  ghost predicate EndsWell(s0: State, s: State, s1: State)
    requires WellFormed(s0)
  {
    s.flush.Some? && s.flush.value.success + s.flush.value.failed == |s0.pending| && EachOnce(s0, s1)
  }

  lemma NextBatchOnce(cfg: Config, s0: State, s: State)
    requires Inv(cfg, s0) && Inv(cfg, s) && cfg.flushBatchSize > 0 && AttemptedOnce(cfg, s0, s)
    ensures WellFormed(HandleNextBatch(cfg, s))
    ensures HandleNextBatch(cfg, s).flush.Some? ==> AttemptedOnce(cfg, s0, HandleNextBatch(cfg, s))
    ensures HandleNextBatch(cfg, s).flush.None? ==> EndsWell(s0, s, HandleNextBatch(cfg, s))
  {
    hide BeginBatch;
    var f := s.flush.value;
    var next := f.start + cfg.flushBatchSize;
    if f.calling == {} && next < |f.snapshot| {
      BeginBatchOnce(cfg, s0, s, f.(start := next));
    }
  }

  /** Steps that touch no attempt counter of the snapshot and leave its batches alone. */
  lemma QuietOnce(cfg: Config, s0: State, s: State, s1: State)
    requires WellFormed(s0) && WellFormed(s) && WellFormed(s1) && AttemptedOnce(cfg, s0, s)
    requires s1.flush.Some? && s1.flush.value.snapshot == s.flush.value.snapshot
    requires s1.flush.value.start == s.flush.value.start
    requires |s.items| <= |s1.items|
    requires forall id :: 0 <= id < |s.items| ==> s1.items[id].attempts == s.items[id].attempts
    ensures AttemptedOnce(cfg, s0, s1)
  {
    assert BatchEnd(cfg, s1.flush.value) == BatchEnd(cfg, s.flush.value);
  }

  /** While the flush runs, every step, also enqueues and removals in between, keeps the count. */
  lemma StepAttemptsOnce(cfg: Config, s0: State, s: State, e: Event)
    requires Inv(cfg, s0) && Inv(cfg, s) && cfg.flushBatchSize > 0 && AttemptedOnce(cfg, s0, s)
    ensures Inv(cfg, Step(cfg, s, e))
    ensures Step(cfg, s, e).flush.Some? ==> AttemptedOnce(cfg, s0, Step(cfg, s, e))
    ensures Step(cfg, s, e).flush.None? ==> EndsWell(s0, s, Step(cfg, s, e))
  {
    hide AttemptedOnce, AttemptsOk, FlushOk, EndsWell, Evict, DeleteKey, HandleNextBatch;
    StepInv(cfg, s, e);
    RunningFlush(cfg, s0, s);
    var s1 := Step(cfg, s, e);
    match e
    case Enqueue(key, announcement, now) =>
      EvictFacts(cfg, s);
      QuietOnce(cfg, s0, s, s1);
    case NextBatch => NextBatchOnce(cfg, s0, s);
    case Settle(position, ok) =>
      if position in s.flush.value.calling && position < |s.flush.value.snapshot| {
        DeleteKeyFacts(s, s.items[s.flush.value.snapshot[position]].key);
      }
      QuietOnce(cfg, s0, s, s1);
    case Remove(key) =>
      DeleteKeyFacts(s, key);
      QuietOnce(cfg, s0, s, s1);
    case _ => QuietOnce(cfg, s0, s, s1);
  }

  lemma RunningFlush(cfg: Config, s0: State, s: State)
    requires WellFormed(s0) && WellFormed(s) && AttemptedOnce(cfg, s0, s)
    ensures s.flush.Some?
  {
  }

  /** The states around the step that ends the running flush, if the run contains it. */
  ghost function FlushEnd(cfg: Config, s: State, events: seq<Event>): Option<(State, State)>
    requires Inv(cfg, s) && cfg.flushBatchSize > 0
    decreases |events|
  {
    if events == [] then None
    else
      StepInv(cfg, s, events[0]);
      var s1 := Step(cfg, s, events[0]);
      if s1.flush.None? then Some((s, s1)) else FlushEnd(cfg, s1, events[1..])
  }

  /** A flush started in s0 hands each entry of its snapshot to the callback exactly once, and at
      its end success + failed is the snapshot size, in every run and interleaving. */
  lemma FlushHandlesEachEntryOnce(cfg: Config, s0: State, events: seq<Event>)
    requires Inv(cfg, s0) && cfg.flushBatchSize > 0 && s0.flush.None? && s0.pending != []
    ensures Inv(cfg, HandleFlushStart(cfg, s0))
    ensures match FlushEnd(cfg, HandleFlushStart(cfg, s0), events)
      case None => true
      case Some((s, s1)) => EndsWell(s0, s, s1)
  {
    FlushStartsOnce(cfg, s0);
    FlushRunOnce(cfg, s0, HandleFlushStart(cfg, s0), events);
  }

  lemma {:induction false} FlushRunOnce(cfg: Config, s0: State, s: State, events: seq<Event>)
    requires Inv(cfg, s0) && Inv(cfg, s) && cfg.flushBatchSize > 0 && AttemptedOnce(cfg, s0, s)
    ensures match FlushEnd(cfg, s, events)
      case None => true
      case Some((t, t1)) => EndsWell(s0, t, t1)
    decreases |events|
  {
    hide AttemptedOnce, AttemptsOk, FlushOk, EndsWell, Step;
    if events != [] {
      StepAttemptsOnce(cfg, s0, s, events[0]);
      var s1 := Step(cfg, s, events[0]);
      if s1.flush.Some? {
        FlushRunOnce(cfg, s0, s1, events[1..]);
      }
    }
  }

  // ----- Size and eviction -----

  /** Enqueueing keeps the size within the limit exactly when the key is already there, there is
      room, or the limit is positive and the oldest key is not the empty string. */
  lemma EnqueueSizeIff(cfg: Config, s: State, key: string, announcement: string, now: int)
    requires WellFormed(s) && |s.pending| <= cfg.maxQueueSize
    ensures |HandleEnqueue(cfg, s, key, announcement, now).pending| <= cfg.maxQueueSize <==>
      || Find(s, key, |s.pending|).Some?
      || |s.pending| < cfg.maxQueueSize
      || (cfg.maxQueueSize > 0 && KeyAt(s, Oldest(s, |s.pending|).value) != "")
  {
  }

  /** A full queue gives up its first entry of least age stamp and keeps the others in order. */
  lemma EvictsOldest(cfg: Config, s: State, key: string, announcement: string, now: int)
    requires WellFormed(s) && s.pending != [] && |s.pending| >= cfg.maxQueueSize && Find(s, key, |s.pending|).None?
    ensures var i := Oldest(s, |s.pending|).value;
      && (forall j :: 0 <= j < |s.pending| ==> TimeAt(s, i) <= TimeAt(s, j))
      && (KeyAt(s, i) != "" ==>
          HandleEnqueue(cfg, s, key, announcement, now).pending == s.pending[..i] + s.pending[i + 1..] + [|s.items|])
  {
  }

  ghost predicate NonEmptyKeys(s: State) {
    forall id :: 0 <= id < |s.items| ==> s.items[id].key != ""
  }

  ghost predicate SizeOk(cfg: Config, s: State) {
    NonEmptyKeys(s) && |s.pending| <= cfg.maxQueueSize
  }

  lemma BatchKeepsKeys(cfg: Config, s: State, f: Flush)
    requires WellFormed(s) && f.start <= |f.snapshot|
    requires forall k :: 0 <= k < |f.snapshot| ==> f.snapshot[k] < |s.items|
    requires forall a, b :: 0 <= a < b < |f.snapshot| ==> f.snapshot[a] != f.snapshot[b]
    ensures BeginBatch(cfg, s, f).pending == s.pending && |BeginBatch(cfg, s, f).items| == |s.items|
    ensures forall id :: 0 <= id < |s.items| ==> BeginBatch(cfg, s, f).items[id].key == s.items[id].key
  {
    CountAttemptsKeys(s.items, f.snapshot, f.start, BatchEnd(cfg, f));
  }

  lemma StepSize(cfg: Config, s: State, e: Event)
    requires Inv(cfg, s) && SizeOk(cfg, s) && cfg.maxQueueSize > 0 && (e.Enqueue? ==> e.key != "")
    ensures SizeOk(cfg, Step(cfg, s, e))
  {
    hide BeginBatch;
    match e
    case Enqueue(key, announcement, now) => EnqueueSizeIff(cfg, s, key, announcement, now);
    case FlushStart =>
      if s.flush.None? && s.pending != [] {
        BatchKeepsKeys(cfg, s, Flush(s.pending, 0, {}, 0, 0));
      }
    case Settle(position, ok) =>
      if s.flush.Some? && position in s.flush.value.calling {
        DeleteKeyFacts(s, s.items[s.flush.value.snapshot[position]].key);
      }
    case NextBatch =>
      if s.flush.Some? && s.flush.value.start + cfg.flushBatchSize < |s.flush.value.snapshot| {
        BatchKeepsKeys(cfg, s, s.flush.value.(start := s.flush.value.start + cfg.flushBatchSize));
      }
    case Cleanup(now) =>
    case Remove(key) => DeleteKeyFacts(s, key);
    case Clear =>
  }

  /** The size limit holds throughout every run that enqueues no empty key, also when enqueues,
      removals and expiry interleave with a flush. */
  lemma {:induction false} SizeBounded(cfg: Config, s: State, events: seq<Event>)
    requires Inv(cfg, s) && SizeOk(cfg, s) && cfg.maxQueueSize > 0 && cfg.flushBatchSize > 0
    requires forall i :: 0 <= i < |events| && events[i].Enqueue? ==> events[i].key != ""
    ensures |Exec(cfg, s, events).pending| <= cfg.maxQueueSize
    decreases |events|
  {
    hide Step, AttemptsOk, FlushOk, NonEmptyKeys;
    if events != [] {
      StepInv(cfg, s, events[0]);
      StepSize(cfg, s, events[0]);
      SizeBounded(cfg, Step(cfg, s, events[0]), events[1..]);
    }
  }

  /** Once the empty key is the strictly oldest entry of a full queue, each new key makes the queue
      grow by one and the empty key stays oldest: the limit never acts again. */
  lemma EmptyKeyDisablesLimit(cfg: Config, s: State, key: string, announcement: string, now: int)
    requires WellFormed(s) && s.pending != [] && |s.pending| >= cfg.maxQueueSize
    requires KeyAt(s, Oldest(s, |s.pending|).value) == "" && Find(s, key, |s.pending|).None?
    requires now >= TimeAt(s, Oldest(s, |s.pending|).value)
    ensures var s1 := HandleEnqueue(cfg, s, key, announcement, now);
      && |s1.pending| == |s.pending| + 1 && WellFormed(s1)
      && KeyAt(s1, Oldest(s1, |s1.pending|).value) == ""
  {
    hide Oldest;
    var n := |s.pending|;
    var s1 := s.(items := s.items + [Item(key, announcement, now, 0)], pending := s.pending + [|s.items|]);
    EmptyKeyStays(cfg, s, key, announcement, now);
    AppendKeepsOldest(s, s1, n);
  }

  /** With the empty key oldest nothing is evicted, and the new entry goes behind the others. */
  lemma EmptyKeyStays(cfg: Config, s: State, key: string, announcement: string, now: int)
    requires WellFormed(s) && s.pending != []
    requires KeyAt(s, Oldest(s, |s.pending|).value) == "" && Find(s, key, |s.pending|).None?
    ensures var s1 := s.(items := s.items + [Item(key, announcement, now, 0)], pending := s.pending + [|s.items|]);
      HandleEnqueue(cfg, s, key, announcement, now) == s1 && WellFormed(s1)
  {
    hide Oldest;
    forall j | 0 <= j < |s.pending| ensures s.items[s.pending[j]].key != key {
      assert KeyAt(s, j) != key;
    }
  }

  /** A later entry with no smaller time behind the others leaves the oldest one the oldest. */
  lemma AppendKeepsOldest(s: State, s1: State, n: nat)
    requires WellFormed(s) && WellFormed(s1) && n == |s.pending| > 0 && |s1.pending| == n + 1
    requires forall i :: 0 <= i < n ==> s1.pending[i] == s.pending[i]
    requires |s.items| <= |s1.items| && forall id :: 0 <= id < |s.items| ==> s1.items[id] == s.items[id]
    requires TimeAt(s1, n) >= TimeAt(s, Oldest(s, n).value)
    ensures Oldest(s1, n + 1) == Oldest(s, n)
    ensures KeyAt(s1, Oldest(s1, n + 1).value) == KeyAt(s, Oldest(s, n).value)
  {
    SameOldest(s, s1, n);
    hide Oldest;
    OldestStep(s1, n + 1);
  }

  lemma OldestStep(s: State, n: nat)
    requires WellFormed(s) && 0 < n <= |s.pending|
    ensures Oldest(s, n) ==
      match Oldest(s, n - 1)
      case None => Some(n - 1)
      case Some(i) => if TimeAt(s, n - 1) < TimeAt(s, i) then Some(n - 1) else Some(i)
  {
  }

  lemma {:induction false} SameOldest(s: State, s1: State, n: nat)
    requires WellFormed(s) && WellFormed(s1) && n <= |s.pending| && n <= |s1.pending|
    requires forall i :: 0 <= i < n ==> s1.pending[i] == s.pending[i]
    requires |s.items| <= |s1.items| && forall id :: 0 <= id < |s.items| ==> s1.items[id] == s.items[id]
    ensures Oldest(s1, n) == Oldest(s, n)
  {
    if n > 0 {
      SameOldest(s, s1, n - 1);
      hide Oldest;
      OldestStep(s, n);
      OldestStep(s1, n);
      assert TimeAt(s1, n - 1) == TimeAt(s, n - 1);
    }
  }

  /** The empty key was enqueued first and nothing is older. */
  ghost predicate EmptyKeyFirst(s: State) {
    && WellFormed(s) && s.pending != [] && KeyAt(s, 0) == ""
    && forall i :: 0 <= i < |s.pending| ==> TimeAt(s, i) >= TimeAt(s, 0)
  }

  lemma {:induction false} FirstIsOldest(s: State, n: nat)
    requires EmptyKeyFirst(s) && 0 < n <= |s.pending|
    ensures Oldest(s, n) == Some(0)
  {
    hide Oldest;
    OldestStep(s, n);
    if n > 1 {
      FirstIsOldest(s, n - 1);
    } else {
      NoneOldest(s);
    }
  }

  lemma NoneOldest(s: State)
    requires WellFormed(s)
    ensures Oldest(s, 0).None?
  {
  }

  /** These keys enqueued one after the other at one time. */
  function Enqueues(keys: seq<string>, announcement: string, now: int): (es: seq<Event>)
    ensures |es| == |keys|
  {
    if keys == [] then [] else [Enqueue(keys[0], announcement, now)] + Enqueues(keys[1..], announcement, now)
  }

  /** Whatever the limit, another new key stays besides all others. */
  lemma NewKeyStays(cfg: Config, s: State, key: string, announcement: string, now: int)
    requires EmptyKeyFirst(s) && key != "" && now >= TimeAt(s, 0)
    requires forall i :: 0 <= i < |s.pending| ==> KeyAt(s, i) != key
    ensures var s1 := s.(items := s.items + [Item(key, announcement, now, 0)], pending := s.pending + [|s.items|]);
      HandleEnqueue(cfg, s, key, announcement, now) == s1 && EmptyKeyFirst(s1)
      && TimeAt(s1, 0) == TimeAt(s, 0) && KeyAt(s1, |s.pending|) == key
      && forall i :: 0 <= i < |s.pending| ==> KeyAt(s1, i) == KeyAt(s, i)
  {
    hide Oldest;
    FirstIsOldest(s, |s.pending|);
    EmptyKeyStays(cfg, s, key, announcement, now);
    var s1 := s.(items := s.items + [Item(key, announcement, now, 0)], pending := s.pending + [|s.items|]);
    forall i | 0 <= i < |s.pending|
      ensures KeyAt(s1, i) == KeyAt(s, i) && TimeAt(s1, i) == TimeAt(s, i)
    {
    }
    assert TimeAt(s1, |s.pending|) == now;
  }

  lemma {:induction false} NewKeysStay(cfg: Config, s: State, keys: seq<string>, announcement: string, now: int)
    requires Inv(cfg, s) && cfg.flushBatchSize > 0 && EmptyKeyFirst(s) && now >= TimeAt(s, 0)
    requires forall i, j :: 0 <= i < j < |keys| ==> keys[i] != keys[j]
    requires forall j :: 0 <= j < |keys| ==> keys[j] != ""
    requires forall i, j :: 0 <= i < |s.pending| && 0 <= j < |keys| ==> KeyAt(s, i) != keys[j]
    ensures |Exec(cfg, s, Enqueues(keys, announcement, now)).pending| == |s.pending| + |keys|
    decreases |keys|
  {
    if keys != [] {
      hide HandleEnqueue, AttemptsOk, FlushOk, Exec;
      var key, rest := keys[0], keys[1..];
      var e := Enqueue(key, announcement, now);
      NewKeyStays(cfg, s, key, announcement, now);
      StepInv(cfg, s, e);
      var s1 := Step(cfg, s, e);
      forall j, i | 0 <= j < |rest| && 0 <= i < |s1.pending|
        ensures KeyAt(s1, i) != rest[j]
      {
        assert i < |s.pending| ==> KeyAt(s1, i) == KeyAt(s, i);
      }
      NewKeysStay(cfg, s1, rest, announcement, now);
      ExecCons(cfg, s, e, Enqueues(rest, announcement, now));
    } else {
      assert Exec(cfg, s, []) == s;
    }
  }

  /** From the empty queue, for every limit: once the empty key has been enqueued, each of any number
      of different keys enqueued after it stays. */
  lemma EmptyKeyRun(cfg: Config, keys: seq<string>, announcement: string, first: int, now: int)
    requires cfg.flushBatchSize > 0 && first <= now
    requires forall i, j :: 0 <= i < j < |keys| ==> keys[i] != keys[j]
    requires forall i :: 0 <= i < |keys| ==> keys[i] != ""
    ensures Inv(cfg, INITIAL)
    ensures var es := [Enqueue("", announcement, first)] + Enqueues(keys, announcement, now);
      |Exec(cfg, INITIAL, es).pending| == |keys| + 1
  {
    hide Exec, AttemptsOk, FlushOk;
    InitialInv(cfg);
    var e := Enqueue("", announcement, first);
    StepInv(cfg, INITIAL, e);
    var s := Step(cfg, INITIAL, e);
    assert s == Waiting("", announcement, first) by { EmptyEnqueue(cfg, "", announcement, first); }
    assert KeyAt(s, 0) == "";
    NewKeysStay(cfg, s, keys, announcement, now);
    ExecCons(cfg, INITIAL, e, Enqueues(keys, announcement, now));
  }

  /** An empty queue takes its first entry under every limit, zero included. */
  lemma EmptyEnqueue(cfg: Config, key: string, announcement: string, now: int)
    ensures Step(cfg, INITIAL, Enqueue(key, announcement, now)) == Waiting(key, announcement, now)
  {
  }

  /** Deleting by key spares every other slot exactly when none of them has that key. */
  lemma DeleteSparesOthersIff(s: State, own: nat)
    requires WellFormed(s) && own < |s.items|
    ensures (forall x :: x in s.pending && x != own ==> x in DeleteKey(s, s.items[own].key).pending) <==>
      !OtherWithKey(s, own)
  {
    hide DeleteKey;
    var key := s.items[own].key;
    DeleteKeyFacts(s, key);
    forall x | x in s.pending && s.items[x].key != key
      ensures x in DeleteKey(s, key).pending
    {
      DeleteKeeps(s, key, x);
    }
  }

  /** Some waiting entry other than this one has its key. */
  ghost predicate OtherWithKey(s: State, own: nat)
    requires WellFormed(s) && own < |s.items|
  {
    exists x :: x in s.pending && x != own && s.items[x].key == s.items[own].key
  }

  lemma DeleteKeeps(s: State, key: string, x: nat)
    requires WellFormed(s) && x in s.pending && s.items[x].key != key
    ensures x in DeleteKey(s, key).pending
  {
    match Find(s, key, |s.pending|)
    case None =>
    case Some(i) =>
      var j :| 0 <= j < |s.pending| && s.pending[j] == x;
      var r := Drop(s.pending, i);
      assert r[if j < i then j else j - 1] == x;
  }

  /** Entries leave by key. Settling a callback, with either result, removes no entry but its own
      exactly when it removes nothing at all or no other waiting entry has its key. */
  lemma SettleSparesOthersIff(cfg: Config, s: State, position: nat, ok: bool)
    requires Inv(cfg, s) && s.flush.Some? && position in s.flush.value.calling
    ensures position < |s.flush.value.snapshot| && s.flush.value.snapshot[position] < |s.items|
    ensures var own := s.flush.value.snapshot[position];
      (forall x :: x in s.pending && x != own ==> x in HandleSettle(cfg, s, position, ok).pending) <==>
      !(ok || s.items[own].attempts >= cfg.maxRetries) || !OtherWithKey(s, own)
  {
    hide DeleteKey, OtherWithKey, AttemptsOk;
    DeleteSparesOthersIff(s, s.flush.value.snapshot[position]);
  }

  /** The entry lost is the waiting one with the same key, however new it is. */
  lemma SettleRemovesSameKey(cfg: Config, s: State, position: nat, ok: bool, i: nat)
    requires Inv(cfg, s) && s.flush.Some? && position in s.flush.value.calling && i < |s.pending|
    requires ok || s.items[s.flush.value.snapshot[position]].attempts >= cfg.maxRetries
    requires KeyAt(s, i) == s.items[s.flush.value.snapshot[position]].key
    ensures s.pending[i] !in HandleSettle(cfg, s, position, ok).pending
  {
    DeleteKeyFacts(s, KeyAt(s, i));
  }

  /** A run that gets there: the entry is removed and enqueued anew while its callback runs. The new
      entry waits with no attempt, and the old callback's success removes it unsent. */
  lemma NewerEntryIsLost(cfg: Config, key: string, a: string, b: string, t: int, u: int)
    requires cfg.maxQueueSize > 0 && cfg.flushBatchSize > 0
    ensures Inv(cfg, INITIAL)
    ensures var before := Exec(cfg, INITIAL, [Enqueue(key, a, t), FlushStart, Remove(key), Enqueue(key, b, u)]);
      && before.pending == [1] && before.items == [Item(key, a, t, 1), Item(key, b, u, 0)]
      && before.flush.Some? && 0 in before.flush.value.calling && WellFormed(before)
      && HandleSettle(cfg, before, 0, true).pending == []
      && HandleSettle(cfg, before, 0, true).items[1].attempts == 0
  {
    hide Step, Inv;
    InitialInv(cfg);
    var e1, e2, e3, e4 := Enqueue(key, a, t), FlushStart, Remove(key), Enqueue(key, b, u);
    EmptyEnqueue(cfg, key, a, t);
    FlushOfOne(cfg, key, a, t);
    RemoveThenEnqueue(cfg, key, a, b, t, u);
    var s1, s2 := Waiting(key, a, t), Calling(key, a, t);
    var s3, s4 := s2.(pending := []), Renewed(key, a, b, t, u);
    StepInv(cfg, INITIAL, e1);
    StepInv(cfg, s1, e2);
    StepInv(cfg, s2, e3);
    StepInv(cfg, s3, e4);
    ExecCons(cfg, INITIAL, e1, [e2, e3, e4]);
    ExecCons(cfg, s1, e2, [e3, e4]);
    ExecCons(cfg, s2, e3, [e4]);
    ExecCons(cfg, s3, e4, []);
    assert [e1] + [e2, e3, e4] == [e1, e2, e3, e4] && [e2] + [e3, e4] == [e2, e3, e4] && [e3] + [e4] == [e3, e4];
    assert [e4] + [] == [e4];
    assert Exec(cfg, s4, []) == s4;
    SettleRenewed(cfg, key, a, b, t, u);
  }

  /** The states of that run. */
  function Waiting(key: string, a: string, t: int): State {
    State([Item(key, a, t, 0)], [0], None)
  }

  function Calling(key: string, a: string, t: int): State {
    State([Item(key, a, t, 1)], [0], Some(Flush([0], 0, {0}, 0, 0)))
  }

  function Renewed(key: string, a: string, b: string, t: int, u: int): State {
    State([Item(key, a, t, 1), Item(key, b, u, 0)], [1], Some(Flush([0], 0, {0}, 0, 0)))
  }

  lemma ExecCons(cfg: Config, s: State, e: Event, events: seq<Event>)
    requires Inv(cfg, s) && cfg.flushBatchSize > 0
    ensures Inv(cfg, Step(cfg, s, e)) && Exec(cfg, s, [e] + events) == Exec(cfg, Step(cfg, s, e), events)
  {
    hide Step, Inv;
    StepInv(cfg, s, e);
    assert ([e] + events)[1..] == events;
  }

  lemma FlushOfOne(cfg: Config, key: string, a: string, t: int)
    requires cfg.flushBatchSize > 0
    ensures WellFormed(Waiting(key, a, t)) && Step(cfg, Waiting(key, a, t), FlushStart) == Calling(key, a, t)
  {
    var s := Waiting(key, a, t);
    var f := Flush([0], 0, {}, 0, 0);
    assert BatchEnd(cfg, f) == 1;
    assert CountAttempts(s.items, [0], 0, 1) == CountAttempts([Item(key, a, t, 1)], [0], 1, 1);
    assert Range(0, 1) == {0};
  }

  lemma RemoveThenEnqueue(cfg: Config, key: string, a: string, b: string, t: int, u: int)
    requires cfg.maxQueueSize > 0
    ensures var s := Calling(key, a, t);
      WellFormed(s) && WellFormed(s.(pending := [])) && Step(cfg, s, Remove(key)) == s.(pending := [])
      && Step(cfg, s.(pending := []), Enqueue(key, b, u)) == Renewed(key, a, b, t, u)
  {
    var s := Calling(key, a, t);
    assert KeyAt(s, 0) == key && Find(s, key, 1) == Some(0);
    assert Drop([0], 0) == [];
  }

  lemma SettleRenewed(cfg: Config, key: string, a: string, b: string, t: int, u: int)
    ensures var s := Renewed(key, a, b, t, u);
      WellFormed(s) && HandleSettle(cfg, s, 0, true).pending == [] && HandleSettle(cfg, s, 0, true).items == s.items
  {
    var s := Renewed(key, a, b, t, u);
    assert KeyAt(s, 0) == key && Find(s, key, 1) == Some(0);
    assert Drop([1], 0) == [];
  }

  // ----- From the empty queue -----

  /** In every state a fresh queue can reach, no entry was handed out more than max(1, maxRetries)
      times, the keys are distinct, and without empty keys the limit holds. */
  lemma EveryRun(cfg: Config, events: seq<Event>)
    requires cfg.flushBatchSize > 0
    ensures Inv(cfg, INITIAL)
    ensures var s := Exec(cfg, INITIAL, events);
      && DistinctKeys(s.items, s.pending)
      && (forall id :: 0 <= id < |s.items| ==> s.items[id].attempts <= Limit(cfg))
      && (cfg.maxQueueSize > 0 && (forall i :: 0 <= i < |events| && events[i].Enqueue? ==> events[i].key != "")
          ==> |s.pending| <= cfg.maxQueueSize)
  {
    hide Exec, AttemptsOk, FlushOk;
    InitialInv(cfg);
    AttemptsBounded(cfg, INITIAL, events);
    if cfg.maxQueueSize > 0 && (forall i :: 0 <= i < |events| && events[i].Enqueue? ==> events[i].key != "") {
      SizeBounded(cfg, INITIAL, events);
    }
  }
}
