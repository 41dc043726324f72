/** The DHTAnnouncementQueue object of lib/p2p/dht-queue.ts. Each method takes one step of the
    machine in module DhtQueue; `flush` is cut at its awaits. */
module DhtAnnouncementQueues {
  import opened Buffers
  import opened DhtQueue

  class DHTAnnouncementQueue {
    const cfg: Config
    var items: seq<Item>
    var pendingQueue: seq<nat>
    var flush: Option<Flush>

    ghost function View(): State
      reads this
    {
      State(items, pendingQueue, flush)
    }

    ghost predicate Valid()
      reads this
    {
      Inv(cfg, View()) && cfg.flushBatchSize > 0
    }

    constructor (cfg: Config)
      requires cfg.flushBatchSize > 0
      ensures Valid() && this.cfg == cfg && View() == INITIAL
    {
      this.cfg := cfg;
      items, pendingQueue, flush := [], [], None;
      new;
      InitialInv(cfg);
    }

    /** `pendingQueue.get(key)`, as a position. */
    method Lookup(key: string) returns (r: Option<nat>)
      requires WellFormed(View())
      ensures r == Find(View(), key, |pendingQueue|)
    {
      r := None;
      for i := 0 to |pendingQueue|
        invariant r == Find(View(), key, i)
      {
        assert items[pendingQueue[i]].key == KeyAt(View(), i);
        if items[pendingQueue[i]].key == key {
          r := Some(i);
        }
      }
    }

    /** `_findOldestKey`: a later entry replaces the best one only if it is strictly older. */
    method FindOldestKey() returns (oldest: Option<nat>)
      requires WellFormed(View())
      ensures oldest == Oldest(View(), |pendingQueue|)
    {
      oldest := None;
      var oldestTime := 0;
      for i := 0 to |pendingQueue|
        invariant oldest == Oldest(View(), i)
        invariant oldest.Some? ==> oldestTime == TimeAt(View(), oldest.value)
      {
        var time := items[pendingQueue[i]].queuedAt;
        assert time == TimeAt(View(), i);
        if oldest.None? || time < oldestTime {
          oldest, oldestTime := Some(i), time;
        }
      }
    }

    method Enqueue(key: string, announcement: string, now: int)
      requires Valid()
      modifies this
      ensures Valid() && View() == Step(cfg, old(View()), Event.Enqueue(key, announcement, now))
    {
      EnqueueInv(cfg, View(), key, announcement, now);
      var existing := Lookup(key);
      if existing.Some? {
        var id := pendingQueue[existing.value];
        items := items[id := items[id].(announcement := announcement, queuedAt := now)];
        return;
      }
      if |pendingQueue| >= cfg.maxQueueSize {
        var oldest := FindOldestKey();
        if oldest.Some? && items[pendingQueue[oldest.value]].key != "" {
          pendingQueue := Drop(pendingQueue, oldest.value);
        }
      }
      items := items + [Item(key, announcement, now, 0)];
      pendingQueue := pendingQueue + [|items| - 1];
    }

    method Delete(key: string)
      requires WellFormed(View())
      modifies this`pendingQueue
      ensures View() == DeleteKey(old(View()), key)
    {
      var i := Lookup(key);
      if i.Some? {
        pendingQueue := Drop(pendingQueue, i.value);
      }
    }

    method Remove(key: string)
      requires Valid()
      modifies this`pendingQueue
      ensures Valid() && View() == Step(cfg, old(View()), Event.Remove(key))
    {
      StepInv(cfg, View(), Event.Remove(key));
      Delete(key);
    }

    method Clear()
      requires Valid()
      modifies this`pendingQueue
      ensures Valid() && View() == Step(cfg, old(View()), Event.Clear)
    {
      StepInv(cfg, View(), Event.Clear);
      pendingQueue := [];
    }

    method CleanupExpired(now: int)
      requires Valid()
      modifies this`pendingQueue
      ensures Valid() && View() == Step(cfg, old(View()), Cleanup(now))
    {
      CleanupInv(cfg, View(), now);
      var kept: seq<nat> := [];
      for i := 0 to |pendingQueue|
        invariant kept == Unexpired(cfg, View(), now, i)
        invariant View() == old(View())
      {
        var age := now - items[pendingQueue[i]].queuedAt;
        assert age == now - TimeAt(View(), i);
        if !(age > cfg.queueTTL) {
          kept := kept + [pendingQueue[i]];
        }
      }
      pendingQueue := kept;
    }

    /** The synchronous part of a batch: count the attempt of every item and start its callback. */
    method StartBatch(f: Flush)
      requires WellFormed(View()) && f.start <= |f.snapshot|
      requires forall k :: 0 <= k < |f.snapshot| ==> f.snapshot[k] < |items|
      modifies this`items, this`flush
      ensures View() == BeginBatch(cfg, old(View()), f)
    {
      var hi := BatchEnd(cfg, f);
      var i := f.start;
      ghost var goal := CountAttempts(items, f.snapshot, f.start, hi);
      while i < hi
        invariant f.start <= i <= hi
        invariant |items| == |old(items)|
        invariant CountAttempts(items, f.snapshot, i, hi) == goal
        invariant flush == old(flush)
      {
        var id := f.snapshot[i];
        items := items[id := items[id].(attempts := items[id].attempts + 1)];
        i := i + 1;
      }
      flush := Some(f.(calling := Range(f.start, hi)));
    }

    /** `flush()` up to the first await. */
    method StartFlush()
      requires Valid() && flush.None?
      modifies this`items, this`flush
      ensures Valid() && View() == Step(cfg, old(View()), FlushStart)
    {
      FlushStartInv(cfg, View());
      if |pendingQueue| == 0 {
        return;
      }
      StartBatch(Flush(pendingQueue, 0, {}, 0, 0));
    }

    /** The rest of one callback of the batch. */
    method SettleOne(position: nat, ok: bool)
      requires Valid() && flush.Some? && position in flush.value.calling
      modifies this
      ensures Valid() && View() == Step(cfg, old(View()), Settle(position, ok))
    {
      hide DeleteKey, AttemptsOk, FlushOk;
      SettleInv(cfg, View(), position, ok);
      CallingInRange(cfg, View(), position);
      var f := flush.value;
      var item := items[f.snapshot[position]];
      if ok {
        Delete(item.key);
        flush := Some(f.(calling := f.calling - {position}, success := f.success + 1));
      } else {
        if item.attempts >= cfg.maxRetries {
          Delete(item.key);
        }
        flush := Some(f.(calling := f.calling - {position}, failed := f.failed + 1));
      }
    }

    /** After `Promise.all` of a batch: the next batch, or the returned totals. */
    method FinishBatch() returns (totals: Option<(nat, nat)>)
      requires Valid() && flush.Some? && flush.value.calling == {}
      modifies this`items, this`flush
      ensures Valid() && View() == Step(cfg, old(View()), NextBatch)
      ensures totals.Some? <==> flush.None?
      ensures totals.Some? ==> totals.value.0 + totals.value.1 == |old(flush).value.snapshot|
    {
      NextBatchInv(cfg, View());
      var f := flush.value;
      var next := f.start + cfg.flushBatchSize;
      if next < |f.snapshot| {
        StartBatch(f.(start := next));
        return None;
      }
      FlushAccounting(cfg, View());
      flush := None;
      return Some((f.success, f.failed));
    }
  }

  lemma CallingInRange(cfg: Config, s: State, position: nat)
    requires Inv(cfg, s) && s.flush.Some? && position in s.flush.value.calling
    ensures position < |s.flush.value.snapshot|
  {
  }
}
