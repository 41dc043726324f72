/** The duplicate filter for incoming messages in lib/p2p/coordinator.ts: a set in insertion order
    that drops its 1000 oldest entries whenever it grows past 10000. */
module SeenMessages {

  const CAPACITY := 10000
  const DROPPED := 1000

  type Hash = string

  /** A message arrives, or `shutdown` and its like clear the set. */
  datatype Event = Received(hash: Hash) | Cleared

  /** The set, oldest entry first, and the log of the hashes delivered since it was last cleared. */
  datatype Cache = Cache(seen: seq<Hash>, log: seq<Hash>)

  const START := Cache([], [])

  function Trim(seen: seq<Hash>): seq<Hash> {
    if |seen| > CAPACITY then seen[DROPPED..] else seen
  }

  function Receive(c: Cache, h: Hash): Cache {
    if h in c.seen then c else Cache(Trim(c.seen + [h]), c.log + [h])
  }

  function Step(c: Cache, e: Event): Cache {
    match e case Received(h) => Receive(c, h) case Cleared => START
  }

  function Exec(c: Cache, events: seq<Event>): Cache
    decreases |events|
  {
    if events == [] then c else Exec(Step(c, events[0]), events[1..])
  }

  /** How many entries the set holds after n deliveries. */
  function Window(n: nat): nat {
    if n <= 10_000 then n else 9001 + (n - 10_001) % 1000
  }

  ghost predicate Distinct(s: seq<Hash>) {
    forall i, j :: 0 <= i < j < |s| ==> s[i] != s[j]
  }

  /** The last n entries of the log. */
  function Latest(log: seq<Hash>, n: nat): seq<Hash>
    requires n <= |log|
  {
    log[|log| - n..]
  }

  lemma WindowBounds(n: nat)
    ensures Window(n) <= n && Window(n) <= 10_000
    ensures Window(n) >= if n < 9001 then n else 9001
  {
  }

  lemma WindowSucc(n: nat)
    ensures Window(n + 1) == if Window(n) == 10_000 then 9001 else Window(n) + 1
  {
    if n > CAPACITY {
      var k := n - CAPACITY - 1;
      assert k == DROPPED * (k / DROPPED) + k % DROPPED;
      if k % DROPPED == DROPPED - 1 {
        assert k + 1 == DROPPED * (k / DROPPED + 1);
      } else {
        assert k + 1 == DROPPED * (k / DROPPED) + (k % DROPPED + 1);
      }
    }
  }

  /** No repetition within any window that was remembered when the later one came. */
  ghost predicate Separated(log: seq<Hash>) {
    forall i, j :: 0 <= i < j < |log| && log[i] == log[j] ==> j - i - 1 >= Window(j)
  }

  ghost predicate Inv(c: Cache) {
    && Window(|c.log|) <= |c.log|
    && c.seen == Latest(c.log, Window(|c.log|))
    && Distinct(c.seen) && Separated(c.log)
  }

  /** A hash outside the remembered window was last seen at least that far back. */
  lemma AppendSeparated(log: seq<Hash>, h: Hash)
    requires Window(|log|) <= |log| && h !in Latest(log, Window(|log|)) && Separated(log)
    ensures Separated(log + [h])
  {
    hide Window;
    var n := |log|;
    var all := log + [h];
    var recent := Latest(log, Window(n));
    forall k | n - Window(n) <= k < n
      ensures log[k] != h
    {
      assert recent[k - (n - Window(n))] == log[k];
    }
    forall i, j | 0 <= i < j < |all| && all[i] == all[j]
      ensures j - i - 1 >= Window(j)
    {
      assert j < n ==> log[i] == log[j];
    }
  }

  lemma AppendDistinct(seen: seq<Hash>, h: Hash)
    requires Distinct(seen) && h !in seen
    ensures Distinct(Trim(seen + [h]))
  {
    assert Distinct(seen + [h]);
  }

  lemma TrimLatest(log: seq<Hash>, w: nat, h: Hash)
    requires w <= |log| && w <= CAPACITY
    ensures Trim(Latest(log, w) + [h]) == Latest(log + [h], if w == CAPACITY then 9001 else w + 1)
  {
    var n := |log|;
    assert Latest(log, w) + [h] == Latest(log + [h], w + 1);
  }

  lemma ReceiveInv(c: Cache, h: Hash)
    requires Inv(c)
    ensures Inv(Receive(c, h))
  {
    hide Window, Separated, Trim, Distinct, Latest;
    var n := |c.log|;
    WindowBounds(n);
    WindowBounds(n + 1);
    WindowSucc(n);
    if h !in c.seen {
      AppendSeparated(c.log, h);
      AppendDistinct(c.seen, h);
      TrimLatest(c.log, Window(n), h);
    }
  }

  lemma StepInv(c: Cache, e: Event)
    requires Inv(c)
    ensures Inv(Step(c, e))
  {
    hide Inv, Receive;
    match e
    case Received(h) => ReceiveInv(c, h);
    case Cleared => StartInv();
  }

  lemma {:induction false} ExecInv(c: Cache, events: seq<Event>)
    requires Inv(c)
    ensures Inv(Exec(c, events))
    decreases |events|
  {
    if events != [] {
      hide Inv, Step;
      StepInv(c, events[0]);
      ExecInv(Step(c, events[0]), events[1..]);
    }
  }

  /** Over every run the set is exactly the latest Window(n) entries of the delivery log since the
      last clearing, so at
      least min(n, 9001) and at most 10000 of them, and the next message is delivered exactly when
      its hash is not among those. */
  lemma DeliveredIff(events: seq<Event>, h: Hash)
    ensures var c := Exec(START, events); var n := |c.log|;
      Window(n) <= n && c.seen == Latest(c.log, Window(n))
      && (if n < 9001 then n else 9001) <= |c.seen| <= 10_000
      && (Receive(c, h) != c <==> h !in Latest(c.log, Window(n)))
      && (Receive(c, h) != c ==> Receive(c, h).log == c.log + [h])
  {
    hide Exec, Window;
    StartInv();
    ExecInv(START, events);
    WindowBounds(|Exec(START, events).log|);
  }

  lemma StartInv()
    ensures Inv(START)
  {
  }

  /** Between two clearings a hash is delivered again only after at least 9001 deliveries of others in between. */
  lemma RedeliveryDistance(events: seq<Event>, i: nat, j: nat)
    requires i < j < |Exec(START, events).log|
    requires var log := Exec(START, events).log; log[i] == log[j]
    ensures j - i - 1 >= 9001
  {
    hide Exec;
    StartInv();
    ExecInv(START, events);
    var log := Exec(START, events).log;
    assert log[i] == log[j] ==> j - i - 1 >= Window(j);
  }

  /** The bound is reached: right after the first trim, the last hash it dropped comes through. */
  lemma RedeliveryIsTight(events: seq<Event>)
    requires |Exec(START, events).log| == 10_001
    ensures var c := Exec(START, events);
      Receive(c, c.log[999]).log == c.log + [c.log[999]] && |c.log| - 999 - 1 == 9001
  {
    hide Exec;
    StartInv();
    ExecInv(START, events);
    var c := Exec(START, events);
    forall k | 1000 <= k < |c.log|
      ensures c.log[k] != c.log[999]
    {
      assert Window(k) == k;
    }
    assert |c.seen| == 9001 && forall k :: 0 <= k < 9001 ==> c.seen[k] == c.log[1000 + k];
  }

  /** Clearing forgets all of it: right after it every message is delivered, whatever came before. */
  lemma ClearedForgets(events: seq<Event>, h: Hash)
    ensures Exec(START, events + [Cleared]) == START
    ensures Receive(Exec(START, events + [Cleared]), h).log == [h]
  {
    ExecSnoc(START, events, Cleared);
  }

  lemma {:induction false} ExecSnoc(c: Cache, events: seq<Event>, e: Event)
    ensures Exec(c, events + [e]) == Step(Exec(c, events), e)
    decreases |events|
  {
    hide Step;
    if events == [] {
      assert [] + [e] == [e] && [e][1..] == [];
      assert Exec(c, [e]) == Exec(Step(c, e), []);
    } else {
      ExecSnoc(Step(c, events[0]), events[1..], e);
      assert (events + [e])[1..] == events[1..] + [e];
    }
  }

  // ----- The filter in the stream handler -----

  class MessageFilter {
    var seenMessages: seq<Hash>
    ghost var log: seq<Hash>

    ghost function View(): Cache
      reads this
    {
      Cache(seenMessages, log)
    }

    constructor ()
      ensures View() == START
    {
      seenMessages, log := [], [];
    }

    /** Whether the message goes on to the handlers. */
    method Accepts(messageHash: Hash) returns (deliver: bool)
      requires Distinct(seenMessages)
      modifies this
      ensures View() == Receive(old(View()), messageHash) && Distinct(seenMessages)
      ensures deliver == (messageHash !in old(seenMessages))
    {
      if messageHash in seenMessages {
        return false;
      }
      seenMessages := seenMessages + [messageHash];
      log := log + [messageHash];
      assert Distinct(seenMessages);
      if |seenMessages| > CAPACITY {
        ghost var full := seenMessages;
        var toRemove := seenMessages[..DROPPED];
        for i := 0 to |toRemove|
          invariant seenMessages == full[i..]
          modifies this`seenMessages
        {
          DeleteOldest(toRemove[i]);
        }
      }
      return true;
    }

    method Clear()
      modifies this
      ensures View() == Step(old(View()), Cleared)
    {
      seenMessages, log := [], [];
    }

    /** Deletes an entry that happens to be the oldest. */
    method DeleteOldest(h: Hash)
      requires Distinct(seenMessages) && seenMessages != [] && h == seenMessages[0]
      modifies this`seenMessages
      ensures seenMessages == old(seenMessages)[1..]
    {
      ghost var s := seenMessages;
      Delete(h);
      ghost var i :| 0 <= i < |s| && s[i] == h && seenMessages == s[..i] + s[i + 1..];
      assert i == 0;
      assert s[..0] + s[1..] == s[1..];
    }

    /** Deletes one entry of the ordered set. */
    method Delete(h: Hash)
      requires Distinct(seenMessages) && h in seenMessages
      modifies this`seenMessages
      ensures exists i :: 0 <= i < |old(seenMessages)| && old(seenMessages)[i] == h
                       && seenMessages == old(seenMessages)[..i] + old(seenMessages)[i + 1..]
    {
      var i := 0;
      while seenMessages[i] != h
        invariant i < |seenMessages| && h in seenMessages[i..]
        decreases |seenMessages| - i
      {
        i := i + 1;
      }
      seenMessages := seenMessages[..i] + seenMessages[i + 1..];
    }
  }
}
