/** DHTAnnouncementRateLimiter of lib/p2p/security.ts over runs, with the clock as an input. */
module RateLimiter {

  /** 24 hours in milliseconds. */
  const MAX_AGE := 24 * 60 * 60 * 1000

  datatype Limiter = Limiter(last: map<string, int>, count: map<string, nat>)

  const EMPTY := Limiter(map[], map[])

  /** `canAnnounce`: a missing or zero timestamp counts as never announced. */
  function CanAnnounce(l: Limiter, peer: string, minInterval: int, now: int): (Limiter, bool) {
    if peer in l.last && l.last[peer] != 0 && now - l.last[peer] < minInterval then (l, false)
    else (Limiter(l.last[peer := now], l.count[peer := Count(l, peer) + 1]), true)
  }

  /** `getCount`. */
  function Count(l: Limiter, peer: string): nat {
    if peer in l.count then l.count[peer] else 0
  }

  predicate Old(l: Limiter, peer: string, now: int) {
    peer in l.last && now - l.last[peer] > MAX_AGE
  }

  function Cleanup(l: Limiter, now: int): Limiter {
    Limiter(map p | p in l.last && !Old(l, p, now) :: l.last[p],
            map p | p in l.count && !Old(l, p, now) :: l.count[p])
  }

  // ----- Runs -----

  datatype Event = Announce(peer: string, now: int) | CleanupAt(now: int)

  /** The limiter, the clock, and the log of accepted times of the watched peer. */
  datatype Run = Run(limiter: Limiter, clock: int, log: seq<int>)

  function Step(r: Run, e: Event, watched: string, m: int): Run {
    match e
    case Announce(peer, now) =>
      var (l, ok) := CanAnnounce(r.limiter, peer, m, now);
      Run(l, now, if ok && peer == watched then r.log + [now] else r.log)
    case CleanupAt(now) => Run(Cleanup(r.limiter, now), now, r.log)
  }

  function Exec(r: Run, events: seq<Event>, watched: string, m: int): Run
    decreases |events|
  {
    if events == [] then r else Exec(Step(r, events[0], watched, m), events[1..], watched, m)
  }

  const START := Run(EMPTY, 1, [])

  /** The clock is positive and never goes back. */
  predicate ClockOk(clock: int, events: seq<Event>)
    decreases |events|
  {
    clock > 0 && (events == [] || (events[0].now >= clock && ClockOk(events[0].now, events[1..])))
  }

  /** Neighbouring accepted times are at least m apart. */
  ghost predicate Spaced(log: seq<int>, m: int) {
    forall i :: 0 < i < |log| ==> log[i] - log[i - 1] >= m
  }

  /** The limiter still knows the last accepted time, or it is more than MAX_AGE in the past. */
  ghost predicate Inv(r: Run, watched: string, m: int) {
    && Spaced(r.log, m) && r.clock > 0 && (forall i :: 0 <= i < |r.log| ==> r.log[i] <= r.log[|r.log| - 1])
    && (forall p :: p in r.limiter.last ==> r.limiter.last[p] > 0)
    && (r.log == [] ==> watched !in r.limiter.last)
    && (r.log != [] ==>
        var t := r.log[|r.log| - 1];
        t <= r.clock && if watched in r.limiter.last then r.limiter.last[watched] == t else r.clock - t > MAX_AGE)
  }

  lemma StepInv(r: Run, e: Event, watched: string, m: int)
    requires Inv(r, watched, m) && e.now >= r.clock && m <= MAX_AGE + 1
    ensures Inv(Step(r, e, watched, m), watched, m)
  {
  }

  lemma {:induction false} ExecInv(r: Run, events: seq<Event>, watched: string, m: int)
    requires Inv(r, watched, m) && ClockOk(r.clock, events) && m <= MAX_AGE + 1
    ensures Inv(Exec(r, events, watched, m), watched, m)
    decreases |events|
  {
    if events != [] {
      hide Step, Inv;
      StepInv(r, events[0], watched, m);
      StepClock(r, events[0], watched, m);
      ExecInv(Step(r, events[0], watched, m), events[1..], watched, m);
    }
  }

  lemma StepClock(r: Run, e: Event, watched: string, m: int)
    ensures Step(r, e, watched, m).clock == e.now
  {
  }

  /** Times apart by at least m grow at least that fast. */
  lemma {:induction false} SpacedGrowth(log: seq<int>, m: int, i: nat, j: nat)
    requires Spaced(log, m) && i <= j < |log|
    ensures log[j] - log[i] >= (j - i) * m
  {
    if i < j {
      SpacedGrowth(log, m, i, j - 1);
      assert (j - i) * m == (j - 1 - i) * m + m;
    }
  }

  lemma Quotient(k: nat, m: int, w: int)
    requires m > 0 && k * m <= w
    ensures k <= w / m
  {
    var q := w / m;
    assert w < m * (q + 1);
    assert k < q + 1 || m * k >= m * (q + 1);
  }

  /** Accepted announcements of one peer are at least m apart under any interleaving with other
      peers and with cleanup, and a closed window of length w holds at most w / m + 1 of them. */
  lemma RateBound(events: seq<Event>, watched: string, m: int, w: int, i: nat, j: nat)
    requires ClockOk(1, events) && 0 < m <= MAX_AGE + 1
    requires i <= j < |Exec(START, events, watched, m).log|
    requires var log := Exec(START, events, watched, m).log; log[j] - log[i] <= w
    ensures var log := Exec(START, events, watched, m).log;
      Spaced(log, m) && j - i + 1 <= w / m + 1
  {
    hide Exec;
    ExecInv(START, events, watched, m);
    var log := Exec(START, events, watched, m).log;
    SpacedGrowth(log, m, i, j);
    Quotient(j - i, m, w);
  }

  /** Whatever went before, the next announcement of a peer is accepted exactly when each of its accepted
      announcements so far is at least m before it, and then it is logged. */
  lemma AcceptedIff(events: seq<Event>, watched: string, m: int, now: int)
    requires m <= 86_400_001 && ClockOk(1, events) && now >= Exec(START, events, watched, m).clock
    ensures var r := Exec(START, events, watched, m);
      var (l, ok) := CanAnnounce(r.limiter, watched, m, now);
      && (ok <==> forall i :: 0 <= i < |r.log| ==> now - r.log[i] >= m)
      && Exec(START, events + [Announce(watched, now)], watched, m).log == if ok then r.log + [now] else r.log
  {
    hide Exec, CanAnnounce;
    ExecInv(START, events, watched, m);
    var r := Exec(START, events, watched, m);
    ExecSnoc(START, events, Announce(watched, now), watched, m);
    if r.log != [] {
      forall i | 0 <= i < |r.log| && now - r.log[|r.log| - 1] >= m ensures now - r.log[i] >= m {
        LatestIsLast(r, watched, m, i);
      }
    }
    AcceptsIff(r, watched, m, now);
  }

  lemma AcceptsIff(r: Run, watched: string, m: int, now: int)
    requires Inv(r, watched, m) && now >= r.clock && m <= 86_400_001
    ensures CanAnnounce(r.limiter, watched, m, now).1 <==> r.log == [] || now - r.log[|r.log| - 1] >= m
  {
  }

  /** The log grows in time, for every m. */
  lemma LatestIsLast(r: Run, watched: string, m: int, i: nat)
    requires Inv(r, watched, m) && i < |r.log|
    ensures r.log[i] <= r.log[|r.log| - 1]
  {
  }

  lemma {:induction false} ExecSnoc(r: Run, events: seq<Event>, e: Event, watched: string, m: int)
    ensures Exec(r, events + [e], watched, m) == Step(Exec(r, events, watched, m), e, watched, m)
    decreases |events|
  {
    hide Step;
    var longer := events + [e];
    if events == [] {
      assert longer[0] == e && longer[1..] == [];
      assert Exec(r, longer, watched, m) == Exec(Step(r, e, watched, m), [], watched, m);
    } else {
      assert longer[0] == events[0] && longer[1..] == events[1..] + [e];
      ExecSnoc(Step(r, events[0], watched, m), events[1..], e, watched, m);
    }
  }

  /** Without cleanup the count of a peer is the number of its accepted announcements. */
  lemma {:induction false} CountIsAccepted(events: seq<Event>, watched: string, m: int)
    requires forall i :: 0 <= i < |events| ==> events[i].Announce?
    ensures var r := Exec(START, events, watched, m); Count(r.limiter, watched) == |r.log|
    decreases |events|
  {
    hide Exec;
    if events == [] {
      assert Exec(START, [], watched, m) == START by { NoEvents(START, watched, m); }
    } else {
      var front, e := events[..|events| - 1], events[|events| - 1];
      CountIsAccepted(front, watched, m);
      ExecSnoc(START, front, e, watched, m);
      assert events == front + [e];
    }
  }

  lemma NoEvents(r: Run, watched: string, m: int)
    ensures Exec(r, [], watched, m) == r
  {
  }

  /** Cleanup forgets exactly the peers, and their counts, whose last accepted announcement is more than
      86,400,000 milliseconds ago, and changes nothing else. */
  lemma CleanupMeans(l: Limiter, now: int, p: string)
    ensures var l1, gone := Cleanup(l, now), p in l.last && now - l.last[p] > 86_400_000;
      && (p in l1.last <==> p in l.last && !gone) && (p in l1.last ==> l1.last[p] == l.last[p])
      && Count(l1, p) == if gone then 0 else Count(l, p)
  {
  }

  /** An interval longer than cleanup remembers is not enforced: two acceptances 24 hours and one
      millisecond apart get through. Together with RateBound, the spacing holds for every run
      exactly when m is at most MAX_AGE + 1. */
  lemma LongIntervalsAreForgotten(watched: string, m: int)
    requires m > MAX_AGE + 1
    ensures var events := [Announce(watched, 1), CleanupAt(MAX_AGE + 2), Announce(watched, MAX_AGE + 2)];
      ClockOk(1, events) && Exec(START, events, watched, m).log == [1, MAX_AGE + 2]
      && !Spaced(Exec(START, events, watched, m).log, m)
  {
    var a, b, c := Announce(watched, 1), CleanupAt(MAX_AGE + 2), Announce(watched, MAX_AGE + 2);
    var events := [a, b, c];
    assert events[1..] == [b, c] && [b, c][1..] == [c] && [c][1..] == [];
    assert ClockOk(MAX_AGE + 2, [c]) && ClockOk(1, [b, c]);
    var r1 := Step(START, a, watched, m);
    var r2 := Step(r1, b, watched, m);
    var r3 := Step(r2, c, watched, m);
    assert r1.log == [1] && r2.log == [1] && watched !in r2.limiter.last;
    assert r3.log == [1, MAX_AGE + 2];
    assert Exec(r2, [c], watched, m) == Exec(r3, [], watched, m) == r3;
    assert Exec(r1, [b, c], watched, m) == Exec(r2, [c], watched, m);
    assert Exec(START, events, watched, m) == r3;
    assert r3.log[1] - r3.log[0] < m;
  }

  // ----- The limiter object -----

  class DHTAnnouncementRateLimiter {
    var lastAnnouncement: map<string, int>
    var announcementCount: map<string, nat>

    ghost function View(): Limiter
      reads this
    {
      Limiter(lastAnnouncement, announcementCount)
    }

    constructor ()
      ensures View() == EMPTY
    {
      lastAnnouncement, announcementCount := map[], map[];
    }

    method CanAnnounceAt(peerId: string, minInterval: int, now: int) returns (ok: bool)
      modifies this
      ensures (View(), ok) == CanAnnounce(old(View()), peerId, minInterval, now)
    {
      if peerId !in lastAnnouncement || lastAnnouncement[peerId] == 0 {
        lastAnnouncement := lastAnnouncement[peerId := now];
        IncrementCount(peerId);
        return true;
      }
      var elapsed := now - lastAnnouncement[peerId];
      if elapsed < minInterval {
        return false;
      }
      lastAnnouncement := lastAnnouncement[peerId := now];
      IncrementCount(peerId);
      return true;
    }

    method IncrementCount(peerId: string)
      modifies this`announcementCount
      ensures announcementCount == old(announcementCount)[peerId := Count(old(View()), peerId) + 1]
    {
      var count := (if peerId in announcementCount then announcementCount[peerId] else 0) + 1;
      announcementCount := announcementCount[peerId := count];
    }

    method CleanupOld(now: int)
      modifies this
      ensures View() == Cleanup(old(View()), now)
    {
      ghost var before := View();
      var todo := lastAnnouncement.Keys;
      ghost var gone: set<string> := {};
      while todo != {}
        invariant todo <= before.last.Keys && gone !! todo
        invariant gone == set p | p in before.last && p !in todo && Old(before, p, now)
        invariant lastAnnouncement == before.last - gone && announcementCount == before.count - gone
        decreases todo
      {
        var peerId :| peerId in todo;
        todo := todo - {peerId};
        if now - lastAnnouncement[peerId] > MAX_AGE {
          lastAnnouncement := lastAnnouncement - {peerId};
          announcementCount := announcementCount - {peerId};
          gone := gone + {peerId};
        }
      }
    }
  }
}
