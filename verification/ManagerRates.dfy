/** The collaborators inside CoreSecurityManager (lib/p2p/security.ts): what the manager asks of its rate
    limiter, its ban list and its resource tracker, and which calls are rate limited. */
module ManagerRates {
  import opened SecurityManager
  import Tracking = ResourceTracker
  import Limits = RateLimiter
  import Banning = PeerBans

  /** What an event asks of the limiter: calls of banned peers never get there. */
  function Sent(m: Manager, e: Event): seq<Limits.Event> {
    match e
    case Announce(peer, now, _, _) =>
      if Banning.IsAllowed(m.bans, peer, now) then [Limits.Announce(peer, now)] else []
    case CleanupAt(now) => [Limits.CleanupAt(now)]
    case _ => []
  }

  function AllSent(c: Config, m: Manager, events: seq<Event>): seq<Limits.Event>
    decreases |events|
  {
    if events == [] then [] else Sent(m, events[0]) + AllSent(c, Step(c, m, events[0]), events[1..])
  }

  /** The peer was allowed and the call was not rate limited. */
  predicate Passes(c: Config, m: Manager, e: Event, peer: string) {
    && e.Announce? && e.peer == peer && Banning.IsAllowed(m.bans, peer, e.now)
    && Decide(c, m, peer, e.now, e.ty, e.id).1 != RateLimited
  }

  /** The times of the peer's calls that passed the limiter, whatever became of them afterwards. */
  function PassTimes(c: Config, m: Manager, events: seq<Event>, peer: string): seq<int>
    decreases |events|
  {
    if events == [] then []
    else
      (if Passes(c, m, events[0], peer) then [events[0].now] else [])
      + PassTimes(c, Step(c, m, events[0]), events[1..], peer)
  }

  lemma DecideLimiter(c: Config, m: Manager, peer: string, now: int, ty: string, id: string)
    requires !c.disabled
    ensures var (m1, status, _) := Decide(c, m, peer, now, ty, id);
      var (l, spaced) := Limits.CanAnnounce(m.limiter, peer, c.minInterval, now);
      var allowed := Banning.IsAllowed(m.bans, peer, now);
      && m1.limiter == (if allowed then l else m.limiter)
      && (status == RateLimited <==> allowed && !spaced)
  {
    hide Banning.Step, Banning.IsAllowed, FindHooks;
    Refused(m.limiter, peer, c.minInterval, now);
    hide Limits.CanAnnounce;
  }

  /** A refusal leaves the limiter alone. */
  lemma Refused(l: Limits.Limiter, peer: string, m: int, now: int)
    ensures !Limits.CanAnnounce(l, peer, m, now).1 ==> Limits.CanAnnounce(l, peer, m, now).0 == l
  {
  }

  lemma StepRefines(c: Config, m: Manager, e: Event, r: Limits.Run, peer: string)
    requires !c.disabled && r.limiter == m.limiter
    ensures var r1 := Limits.Exec(r, Sent(m, e), peer, c.minInterval);
      && r1.limiter == Step(c, m, e).limiter
      && r1.log == (if Passes(c, m, e, peer) then r.log + [e.now] else r.log)
      && r1.clock == (if Sent(m, e) == [] then r.clock else e.now)
  {
    hide Decide, Limits.CanAnnounce, Limits.Cleanup, Banning.Step, Banning.IsAllowed, Limits.Exec;
    match e
    case Announce(p, now, ty, id) =>
      DecideLimiter(c, m, p, now, ty, id);
      OneEvent(r, Limits.Announce(p, now), peer, c.minInterval);
      Limits.NoEvents(r, peer, c.minInterval);
    case CleanupAt(now) => OneEvent(r, Limits.CleanupAt(now), peer, c.minInterval);
    case Settle(i, now, answer) =>
      Limits.NoEvents(r, peer, c.minInterval);
    case _ => Limits.NoEvents(r, peer, c.minInterval);
  }

  lemma OneEvent(r: Limits.Run, e: Limits.Event, peer: string, m: int)
    ensures Limits.Exec(r, [e], peer, m) == Limits.Step(r, e, peer, m)
  {
    hide Limits.Step, Limits.Exec;
    Limits.ExecSnoc(r, [], e, peer, m);
    Limits.NoEvents(r, peer, m);
    assert [] + [e] == [e];
  }

  /** The manager's limiter makes exactly the run of what was sent to it. */
  lemma {:induction false} RunRefines(c: Config, m: Manager, events: seq<Event>, r: Limits.Run, peer: string,
                                      clock: int)
    requires !c.disabled && r.limiter == m.limiter && 0 < r.clock <= clock && ClockOk(clock, events)
    ensures var r1 := Limits.Exec(r, AllSent(c, m, events), peer, c.minInterval);
      && r1.limiter == Exec(c, m, events).limiter && r1.log == r.log + PassTimes(c, m, events, peer)
      && r1.clock <= LastClock(clock, events)
    ensures Limits.ClockOk(r.clock, AllSent(c, m, events))
    decreases |events|
  {
    hide Step, Sent, Passes, Limits.Exec;
    if events == [] {
      Limits.NoEvents(r, peer, c.minInterval);
    } else {
      var e := events[0];
      var m1, r1 := Step(c, m, e), Limits.Exec(r, Sent(m, e), peer, c.minInterval);
      StepRefines(c, m, e, r, peer);
      SentOnce(m, e);
      RunRefines(c, m1, events[1..], r1, peer, e.now);
      SentThen(r, Sent(m, e), AllSent(c, m1, events[1..]), peer, c.minInterval);
    }
  }

  function LastClock(clock: int, events: seq<Event>): int {
    if events == [] then clock else events[|events| - 1].now
  }

  lemma SentOnce(m: Manager, e: Event)
    ensures |Sent(m, e)| <= 1 && forall i :: 0 <= i < |Sent(m, e)| ==> Sent(m, e)[i].now == e.now
  {
  }

  lemma SentThen(r: Limits.Run, sent: seq<Limits.Event>, rest: seq<Limits.Event>, peer: string, m: int)
    requires |sent| <= 1
    ensures Limits.Exec(r, sent + rest, peer, m) == Limits.Exec(Limits.Exec(r, sent, peer, m), rest, peer, m)
    ensures sent == [] ==> sent + rest == rest
    ensures sent != [] && r.clock > 0 && sent[0].now >= r.clock && Limits.ClockOk(sent[0].now, rest) ==>
      Limits.ClockOk(r.clock, sent + rest)
  {
    hide Limits.Step;
    Limits.NoEvents(r, peer, m);
    if sent == [] {
      assert sent + rest == rest;
    } else {
      OneEvent(r, sent[0], peer, m);
      assert sent == [sent[0]] && (sent + rest)[0] == sent[0] && (sent + rest)[1..] == rest;
    }
  }

  /** In every run of a fresh manager, whatever interleaves: the next call of a peer is rate limited exactly
      when the peer is not banned and one of its calls that passed the limiter is less than the interval
      before. So a peer that keeps the interval is never rate limited. */
  lemma RateLimitedIff(c: Config, events: seq<Event>, peer: string, now: int, ty: string, id: string)
    requires !c.disabled && c.minInterval <= 86_400_001
    requires ClockOk(1, events) && now >= LastClock(1, events)
    ensures var m, times := Exec(c, START, events), PassTimes(c, START, events, peer);
      Decide(c, m, peer, now, ty, id).1 == RateLimited <==>
        Banning.IsAllowed(m.bans, peer, now) && exists i :: 0 <= i < |times| && now - times[i] < c.minInterval
  {
    hide Exec, Decide, PassTimes, AllSent, Limits.Exec, Limits.CanAnnounce, Banning.IsAllowed;
    var m, sent := Exec(c, START, events), AllSent(c, START, events);
    RunRefines(c, START, events, Limits.START, peer, 1);
    Limits.AcceptedIff(sent, peer, c.minInterval, now);
    DecideLimiter(c, m, peer, now, ty, id);
    var log := Limits.Exec(Limits.START, sent, peer, c.minInterval).log;
    assert log == PassTimes(c, START, events, peer);
  }

  // ----- Bans and resources -----

  /** What an event does to the ban list: each call is a check, and a call that an allowed peer makes too
      early or beyond its limits is a warning, as is a no of the data hook. */
  function BanSent(c: Config, m: Manager, e: Event): seq<Banning.Event> {
    match e
    case Announce(peer, now, ty, id) =>
      var status := Decide(c, m, peer, now, ty, id).1;
      if c.disabled then []
      else if Banning.IsAllowed(m.bans, peer, now) && (status == RateLimited || status == Rejected) then
        [Banning.Check(peer, now), Banning.Warn(peer, now)]
      else [Banning.Check(peer, now)]
    case Settle(i, now, answer) =>
      if i < |m.calls| && m.calls[i].status == AwaitsData && answer == No then [Banning.Warn(m.calls[i].peer, now)]
      else []
    case BanEvent(ban, _) => [ban]
    case _ => []
  }

  /** What an event does to the tracker: a call counts when its peer is allowed and keeps the interval. */
  function TrackerSent(c: Config, m: Manager, e: Event): seq<Tracking.Event> {
    match e
    case Announce(peer, now, ty, id) =>
      if !c.disabled && Passes(c, m, e, peer) then [Tracking.Announced(peer, ty, id)] else []
    case RemoveResource(peer, _, ty, id) => [Tracking.Removed(peer, ty, id)]
    case _ => []
  }

  function AllBanSent(c: Config, m: Manager, events: seq<Event>): seq<Banning.Event>
    decreases |events|
  {
    if events == [] then [] else BanSent(c, m, events[0]) + AllBanSent(c, Step(c, m, events[0]), events[1..])
  }

  function AllTrackerSent(c: Config, m: Manager, events: seq<Event>): seq<Tracking.Event>
    decreases |events|
  {
    if events == [] then [] else TrackerSent(c, m, events[0]) + AllTrackerSent(c, Step(c, m, events[0]), events[1..])
  }

  /** The ban list after any run is that of the history sent to it, so who is allowed is decided by that
      history alone. */
  lemma BansAreHistory(c: Config, events: seq<Event>)
    ensures Exec(c, START, events).bans == Banning.Exec(AllBanSent(c, START, events))
  {
    var none: seq<Banning.Event> := [];
    BansFrom(c, START, events, none);
    assert none + AllBanSent(c, START, events) == AllBanSent(c, START, events);
  }

  lemma {:induction false} BansFrom(c: Config, m: Manager, events: seq<Event>, history: seq<Banning.Event>)
    requires m.bans == Banning.Exec(history)
    ensures Exec(c, m, events).bans == Banning.Exec(history + AllBanSent(c, m, events))
    decreases |events|
  {
    hide Step, BanSent, Banning.Exec;
    if events == [] {
      assert history + [] == history;
    } else {
      var e := events[0];
      StepBans(c, m, e, history);
      BansFrom(c, Step(c, m, e), events[1..], history + BanSent(c, m, e));
      var rest := AllBanSent(c, Step(c, m, e), events[1..]);
      assert history + BanSent(c, m, e) + rest == history + (BanSent(c, m, e) + rest);
    }
  }

  lemma StepBans(c: Config, m: Manager, e: Event, history: seq<Banning.Event>)
    requires m.bans == Banning.Exec(history)
    ensures Step(c, m, e).bans == Banning.Exec(history + BanSent(c, m, e))
  {
    hide Decide, Banning.Step, Banning.IsAllowed, Banning.Exec;
    assert history + [] == history;
    match e
    case Announce(peer, now, ty, id) =>
      var check, warn := Banning.Check(peer, now), Banning.Warn(peer, now);
      DecideBans(c, m, peer, now, ty, id);
      OneMore(history, check);
      OneMore(history + [check], warn);
      assert history + [check] + [warn] == history + [check, warn];
    case Settle(i, now, answer) =>
      if i < |m.calls| {
        OneMore(history, Banning.Warn(m.calls[i].peer, now));
      }
    case BanEvent(ban, _) => OneMore(history, ban);
    case _ =>
  }

  lemma OneMore(history: seq<Banning.Event>, e: Banning.Event)
    ensures Banning.Exec(history + [e]) == Banning.Step(Banning.Exec(history), e)
  {
    assert (history + [e])[..|history|] == history;
  }

  lemma DecideBans(c: Config, m: Manager, peer: string, now: int, ty: string, id: string)
    ensures var (m1, status, _) := Decide(c, m, peer, now, ty, id);
      var checked := Banning.Step(m.bans, Banning.Check(peer, now));
      m1.bans ==
        if c.disabled then m.bans
        else if Banning.IsAllowed(m.bans, peer, now) && (status == RateLimited || status == Rejected) then
          Banning.Step(checked, Banning.Warn(peer, now))
        else checked
  {
    hide Banning.Step, Banning.IsAllowed, Limits.CanAnnounce, Tracking.Announce, FindHooks;
  }

  /** The tracker after any run is that of the announcements and removals sent to it. */
  lemma {:induction false} TrackerIsRun(c: Config, m: Manager, events: seq<Event>)
    ensures Exec(c, m, events).tracker == Tracking.Exec(m.tracker, AllTrackerSent(c, m, events))
    decreases |events|
  {
    hide Step, TrackerSent, Tracking.Step;
    if events != [] {
      var e := events[0];
      var sent, rest := TrackerSent(c, m, e), AllTrackerSent(c, Step(c, m, e), events[1..]);
      StepTracker(c, m, e);
      TrackerIsRun(c, Step(c, m, e), events[1..]);
      if sent == [] {
        assert sent + rest == rest;
      } else {
        assert (sent + rest)[0] == sent[0] && (sent + rest)[1..] == rest;
      }
    }
  }

  lemma StepTracker(c: Config, m: Manager, e: Event)
    ensures var sent := TrackerSent(c, m, e);
      |sent| <= 1 && Step(c, m, e).tracker == if sent == [] then m.tracker else Tracking.Step(m.tracker, sent[0])
  {
    hide Decide, Banning.Step, Banning.IsAllowed, Tracking.Announce, Tracking.Remove;
    if e.Announce? {
      DecideTracker(c, m, e.peer, e.now, e.ty, e.id);
    }
  }

  lemma DecideTracker(c: Config, m: Manager, peer: string, now: int, ty: string, id: string)
    ensures var (m1, status, _) := Decide(c, m, peer, now, ty, id);
      m1.tracker ==
        if !c.disabled && Banning.IsAllowed(m.bans, peer, now) && status != RateLimited then
          Tracking.Announce(m.tracker, peer, ty, id).0
        else m.tracker
  {
    hide Banning.Step, Banning.IsAllowed, Limits.CanAnnounce, Tracking.Announce, FindHooks;
  }
}
