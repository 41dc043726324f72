/** CoreSecurityManager of lib/p2p/security.ts: bans, rate limit, resource limits and protocol
    validators in one asynchronous decision, with any number of decisions in flight at once. */
module SecurityManager {
  import opened Buffers
  import Limits = RateLimiter
  import Tracking = ResourceTracker
  import Banning = PeerBans

  /** The two optional hooks of a protocol validator. */
  datatype Hooks = Hooks(policy: bool, data: bool)

  const NO_HOOKS := Hooks(false, false)

  datatype Status = AwaitsPolicy | AwaitsData | Accepted | Rejected | RateLimited | Threw

  /** One call of `canAnnounceToDHT`, from its start to its settlement. */
  datatype Call = Call(peer: string, start: int, hooks: Hooks, status: Status)

  datatype Config = Config(disabled: bool, minInterval: int)

  datatype Metrics = Metrics(total: int, rejected: int, rateLimited: int)

  datatype Manager = Manager(
    limiter: Limits.Limiter,
    tracker: Tracking.Tracker,
    bans: Banning.Bans,
    validators: seq<(string, Hooks)>,
    metrics: Metrics,
    calls: seq<Call>,   // every call so far, settled or in flight
    base: seq<Call>)    // the same at the latest metrics reset

  const START := Manager(Limits.EMPTY, Tracking.EMPTY, Banning.EMPTY, [], Metrics(0, 0, 0), [], [])

  // ----- Validators -----

  function Lookup(vs: seq<(string, Hooks)>, name: string): Option<Hooks> {
    if vs == [] then None else if vs[0].0 == name then Some(vs[0].1) else Lookup(vs[1..], name)
  }

  function FirstPrefix(vs: seq<(string, Hooks)>, ty: string): Option<Hooks> {
    if vs == [] then None else if vs[0].0 <= ty then Some(vs[0].1) else FirstPrefix(vs[1..], ty)
  }

  /** `_findValidatorForResourceType`: an exact name first, then the earliest registered prefix. */
  function FindHooks(vs: seq<(string, Hooks)>, ty: string): Hooks {
    match Lookup(vs, ty)
    case Some(h) => h
    case None => match FirstPrefix(vs, ty)
                 case Some(h) => h
                 case None => NO_HOOKS
  }

  /** Registering a known name keeps its place in the order. */
  function Register(vs: seq<(string, Hooks)>, name: string, hooks: Hooks): seq<(string, Hooks)> {
    if vs == [] then [(name, hooks)]
    else if vs[0].0 == name then [(name, hooks)] + vs[1..]
    else [vs[0]] + Register(vs[1..], name, hooks)
  }

  /** A new registration goes where the name is, or to the end. */
  lemma {:induction false} RegisterAt(vs: seq<(string, Hooks)>, i: nat, name: string, hooks: Hooks)
    requires i <= |vs| && (i < |vs| ==> vs[i].0 == name)
    requires forall j :: 0 <= j < i ==> vs[j].0 != name
    ensures Register(vs, name, hooks) ==
      vs[..i] + [(name, hooks)] + if i < |vs| then vs[i + 1..] else []
  {
    if i > 0 {
      RegisterAt(vs[1..], i - 1, name, hooks);
      assert vs[..i] == [vs[0]] + vs[1..][..i - 1];
      assert i < |vs| ==> vs[1..][i..] == vs[i + 1..];
    }
  }

  /** The most recent registration of a name is the one an exact match finds, and it changes no
      other exact match. */
  lemma {:induction false} RegisterThenLookup(vs: seq<(string, Hooks)>, name: string, hooks: Hooks, other: string)
    ensures Lookup(Register(vs, name, hooks), other) == if other == name then Some(hooks) else Lookup(vs, other)
  {
    if vs != [] && vs[0].0 != name {
      RegisterThenLookup(vs[1..], name, hooks, other);
      assert Register(vs, name, hooks)[1..] == Register(vs[1..], name, hooks);
    }
  }

  // ----- Steps -----

  datatype Answer = Yes | No | Throws

  datatype Event =
    | Announce(peer: string, now: int, ty: string, id: string)
    | Settle(call: nat, now: int, answer: Answer)
    | RegisterValidator(name: string, now: int, hooks: Hooks)
    | BanEvent(ban: Banning.Event, now: int)
    | RemoveResource(peer: string, now: int, ty: string, id: string)
    | CleanupAt(now: int)
    | ResetMetrics(now: int)

  /** What a call becomes once every check before the validator has passed. */
  function FirstWait(h: Hooks): Status {
    if h.policy then AwaitsPolicy else if h.data then AwaitsData else Accepted
  }

  function Warned(m: Manager, peer: string, now: int): Manager {
    m.(bans := Banning.Step(m.bans, Banning.Warn(peer, now)))
  }

  function CountRejected(m: Manager): Manager {
    m.(metrics := m.metrics.(rejected := m.metrics.rejected + 1))
  }

  function CountLimited(m: Manager): Manager {
    m.(metrics := m.metrics.(rateLimited := m.metrics.rateLimited + 1))
  }

  /** `canAnnounceToDHT` up to its first wait: the new state, the status reached and the hooks. */
  function Decide(c: Config, m0: Manager, peer: string, now: int, ty: string, id: string): (Manager, Status, Hooks) {
    var m := m0.(metrics := m0.metrics.(total := m0.metrics.total + 1));
    if c.disabled then (m, Accepted, NO_HOOKS)
    else
      var m := m.(bans := Banning.Step(m.bans, Banning.Check(peer, now)));
      if !Banning.IsAllowed(m0.bans, peer, now) then (CountRejected(m), Rejected, NO_HOOKS)
      else
        var (l, spaced) := Limits.CanAnnounce(m.limiter, peer, c.minInterval, now);
        var m := m.(limiter := l);
        if !spaced then (Warned(CountLimited(m), peer, now), RateLimited, NO_HOOKS)
        else
          var (t, fits) := Tracking.Announce(m.tracker, peer, ty, id);
          var m := m.(tracker := t);
          if !fits then (Warned(CountRejected(m), peer, now), Rejected, NO_HOOKS)
          else
            var h := FindHooks(m.validators, ty);
            (m, FirstWait(h), h)
  }

  /** What the answer to the hook a call waits for makes of it. */
  function Next(call: Call, answer: Answer): Status {
    match answer
    case Throws => Threw
    case No => Rejected
    case Yes => if call.status == AwaitsPolicy && call.hooks.data then AwaitsData else Accepted
  }

  predicate Waiting(s: Status) {
    s == AwaitsPolicy || s == AwaitsData
  }

  function SettleCall(m: Manager, i: nat, answer: Answer, now: int): Manager
    requires i < |m.calls| && Waiting(m.calls[i].status)
  {
    var call := m.calls[i];
    var m1 := m.(calls := m.calls[i := call.(status := Next(call, answer))]);
    if answer != No then m1
    else if call.status == AwaitsData then Warned(CountRejected(m1), call.peer, now)
    else CountRejected(m1)
  }

  function Step(c: Config, m: Manager, e: Event): Manager {
    match e
    case Announce(peer, now, ty, id) =>
      var (m1, status, hooks) := Decide(c, m, peer, now, ty, id);
      m1.(calls := m.calls + [Call(peer, now, hooks, status)])
    case Settle(i, now, answer) =>
      if i < |m.calls| && Waiting(m.calls[i].status) then SettleCall(m, i, answer, now) else m
    case RegisterValidator(name, _, hooks) => m.(validators := Register(m.validators, name, hooks))
    case BanEvent(ban, _) => m.(bans := Banning.Step(m.bans, ban))
    case RemoveResource(peer, _, ty, id) => m.(tracker := Tracking.Remove(m.tracker, peer, ty, id))
    case CleanupAt(now) => m.(limiter := Limits.Cleanup(m.limiter, now))
    case ResetMetrics(_) => m.(metrics := Metrics(0, 0, 0), base := m.calls)
  }

  function Exec(c: Config, m: Manager, events: seq<Event>): Manager
    decreases |events|
  {
    if events == [] then m else Exec(c, Step(c, m, events[0]), events[1..])
  }

  // ----- Every call is counted once -----

  function Count(calls: seq<Call>, s: Status): nat {
    if calls == [] then 0
    else Count(calls[..|calls| - 1], s) + if calls[|calls| - 1].status == s then 1 else 0
  }

  function InFlight(calls: seq<Call>): nat {
    Count(calls, AwaitsPolicy) + Count(calls, AwaitsData)
  }

  /** Every call has exactly one status. */
  lemma {:induction false} Partition(calls: seq<Call>)
    ensures |calls| == Count(calls, Accepted) + Count(calls, Rejected) + Count(calls, RateLimited)
                       + Count(calls, Threw) + InFlight(calls)
  {
    if calls != [] {
      Partition(calls[..|calls| - 1]);
    }
  }

  lemma CountSnoc(calls: seq<Call>, call: Call, s: Status)
    ensures Count(calls + [call], s) == Count(calls, s) + if call.status == s then 1 else 0
  {
    assert (calls + [call])[..|calls|] == calls;
  }

  lemma {:induction false} CountUpdate(calls: seq<Call>, i: nat, call: Call, s: Status)
    requires i < |calls|
    ensures Count(calls[i := call], s) ==
      Count(calls, s) - (if calls[i].status == s then 1 else 0) + if call.status == s then 1 else 0
  {
    var n := |calls| - 1;
    var after := calls[i := call];
    if i == n {
      assert after[..n] == calls[..n];
    } else {
      CountUpdate(calls[..n], i, call, s);
      assert after[..n] == calls[..n][i := call];
    }
  }

  /** The counters are the changes of the call log since the latest reset. */
  ghost predicate Counted(m: Manager) {
    && m.metrics.total == |m.calls| - |m.base|
    && m.metrics.rejected == Count(m.calls, Rejected) - Count(m.base, Rejected)
    && m.metrics.rateLimited == Count(m.calls, RateLimited) - Count(m.base, RateLimited)
  }

  lemma DecideCounts(c: Config, m: Manager, peer: string, now: int, ty: string, id: string)
    ensures var (m1, status, _) := Decide(c, m, peer, now, ty, id);
      m1.metrics == Metrics(m.metrics.total + 1,
                            m.metrics.rejected + if status == Rejected then 1 else 0,
                            m.metrics.rateLimited + if status == RateLimited then 1 else 0)
      && m1.calls == m.calls && m1.base == m.base
  {
    hide Banning.Step, Banning.IsAllowed, Limits.CanAnnounce, Tracking.Announce, FindHooks;
  }

  lemma StepCounted(c: Config, m: Manager, e: Event)
    requires Counted(m)
    ensures Counted(Step(c, m, e))
  {
    hide Decide, Count, Banning.Step;
    match e
    case Announce(peer, now, ty, id) =>
      DecideCounts(c, m, peer, now, ty, id);
      var (_, status, hooks) := Decide(c, m, peer, now, ty, id);
      CountSnoc(m.calls, Call(peer, now, hooks, status), Rejected);
      CountSnoc(m.calls, Call(peer, now, hooks, status), RateLimited);
    case Settle(i, now, answer) =>
      if i < |m.calls| && Waiting(m.calls[i].status) {
        var call := m.calls[i];
        CountUpdate(m.calls, i, call.(status := Next(call, answer)), Rejected);
        CountUpdate(m.calls, i, call.(status := Next(call, answer)), RateLimited);
      }
    case _ =>
  }

  lemma {:induction false} ExecCounted(c: Config, m: Manager, events: seq<Event>)
    requires Counted(m)
    ensures Counted(Exec(c, m, events))
    decreases |events|
  {
    if events != [] {
      StepCounted(c, m, events[0]);
      ExecCounted(c, Step(c, m, events[0]), events[1..]);
    }
  }

  /** After any interleaving of calls, late validator answers, bans, cleanups and resets, the total
      of the metrics plus the calls that were in flight at the latest reset is what was accepted,
      rejected, rate limited or thrown out of since, plus what is in flight now. */
  lemma Conservation(c: Config, events: seq<Event>)
    ensures var m := Exec(c, START, events);
      m.metrics.total + InFlight(m.base) ==
      (Count(m.calls, Accepted) - Count(m.base, Accepted)) + m.metrics.rejected + m.metrics.rateLimited
      + (Count(m.calls, Threw) - Count(m.base, Threw)) + InFlight(m.calls)
  {
    hide Exec;
    ExecCounted(c, START, events);
    Partition(Exec(c, START, events).calls);
    Partition(Exec(c, START, events).base);
  }

  predicate Plain(e: Event) {
    !e.ResetMetrics? && !(e.Settle? && e.answer == Throws)
  }

  lemma {:induction false} PlainRuns(c: Config, m: Manager, events: seq<Event>)
    requires forall i :: 0 <= i < |events| ==> Plain(events[i])
    ensures Count(Exec(c, m, events).calls, Threw) == Count(m.calls, Threw)
    ensures Exec(c, m, events).base == m.base
    decreases |events|
  {
    if events != [] {
      var e := events[0];
      assert Plain(e);
      StepThrew(c, m, e);
      PlainRuns(c, Step(c, m, e), events[1..]);
    }
  }

  lemma StepThrew(c: Config, m: Manager, e: Event)
    requires Plain(e)
    ensures Count(Step(c, m, e).calls, Threw) == Count(m.calls, Threw) && Step(c, m, e).base == m.base
  {
    hide Count, Banning.Step, Limits.CanAnnounce, Tracking.Announce, FindHooks;
    match e
    case Announce(peer, now, ty, id) =>
      var (_, status, hooks) := Decide(c, m, peer, now, ty, id);
      CountSnoc(m.calls, Call(peer, now, hooks, status), Threw);
    case Settle(i, now, answer) =>
      if i < |m.calls| && Waiting(m.calls[i].status) {
        CountUpdate(m.calls, i, m.calls[i].(status := Next(m.calls[i], answer)), Threw);
      }
    case _ =>
  }

  /** Without resets and throwing hooks the total is accepted + rejected + rateLimited + in flight,
      and the two other counters are the numbers of calls refused in those two ways. */
  lemma PlainTotals(c: Config, events: seq<Event>)
    requires forall i :: 0 <= i < |events| ==> Plain(events[i])
    ensures var m := Exec(c, START, events);
      m.metrics.total == Count(m.calls, Accepted) + m.metrics.rejected + m.metrics.rateLimited + InFlight(m.calls)
      && m.metrics.rejected == Count(m.calls, Rejected) && m.metrics.rateLimited == Count(m.calls, RateLimited)
  {
    hide Exec;
    Conservation(c, events);
    PlainRuns(c, START, events);
    ExecCounted(c, START, events);
  }

  /** Over every run: the total is accepted + rejected + rateLimited, each since the latest reset,
      exactly when the calls in flight at that reset are as many as those that have thrown since and
      those in flight now. */
  lemma TotalsIff(c: Config, events: seq<Event>)
    ensures var m := Exec(c, START, events);
      m.metrics.total ==
        (Count(m.calls, Accepted) - Count(m.base, Accepted)) + m.metrics.rejected + m.metrics.rateLimited <==>
      InFlight(m.base) == (Count(m.calls, Threw) - Count(m.base, Threw)) + InFlight(m.calls)
  {
    hide Exec, Count, InFlight;
    Conservation(c, events);
  }

  /** A run in which the total misses a call: its validator hook throws. */
  lemma ThrownCallIsMissing(c: Config, peer: string, ty: string, id: string, now: int)
    requires !c.disabled
    ensures var m := Exec(c, START, [RegisterValidator(ty, now, Hooks(true, false)), Announce(peer, now, ty, id),
                                     Settle(0, now, Throws)]);
      && m.metrics == Metrics(1, 0, 0) && InFlight(m.calls) == 0 && m.base == []
      && Count(m.calls, Accepted) == 0 && Count(m.calls, Threw) == 1
  {
    hide Step, Count;
    var e1, e2 := RegisterValidator(ty, now, Hooks(true, false)), Announce(peer, now, ty, id);
    var call := Call(peer, now, Hooks(true, false), AwaitsPolicy);
    FirstCallWaits(c, peer, ty, id, now);
    var m2 := Step(c, Step(c, START, e1), e2);
    var m3 := Step(c, m2, Settle(0, now, Throws));
    SettledFirst(c, m2, call, Throws, now);
    ExecThree(c, e1, e2, Settle(0, now, Throws));
    CountOne(call.(status := Threw));
  }

  /** A run in which the total is short of a call: it was in flight when the metrics were reset. */
  lemma ResetCallIsMissing(c: Config, peer: string, ty: string, id: string, now: int)
    requires !c.disabled
    ensures var m := Exec(c, START, [RegisterValidator(ty, now, Hooks(true, false)), Announce(peer, now, ty, id),
                                     ResetMetrics(now), Settle(0, now, No)]);
      m.metrics == Metrics(0, 1, 0) && InFlight(m.calls) == 0 && InFlight(m.base) == 1
  {
    hide Step, Count;
    var e1, e2, e3 := RegisterValidator(ty, now, Hooks(true, false)), Announce(peer, now, ty, id), ResetMetrics(now);
    var call := Call(peer, now, Hooks(true, false), AwaitsPolicy);
    FirstCallWaits(c, peer, ty, id, now);
    var m2 := Step(c, Step(c, START, e1), e2);
    var m3 := Step(c, m2, e3);
    ResetKeepsCalls(c, m2, now);
    SettledFirst(c, m3, call, No, now);
    ExecThree(c, e1, e2, e3);
    ExecSnoc(c, START, [e1, e2, e3], Settle(0, now, No));
    assert [e1, e2, e3] + [Settle(0, now, No)] == [e1, e2, e3, Settle(0, now, No)];
    CountOne(call);
    CountOne(call.(status := Rejected));
  }

  lemma ResetKeepsCalls(c: Config, m: Manager, now: int)
    ensures Step(c, m, ResetMetrics(now)) == m.(metrics := Metrics(0, 0, 0), base := m.calls)
  {
  }

  lemma FirstCallWaits(c: Config, peer: string, ty: string, id: string, now: int)
    requires !c.disabled
    ensures var m := Step(c, Step(c, START, RegisterValidator(ty, now, Hooks(true, false))),
                          Announce(peer, now, ty, id));
      && m.metrics == Metrics(1, 0, 0) && m.base == []
      && m.calls == [Call(peer, now, Hooks(true, false), AwaitsPolicy)]
  {
    var m := Step(c, START, RegisterValidator(ty, now, Hooks(true, false)));
    assert m.validators == [(ty, Hooks(true, false))];
    assert FindHooks(m.validators, ty) == Hooks(true, false);
  }

  lemma SettledFirst(c: Config, m: Manager, call: Call, answer: Answer, now: int)
    requires m.calls == [call] && call.status == AwaitsPolicy && answer != Yes
    ensures var m1 := Step(c, m, Settle(0, now, answer));
      && m1.calls == [call.(status := if answer == No then Rejected else Threw)] && m1.base == m.base
      && m1.metrics == m.metrics.(rejected := m.metrics.rejected + if answer == No then 1 else 0)
  {
    assert m.calls[0 := call.(status := Next(call, answer))] == [call.(status := Next(call, answer))];
  }

  lemma CountOne(call: Call)
    ensures forall s :: Count([call], s) == if call.status == s then 1 else 0
    ensures Count([], AwaitsPolicy) == 0
  {
    forall s ensures Count([call], s) == if call.status == s then 1 else 0 {
      assert [call][..0] == [];
    }
  }

  lemma {:induction false} ExecSnoc(c: Config, m: Manager, events: seq<Event>, e: Event)
    ensures Exec(c, m, events + [e]) == Step(c, Exec(c, m, events), e)
    decreases |events|
  {
    hide Step;
    if events == [] {
      assert [] + [e] == [e] && [e][1..] == [];
      assert Exec(c, m, [e]) == Exec(c, Step(c, m, e), []);
    } else {
      ExecSnoc(c, Step(c, m, events[0]), events[1..], e);
      assert (events + [e])[1..] == events[1..] + [e];
    }
  }

  lemma ExecThree(c: Config, e1: Event, e2: Event, e3: Event)
    ensures Exec(c, START, [e1, e2, e3]) == Step(c, Step(c, Step(c, START, e1), e2), e3)
  {
    hide Step;
    ExecSnoc(c, START, [], e1);
    ExecSnoc(c, START, [e1], e2);
    ExecSnoc(c, START, [e1, e2], e3);
    assert [] + [e1] == [e1] && [e1] + [e2] == [e1, e2] && [e1, e2] + [e3] == [e1, e2, e3];
  }

  // ----- What each check decides -----

  /** The outcome of a call before any validator, in terms of the three collaborators alone, and
      who gets a warning for it: a rate-limited peer and one over its resource limits do, a banned
      peer does not. */
  lemma DecideIff(c: Config, m: Manager, peer: string, now: int, ty: string, id: string)
    requires !c.disabled
    ensures var (m1, status, _) := Decide(c, m, peer, now, ty, id);
      var allowed := Banning.IsAllowed(m.bans, peer, now);
      var spaced := Limits.CanAnnounce(m.limiter, peer, c.minInterval, now).1;
      var fits := Tracking.WithinLimits(m.tracker, peer, ty, id);
      && (status != Rejected && status != RateLimited <==> allowed && spaced && fits)
      && (status == RateLimited <==> allowed && !spaced)
      && (Banning.Warnings(m1.bans, peer) ==
          Banning.Warnings(m.bans, peer) + if allowed && !(spaced && fits) then 1 else 0)
      && m1.tracker == if allowed && spaced then Tracking.Announce(m.tracker, peer, ty, id).0 else m.tracker
  {
    hide Limits.CanAnnounce, Tracking.Announce, Tracking.WithinLimits, FindHooks;
    Tracking.AnnounceFrame(m.tracker, peer, ty, id, peer);
  }

  predicate ColonFreeEvent(e: Event) {
    e.Announce? || e.RemoveResource? ==> Tracking.ColonFree(e.ty)
  }

  lemma StepTracks(c: Config, m: Manager, e: Event, peer: string)
    requires Tracking.Inv(m.tracker, peer) && ColonFreeEvent(e)
    ensures Tracking.Inv(Step(c, m, e).tracker, peer)
  {
    hide Banning.Step, Banning.IsAllowed, Limits.CanAnnounce, Limits.Cleanup, Tracking.Inv, Tracking.Announce,
      Tracking.Remove,
      FindHooks, Register;
    match e
    case Announce(p, now, ty, id) => Tracking.StepInv(m.tracker, Tracking.Announced(p, ty, id), peer);
    case RemoveResource(p, now, ty, id) => Tracking.StepInv(m.tracker, Tracking.Removed(p, ty, id), peer);
    case _ =>
  }

  /** The tracker stays in agreement and within its limits inside the manager, whatever calls, late
      answers and bans do around it. */
  lemma {:induction false} ManagerTracks(c: Config, m: Manager, events: seq<Event>, peer: string)
    requires Tracking.Inv(m.tracker, peer)
    requires forall i :: 0 <= i < |events| ==> ColonFreeEvent(events[i])
    ensures Tracking.Inv(Exec(c, m, events).tracker, peer)
    decreases |events|
  {
    hide Step, Tracking.Inv;
    if events != [] {
      StepTracks(c, m, events[0], peer);
      ManagerTracks(c, Step(c, m, events[0]), events[1..], peer);
    }
  }

  // ----- Banned peers -----

  /** A banned peer's call is turned away at the door: it is counted, and it touches neither the
      rate limiter nor the resource tracker nor, except for time, its bans. */
  lemma BannedIsTurnedAway(c: Config, m: Manager, peer: string, now: int, ty: string, id: string)
    requires !c.disabled
    ensures var (m1, status, _) := Decide(c, m, peer, now, ty, id);
      !Banning.IsAllowed(m.bans, peer, now) ==>
      status == Rejected && m1 == m.(metrics := m1.metrics)
      && m1.metrics == Metrics(m.metrics.total + 1, m.metrics.rejected + 1, m.metrics.rateLimited)
  {
  }

  /** How often a peer was rate limited. */
  function LimitedCalls(calls: seq<Call>, peer: string): nat {
    if calls == [] then 0
    else
      var call := calls[|calls| - 1];
      LimitedCalls(calls[..|calls| - 1], peer) + if call.peer == peer && call.status == RateLimited then 1 else 0
  }

  lemma LimitedSnoc(calls: seq<Call>, call: Call, peer: string)
    ensures LimitedCalls(calls + [call], peer) ==
      LimitedCalls(calls, peer) + if call.peer == peer && call.status == RateLimited then 1 else 0
  {
    assert (calls + [call])[..|calls|] == calls;
  }

  lemma {:induction false} LimitedUpdate(calls: seq<Call>, i: nat, call: Call, peer: string)
    requires i < |calls| && calls[i].status != RateLimited && call.status != RateLimited
    ensures LimitedCalls(calls[i := call], peer) == LimitedCalls(calls, peer)
  {
    var n := |calls| - 1;
    var after := calls[i := call];
    if i == n {
      assert after[..n] == calls[..n];
    } else {
      LimitedUpdate(calls[..n], i, call, peer);
      assert after[..n] == calls[..n][i := call];
    }
  }

  predicate Unbans(e: Event, peer: string) {
    e.BanEvent? && e.ban.Unban? && e.ban.peer == peer
  }

  /** Each rate-limited call left a warning, and ten warnings are a ban. */
  ghost predicate WarnedEachTime(m: Manager, peer: string) {
    && Banning.Escalated(m.bans)
    && LimitedCalls(m.calls, peer) <= Banning.Warnings(m.bans, peer)
    && LimitedCalls(m.calls, peer) <= Banning.BAN_AFTER
  }

  lemma DecideWarns(c: Config, m: Manager, peer: string, now: int, ty: string, id: string, other: string)
    requires Banning.Escalated(m.bans)
    ensures var (m1, status, _) := Decide(c, m, peer, now, ty, id);
      && Banning.Escalated(m1.bans)
      && Banning.Warnings(m1.bans, other) >= Banning.Warnings(m.bans, other)
    ensures Decide(c, m, peer, now, ty, id).1 == RateLimited ==>
      && Banning.Warnings(m.bans, peer) < Banning.BAN_AFTER
      && Banning.Warnings(Decide(c, m, peer, now, ty, id).0.bans, peer) == Banning.Warnings(m.bans, peer) + 1
  {
    hide Limits.CanAnnounce, Tracking.Announce, FindHooks;
    if !c.disabled {
      DecideIff(c, m, peer, now, ty, id);
    }
    var checked := Banning.Step(m.bans, Banning.Check(peer, now));
    Banning.StepEscalated(m.bans, Banning.Check(peer, now), other);
    Banning.StepEscalated(checked, Banning.Warn(peer, now), other);
  }

  lemma StepWarned(c: Config, m: Manager, e: Event, peer: string)
    requires WarnedEachTime(m, peer) && !Unbans(e, peer)
    ensures WarnedEachTime(Step(c, m, e), peer)
  {
    hide Decide, LimitedCalls, Banning.Step, Banning.Warnings, Banning.Escalated;
    match e
    case Announce(p, now, ty, id) =>
      DecideWarns(c, m, p, now, ty, id, peer);
      DecideCounts(c, m, p, now, ty, id);
      var (_, status, hooks) := Decide(c, m, p, now, ty, id);
      LimitedSnoc(m.calls, Call(p, now, hooks, status), peer);
    case Settle(i, now, answer) =>
      if i < |m.calls| && Waiting(m.calls[i].status) {
        var call := m.calls[i];
        LimitedUpdate(m.calls, i, call.(status := Next(call, answer)), peer);
        Banning.StepEscalated(m.bans, Banning.Warn(call.peer, now), peer);
      }
    case BanEvent(ban, _) => Banning.StepEscalated(m.bans, ban, peer);
    case _ =>
  }

  /** A peer that nobody unbans is rate limited at most ten times, whatever else it does: the tenth
      warning is a ban for good, and from then on its calls are turned away before the limiter. */
  lemma {:induction false} LimitedAtMostTenTimes(c: Config, m: Manager, events: seq<Event>, peer: string)
    requires WarnedEachTime(m, peer)
    requires forall i :: 0 <= i < |events| ==> !Unbans(events[i], peer)
    ensures WarnedEachTime(Exec(c, m, events), peer)
    ensures LimitedCalls(Exec(c, m, events).calls, peer) <= 10
    decreases |events|
  {
    if events != [] {
      hide Step, WarnedEachTime;
      StepWarned(c, m, events[0], peer);
      LimitedAtMostTenTimes(c, Step(c, m, events[0]), events[1..], peer);
    }
  }

  // ----- A ban keeps a peer out -----

  /** The second state holds nothing of the peer that the first does not: no later time in the
      limiter, no further resource in the tracker; and every call it made in between was rejected. */
  ghost predicate NothingGained(m: Manager, r: Manager, peer: string) {
    && |m.calls| <= |r.calls|
    && (forall i :: |m.calls| <= i < |r.calls| && r.calls[i].peer == peer ==> r.calls[i].status == Rejected)
    && (peer in r.limiter.last ==> peer in m.limiter.last && r.limiter.last[peer] == m.limiter.last[peer])
    && Limits.Count(r.limiter, peer) <= Limits.Count(m.limiter, peer)
    && Tracking.FlatSet(r.tracker, peer) <= Tracking.FlatSet(m.tracker, peer)
    && Tracking.Pairs(r.tracker, peer) <= Tracking.Pairs(m.tracker, peer)
  }

  lemma OthersLimits(l: Limits.Limiter, p: string, m: int, now: int, peer: string)
    requires p != peer
    ensures var l1 := Limits.CanAnnounce(l, p, m, now).0;
      (peer in l1.last <==> peer in l.last) && (peer in l.last ==> l1.last[peer] == l.last[peer])
      && Limits.Count(l1, peer) == Limits.Count(l, peer)
  {
  }

  /** What one call does to a peer: nothing if another peer makes it or the peer is blacklisted, and
      the blacklist loses nobody. */
  lemma DecideOthers(c: Config, m: Manager, p: string, now: int, ty: string, id: string, peer: string)
    requires !c.disabled && peer in m.bans.blacklist
    ensures var (m1, status, _) := Decide(c, m, p, now, ty, id);
      && peer in m1.bans.blacklist && (p == peer ==> status == Rejected)
      && (peer in m1.limiter.last ==> peer in m.limiter.last && m1.limiter.last[peer] == m.limiter.last[peer])
      && Limits.Count(m1.limiter, peer) == Limits.Count(m.limiter, peer)
      && Tracking.FlatSet(m1.tracker, peer) == Tracking.FlatSet(m.tracker, peer)
      && Tracking.Pairs(m1.tracker, peer) == Tracking.Pairs(m.tracker, peer)
  {
    hide Limits.CanAnnounce, Limits.Count, Tracking.Announce, Tracking.FlatSet, Tracking.PairsOf, Tracking.Types,
      FindHooks;
    if p != peer {
      OthersLimits(m.limiter, p, c.minInterval, now, peer);
      Tracking.AnnounceFrame(m.tracker, p, ty, id, peer);
    } else {
      BannedIsTurnedAway(c, m, p, now, ty, id);
    }
  }

  lemma StepKeepsOut(c: Config, m: Manager, e: Event, peer: string)
    requires !c.disabled && peer in m.bans.blacklist && !Unbans(e, peer)
    ensures peer in Step(c, m, e).bans.blacklist && NothingGained(m, Step(c, m, e), peer)
  {
    hide Decide, Banning.Step, Tracking.FlatSet, Tracking.Pairs, Tracking.Remove, Register;
    match e
    case Announce(p, now, ty, id) =>
      DecideOthers(c, m, p, now, ty, id, peer);
      DecideCounts(c, m, p, now, ty, id);
    case Settle(i, now, answer) =>
      if i < |m.calls| && Waiting(m.calls[i].status) {
        StaysBanned(m.bans, Banning.Warn(m.calls[i].peer, now), peer);
      }
    case BanEvent(ban, _) => StaysBanned(m.bans, ban, peer);
    case RemoveResource(p, _, ty, id) => RemoveGainsNothing(m.tracker, p, ty, id, peer);
    case _ =>
  }

  lemma StaysBanned(b: Banning.Bans, e: Banning.Event, peer: string)
    requires peer in b.blacklist && !(e.Unban? && e.peer == peer)
    ensures peer in Banning.Step(b, e).blacklist
  {
  }

  lemma RemoveGainsNothing(t: Tracking.Tracker, p: string, ty: string, id: string, peer: string)
    ensures Tracking.FlatSet(Tracking.Remove(t, p, ty, id), peer) <= Tracking.FlatSet(t, peer)
    ensures Tracking.Pairs(Tracking.Remove(t, p, ty, id), peer) <= Tracking.Pairs(t, peer)
  {
    hide Tracking.Remove, Tracking.FlatSet, Tracking.PairsOf, Tracking.Types;
    if p == peer {
      Tracking.RemovePairs(t, p, ty, id);
    } else {
      Tracking.RemoveFrame(t, p, ty, id, peer);
    }
  }

  /** A blacklisted peer gets nothing until somebody unbans it: in every run without that, each of
      its calls is rejected, its last accepted time never moves on, and no resource is added to what
      the tracker holds for it, whatever other peers and late answers do. */
  lemma {:induction false} BannedStaysOut(c: Config, m: Manager, events: seq<Event>, peer: string)
    requires !c.disabled && peer in m.bans.blacklist
    requires forall i :: 0 <= i < |events| ==> !Unbans(events[i], peer)
    ensures peer in Exec(c, m, events).bans.blacklist && NothingGained(m, Exec(c, m, events), peer)
    decreases |events|
  {
    if events != [] {
      var m1 := Step(c, m, events[0]);
      var r := Exec(c, m1, events[1..]);
      hide Step, Tracking.FlatSet, Tracking.Pairs, Limits.Count, Exec;
      StepKeepsOut(c, m, events[0], peer);
      BannedStaysOut(c, m1, events[1..], peer);
      CallsBefore(c, m1, events[1..]);
      ExecUnfold(c, m, events);
      CallsKeepPeer(m, m1, r, peer);
    } else {
      ExecEmpty(c, m);
    }
  }

  lemma ExecUnfold(c: Config, m: Manager, events: seq<Event>)
    requires events != []
    ensures Exec(c, m, events) == Exec(c, Step(c, m, events[0]), events[1..])
  {
    hide Step;
  }

  lemma ExecEmpty(c: Config, m: Manager)
    ensures Exec(c, m, []) == m
  {
  }

  /** Calls once made keep their peer, and a refused one stays refused. */
  ghost predicate Extends(before: seq<Call>, after: seq<Call>) {
    && |before| <= |after|
    && forall i :: 0 <= i < |before| ==>
         after[i].peer == before[i].peer && (!Waiting(before[i].status) ==> after[i] == before[i])
  }

  lemma StepExtends(c: Config, m: Manager, e: Event)
    ensures Extends(m.calls, Step(c, m, e).calls)
  {
    hide Decide, Banning.Step, Tracking.Remove, Limits.Cleanup, Register;
  }

  lemma {:induction false} CallsBefore(c: Config, m: Manager, events: seq<Event>)
    ensures Extends(m.calls, Exec(c, m, events).calls)
    decreases |events|
  {
    if events != [] {
      hide Step;
      StepExtends(c, m, events[0]);
      CallsBefore(c, Step(c, m, events[0]), events[1..]);
    }
  }

  lemma CallsKeepPeer(m: Manager, m1: Manager, r: Manager, peer: string)
    requires NothingGained(m, m1, peer) && NothingGained(m1, r, peer) && Extends(m1.calls, r.calls)
    ensures NothingGained(m, r, peer)
  {
    hide Tracking.FlatSet, Tracking.Pairs, Limits.Count;
    forall i | |m.calls| <= i < |r.calls| && r.calls[i].peer == peer
      ensures r.calls[i].status == Rejected
    {
      assert i < |m1.calls| ==> m1.calls[i].status == Rejected;
    }
  }

  // ----- From a fresh manager -----

  lemma StartIsGood(peer: string)
    ensures Counted(START) && WarnedEachTime(START, peer)
  {
  }

  /** In every run of a fresh manager the counters are the changes of the call log, and a peer nobody
      unbans is rate limited at most ten times. */
  lemma EveryRun(c: Config, events: seq<Event>, peer: string)
    ensures Counted(Exec(c, START, events))
    ensures (forall i :: 0 <= i < |events| ==> !Unbans(events[i], peer)) ==>
      LimitedCalls(Exec(c, START, events).calls, peer) <= 10
  {
    hide Exec, Counted, WarnedEachTime;
    StartIsGood(peer);
    ExecCounted(c, START, events);
    if forall i :: 0 <= i < |events| ==> !Unbans(events[i], peer) {
      LimitedAtMostTenTimes(c, START, events, peer);
    }
  }

  // ----- Rate of accepted calls -----

  /** The limiter let this call pass and nothing refused it. */
  predicate Passed(call: Call, peer: string) {
    call.peer == peer && call.status != Rejected && call.status != RateLimited
  }

  ghost predicate Apart(calls: seq<Call>, peer: string, m: int) {
    forall i, j :: 0 <= i < j < |calls| && Passed(calls[i], peer) && Passed(calls[j], peer) ==>
      calls[j].start - calls[i].start >= m
  }

  /** The limiter remembers a time no earlier than any call it let pass, or those calls are old. */
  ghost predicate Remembered(l: Limits.Limiter, calls: seq<Call>, peer: string, clock: int) {
    forall i :: 0 <= i < |calls| && Passed(calls[i], peer) ==>
      calls[i].start <= clock
      && if peer in l.last then l.last[peer] >= calls[i].start && l.last[peer] > 0
         else clock - calls[i].start > Limits.MAX_AGE
  }

  ghost predicate RateInv(m: Manager, peer: string, interval: int, clock: int) {
    clock > 0 && Apart(m.calls, peer, interval) && Remembered(m.limiter, m.calls, peer, clock)
  }

  /** What a call may do to the rate limiter. */
  lemma DecideLimits(c: Config, m: Manager, peer: string, now: int, ty: string, id: string)
    requires !c.disabled
    ensures var (m1, status, _) := Decide(c, m, peer, now, ty, id);
      var (l, spaced) := Limits.CanAnnounce(m.limiter, peer, c.minInterval, now);
      (m1.limiter == m.limiter || (spaced && m1.limiter == l))
      && (status == Rejected || status == RateLimited || (spaced && m1.limiter == l))
  {
    hide Banning.Step, Banning.IsAllowed, Tracking.Announce, FindHooks;
  }

  /** A new call: if the limiter let it pass, it is far enough from every earlier one that passed. */
  lemma CallRate(m: Manager, l: Limits.Limiter, call: Call, peer: string, interval: int, clock: int)
    requires interval <= Limits.MAX_AGE + 1 && RateInv(m, peer, interval, clock) && call.start >= clock
    requires var (l1, spaced) := Limits.CanAnnounce(m.limiter, call.peer, interval, call.start);
      && (l == m.limiter || (spaced && l == l1))
      && (call.status == Rejected || call.status == RateLimited || (spaced && l == l1))
    ensures Apart(m.calls + [call], peer, interval) && Remembered(l, m.calls + [call], peer, call.start)
  {
    var all := m.calls + [call];
    forall i | 0 <= i < |m.calls|
      ensures all[i] == m.calls[i]
    {
    }
  }

  lemma AnnounceRate(c: Config, m: Manager, p: string, now: int, ty: string, id: string, peer: string, clock: int)
    requires !c.disabled && c.minInterval <= Limits.MAX_AGE + 1
    requires RateInv(m, peer, c.minInterval, clock) && now >= clock
    ensures RateInv(Step(c, m, Announce(p, now, ty, id)), peer, c.minInterval, now)
  {
    hide Decide, Limits.CanAnnounce, Apart, Remembered;
    var (m1, status, hooks) := Decide(c, m, p, now, ty, id);
    DecideLimits(c, m, p, now, ty, id);
    DecideCounts(c, m, p, now, ty, id);
    CallRate(m, m1.limiter, Call(p, now, hooks, status), peer, c.minInterval, clock);
  }

  /** A settled call can only leave the set of calls that passed. */
  lemma SettleRate(m: Manager, i: nat, answer: Answer, now: int, peer: string, interval: int, clock: int)
    requires i < |m.calls| && Waiting(m.calls[i].status)
    requires RateInv(m, peer, interval, clock) && now >= clock
    ensures RateInv(SettleCall(m, i, answer, now), peer, interval, now)
  {
    hide Banning.Step;
    var m1 := SettleCall(m, i, answer, now);
    forall j | 0 <= j < |m.calls|
      ensures Passed(m1.calls[j], peer) ==> Passed(m.calls[j], peer)
      ensures m1.calls[j].start == m.calls[j].start
    {
    }
  }

  lemma CleanupRate(m: Manager, now: int, peer: string, interval: int, clock: int)
    requires RateInv(m, peer, interval, clock) && now >= clock
    ensures RateInv(m.(limiter := Limits.Cleanup(m.limiter, now)), peer, interval, now)
  {
    hide Apart, Passed;
  }

  lemma LaterRate(m: Manager, m1: Manager, now: int, peer: string, interval: int, clock: int)
    requires RateInv(m, peer, interval, clock) && now >= clock
    requires m1.calls == m.calls && m1.limiter == m.limiter
    ensures RateInv(m1, peer, interval, now)
  {
    hide Apart, Passed;
  }

  lemma StepRate(c: Config, m: Manager, e: Event, peer: string, clock: int)
    requires !c.disabled && c.minInterval <= Limits.MAX_AGE + 1
    requires RateInv(m, peer, c.minInterval, clock) && e.now >= clock
    ensures RateInv(Step(c, m, e), peer, c.minInterval, e.now)
  {
    hide Decide, Banning.Step, Tracking.Remove, Register, RateInv, Limits.Cleanup, SettleCall;
    match e
    case Announce(p, now, ty, id) => AnnounceRate(c, m, p, now, ty, id, peer, clock);
    case Settle(i, now, answer) =>
      if i < |m.calls| && Waiting(m.calls[i].status) {
        SettleRate(m, i, answer, now, peer, c.minInterval, clock);
      } else {
        LaterRate(m, m, now, peer, c.minInterval, clock);
      }
    case CleanupAt(now) => CleanupRate(m, now, peer, c.minInterval, clock);
    case _ => LaterRate(m, Step(c, m, e), e.now, peer, c.minInterval, clock);
  }

  ghost predicate ClockOk(clock: int, events: seq<Event>)
    decreases |events|
  {
    clock > 0 && (events == [] || (events[0].now >= clock && ClockOk(events[0].now, events[1..])))
  }

  lemma {:induction false} ExecApart(c: Config, m: Manager, events: seq<Event>, peer: string, clock: int)
    requires !c.disabled && c.minInterval <= Limits.MAX_AGE + 1
    requires RateInv(m, peer, c.minInterval, clock) && ClockOk(clock, events)
    ensures Apart(Exec(c, m, events).calls, peer, c.minInterval)
    decreases |events|
  {
    if events != [] {
      hide Step;
      StepRate(c, m, events[0], peer, clock);
      ExecApart(c, Step(c, m, events[0]), events[1..], peer, events[0].now);
    }
  }

  /** How many calls of a peer that started in a closed window were not refused. */
  function PassedIn(calls: seq<Call>, peer: string, from: int, to: int): nat {
    if calls == [] then 0
    else
      var call := calls[|calls| - 1];
      PassedIn(calls[..|calls| - 1], peer, from, to)
      + if Passed(call, peer) && from <= call.start <= to then 1 else 0
  }

  lemma {:induction false} ApartBounds(calls: seq<Call>, peer: string, m: int, from: int, to: int)
    requires Apart(calls, peer, m) && m > 0 && from <= to
    ensures PassedIn(calls, peer, from, to) <= (to - from) / m + 1
    decreases |calls|
  {
    hide Passed, Apart;
    if calls != [] {
      var n := |calls| - 1;
      var rest, call := calls[..n], calls[n];
      ApartPrefix(calls, peer, m);
      if Passed(call, peer) && from <= call.start <= to {
        if call.start - m >= from {
          NoneAfter(calls, peer, m, from, call.start - m, to);
          ApartBounds(rest, peer, m, from, call.start - m);
          OneMore(call.start - m - from, to - from, m);
        } else {
          NoneLeft(calls, peer, m, from, to);
          assert (to - from) / m >= 0;
        }
      } else {
        ApartBounds(rest, peer, m, from, to);
      }
    }
  }

  lemma ApartPrefix(calls: seq<Call>, peer: string, m: int)
    requires calls != [] && Apart(calls, peer, m)
    ensures Apart(calls[..|calls| - 1], peer, m)
  {
  }

  lemma OneMore(a: nat, b: int, m: int)
    requires m > 0 && a + m <= b
    ensures a / m + 1 <= b / m
  {
    Limits.Quotient(a / m + 1, m, b);
  }

  /** Earlier calls than the last one that passed started at least m before it. */
  lemma NoneAfter(calls: seq<Call>, peer: string, m: int, from: int, to: int, end: int)
    requires calls != [] && Apart(calls, peer, m)
    requires var call := calls[|calls| - 1]; Passed(call, peer) && to == call.start - m
    requires to <= end
    ensures PassedIn(calls[..|calls| - 1], peer, from, end) == PassedIn(calls[..|calls| - 1], peer, from, to)
  {
    var rest := calls[..|calls| - 1];
    SameWindow(rest, peer, from, to, end);
  }

  lemma NoneLeft(calls: seq<Call>, peer: string, m: int, from: int, to: int)
    requires calls != [] && Apart(calls, peer, m)
    requires var call := calls[|calls| - 1]; Passed(call, peer) && call.start - m < from
    ensures PassedIn(calls[..|calls| - 1], peer, from, to) == 0
  {
    EmptyWindow(calls[..|calls| - 1], peer, from, to);
  }

  lemma {:induction false} SameWindow(calls: seq<Call>, peer: string, from: int, to: int, end: int)
    requires to <= end
    requires forall i :: 0 <= i < |calls| && Passed(calls[i], peer) ==> calls[i].start <= to
    ensures PassedIn(calls, peer, from, end) == PassedIn(calls, peer, from, to)
  {
    if calls != [] {
      SameWindow(calls[..|calls| - 1], peer, from, to, end);
    }
  }

  lemma {:induction false} EmptyWindow(calls: seq<Call>, peer: string, from: int, to: int)
    requires forall i :: 0 <= i < |calls| && Passed(calls[i], peer) ==> calls[i].start < from
    ensures PassedIn(calls, peer, from, to) == 0
  {
    if calls != [] {
      EmptyWindow(calls[..|calls| - 1], peer, from, to);
    }
  }

  /** With rate limiting on, whatever the interleaving with other peers, late answers, bans and
      cleanups, the calls of one peer that started in a closed window of length w and were not
      refused are at most w / m + 1. */
  lemma AcceptedRate(c: Config, events: seq<Event>, peer: string, from: int, to: int)
    requires !c.disabled && 0 < c.minInterval <= Limits.MAX_AGE + 1
    requires ClockOk(1, events) && from <= to
    ensures PassedIn(Exec(c, START, events).calls, peer, from, to) <= (to - from) / c.minInterval + 1
  {
    hide Exec;
    ExecApart(c, START, events, peer, 1);
    ApartBounds(Exec(c, START, events).calls, peer, c.minInterval, from, to);
  }
}
