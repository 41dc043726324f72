/** The validator hooks of CoreSecurityManager (lib/p2p/security.ts): which ones a call gets, and what
    their answers make of it. */
module ManagerHooks {
  import opened Buffers
  import opened SecurityManager
  import Limits = RateLimiter
  import Tracking = ResourceTracker
  import Banning = PeerBans

  // ----- Which hooks -----

  predicate StartsWith(s: string, prefix: string) {
    |prefix| <= |s| && s[..|prefix|] == prefix
  }

  /** The hooks are those registered under the type itself; without any, those of the first registered
      name the type starts with; without any, none. */
  lemma FindHooksMeans(vs: seq<(string, Hooks)>, ty: string) returns (i: nat)
    ensures i <= |vs| && FindHooks(vs, ty) == if i < |vs| then vs[i].1 else Hooks(false, false)
    ensures (exists k :: 0 <= k < |vs| && vs[k].0 == ty) ==>
      i < |vs| && vs[i].0 == ty && forall k :: 0 <= k < i ==> vs[k].0 != ty
    ensures (forall k :: 0 <= k < |vs| ==> vs[k].0 != ty) ==>
      (i < |vs| ==> StartsWith(ty, vs[i].0)) && forall k :: 0 <= k < i ==> !StartsWith(ty, vs[k].0)
  {
    var a := LookupAt(vs, ty);
    var b := PrefixAt(vs, ty);
    i := if a < |vs| then a else b;
    assert a < |vs| ==> vs[a].0 == ty;
  }

  lemma {:induction false} LookupAt(vs: seq<(string, Hooks)>, name: string) returns (i: nat)
    ensures i <= |vs| && Lookup(vs, name) == if i < |vs| then Some(vs[i].1) else None
    ensures (i < |vs| ==> vs[i].0 == name) && forall k :: 0 <= k < i ==> vs[k].0 != name
  {
    if vs == [] || vs[0].0 == name {
      i := 0;
    } else {
      i := LookupAt(vs[1..], name);
      i := i + 1;
    }
  }

  lemma {:induction false} PrefixAt(vs: seq<(string, Hooks)>, ty: string) returns (i: nat)
    ensures i <= |vs| && FirstPrefix(vs, ty) == if i < |vs| then Some(vs[i].1) else None
    ensures (i < |vs| ==> StartsWith(ty, vs[i].0)) && forall k :: 0 <= k < i ==> !StartsWith(ty, vs[k].0)
  {
    if vs == [] || vs[0].0 <= ty {
      i := 0;
    } else {
      i := PrefixAt(vs[1..], ty);
      i := i + 1;
    }
  }

  /** A registration takes the place of the one with its name, or the last place, and changes nothing else. */
  lemma RegistrationMeans(c: Config, m: Manager, name: string, now: int, hooks: Hooks) returns (i: nat)
    ensures var vs, m1 := m.validators, Step(c, m, RegisterValidator(name, now, hooks));
      && i <= |vs| && (i < |vs| ==> vs[i].0 == name) && (forall k :: 0 <= k < i ==> vs[k].0 != name)
      && m1 == m.(validators := vs[..i] + [(name, hooks)] + if i < |vs| then vs[i + 1..] else [])
  {
    hide Register;
    i := LookupAt(m.validators, name);
    RegisterAt(m.validators, i, name, hooks);
  }

  // ----- How a call begins -----

  /** A new call goes behind the others. With the checks disabled it is accepted; otherwise, when peer,
      interval and limits allow it, it waits for the policy hook, or the data hook, or is accepted
      without hooks; the resource is tracked from then on and the limiter has it. */
  lemma CallBegins(c: Config, m: Manager, peer: string, now: int, ty: string, id: string)
    ensures var m1 := Step(c, m, Announce(peer, now, ty, id));
      var (l, spaced) := Limits.CanAnnounce(m.limiter, peer, c.minInterval, now);
      var (t, fits) := Tracking.Announce(m.tracker, peer, ty, id);
      var h := FindHooks(m.validators, ty);
      && |m1.calls| == |m.calls| + 1 && m1.calls[..|m.calls|] == m.calls && m1.validators == m.validators
      && m1.metrics.total == m.metrics.total + 1
      && (c.disabled ==> m1.calls[|m.calls|].status == Accepted && m1.limiter == m.limiter && m1.tracker == m.tracker)
      && (!c.disabled && Banning.IsAllowed(m.bans, peer, now) && spaced && fits ==>
            && m1.limiter == l && m1.tracker == t
            && m1.calls[|m.calls|] == Call(peer, now, h, if h.policy then AwaitsPolicy
                                                         else if h.data then AwaitsData else Accepted))
  {
    hide Banning.Step, Banning.IsAllowed, Limits.CanAnnounce, Tracking.Announce, FindHooks;
  }

  // ----- What answers do -----

  /** An answer counts once, for the waiting call it belongs to: a no is a rejection, and only a no of the
      data hook is also a warning. */
  lemma SettleMeans(c: Config, m: Manager, i: nat, now: int, answer: Answer)
    ensures var m1 := Step(c, m, Settle(i, now, answer));
      if i >= |m.calls| || !(m.calls[i].status == AwaitsPolicy || m.calls[i].status == AwaitsData) then m1 == m
      else
        var call, refused := m.calls[i], answer == No;
        && m1.metrics == m.metrics.(rejected := m.metrics.rejected + Extra(refused))
        && m1.limiter == m.limiter && m1.tracker == m.tracker && m1.validators == m.validators && m1.base == m.base
        && |m1.calls| == |m.calls| && (forall k :: 0 <= k < |m.calls| && k != i ==> m1.calls[k] == m.calls[k])
        && forall p :: Banning.Warnings(m1.bans, p) ==
             Banning.Warnings(m.bans, p) + Extra(refused && call.status == AwaitsData && p == call.peer)
  {
  }

  function Extra(b: bool): nat {
    if b then 1 else 0
  }

  /** The answers this call gets during a run, in order. */
  function AnswersTo(events: seq<Event>, i: nat): seq<Answer> {
    if events == [] then []
    else (if events[0].Settle? && events[0].call == i then [events[0].answer] else []) + AnswersTo(events[1..], i)
  }

  /** How many answers a call in this status can still use. */
  function Needed(call: Call): nat {
    match call.status
    case AwaitsPolicy => if call.hooks.data then 2 else 1
    case AwaitsData => 1
    case _ => 0
  }

  /** The first k answers are yes. */
  predicate AllYes(answers: seq<Answer>, k: nat) {
    k <= |answers| && forall j :: 0 <= j < k ==> answers[j] == Yes
  }

  /** The first answer that is no yes is this one, and it comes among those that are used. */
  predicate FirstOther(answers: seq<Answer>, needed: nat, other: Answer) {
    exists k :: 0 <= k < needed && k < |answers| && AllYes(answers, k) && answers[k] == other
  }

  /** Over every run, whatever interleaves, a call with its hooks still to come is accepted exactly when
      as many answers as it has hooks are yes, and is rejected, or throws, exactly when the first other
      one among them is a no, or throws; later answers change nothing. */
  lemma HooksDecide(c: Config, m: Manager, events: seq<Event>, i: nat)
    requires i < |m.calls| && Needed(m.calls[i]) > 0
    ensures var before, n := m.calls[i], Needed(m.calls[i]);
      var m1, answers := Exec(c, m, events), AnswersTo(events, i);
      && i < |m1.calls| && m1.calls[i] == before.(status := m1.calls[i].status)
      && (m1.calls[i].status == Accepted <==> AllYes(answers, n))
      && (m1.calls[i].status == Rejected <==> FirstOther(answers, n, No))
      && (m1.calls[i].status == Threw <==> FirstOther(answers, n, Throws))
      && (m1.calls[i].status == before.status <==> answers == [])
  {
    RunAnswers(c, m, events, i);
    ResultIff(m.calls[i], AnswersTo(events, i));
  }

  /** The call after these answers. */
  function Result(call: Call, answers: seq<Answer>): Call
    decreases |answers|
  {
    if answers == [] || Needed(call) == 0 then call
    else Result(call.(status := Next(call, answers[0])), answers[1..])
  }

  lemma StepAnswers(c: Config, m: Manager, e: Event, i: nat)
    requires i < |m.calls|
    ensures i < |Step(c, m, e).calls| && Step(c, m, e).calls[i] == Result(m.calls[i], AnswersTo([e], i))
  {
    hide Decide, Banning.Step, Register, Tracking.Remove, Limits.Cleanup;
  }

  lemma {:induction false} RunAnswers(c: Config, m: Manager, events: seq<Event>, i: nat)
    requires i < |m.calls|
    ensures i < |Exec(c, m, events).calls|
    ensures Exec(c, m, events).calls[i] == Result(m.calls[i], AnswersTo(events, i))
    decreases |events|
  {
    hide Step, Result, Exec, AnswersTo;
    if events == [] {
      ExecEmpty(c, m);
      NoAnswers(m.calls[i], i);
    } else {
      StepAnswers(c, m, events[0], i);
      RunAnswers(c, Step(c, m, events[0]), events[1..], i);
      AnswersCons(events, i);
      ResultThen(m.calls[i], AnswersTo([events[0]], i), AnswersTo(events[1..], i));
      ExecUnfold(c, m, events);
    }
  }

  lemma NoAnswers(call: Call, i: nat)
    ensures AnswersTo([], i) == [] && Result(call, []) == call
  {
  }

  lemma AnswersCons(events: seq<Event>, i: nat)
    requires events != []
    ensures AnswersTo(events, i) == AnswersTo([events[0]], i) + AnswersTo(events[1..], i)
    ensures |AnswersTo([events[0]], i)| <= 1
  {
    assert AnswersTo([events[0]][1..], i) == [];
  }

  lemma ResultThen(call: Call, a: seq<Answer>, b: seq<Answer>)
    requires |a| <= 1
    ensures Result(Result(call, a), b) == Result(call, a + b)
  {
    if a == [] {
      assert a + b == b;
    } else {
      assert (a + b)[0] == a[0] && (a + b)[1..] == b;
    }
  }

  lemma {:induction false} ResultIff(call: Call, answers: seq<Answer>)
    requires Needed(call) > 0
    ensures var r, n := Result(call, answers), Needed(call);
      && r == call.(status := r.status)
      && (r.status == Accepted <==> AllYes(answers, n))
      && (r.status == Rejected <==> FirstOther(answers, n, No))
      && (r.status == Threw <==> FirstOther(answers, n, Throws))
      && (r.status == call.status <==> answers == [])
  {
    if answers != [] {
      var after := call.(status := Next(call, answers[0]));
      var rest := answers[1..];
      assert forall j :: 0 <= j < |rest| ==> rest[j] == answers[j + 1];
      if Needed(after) > 0 {
        OneLeft(after, rest);
        assert AllYes(answers, 2) <==> AllYes(rest, 1);
        FirstOfTwo(answers, No);
        FirstOfTwo(answers, Throws);
      } else {
        assert Result(after, rest) == after;
        FirstOfOne(answers, No, Needed(call));
        FirstOfOne(answers, Throws, Needed(call));
      }
    }
  }

  lemma OneLeft(call: Call, answers: seq<Answer>)
    requires Needed(call) == 1
    ensures Result(call, answers) == if answers == [] then call else call.(status := Next(call, answers[0]))
  {
  }

  lemma FirstOfTwo(answers: seq<Answer>, other: Answer)
    requires answers != [] && answers[0] == Yes && other != Yes
    ensures FirstOther(answers, 2, other) <==> |answers| > 1 && answers[1] == other
  {
    assert |answers| > 1 ==> AllYes(answers, 1);
  }

  lemma FirstOfOne(answers: seq<Answer>, other: Answer, needed: nat)
    requires answers != [] && other != Yes && 1 <= needed && (needed == 1 || answers[0] != Yes)
    ensures FirstOther(answers, needed, other) <==> answers[0] == other
  {
    assert AllYes(answers, 0);
  }
}
