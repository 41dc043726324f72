/** What one event means for one peer of lib/p2p/bootstrap-manager.ts: whether it is tracked, dialled,
    connected, counted and waited for, and how long. */
module BootstrapRules {
  import opened Buffers
  import opened Bootstrap

  // ----- Peer ids -----

  /** The parts with the separator between each two. */
  function Join(parts: seq<string>): string {
    if parts == [] then "" else if |parts| == 1 then parts[0] else parts[0] + "/p2p/" + Join(parts[1..])
  }

  predicate SeparatorAt(s: string, j: nat) {
    j + 5 <= |s| && s[j..j + 5] == "/p2p/"
  }

  /** The separator is nowhere in s before position k. */
  predicate NoneBefore(s: string, k: nat) {
    forall j :: 0 <= j < k ==> !SeparatorAt(s, j)
  }

  /** What `split('/p2p/')` gives: parts that join to the text, each ending at the first separator. */
  predicate IsSplit(parts: seq<string>, s: string) {
    && parts != [] && Join(parts) == s
    && (forall i :: 0 <= i < |parts| - 1 ==> NoneBefore(parts[i] + "/p2p/", |parts[i]|))
    && NoneBefore(parts[|parts| - 1], |parts[|parts| - 1]|)
  }

  /** The peer id of an address is the last part of its split, if that has two parts and the last is not
      empty. */
  lemma PeerIdMeans(addr: string) returns (parts: seq<string>)
    ensures IsSplit(parts, addr)
    ensures PeerIdOf(addr) ==
      if |parts| >= 2 && parts[|parts| - 1] != "" then Some(parts[|parts| - 1]) else None
  {
    parts := SplitOf(addr);
  }

  lemma {:induction false} SplitOf(s: string) returns (parts: seq<string>)
    ensures IsSplit(parts, s) && parts != [] && (|parts| == 1 ==> parts[0] == s)
    ensures LastPart(s) == if |parts| >= 2 then Some(parts[|parts| - 1]) else None
    decreases |s|
  {
    hide IsSplit;
    if |s| < 5 {
      parts := [s];
      OnePart(s);
    } else if s[..5] == "/p2p/" {
      var rest := SplitOf(s[5..]);
      parts := [""] + rest;
      EmptyFirst(s, rest);
    } else {
      var rest := SplitOf(s[1..]);
      parts := [[s[0]] + rest[0]] + rest[1..];
      LongerFirst(s, rest);
    }
  }

  lemma OnePart(s: string)
    requires |s| < 5
    ensures IsSplit([s], s)
  {
  }

  lemma EmptyFirst(s: string, rest: seq<string>)
    requires |s| >= 5 && s[..5] == "/p2p/" && IsSplit(rest, s[5..])
    ensures IsSplit([""] + rest, s)
  {
    var parts := [""] + rest;
    assert parts[1..] == rest && s == s[..5] + s[5..];
    assert Join(parts) == "" + "/p2p/" + s[5..];
    assert forall i :: 1 <= i < |parts| ==> parts[i] == rest[i - 1];
  }

  /** A first character that does not begin a separator goes to the first part. */
  lemma LongerFirst(s: string, rest: seq<string>)
    requires |s| >= 5 && s[..5] != "/p2p/" && IsSplit(rest, s[1..])
    ensures IsSplit([[s[0]] + rest[0]] + rest[1..], s)
  {
    var parts := [[s[0]] + rest[0]] + rest[1..];
    var first := parts[0];
    if |rest| == 1 {
      assert first == s;
      Shifted(s[0], s[1..], |s| - 1);
    } else {
      assert parts[1..] == rest[1..];
      var tail := "/p2p/" + Join(rest[1..]);
      assert rest[0] + "/p2p/" + Join(rest[1..]) == rest[0] + tail;
      assert s == [s[0]] + (rest[0] + tail) == first + tail;
      assert Join(parts) == first + "/p2p/" + Join(rest[1..]) == first + tail;
      var cut := first + "/p2p/";
      assert cut[..5] == s[..5];
      assert cut == [s[0]] + (rest[0] + "/p2p/");
      Shifted(s[0], rest[0] + "/p2p/", |rest[0]|);
      assert forall i :: 1 <= i < |parts| ==> parts[i] == rest[i];
    }
  }

  lemma Shifted(c: char, s: string, k: nat)
    requires NoneBefore(s, k) && |s| >= 4 && ([c] + s)[..5] != "/p2p/"
    ensures NoneBefore([c] + s, k + 1)
  {
    var t := [c] + s;
    forall j | 0 <= j < k + 1 ensures !SeparatorAt(t, j) {
      if 0 < j && j + 5 <= |t| {
        assert t[j..j + 5] == s[j - 1..j + 4];
        assert !SeparatorAt(s, j - 1);
      }
    }
  }

  // ----- Delays -----

  /** The delay before jitter starts at the base, doubles with each attempt and is capped. */
  lemma BackoffDoubles(cfg: Config, attempts: nat)
    requires ValidConfig(cfg)
    ensures BackoffBase(cfg, 0) == if cfg.baseDelay <= cfg.maxDelay then cfg.baseDelay else cfg.maxDelay
    ensures var twice := 2.0 * BackoffBase(cfg, attempts);
      BackoffBase(cfg, attempts + 1) == if twice <= cfg.maxDelay then twice else cfg.maxDelay
  {
    var d := cfg.baseDelay * Pow2(attempts);
    assert cfg.baseDelay * Pow2(attempts + 1) == 2.0 * d;
    NonNegative(cfg.baseDelay, Pow2(attempts));
    assert Pow2(0) == 1.0;
  }

  function Times(a: real, b: real): real {
    a * b
  }

  /** The jitter moves the delay by at most half its share, symmetrically, and never below zero. */
  lemma JitterMeans(cfg: Config, attempts: nat, random: Random)
    requires ValidConfig(cfg)
    ensures var base, delay := BackoffBase(cfg, attempts), Delay(cfg, attempts, random);
      var d := Times(base, 1.0 + cfg.jitter * (random - 0.5));
      && delay == (if d < 0.0 then 0.0 else d) && (random == 0.5 ==> delay == base)
      && Times(base, 1.0 - cfg.jitter / 2.0) <= delay <= Times(base, 1.0 + cfg.jitter / 2.0)
  {
    hide BackoffBase, Times, Delay;
    BaseIsPositive(cfg, attempts);
    Drawn(cfg, attempts, random);
    Spread(BackoffBase(cfg, attempts), cfg.jitter, random);
  }

  lemma Spread(base: real, jitter: real, random: Random)
    requires base >= 0.0 && jitter >= 0.0
    ensures random == 0.5 ==> Times(base, 1.0 + jitter * (random - 0.5)) == base
    ensures Times(base, 1.0 - jitter / 2.0) <= Times(base, 1.0 + jitter * (random - 0.5))
    ensures Times(base, 1.0 + jitter * (random - 0.5)) <= Times(base, 1.0 + jitter / 2.0)
    ensures Times(base, 1.0 + jitter / 2.0) >= 0.0
  {
    var y := jitter * (random - 0.5);
    ScaleMonotone(jitter, -0.5, random - 0.5);
    ScaleMonotone(jitter, random - 0.5, 0.5);
    ScaleMonotone(base, 1.0 - jitter / 2.0, 1.0 + y);
    ScaleMonotone(base, 1.0 + y, 1.0 + jitter / 2.0);
    NonNegative(base, 1.0 + jitter / 2.0);
    assert random == 0.5 ==> y == 0.0;
  }

  lemma Distribute(base: real, jitter: real, random: Random)
    ensures base + base * jitter * (random - 0.5) == Times(base, 1.0 + jitter * (random - 0.5))
  {
    var x := random - 0.5;
    assert base * jitter * x == base * (jitter * x);
  }

  lemma BaseIsPositive(cfg: Config, attempts: nat)
    requires ValidConfig(cfg)
    ensures BackoffBase(cfg, attempts) >= 0.0
  {
    NonNegative(cfg.baseDelay, Pow2(attempts));
  }

  lemma Drawn(cfg: Config, attempts: nat, random: Random)
    ensures var delay := Times(BackoffBase(cfg, attempts), 1.0 + cfg.jitter * (random - 0.5));
      Delay(cfg, attempts, random) == if delay >= 0.0 then delay else 0.0
  {
    hide BackoffBase;
    Distribute(BackoffBase(cfg, attempts), cfg.jitter, random);
  }

  // ----- Every peer on its own -----

  /** All that the manager and the network hold for one peer. */
  datatype View = View(record: Option<Connection>, timer: Option<real>, dials: nat, live: bool)

  function ViewOf(s: State, q: string): View {
    View(if q in s.peers then Some(s.peers[q]) else None, if q in s.timers then Some(s.timers[q]) else None,
         s.dials[q], q in s.live)
  }

  /** Another try, unless none is left. */
  function Retried(cfg: Config, v: View, random: Random): View {
    if v.record.None? || (cfg.maxAttempts.Some? && v.record.value.reconnectAttempts >= cfg.maxAttempts.value) then v
    else
      var n := v.record.value.reconnectAttempts;
      v.(record := Some(v.record.value.(reconnectAttempts := n + 1)), timer := Some(Delay(cfg, n, random)))
  }

  /** A tracked peer's connection is gone; only a started manager tries again. */
  function Dropped(cfg: Config, v: View, started: bool, random: Random): View {
    if v.record.None? then v
    else
      var v1 := v.(record := Some(v.record.value.(isConnected := false)));
      if started then Retried(cfg, v1, random) else v1
  }

  /** A connection opens; a manager with a node hears of it. */
  function Opened(v: View, node: bool): View {
    if v.live then v
    else if node && v.record.Some? then
      View(Some(Connection(v.record.value.multiaddr, true, 0)), None, v.dials, true)
    else v.(live := true)
  }

  /** The last of these addresses that names q. */
  function Named(addrs: seq<string>, q: string): Option<string> {
    if addrs == [] then None
    else if PeerIdOf(addrs[|addrs| - 1]) == Some(q) then Some(addrs[|addrs| - 1])
    else Named(addrs[..|addrs| - 1], q)
  }

  function Next(cfg: Config, node: bool, started: bool, v: View, e: Event, q: string): View {
    match e
    case Initialize => v
    case Start(addrs) =>
      if !node || started then v
      else
        var named := Named(addrs, q);
        var record := if named.Some? then Some(Connection(named.value, false, 0)) else v.record;
        v.(record := record, dials := v.dials + if record.Some? then 1 else 0)
    case Stop => v.(record := None, timer := None)
    case Connect(addr) =>
      if !node || PeerIdOf(addr) != Some(q) then v
      else v.(record := if v.record.Some? then v.record else Some(Connection(addr, false, 0)), dials := v.dials + 1)
    case Reconnect(addr) =>
      if PeerIdOf(addr) != Some(q) || v.record.None? then v
      else View(Some(v.record.value.(reconnectAttempts := 0)), None, v.dials + (if node then 1 else 0), v.live)
    case TimerFires(p) =>
      if p != q || v.timer.None? then v
      else v.(timer := None, dials := v.dials + if node && v.record.Some? then 1 else 0)
    case DialFails(p, random) => if p != q || v.dials == 0 then v else Retried(cfg, v.(dials := v.dials - 1), random)
    case DialSucceeds(p) => if p != q || v.dials == 0 then v else Opened(v.(dials := v.dials - 1), node)
    case PeerConnects(p) => if p != q then v else Opened(v, node)
    case PeerDisconnects(p, random) =>
      if p != q || !v.live || !node then v else Dropped(cfg, v.(live := false), started, random)
    case ConnectionVanishes(p) => if p != q then v else v.(live := false)
    case HealthCheckPeer(p, random) =>
      if p != q || !node || v.live || v.record.None? || !v.record.value.isConnected then v
      else Dropped(cfg, v, started, random)
  }

  lemma {:induction false} RecordsAre(addrs: seq<string>, q: string)
    ensures q in Records(addrs) <==> Named(addrs, q).Some?
    ensures q in Records(addrs) ==> Records(addrs)[q] == Connection(Named(addrs, q).value, false, 0)
  {
    hide PeerIdOf;
    if addrs != [] {
      RecordsAre(addrs[..|addrs| - 1], q);
    }
  }

  lemma ScheduleView(cfg: Config, s: State, p: string, random: Random, q: string)
    ensures var v := ViewOf(s, q);
      ViewOf(Schedule(cfg, s, p, random), q) == if p == q then Retried(cfg, v, random) else v
  {
    hide Delay;
  }

  lemma DisconnectView(cfg: Config, s: State, p: string, random: Random, q: string)
    ensures ViewOf(HandleDisconnect(cfg, s, p, random), q) ==
      if p == q then Dropped(cfg, ViewOf(s, q), s.isStarted, random) else ViewOf(s, q)
  {
    hide Schedule, Retried;
    if p in s.peers {
      ScheduleView(cfg, s.(peers := s.peers[p := s.peers[p].(isConnected := false)]), p, random, q);
    }
  }

  lemma OpenView(s: State, p: string, q: string)
    requires p !in s.live
    ensures ViewOf(NetworkConnects(s, p), q) == if p == q then Opened(ViewOf(s, q), s.node) else ViewOf(s, q)
  {
  }

  lemma StartView(s: State, addrs: seq<string>, q: string)
    ensures ViewOf(HandleStart(s, addrs), q) ==
      Next(Config(0.0, 0.0, 0.0, None), s.node, s.isStarted, ViewOf(s, q), Start(addrs), q)
  {
    hide Records, Named;
    RecordsAre(addrs, q);
  }

  lemma ConnectView(cfg: Config, s: State, addr: string, q: string)
    ensures ViewOf(HandleConnectCall(s, addr), q) == Next(cfg, s.node, s.isStarted, ViewOf(s, q), Connect(addr), q)
  {
    hide PeerIdOf;
  }

  lemma ReconnectView(cfg: Config, s: State, addr: string, q: string)
    ensures ViewOf(HandleReconnectCall(s, addr), q) == Next(cfg, s.node, s.isStarted, ViewOf(s, q), Reconnect(addr), q)
  {
    hide PeerIdOf;
  }

  lemma TimerView(cfg: Config, s: State, p: string, q: string)
    ensures ViewOf(HandleTimer(s, p), q) == Next(cfg, s.node, s.isStarted, ViewOf(s, q), TimerFires(p), q)
  {
    hide Retried, Opened;
  }

  lemma DialFailureView(cfg: Config, s: State, p: string, random: Random, q: string)
    ensures ViewOf(HandleDialFailure(cfg, s, p, random), q) ==
      Next(cfg, s.node, s.isStarted, ViewOf(s, q), DialFails(p, random), q)
  {
    hide Schedule, Retried, Opened;
    if p in s.dials {
      ScheduleView(cfg, s.(dials := s.dials - multiset{p}), p, random, q);
    }
  }

  lemma DialSuccessView(cfg: Config, s: State, p: string, q: string)
    ensures ViewOf(HandleDialSuccess(s, p), q) == Next(cfg, s.node, s.isStarted, ViewOf(s, q), DialSucceeds(p), q)
  {
    hide Retried, Opened, NetworkConnects;
    if p in s.dials {
      var s1 := s.(dials := s.dials - multiset{p});
      AlreadyOpen(ViewOf(s1, q), s.node);
      if p !in s.live {
        OpenView(s1, p, q);
      }
    }
  }

  lemma AlreadyOpen(v: View, node: bool)
    ensures v.live ==> Opened(v, node) == v
  {
  }

  lemma NetworkView(cfg: Config, s: State, p: string, random: Random, q: string)
    ensures ViewOf(HandleNetworkDrop(cfg, s, p, random), q) ==
      Next(cfg, s.node, s.isStarted, ViewOf(s, q), PeerDisconnects(p, random), q)
    ensures ViewOf(HandleHealthCheck(cfg, s, p, random), q) ==
      Next(cfg, s.node, s.isStarted, ViewOf(s, q), HealthCheckPeer(p, random), q)
  {
    hide HandleDisconnect, Dropped;
    DisconnectView(cfg, s.(live := s.live - {p}), p, random, q);
    DisconnectView(cfg, s, p, random, q);
  }

  /** The manager keeps its peers apart: what any event makes of one peer depends on that peer alone and
      on whether there is a node and the manager is started. */
  lemma PeersAreApart(cfg: Config, s: State, e: Event, q: string)
    ensures ViewOf(Step(cfg, s, e), q) == Next(cfg, s.node, s.isStarted, ViewOf(s, q), e, q)
    ensures Step(cfg, s, e).node == (s.node || e.Initialize?)
    ensures Step(cfg, s, e).isStarted == (!e.Stop? && (s.isStarted || (e.Start? && s.node)))
  {
    hide PeerIdOf, Delay, Named, Records, HandleStart, HandleConnectCall, HandleReconnectCall, HandleTimer,
      HandleDialFailure, HandleDialSuccess, NetworkConnects, HandleNetworkDrop, HandleHealthCheck, Retried, Dropped,
      Opened;
    Switches(cfg, s, e);
    match e
    case Start(addrs) => StartView(s, addrs, q);
    case Connect(addr) => ConnectView(cfg, s, addr, q);
    case Reconnect(addr) => ReconnectView(cfg, s, addr, q);
    case TimerFires(p) => TimerView(cfg, s, p, q);
    case DialFails(p, random) => DialFailureView(cfg, s, p, random, q);
    case DialSucceeds(p) => DialSuccessView(cfg, s, p, q);
    case PeerConnects(p) =>
      AlreadyOpen(ViewOf(s, q), s.node);
      if p !in s.live {
        OpenView(s, p, q);
      }
    case PeerDisconnects(p, random) => NetworkView(cfg, s, p, random, q);
    case HealthCheckPeer(p, random) => NetworkView(cfg, s, p, random, q);
    case _ =>
  }

  lemma Switches(cfg: Config, s: State, e: Event)
    ensures Step(cfg, s, e).node == (s.node || e.Initialize?)
    ensures Step(cfg, s, e).isStarted == (!e.Stop? && (s.isStarted || (e.Start? && s.node)))
  {
    hide PeerIdOf, Delay, Records;
  }

  // ----- What happens to a peer -----

  /** A connection to q opens, and the manager hears of it. */
  predicate Opens(s: State, e: Event, q: string) {
    s.node && q !in s.live && (e == PeerConnects(q) || (e == DialSucceeds(q) && q in s.dials))
  }

  /** q's connection turns out to be gone while the manager has a node. */
  predicate Drops(s: State, e: Event, q: string) {
    s.node &&
    ((e.PeerDisconnects? && e.peer == q && q in s.live)
     || (e.HealthCheckPeer? && e.peer == q && q in s.peers && s.peers[q].isConnected && q !in s.live))
  }

  /** A dial of q has failed, or q's connection has dropped on a started manager. */
  predicate Retries(s: State, e: Event, q: string) {
    (e.DialFails? && e.peer == q && q in s.dials) || (s.isStarted && Drops(s, e, q))
  }

  /** The draw that comes with a failure. */
  function Draw(e: Event): Random {
    match e
    case DialFails(_, r) => r
    case PeerDisconnects(_, r) => r
    case HealthCheckPeer(_, r) => r
    case _ => 0.0
  }

  /** q still has attempts. */
  predicate MayRetry(cfg: Config, s: State, q: string) {
    q in s.peers && (cfg.maxAttempts.Some? ==> s.peers[q].reconnectAttempts < cfg.maxAttempts.value)
  }

  predicate CallNames(e: Event, q: string) {
    (e.Connect? || e.Reconnect?) && PeerIdOf(e.addr) == Some(q)
  }

  /** A start that takes effect, with an address of q. */
  predicate StartNames(s: State, e: Event, q: string) {
    e.Start? && s.node && !s.isStarted && exists i :: 0 <= i < |e.addrs| && PeerIdOf(e.addrs[i]) == Some(q)
  }

  lemma {:induction false} NamedIff(addrs: seq<string>, q: string)
    ensures Named(addrs, q).Some? <==> exists i :: 0 <= i < |addrs| && PeerIdOf(addrs[i]) == Some(q)
  {
    hide PeerIdOf;
    if addrs != [] {
      var front := addrs[..|addrs| - 1];
      NamedIff(front, q);
      assert forall i :: 0 <= i < |front| ==> front[i] == addrs[i];
    }
  }

  /** A peer is tracked from a start or connect that names it until stop. */
  lemma TrackedIff(cfg: Config, s: State, e: Event, q: string)
    ensures q in Step(cfg, s, e).peers <==>
      !e.Stop? && (q in s.peers || StartNames(s, e, q) || (e.Connect? && s.node && CallNames(e, q)))
  {
    hide Step, PeerIdOf, Delay, Named;
    PeersAreApart(cfg, s, e, q);
    if e.Start? {
      NamedIff(e.addrs, q);
    }
  }

  /** The attempts of a tracked peer start again at zero when its connection opens, when reconnect or an
      effective start names it, and go up by one for each failure that leaves it another try. */
  lemma AttemptsMean(cfg: Config, s: State, e: Event, q: string)
    requires q in s.peers && !e.Stop?
    ensures q in Step(cfg, s, e).peers
    ensures Step(cfg, s, e).peers[q].reconnectAttempts ==
      if Opens(s, e, q) || StartNames(s, e, q) || (e.Reconnect? && CallNames(e, q)) then 0
      else if Retries(s, e, q) && MayRetry(cfg, s, q) then s.peers[q].reconnectAttempts + 1
      else s.peers[q].reconnectAttempts
  {
    hide Step, PeerIdOf, Delay, Named;
    PeersAreApart(cfg, s, e, q);
    if e.Start? {
      NamedIff(e.addrs, q);
    }
  }

  /** A tracked peer counts as connected from the opening of its connection until it drops, or an
      effective start names it. */
  lemma ConnectedIff(cfg: Config, s: State, e: Event, q: string)
    requires q in s.peers && !e.Stop?
    ensures q in Step(cfg, s, e).peers
    ensures Step(cfg, s, e).peers[q].isConnected <==>
      Opens(s, e, q) || (s.peers[q].isConnected && !Drops(s, e, q) && !StartNames(s, e, q))
  {
    hide Step, PeerIdOf, Delay, Named;
    PeersAreApart(cfg, s, e, q);
    if e.Start? {
      NamedIff(e.addrs, q);
    }
  }

  /** A failure that leaves another try arms the peer's one timer with the delay of its attempts; it is
      cleared when it fires, when the connection opens, by reconnect and by stop, and by nothing else. */
  lemma TimerMeans(cfg: Config, s: State, e: Event, q: string)
    requires forall p :: p in s.timers ==> p in s.peers
    ensures var t := Step(cfg, s, e).timers;
      if Retries(s, e, q) && MayRetry(cfg, s, q) then
        q in t && t[q] == Delay(cfg, s.peers[q].reconnectAttempts, Draw(e))
      else if e.Stop? || e == TimerFires(q) || Opens(s, e, q) || (e.Reconnect? && CallNames(e, q)) then q !in t
      else (q in t <==> q in s.timers) && (q in t ==> t[q] == s.timers[q])
  {
    hide Step, PeerIdOf, Delay, Named;
    PeersAreApart(cfg, s, e, q);
  }

  /** A tracked peer is dialled once by an effective start, by connect, by reconnect and when its timer
      fires, all with a node; a dial ends by failing or succeeding. */
  lemma DialsMean(cfg: Config, s: State, e: Event, q: string)
    requires forall p :: p in s.timers ==> p in s.peers
    ensures Step(cfg, s, e).dials[q] == s.dials[q]
      + (if s.node && ((e.Start? && !s.isStarted && (q in s.peers || StartNames(s, e, q)))
                       || (e.Connect? && CallNames(e, q)) || (e.Reconnect? && CallNames(e, q) && q in s.peers)
                       || (e == TimerFires(q) && q in s.timers)) then 1 else 0)
      - (if q in s.dials && (e == DialSucceeds(q) || (e.DialFails? && e.peer == q)) then 1 else 0)
  {
    hide Step, PeerIdOf, Delay, Named;
    PeersAreApart(cfg, s, e, q);
    if e.Start? {
      NamedIff(e.addrs, q);
    }
  }

  /** The node is there from initialize on, and the manager is started from an effective start to the
      next stop; connections open and end as the network says. */
  lemma SwitchesMean(cfg: Config, s: State, e: Event, q: string)
    ensures var s1 := Step(cfg, s, e);
      && (s1.node <==> s.node || e.Initialize?)
      && (s1.isStarted <==> !e.Stop? && (s.isStarted || (e.Start? && s.node)))
      && (q in s1.live <==>
          (q in s.live && !(e == ConnectionVanishes(q) || (e.PeerDisconnects? && e.peer == q && s.node)))
          || e == PeerConnects(q) || (e == DialSucceeds(q) && q in s.dials))
  {
    hide Step, PeerIdOf, Delay, Named;
    PeersAreApart(cfg, s, e, q);
  }
}
