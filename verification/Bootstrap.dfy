/** The reconnection logic of lib/p2p/bootstrap-manager.ts as a step machine. A dial, a timer and a
    network event are separate steps, so every interleaving is a sequence of steps. */
module Bootstrap {
  import opened Buffers

  type Random = r: real | 0.0 <= r < 1.0 witness 0.0

  /** `maxAttempts` None is the default Infinity. */
  datatype Config = Config(baseDelay: real, maxDelay: real, jitter: real, maxAttempts: Option<nat>)

  ghost predicate ValidConfig(cfg: Config) {
    cfg.baseDelay >= 0.0 && cfg.maxDelay >= 0.0 && cfg.jitter >= 0.0
  }

  datatype Connection = Connection(multiaddr: string, isConnected: bool, reconnectAttempts: nat)

  /** The manager's fields, and what the network is doing: `dials` are the pending `node.dial`
      promises, `live` the peers with an open connection. Timers keep their delay. */
  datatype State = State(
    node: bool, isStarted: bool,
    peers: map<string, Connection>, timers: map<string, real>,
    dials: multiset<string>, live: set<string>)

  datatype Event =
    | Initialize
    | Start(addrs: seq<string>)
    | Stop
    | Connect(addr: string)
    | Reconnect(addr: string)
    | TimerFires(peer: string)
    | DialFails(peer: string, random: Random)
    | DialSucceeds(peer: string)
    | PeerConnects(peer: string)
    | PeerDisconnects(peer: string, random: Random)
    | ConnectionVanishes(peer: string)
    | HealthCheckPeer(peer: string, random: Random)

  // ----- Peer ids -----

  const SEPARATOR := "/p2p/"

  /** The last part of `addr.split('/p2p/')` when there are at least two. */
  function LastPart(addr: string): Option<string> {
    if |addr| < 5 then None
    else if addr[..5] == SEPARATOR then
      match LastPart(addr[5..])
      case None => Some(addr[5..])
      case Some(last) => Some(last)
    else LastPart(addr[1..])
  }

  /** An empty id is falsy and treated like a missing one by every caller. */
  function PeerIdOf(addr: string): Option<string> {
    match LastPart(addr)
    case Some(id) => if id == "" then None else Some(id)
    case None => None
  }

  // ----- Delays -----

  function Pow2(n: nat): (r: real)
    ensures r >= 1.0
  {
    if n == 0 then 1.0 else 2.0 * Pow2(n - 1)
  }

  function Min(a: real, b: real): real { if a <= b then a else b }

  function BackoffBase(cfg: Config, attempts: nat): real {
    Min(cfg.baseDelay * Pow2(attempts), cfg.maxDelay)
  }

  function Delay(cfg: Config, attempts: nat, random: Random): (d: real)
    ensures d >= 0.0
  {
    var base := BackoffBase(cfg, attempts);
    var delay := base + base * cfg.jitter * (random - 0.5);
    if delay >= 0.0 then delay else 0.0
  }

  /** The longest delay any attempt can draw. */
  function MaxTotalDelay(cfg: Config): real {
    cfg.maxDelay * (1.0 + cfg.jitter / 2.0)
  }

  lemma DelayBound(cfg: Config, attempts: nat, random: Random)
    requires ValidConfig(cfg)
    ensures Delay(cfg, attempts, random) <= BackoffBase(cfg, attempts) * (1.0 + cfg.jitter / 2.0) <= MaxTotalDelay(cfg)
  {
    hide Pow2;
    var base := BackoffBase(cfg, attempts);
    NonNegative(cfg.baseDelay, Pow2(attempts));
    NonNegative(base, cfg.jitter);
    ScaleMonotone(base * cfg.jitter, random - 0.5, 0.5);
    HalfProduct(base, cfg.jitter);
    ScaleMonotone(1.0 + cfg.jitter / 2.0, base, cfg.maxDelay);
  }

  lemma NonNegative(a: real, b: real)
    requires a >= 0.0 && b >= 0.0
    ensures a * b >= 0.0
  {
  }

  lemma HalfProduct(a: real, b: real)
    ensures a * b * 0.5 == a * (b / 2.0) && a * (1.0 + b / 2.0) == a + a * (b / 2.0)
  {
  }

  lemma ScaleMonotone(a: real, x: real, y: real)
    requires a >= 0.0 && x <= y
    ensures a * x <= a * y && x * a <= y * a
  {
  }

  // ----- The handlers -----

  predicate Exhausted(cfg: Config, conn: Connection) {
    cfg.maxAttempts.Some? && conn.reconnectAttempts >= cfg.maxAttempts.value
  }

  /** `_scheduleReconnect`: at the limit it only reports; otherwise it re-arms the peer's timer. */
  function Schedule(cfg: Config, s: State, peer: string, random: Random): State {
    if peer !in s.peers || Exhausted(cfg, s.peers[peer]) then s
    else
      var conn := s.peers[peer];
      s.(peers := s.peers[peer := conn.(reconnectAttempts := conn.reconnectAttempts + 1)],
         timers := s.timers[peer := Delay(cfg, conn.reconnectAttempts, random)])
  }

  /** `_connectToPeer` up to its await. */
  function Dial(s: State, peer: string): State {
    if !s.node || peer !in s.peers then s else s.(dials := s.dials + multiset{peer})
  }

  /** `_handleBootstrapConnect`. */
  function HandleConnect(s: State, peer: string): State {
    if peer !in s.peers then s
    else s.(timers := s.timers - {peer},
            peers := s.peers[peer := s.peers[peer].(isConnected := true, reconnectAttempts := 0)])
  }

  /** `_handleBootstrapDisconnect`. */
  function HandleDisconnect(cfg: Config, s: State, peer: string, random: Random): State {
    if peer !in s.peers then s
    else
      var s1 := s.(peers := s.peers[peer := s.peers[peer].(isConnected := false)]);
      if s.isStarted then Schedule(cfg, s1, peer, random) else s1
  }

  /** The records written by `start`; a later address overwrites an earlier one of the same peer. */
  function Records(addrs: seq<string>): map<string, Connection> {
    if addrs == [] then map[]
    else
      var front := Records(addrs[..|addrs| - 1]);
      var addr := addrs[|addrs| - 1];
      match PeerIdOf(addr)
      case None => front
      case Some(id) => front[id := Connection(addr, false, 0)]
  }

  /** One dial for every tracked peer. */
  function DialsFor(peers: map<string, Connection>): multiset<string> {
    multiset(peers.Keys)
  }

  function HandleStart(s: State, addrs: seq<string>): State {
    if !s.node || s.isStarted then s
    else
      var peers := s.peers + Records(addrs);
      s.(isStarted := true, peers := peers, dials := s.dials + DialsFor(peers))
  }

  function HandleStop(s: State): State {
    s.(isStarted := false, timers := map[], peers := map[])
  }

  /** `connect`; unchanged when it throws. */
  function HandleConnectCall(s: State, addr: string): State {
    if !s.node then s else
    match PeerIdOf(addr)
    case None => s
    case Some(id) =>
      Dial(if id in s.peers then s else s.(peers := s.peers[id := Connection(addr, false, 0)]), id)
  }

  /** `reconnect`; unchanged when it throws. */
  function HandleReconnectCall(s: State, addr: string): State {
    match PeerIdOf(addr)
    case None => s
    case Some(id) =>
      if id !in s.peers then s
      else Dial(s.(timers := s.timers - {id}, peers := s.peers[id := s.peers[id].(reconnectAttempts := 0)]), id)
  }

  /** A tracked peer the manager believes connected although no connection is open. */
  predicate Lost(s: State, peer: string) {
    peer in s.peers && s.peers[peer].isConnected && peer !in s.live
  }

  /** `_performHealthCheck` for one peer: a lost one is handled like a disconnect. The health check
      is one such step after another. */
  function HandleHealthCheck(cfg: Config, s: State, peer: string, random: Random): State {
    if s.node && Lost(s, peer) then HandleDisconnect(cfg, s, peer, random) else s
  }

  function HandleTimer(s: State, peer: string): State {
    if peer in s.timers then Dial(s.(timers := s.timers - {peer}), peer) else s
  }

  function HandleDialFailure(cfg: Config, s: State, peer: string, random: Random): State {
    if peer in s.dials then Schedule(cfg, s.(dials := s.dials - multiset{peer}), peer, random) else s
  }

  /** A connect event fires only when the peer had no open connection. */
  function HandleDialSuccess(s: State, peer: string): State {
    if peer !in s.dials then s
    else
      var s1 := s.(dials := s.dials - multiset{peer});
      if peer in s.live then s1 else NetworkConnects(s1, peer)
  }

  function HandleNetworkDrop(cfg: Config, s: State, peer: string, random: Random): State {
    if peer in s.live && s.node then HandleDisconnect(cfg, s.(live := s.live - {peer}), peer, random) else s
  }

  /** One step. Events that cannot happen in s leave it unchanged. */
  function Step(cfg: Config, s: State, e: Event): State {
    match e
    case Initialize => s.(node := true)
    case Start(addrs) => HandleStart(s, addrs)
    case Stop => HandleStop(s)
    case Connect(addr) => HandleConnectCall(s, addr)
    case Reconnect(addr) => HandleReconnectCall(s, addr)
    case TimerFires(peer) => HandleTimer(s, peer)
    case DialFails(peer, random) => HandleDialFailure(cfg, s, peer, random)
    case DialSucceeds(peer) => HandleDialSuccess(s, peer)
    case PeerConnects(peer) => if peer in s.live then s else NetworkConnects(s, peer)
    case PeerDisconnects(peer, random) => HandleNetworkDrop(cfg, s, peer, random)
    case ConnectionVanishes(peer) => s.(live := s.live - {peer})
    case HealthCheckPeer(peer, random) => HandleHealthCheck(cfg, s, peer, random)
  }

  /** A new connection opens; the listener exists only after `initialize`. */
  function NetworkConnects(s: State, peer: string): State {
    var s1 := s.(live := s.live + {peer});
    if s.node then HandleConnect(s1, peer) else s1
  }

  function Exec(cfg: Config, s: State, events: seq<Event>): State
    decreases |events|
  {
    if events == [] then s else Exec(cfg, Step(cfg, s, events[0]), events[1..])
  }

  const INITIAL := State(false, false, map[], map[], multiset{}, {})

  // ----- Invariants of every run -----

  /** Timers belong to tracked peers and keep within the longest delay; attempts stay within the
      limit; without a node nothing is tracked. */
  ghost predicate Inv(cfg: Config, s: State) {
    && (forall p :: p in s.timers ==> p in s.peers && 0.0 <= s.timers[p] <= MaxTotalDelay(cfg))
    && (forall p :: p in s.peers && cfg.maxAttempts.Some? ==> s.peers[p].reconnectAttempts <= cfg.maxAttempts.value)
    && (!s.node ==> s.peers == map[])
    && (s.isStarted ==> s.node)
  }

  lemma ScheduleInv(cfg: Config, s: State, peer: string, random: Random)
    requires ValidConfig(cfg) && Inv(cfg, s)
    ensures Inv(cfg, Schedule(cfg, s, peer, random))
  {
    hide Delay, MaxTotalDelay, BackoffBase;
    if peer in s.peers {
      DelayBound(cfg, s.peers[peer].reconnectAttempts, random);
    }
  }

  lemma DisconnectInv(cfg: Config, s: State, peer: string, random: Random)
    requires ValidConfig(cfg) && Inv(cfg, s)
    ensures Inv(cfg, HandleDisconnect(cfg, s, peer, random))
  {
    hide Schedule;
    if peer in s.peers {
      ScheduleInv(cfg, s.(peers := s.peers[peer := s.peers[peer].(isConnected := false)]), peer, random);
    }
  }

  lemma StartInv(cfg: Config, s: State, addrs: seq<string>)
    requires Inv(cfg, s)
    ensures Inv(cfg, HandleStart(s, addrs))
  {
    hide Records, MaxTotalDelay;
    RecordsAreFresh(addrs);
  }

  lemma CallInv(cfg: Config, s: State, addr: string)
    requires Inv(cfg, s)
    ensures Inv(cfg, HandleConnectCall(s, addr)) && Inv(cfg, HandleReconnectCall(s, addr))
  {
    hide PeerIdOf, MaxTotalDelay;
  }

  lemma NetworkInv(cfg: Config, s: State, peer: string)
    requires Inv(cfg, s)
    ensures Inv(cfg, NetworkConnects(s, peer)) && Inv(cfg, HandleTimer(s, peer)) && Inv(cfg, HandleDialSuccess(s, peer))
  {
    hide MaxTotalDelay;
  }

  lemma StepInv(cfg: Config, s: State, e: Event)
    requires ValidConfig(cfg) && Inv(cfg, s)
    ensures Inv(cfg, Step(cfg, s, e))
  {
    hide MaxTotalDelay, HandleStart, HandleConnectCall, HandleReconnectCall, HandleTimer, HandleDialSuccess,
      NetworkConnects, Schedule, HandleDisconnect;
    match e
    case Start(addrs) => StartInv(cfg, s, addrs);
    case Connect(addr) => CallInv(cfg, s, addr);
    case Reconnect(addr) => CallInv(cfg, s, addr);
    case TimerFires(peer) => NetworkInv(cfg, s, peer);
    case DialFails(peer, random) => ScheduleInv(cfg, s.(dials := s.dials - multiset{peer}), peer, random);
    case DialSucceeds(peer) => NetworkInv(cfg, s, peer);
    case PeerConnects(peer) => NetworkInv(cfg, s, peer);
    case PeerDisconnects(peer, random) => DisconnectInv(cfg, s.(live := s.live - {peer}), peer, random);
    case HealthCheckPeer(peer, random) => DisconnectInv(cfg, s, peer, random);
    case _ =>
  }

  lemma {:induction false} RecordsAreFresh(addrs: seq<string>)
    ensures forall p :: p in Records(addrs) ==>
      !Records(addrs)[p].isConnected && Records(addrs)[p].reconnectAttempts == 0
  {
    if addrs != [] {
      RecordsAreFresh(addrs[..|addrs| - 1]);
    }
  }

  /** Inv holds in every reachable state, under every interleaving. */
  lemma {:induction false} ReachableInv(cfg: Config, s: State, events: seq<Event>)
    requires ValidConfig(cfg) && Inv(cfg, s)
    ensures Inv(cfg, Exec(cfg, s, events))
    decreases |events|
  {
    if events != [] {
      StepInv(cfg, s, events[0]);
      ReachableInv(cfg, Step(cfg, s, events[0]), events[1..]);
    }
  }

  // ----- No lost wake-up -----

  /** Something will still happen for this peer, or it has used up its attempts. */
  predicate Covered(cfg: Config, s: State, p: string)
    requires p in s.peers
  {
    s.peers[p].isConnected || p in s.dials || p in s.timers || Exhausted(cfg, s.peers[p])
  }

  ghost predicate Awake(cfg: Config, s: State) {
    s.isStarted ==> forall p :: p in s.peers ==> Covered(cfg, s, p)
  }

  /** Every open connection to a tracked peer is known to the manager. */
  ghost predicate InSync(s: State) {
    forall p :: p in s.peers && p in s.live ==> s.peers[p].isConnected
  }

  /** The call does not write a record for a peer whose connection is already open. */
  predicate WritesNoLivePeer(s: State, e: Event) {
    match e
    case Start(addrs) => s.node && !s.isStarted ==> forall p :: p in Records(addrs) ==> p !in s.live
    case Connect(addr) =>
      s.node && PeerIdOf(addr).Some? && PeerIdOf(addr).value !in s.peers ==> PeerIdOf(addr).value !in s.live
    case _ => true
  }

  /** A step keeps the manager in sync exactly when it writes no record for a live peer. */
  lemma StepSyncIff(cfg: Config, s: State, e: Event)
    requires Inv(cfg, s) && InSync(s)
    ensures InSync(Step(cfg, s, e)) <==> WritesNoLivePeer(s, e)
  {
    hide Delay, PeerIdOf, Exhausted, HandleStart, HandleConnectCall, HandleReconnectCall, HandleTimer,
      HandleDialFailure, HandleDialSuccess, NetworkConnects, HandleNetworkDrop, HandleHealthCheck, Inv;
    match e
    case Start(addrs) => StartSyncIff(s, addrs);
    case Connect(addr) => ConnectSyncIff(s, addr);
    case Reconnect(addr) => ReconnectSync(s, addr);
    case TimerFires(peer) => TimerSync(s, peer);
    case DialFails(peer, random) => ScheduleSync(cfg, s, peer, random);
    case DialSucceeds(peer) => ConnectionSync(cfg, s, peer);
    case PeerConnects(peer) => ConnectionSync(cfg, s, peer);
    case PeerDisconnects(peer, random) => ScheduleSync(cfg, s, peer, random);
    case HealthCheckPeer(peer, random) => ScheduleSync(cfg, s, peer, random);
    case _ =>
  }

  lemma ReconnectSync(s: State, addr: string)
    requires InSync(s)
    ensures InSync(HandleReconnectCall(s, addr))
  {
    hide PeerIdOf;
  }

  lemma TimerSync(s: State, peer: string)
    requires InSync(s)
    ensures InSync(HandleTimer(s, peer))
  {
  }

  lemma ScheduleSync(cfg: Config, s: State, peer: string, random: Random)
    requires InSync(s)
    ensures InSync(HandleDialFailure(cfg, s, peer, random))
    ensures InSync(HandleNetworkDrop(cfg, s, peer, random))
    ensures InSync(HandleHealthCheck(cfg, s, peer, random))
  {
    hide Delay, Exhausted;
  }

  lemma ConnectionSync(cfg: Config, s: State, peer: string)
    requires Inv(cfg, s) && InSync(s)
    ensures InSync(NetworkConnects(s, peer)) && InSync(HandleDialSuccess(s, peer))
  {
    hide MaxTotalDelay;
  }

  lemma StartSyncIff(s: State, addrs: seq<string>)
    requires InSync(s)
    ensures InSync(HandleStart(s, addrs)) <==> WritesNoLivePeer(s, Start(addrs))
  {
    hide Records;
    RecordsAreFresh(addrs);
    if s.node && !s.isStarted {
      var s1 := HandleStart(s, addrs);
      if InSync(s1) {
        forall p | p in Records(addrs) ensures p !in s.live {
          assert p in s1.peers && s1.peers[p] == Records(addrs)[p];
        }
      }
    }
  }

  lemma ConnectSyncIff(s: State, addr: string)
    requires InSync(s)
    ensures InSync(HandleConnectCall(s, addr)) <==> WritesNoLivePeer(s, Connect(addr))
  {
    hide PeerIdOf;
    if s.node && PeerIdOf(addr).Some? {
      var id := PeerIdOf(addr).value;
      var s1 := HandleConnectCall(s, addr);
      assert id in s1.peers;
      if id !in s.peers {
        assert !s1.peers[id].isConnected;
      }
    }
  }

  /** One step loses no wake-up while the manager is in sync. */
  lemma StepAwake(cfg: Config, s: State, e: Event)
    requires Inv(cfg, s) && Awake(cfg, s) && InSync(s)
    ensures Awake(cfg, Step(cfg, s, e))
  {
    hide Step, Inv, Covered;
    var s1 := Step(cfg, s, e);
    if s1.isStarted {
      forall p | p in s1.peers ensures Covered(cfg, s1, p) {
        StepCovers(cfg, s, e, p);
      }
    }
  }

  lemma StepCovers(cfg: Config, s: State, e: Event, p: string)
    requires Inv(cfg, s) && Awake(cfg, s) && InSync(s)
    requires Step(cfg, s, e).isStarted && p in Step(cfg, s, e).peers
    ensures Covered(cfg, Step(cfg, s, e), p)
  {
    hide MaxTotalDelay, HandleStart, HandleConnectCall, HandleReconnectCall, HandleTimer, HandleDialSuccess,
      HandleDialFailure, NetworkConnects, HandleNetworkDrop, HandleHealthCheck, InSync;
    match e
    case Start(addrs) => StartCovers(cfg, s, addrs, p);
    case Connect(addr) => ConnectCovers(cfg, s, addr, p);
    case Reconnect(addr) => ReconnectCovers(cfg, s, addr, p);
    case TimerFires(peer) => TimerCovers(cfg, s, peer, p);
    case DialFails(peer, random) => DialFailureCovers(cfg, s, peer, random, p);
    case DialSucceeds(peer) => DialSuccessCovers(cfg, s, peer, p);
    case PeerConnects(peer) =>
      if peer !in s.live {
        NetworkConnectCovers(cfg, s, peer, p);
      }
    case PeerDisconnects(peer, random) => DropCovers(cfg, s, peer, random, p);
    case HealthCheckPeer(peer, random) => HealthCheckCovers(cfg, s, peer, random, p);
    case _ =>
  }

  lemma StartCovers(cfg: Config, s: State, addrs: seq<string>, p: string)
    requires Awake(cfg, s) && HandleStart(s, addrs).isStarted && p in HandleStart(s, addrs).peers
    ensures Covered(cfg, HandleStart(s, addrs), p)
  {
    hide Records;
  }

  lemma ConnectCovers(cfg: Config, s: State, addr: string, p: string)
    requires Awake(cfg, s) && HandleConnectCall(s, addr).isStarted && p in HandleConnectCall(s, addr).peers
    ensures Covered(cfg, HandleConnectCall(s, addr), p)
  {
    hide PeerIdOf;
  }

  lemma ReconnectCovers(cfg: Config, s: State, addr: string, p: string)
    requires Inv(cfg, s) && Awake(cfg, s)
    requires HandleReconnectCall(s, addr).isStarted && p in HandleReconnectCall(s, addr).peers
    ensures Covered(cfg, HandleReconnectCall(s, addr), p)
  {
    hide PeerIdOf, MaxTotalDelay;
  }

  lemma TimerCovers(cfg: Config, s: State, peer: string, p: string)
    requires Inv(cfg, s) && Awake(cfg, s) && HandleTimer(s, peer).isStarted && p in HandleTimer(s, peer).peers
    ensures Covered(cfg, HandleTimer(s, peer), p)
  {
    hide MaxTotalDelay;
  }

  lemma DialFailureCovers(cfg: Config, s: State, peer: string, random: Random, p: string)
    requires Awake(cfg, s)
    requires HandleDialFailure(cfg, s, peer, random).isStarted && p in HandleDialFailure(cfg, s, peer, random).peers
    ensures Covered(cfg, HandleDialFailure(cfg, s, peer, random), p)
  {
    hide Delay;
  }

  lemma DialSuccessCovers(cfg: Config, s: State, peer: string, p: string)
    requires Inv(cfg, s) && Awake(cfg, s) && InSync(s)
    requires HandleDialSuccess(s, peer).isStarted && p in HandleDialSuccess(s, peer).peers
    ensures Covered(cfg, HandleDialSuccess(s, peer), p)
  {
    hide MaxTotalDelay;
  }

  lemma NetworkConnectCovers(cfg: Config, s: State, peer: string, p: string)
    requires Awake(cfg, s) && NetworkConnects(s, peer).isStarted && p in NetworkConnects(s, peer).peers
    ensures Covered(cfg, NetworkConnects(s, peer), p)
  {
  }

  lemma DropCovers(cfg: Config, s: State, peer: string, random: Random, p: string)
    requires Awake(cfg, s)
    requires HandleNetworkDrop(cfg, s, peer, random).isStarted && p in HandleNetworkDrop(cfg, s, peer, random).peers
    ensures Covered(cfg, HandleNetworkDrop(cfg, s, peer, random), p)
  {
    hide Delay;
  }

  lemma HealthCheckCovers(cfg: Config, s: State, peer: string, random: Random, p: string)
    requires Awake(cfg, s)
    requires HandleHealthCheck(cfg, s, peer, random).isStarted && p in HandleHealthCheck(cfg, s, peer, random).peers
    ensures Covered(cfg, HandleHealthCheck(cfg, s, peer, random), p)
  {
    hide Delay;
  }

  ghost predicate RunWritesNoLivePeer(cfg: Config, s: State, events: seq<Event>)
    decreases |events|
  {
    events == [] ||
    (WritesNoLivePeer(s, events[0]) && RunWritesNoLivePeer(cfg, Step(cfg, s, events[0]), events[1..]))
  }

  /** In every state of a run whose calls write no record for a live peer, each tracked peer of a
      started manager is connected, being dialled, waiting on its one timer, or out of attempts. */
  lemma {:induction false} NoLostWakeUp(cfg: Config, s: State, events: seq<Event>)
    requires ValidConfig(cfg) && Inv(cfg, s) && Awake(cfg, s) && InSync(s)
    requires RunWritesNoLivePeer(cfg, s, events)
    ensures Awake(cfg, Exec(cfg, s, events)) && InSync(Exec(cfg, s, events))
    decreases |events|
  {
    if events != [] {
      hide Step, Inv, Awake, InSync, WritesNoLivePeer;
      StepInv(cfg, s, events[0]);
      StepAwake(cfg, s, events[0]);
      StepSyncIff(cfg, s, events[0]);
      NoLostWakeUp(cfg, Step(cfg, s, events[0]), events[1..]);
    }
  }

  lemma InitialIsGood(cfg: Config)
    ensures Inv(cfg, INITIAL) && Awake(cfg, INITIAL) && InSync(INITIAL)
  {
  }

  // ----- And only then -----

  /** A started manager tracks this peer, whose connection is open, without knowing it. */
  ghost predicate Stranded(cfg: Config, s: State, p: string) {
    && s.isStarted && s.node && p in s.peers && p in s.live
    && !s.peers[p].isConnected && s.peers[p].reconnectAttempts == 0
  }

  /** The events that use up a peer's n pending dials: each succeeds, and since the connection is
      already open, none brings a connect event. */
  function Succeed(p: string, n: nat): (es: seq<Event>)
    ensures |es| == n && forall i :: 0 <= i < n ==> es[i] == DialSucceeds(p)
  {
    if n == 0 then [] else [DialSucceeds(p)] + Succeed(p, n - 1)
  }

  lemma {:induction false} DialsRunOut(cfg: Config, s: State, p: string)
    requires Stranded(cfg, s, p) && p !in s.timers && cfg.maxAttempts != Some(0)
    ensures !Awake(cfg, Exec(cfg, s, Succeed(p, s.dials[p])))
    ensures RunWritesNoLivePeer(cfg, s, Succeed(p, s.dials[p]))
    decreases s.dials[p]
  {
    if s.dials[p] == 0 {
      assert p !in s.dials;
      assert !Covered(cfg, s, p);
    } else {
      var s1 := Step(cfg, s, DialSucceeds(p));
      assert s1 == s.(dials := s.dials - multiset{p});
      DialsRunOut(cfg, s1, p);
      var rest := Succeed(p, s1.dials[p]);
      RunCons(cfg, s, DialSucceeds(p), rest);
    }
  }

  lemma RunCons(cfg: Config, s: State, e: Event, es: seq<Event>)
    ensures Exec(cfg, s, [e] + es) == Exec(cfg, Step(cfg, s, e), es)
    ensures RunWritesNoLivePeer(cfg, s, [e] + es) <==>
      WritesNoLivePeer(s, e) && RunWritesNoLivePeer(cfg, Step(cfg, s, e), es)
  {
    hide Step, WritesNoLivePeer;
    assert ([e] + es)[1..] == es;
  }

  /** A stranded peer is lost once its timer and its pending dials have had their turn. */
  lemma StrandedIsLost(cfg: Config, s: State, p: string) returns (events: seq<Event>)
    requires Stranded(cfg, s, p) && cfg.maxAttempts != Some(0)
    ensures RunWritesNoLivePeer(cfg, s, events) && !Awake(cfg, Exec(cfg, s, events))
  {
    hide Awake, RunWritesNoLivePeer, Exec;
    if p in s.timers {
      var s1 := Step(cfg, s, TimerFires(p));
      DialsRunOut(cfg, s1, p);
      events := [TimerFires(p)] + Succeed(p, s1.dials[p]);
      RunCons(cfg, s, TimerFires(p), Succeed(p, s1.dials[p]));
    } else {
      DialsRunOut(cfg, s, p);
      events := Succeed(p, s.dials[p]);
    }
  }

  /** Writing a record for a live peer leaves it stranded as soon as the manager is started. */
  lemma WriteStrands(cfg: Config, s: State, e: Event) returns (p: string, start: seq<Event>)
    requires Inv(cfg, s) && !WritesNoLivePeer(s, e)
    ensures var s1 := Step(cfg, s, e);
      && (start == [] || start == [Start([])])
      && RunWritesNoLivePeer(cfg, s1, start) && Stranded(cfg, Exec(cfg, s1, start), p)
  {
    hide PeerIdOf, MaxTotalDelay;
    var s1 := Step(cfg, s, e);
    if e.Start? {
      p :| p in Records(e.addrs) && p in s.live;
      RecordsAreFresh(e.addrs);
      start := [];
    } else {
      p := PeerIdOf(e.addr).value;
      assert s1.peers[p] == Connection(e.addr, false, 0) && p in s1.live && s1.node;
      if s1.isStarted {
        start := [];
      } else {
        start := [Start([])];
        EmptyStart(s1);
        assert RunWritesNoLivePeer(cfg, Step(cfg, s1, Start([])), []);
        RunCons(cfg, s1, Start([]), []);
        assert [Start([])] + [] == start;
      }
    }
  }

  /** Starting without addresses writes no record and dials what is tracked. */
  lemma EmptyStart(s: State)
    requires s.node && !s.isStarted
    ensures HandleStart(s, []) == s.(isStarted := true, dials := s.dials + DialsFor(s.peers))
    ensures WritesNoLivePeer(s, Start([]))
  {
    assert s.peers + map[] == s.peers;
  }

  lemma {:induction false} RunConcat(cfg: Config, s: State, a: seq<Event>, b: seq<Event>)
    requires RunWritesNoLivePeer(cfg, s, a) && RunWritesNoLivePeer(cfg, Exec(cfg, s, a), b)
    ensures RunWritesNoLivePeer(cfg, s, a + b) && Exec(cfg, s, a + b) == Exec(cfg, Exec(cfg, s, a), b)
    decreases |a|
  {
    if a == [] {
      assert a + b == b;
    } else {
      hide Step, WritesNoLivePeer;
      RunConcat(cfg, Step(cfg, s, a[0]), a[1..], b);
      RunCons(cfg, s, a[0], a[1..] + b);
      assert [a[0]] + (a[1..] + b) == a + b;
    }
  }

  /** Exactly when the guard matters: after a step from a good state, every continuation that itself
      writes no record for a live peer stays awake if and only if the step wrote none either, or no
      attempts are allowed at all. */
  lemma WakeUpIff(cfg: Config, s: State, e: Event)
    requires ValidConfig(cfg) && Inv(cfg, s) && Awake(cfg, s) && InSync(s)
    ensures (forall events | RunWritesNoLivePeer(cfg, Step(cfg, s, e), events) ::
               Awake(cfg, Exec(cfg, Step(cfg, s, e), events))) <==>
      WritesNoLivePeer(s, e) || cfg.maxAttempts == Some(0)
  {
    hide Step, Inv, Awake, InSync, WritesNoLivePeer, RunWritesNoLivePeer, Exec;
    var s1 := Step(cfg, s, e);
    if cfg.maxAttempts == Some(0) {
      forall events ensures Awake(cfg, Exec(cfg, s1, events)) {
        NoAttempts(cfg, Exec(cfg, s1, events));
      }
    } else if WritesNoLivePeer(s, e) {
      StepInv(cfg, s, e);
      StepAwake(cfg, s, e);
      StepSyncIff(cfg, s, e);
      forall events | RunWritesNoLivePeer(cfg, s1, events) ensures Awake(cfg, Exec(cfg, s1, events)) {
        NoLostWakeUp(cfg, s1, events);
      }
    } else {
      var p, start := WriteStrands(cfg, s, e);
      var rest := StrandedIsLost(cfg, Exec(cfg, s1, start), p);
      RunConcat(cfg, s1, start, rest);
      assert RunWritesNoLivePeer(cfg, s1, start + rest) && !Awake(cfg, Exec(cfg, s1, start + rest));
    }
  }

  /** With no attempts allowed every peer counts as out of attempts. */
  lemma NoAttempts(cfg: Config, s: State)
    requires cfg.maxAttempts == Some(0)
    ensures Awake(cfg, s)
  {
  }

  /** From a fresh manager: every run keeps the bounds, and every run whose calls write no record for
      a live peer stays awake. */
  lemma EveryRun(cfg: Config, events: seq<Event>)
    requires ValidConfig(cfg)
    ensures Inv(cfg, Exec(cfg, INITIAL, events))
    ensures RunWritesNoLivePeer(cfg, INITIAL, events) ==> Awake(cfg, Exec(cfg, INITIAL, events))
  {
    hide Exec, Inv, Awake, InSync, RunWritesNoLivePeer;
    InitialIsGood(cfg);
    ReachableInv(cfg, INITIAL, events);
    if RunWritesNoLivePeer(cfg, INITIAL, events) {
      NoLostWakeUp(cfg, INITIAL, events);
    }
  }

  /** A run that gets there: connecting first and starting with the same address afterwards resets the
      record of a live peer, whose next dial succeeds without a connect event. The peer is then
      tracked, unconnected, without dial or timer, and no health check brings it back; only the end of
      the connection does. */
  lemma StartAfterConnectLosesPeer(cfg: Config, addr: string, p: string, q: string, random: Random)
    requires PeerIdOf(addr) == Some(p) && (cfg.maxAttempts.Some? ==> cfg.maxAttempts.value > 0)
    ensures var s := Exec(cfg, INITIAL, [Initialize, Connect(addr), DialSucceeds(p), Start([addr]), DialSucceeds(p)]);
      && s.isStarted && p in s.peers && !Covered(cfg, s, p)
      && Step(cfg, s, HealthCheckPeer(q, random)) == s
  {
    hide PeerIdOf, Step;
    ConnectThenStart(cfg, addr, p);
    StartThenDial(cfg, addr, p, q, random);
    ExecFive(cfg, INITIAL, Initialize, Connect(addr), DialSucceeds(p), Start([addr]), DialSucceeds(p));
  }

  /** The state after `connect` and its connect event. */
  function ConnectedState(addr: string, p: string): State {
    State(true, false, map[p := Connection(addr, true, 0)], map[], multiset{}, {p})
  }

  lemma ConnectThenStart(cfg: Config, addr: string, p: string)
    requires PeerIdOf(addr) == Some(p)
    ensures Step(cfg, Step(cfg, Step(cfg, INITIAL, Initialize), Connect(addr)), DialSucceeds(p)) ==
      ConnectedState(addr, p)
  {
    hide PeerIdOf;
    var conn := Connection(addr, false, 0);
    assert Step(cfg, Step(cfg, INITIAL, Initialize), Connect(addr)) ==
      State(true, false, map[p := conn], map[], multiset{p}, {});
  }

  lemma StartThenDial(cfg: Config, addr: string, p: string, q: string, random: Random)
    requires PeerIdOf(addr) == Some(p) && (cfg.maxAttempts.Some? ==> cfg.maxAttempts.value > 0)
    ensures var s := Step(cfg, Step(cfg, ConnectedState(addr, p), Start([addr])), DialSucceeds(p));
      && s.isStarted && p in s.peers && !Covered(cfg, s, p)
      && Step(cfg, s, HealthCheckPeer(q, random)) == s
  {
    hide PeerIdOf, HandleDisconnect, HandleStart;
    StartAgain(addr, p);
    assert Step(cfg, ConnectedState(addr, p), Start([addr])) == ResetState(addr, p);
    var s := Step(cfg, ResetState(addr, p), DialSucceeds(p));
    assert s == ResetState(addr, p).(dials := multiset{});
  }

  /** The state after `start` has overwritten the record and dialled again. */
  function ResetState(addr: string, p: string): State {
    State(true, true, map[p := Connection(addr, false, 0)], map[], multiset{p}, {p})
  }

  lemma StartAgain(addr: string, p: string)
    requires PeerIdOf(addr) == Some(p)
    ensures HandleStart(ConnectedState(addr, p), [addr]) == ResetState(addr, p)
  {
    hide PeerIdOf;
    var conn := Connection(addr, false, 0);
    assert Records([addr]) == map[p := conn] by { assert [addr][..0] == []; }
    assert map[p := conn].Keys == {p};
  }

  lemma ExecFive(cfg: Config, s: State, a: Event, b: Event, c: Event, d: Event, e: Event)
    ensures Exec(cfg, s, [a, b, c, d, e]) == Step(cfg, Step(cfg, Step(cfg, Step(cfg, Step(cfg, s, a), b), c), d), e)
  {
    hide Step;
    var s4 := Step(cfg, Step(cfg, Step(cfg, Step(cfg, s, a), b), c), d);
    RunCons(cfg, s, a, [b, c, d, e]);
    RunCons(cfg, Step(cfg, s, a), b, [c, d, e]);
    RunCons(cfg, Step(cfg, Step(cfg, s, a), b), c, [d, e]);
    RunCons(cfg, Step(cfg, Step(cfg, Step(cfg, s, a), b), c), d, [e]);
    RunCons(cfg, s4, e, []);
    assert [a] + [b, c, d, e] == [a, b, c, d, e] && [b] + [c, d, e] == [b, c, d, e];
    assert [c] + [d, e] == [c, d, e] && [d] + [e] == [d, e] && [e] + [] == [e];
    assert Exec(cfg, Step(cfg, s4, e), []) == Step(cfg, s4, e);
  }

  // ----- After stop -----

  ghost predicate Quiet(s: State) {
    !s.isStarted && s.peers == map[] && s.timers == map[]
  }

  predicate IsStartOrConnect(e: Event) {
    e.Start? || e.Connect?
  }

  lemma StepQuiet(cfg: Config, s: State, e: Event)
    requires Quiet(s) && !IsStartOrConnect(e)
    ensures Quiet(Step(cfg, s, e))
  {
    hide PeerIdOf, Delay;
  }

  /** After stop, whatever dials still fail or timers would have fired, no timer is armed and no peer
      is tracked until start or connect is called again. */
  lemma QuietAfterStop(cfg: Config, s: State, events: seq<Event>)
    requires forall i :: 0 <= i < |events| ==> !IsStartOrConnect(events[i])
    ensures Quiet(Exec(cfg, Step(cfg, s, Stop), events))
    decreases |events|
  {
    QuietFrom(cfg, Step(cfg, s, Stop), events);
  }

  lemma {:induction false} QuietFrom(cfg: Config, s: State, events: seq<Event>)
    requires Quiet(s) && forall i :: 0 <= i < |events| ==> !IsStartOrConnect(events[i])
    ensures Quiet(Exec(cfg, s, events))
    decreases |events|
  {
    if events != [] {
      hide Step;
      StepQuiet(cfg, s, events[0]);
      QuietFrom(cfg, Step(cfg, s, events[0]), events[1..]);
    }
  }
}
