/** The BootstrapManager object of lib/p2p/bootstrap-manager.ts: handlers that update its maps, each
    proved to take the corresponding step of the machine in module Bootstrap. */
module BootstrapManagers {
  import opened Bootstrap

  class BootstrapManager {
    const cfg: Config
    var node: bool
    var isStarted: bool
    var bootstrapPeers: map<string, Connection>
    var reconnectTimers: map<string, real>
    ghost var dials: multiset<string>   // pending promises of node.dial
    ghost var live: set<string>         // peers with an open connection

    ghost function View(): State
      reads this
    {
      State(node, isStarted, bootstrapPeers, reconnectTimers, dials, live)
    }

    constructor (cfg: Config)
      ensures this.cfg == cfg && View() == INITIAL
    {
      this.cfg := cfg;
      node, isStarted, bootstrapPeers, reconnectTimers := false, false, map[], map[];
      dials, live := multiset{}, {};
    }

    method Initialize()
      modifies this
      ensures View() == Step(cfg, old(View()), Event.Initialize)
    {
      node := true;
    }

    /** `_connectToPeer` up to its await: the dial is now pending. */
    method ConnectToPeer(peerId: string)
      modifies this
      ensures View() == Dial(old(View()), peerId)
    {
      if !node {
        return;
      }
      if peerId !in bootstrapPeers {
        return;
      }
      dials := dials + multiset{peerId};
    }

    /** `start` up to the awaited dials; false when it throws or warns. */
    method Start(addrs: seq<string>) returns (ok: bool)
      modifies this
      ensures ok == (old(node) && !old(isStarted))
      ensures View() == Step(cfg, old(View()), Event.Start(addrs))
    {
      hide PeerIdOf;
      if !node {
        return false;
      }
      if isStarted {
        return false;
      }
      isStarted := true;
      ghost var before := View();
      for i := 0 to |addrs|
        invariant View() == before.(peers := before.peers + Records(addrs[..i]))
      {
        var peerId := PeerIdOf(addrs[i]);
        assert addrs[..i + 1][..i] == addrs[..i];
        if peerId.Some? {
          bootstrapPeers := bootstrapPeers[peerId.value := Connection(addrs[i], false, 0)];
        }
      }
      assert addrs[..|addrs|] == addrs;
      ConnectToAll();
      return true;
    }

    method ConnectToAll()
      requires node
      modifies this
      ensures View() == old(View()).(dials := old(dials) + DialsFor(bootstrapPeers))
    {
      var todo := bootstrapPeers.Keys;
      ghost var done: set<string> := {};
      ghost var before := View();
      while todo != {}
        invariant done !! todo && done + todo == bootstrapPeers.Keys
        invariant View() == before.(dials := before.dials + multiset(done))
        decreases todo
      {
        var peerId :| peerId in todo;
        ConnectToPeer(peerId);
        AddDial(before.dials, done, peerId);
        todo, done := todo - {peerId}, done + {peerId};
      }
      assert done == bootstrapPeers.Keys;
    }

    method Stop()
      modifies this
      ensures View() == Step(cfg, old(View()), Event.Stop)
    {
      isStarted := false;
      reconnectTimers := map[];
      bootstrapPeers := map[];
    }

    /** False when it throws. */
    method Connect(addr: string) returns (ok: bool)
      modifies this
      ensures ok == (old(node) && PeerIdOf(addr).Some?)
      ensures View() == Step(cfg, old(View()), Event.Connect(addr))
    {
      hide PeerIdOf;
      if !node {
        return false;
      }
      var peerId := PeerIdOf(addr);
      if peerId.None? {
        return false;
      }
      if peerId.value !in bootstrapPeers {
        bootstrapPeers := bootstrapPeers[peerId.value := Connection(addr, false, 0)];
      }
      ConnectToPeer(peerId.value);
      return true;
    }

    /** False when it throws. */
    method Reconnect(addr: string) returns (ok: bool)
      modifies this
      ensures ok == (PeerIdOf(addr).Some? && PeerIdOf(addr).value in old(bootstrapPeers))
      ensures View() == Step(cfg, old(View()), Event.Reconnect(addr))
    {
      hide PeerIdOf;
      var peerId := PeerIdOf(addr);
      if peerId.None? || peerId.value !in bootstrapPeers {
        return false;
      }
      var id := peerId.value;
      ClearTimer(id);
      bootstrapPeers := bootstrapPeers[id := bootstrapPeers[id].(reconnectAttempts := 0)];
      ConnectToPeer(id);
      return true;
    }

    method ClearTimer(peerId: string)
      modifies this`reconnectTimers
      ensures reconnectTimers == old(reconnectTimers) - {peerId}
    {
      if peerId in reconnectTimers {
        reconnectTimers := reconnectTimers - {peerId};
      } else {
        assert reconnectTimers == reconnectTimers - {peerId};
      }
    }

    method ScheduleReconnect(peerId: string, random: Random)
      modifies this
      ensures View() == Schedule(cfg, old(View()), peerId, random)
    {
      if peerId !in bootstrapPeers {
        return;
      }
      var connection := bootstrapPeers[peerId];
      if cfg.maxAttempts.Some? && connection.reconnectAttempts >= cfg.maxAttempts.value {
        return;
      }
      var delay := Delay(cfg, connection.reconnectAttempts, random);
      bootstrapPeers := bootstrapPeers[peerId := connection.(reconnectAttempts := connection.reconnectAttempts + 1)];
      reconnectTimers := reconnectTimers[peerId := delay];
    }

    /** The callback of a reconnect timer. */
    method OnTimer(peerId: string)
      requires peerId in reconnectTimers
      modifies this
      ensures View() == Step(cfg, old(View()), TimerFires(peerId))
    {
      reconnectTimers := reconnectTimers - {peerId};
      ConnectToPeer(peerId);
    }

    /** The catch branch of `_connectToPeer`. */
    method OnDialFailure(peerId: string, random: Random)
      requires peerId in dials
      modifies this
      ensures View() == Step(cfg, old(View()), DialFails(peerId, random))
    {
      dials := dials - multiset{peerId};
      ScheduleReconnect(peerId, random);
    }

    method HandleBootstrapConnect(peerId: string)
      modifies this
      ensures View() == HandleConnect(old(View()), peerId)
    {
      if peerId !in bootstrapPeers {
        return;
      }
      ClearTimer(peerId);
      bootstrapPeers := bootstrapPeers[peerId := bootstrapPeers[peerId].(isConnected := true)];
      bootstrapPeers := bootstrapPeers[peerId := bootstrapPeers[peerId].(reconnectAttempts := 0)];
    }

    method HandleBootstrapDisconnect(peerId: string, random: Random)
      modifies this
      ensures View() == HandleDisconnect(cfg, old(View()), peerId, random)
    {
      if peerId !in bootstrapPeers {
        return;
      }
      bootstrapPeers := bootstrapPeers[peerId := bootstrapPeers[peerId].(isConnected := false)];
      if isStarted {
        ScheduleReconnect(peerId, random);
      }
    }

    /** `_performHealthCheck`: `open` is what `getConnections` reports. The loop is a run of
        per-peer checks, and afterwards no tracked peer counts as connected without a connection. */
    method PerformHealthCheck(open: set<string>, randoms: string -> Random) returns (ghost events: seq<Event>)
      requires open == live
      modifies this
      ensures forall i :: 0 <= i < |events| ==> events[i].HealthCheckPeer?
      ensures View() == Exec(cfg, old(View()), events)
      ensures node ==> forall p :: p in bootstrapPeers ==> !Lost(View(), p)
      ensures bootstrapPeers.Keys == old(bootstrapPeers.Keys)
    {
      hide Delay, Schedule;
      events := [];
      if !node {
        return;
      }
      var todo := bootstrapPeers.Keys;
      while todo != {}
        invariant todo <= bootstrapPeers.Keys == old(bootstrapPeers.Keys)
        invariant node && live == open
        invariant forall i :: 0 <= i < |events| ==> events[i].HealthCheckPeer?
        invariant View() == Exec(cfg, old(View()), events)
        invariant forall p :: p in bootstrapPeers && p !in todo ==> !Lost(View(), p)
        decreases todo
      {
        var peerId :| peerId in todo;
        ghost var before := View();
        HealthCheckStep(cfg, before, peerId, randoms(peerId));
        if bootstrapPeers[peerId].isConnected && peerId !in open {
          HandleBootstrapDisconnect(peerId, randoms(peerId));
        }
        ExecSnoc(cfg, old(View()), events, HealthCheckPeer(peerId, randoms(peerId)));
        events := events + [HealthCheckPeer(peerId, randoms(peerId))];
        todo := todo - {peerId};
      }
    }
  }

  lemma AddDial(dials: multiset<string>, done: set<string>, peer: string)
    requires peer !in done
    ensures dials + multiset(done) + multiset{peer} == dials + multiset(done + {peer})
  {
  }

  /** Checking one peer settles it and disturbs no other. */
  lemma HealthCheckStep(cfg: Config, s: State, peer: string, random: Random)
    requires s.node && peer in s.peers
    ensures var s1 := Step(cfg, s, HealthCheckPeer(peer, random));
      && s1.peers.Keys == s.peers.Keys && s1.node && s1.live == s.live && !Lost(s1, peer)
      && (forall p :: p in s.peers && p != peer ==> s1.peers[p] == s.peers[p])
    ensures Lost(s, peer) ==> Step(cfg, s, HealthCheckPeer(peer, random)) == HandleDisconnect(cfg, s, peer, random)
    ensures !Lost(s, peer) ==> Step(cfg, s, HealthCheckPeer(peer, random)) == s
  {
    hide Delay;
  }

  lemma {:induction false} ExecSnoc(cfg: Config, s: State, events: seq<Event>, e: Event)
    ensures Exec(cfg, s, events + [e]) == Step(cfg, Exec(cfg, s, events), e)
    decreases |events|
  {
    hide Step;
    if events == [] {
      assert [] + [e] == [e] && [e][1..] == [];
    } else {
      ExecSnoc(cfg, Step(cfg, s, events[0]), events[1..], e);
      assert (events + [e])[1..] == events[1..] + [e];
    }
  }
}
