/** CorePeerBanManager of lib/p2p/security.ts: warnings that escalate to temporary and permanent
    bans, described against the history of the calls made to it. */
module PeerBans {
  import opened Buffers

  const HOUR := 60 * 60 * 1000
  const TEMP_BAN_AFTER := 5
  const BAN_AFTER := 10

  datatype Bans = Bans(blacklist: set<string>, tempBans: map<string, int>, warnings: map<string, nat>)

  const EMPTY := Bans({}, map[], map[])

  function Warnings(b: Bans, peer: string): nat {
    if peer in b.warnings then b.warnings[peer] else 0
  }

  // ----- The operations -----

  function BanPeer(b: Bans, peer: string): Bans {
    b.(blacklist := b.blacklist + {peer})
  }

  function TempBanPeer(b: Bans, peer: string, duration: int, now: int): Bans {
    b.(tempBans := b.tempBans[peer := now + duration])
  }

  function WarnPeer(b: Bans, peer: string, now: int): Bans {
    var n := Warnings(b, peer) + 1;
    var b1 := b.(warnings := b.warnings[peer := n]);
    var b2 := if n >= TEMP_BAN_AFTER then TempBanPeer(b1, peer, HOUR, now) else b1;
    if n >= BAN_AFTER then BanPeer(b2, peer) else b2
  }

  /** A temporary ban entry; zero counts as none. */
  predicate HasTempBan(b: Bans, peer: string) {
    peer in b.tempBans && b.tempBans[peer] != 0
  }

  predicate IsAllowed(b: Bans, peer: string, now: int) {
    peer !in b.blacklist && (HasTempBan(b, peer) ==> now >= b.tempBans[peer])
  }

  /** `isAllowed` also deletes an expired temporary ban. */
  function Checked(b: Bans, peer: string, now: int): Bans {
    if IsAllowed(b, peer, now) && HasTempBan(b, peer) then b.(tempBans := b.tempBans - {peer}) else b
  }

  function UnbanPeer(b: Bans, peer: string): Bans {
    Bans(b.blacklist - {peer}, b.tempBans - {peer}, b.warnings - {peer})
  }

  // ----- Histories -----

  datatype Event =
    | Ban(peer: string, now: int)
    | TempBan(peer: string, now: int, duration: int)
    | Warn(peer: string, now: int)
    | Check(peer: string, now: int)
    | Unban(peer: string, now: int)

  function Step(b: Bans, e: Event): Bans {
    match e
    case Ban(peer, _) => BanPeer(b, peer)
    case TempBan(peer, now, duration) => TempBanPeer(b, peer, duration, now)
    case Warn(peer, now) => WarnPeer(b, peer, now)
    case Check(peer, now) => Checked(b, peer, now)
    case Unban(peer, _) => UnbanPeer(b, peer)
  }

  function Exec(history: seq<Event>): Bans {
    if history == [] then EMPTY
    else Step(Exec(history[..|history| - 1]), history[|history| - 1])
  }

  /** The events of one peer since it was last unbanned. */
  function SinceUnban(history: seq<Event>, peer: string): seq<Event> {
    if history == [] then []
    else
      var rest, e := history[..|history| - 1], history[|history| - 1];
      if e.peer != peer then SinceUnban(rest, peer)
      else if e.Unban? then []
      else SinceUnban(rest, peer) + [e]
  }

  function WarnCount(es: seq<Event>): nat {
    if es == [] then 0
    else WarnCount(es[..|es| - 1]) + if es[|es| - 1].Warn? then 1 else 0
  }

  predicate HasBan(es: seq<Event>) {
    exists i :: 0 <= i < |es| && es[i].Ban?
  }

  /** The end of the latest temporary ban: asked for, or set off by a fifth or later warning. */
  function BannedUntil(es: seq<Event>): Option<int> {
    if es == [] then None
    else
      var rest, e := es[..|es| - 1], es[|es| - 1];
      if e.TempBan? then Some(e.now + e.duration)
      else if e.Warn? && WarnCount(es) >= 5 then Some(e.now + 3_600_000)
      else BannedUntil(rest)
  }

  /** The clock is positive and never goes back. */
  ghost predicate Timed(history: seq<Event>, now: int) {
    now > 0 && (history == [] ||
      (history[|history| - 1].now <= now && Timed(history[..|history| - 1], history[|history| - 1].now)))
  }

  ghost predicate Describes(b: Bans, es: seq<Event>, peer: string, now: int) {
    && Warnings(b, peer) == WarnCount(es)
    && (peer in b.blacklist <==> HasBan(es) || WarnCount(es) >= 10)
    && match BannedUntil(es)
       case None => peer !in b.tempBans
       case Some(u) => if peer in b.tempBans then b.tempBans[peer] == u else now >= u
  }

  lemma HasBanSnoc(es: seq<Event>, e: Event)
    ensures HasBan(es + [e]) <==> HasBan(es) || e.Ban?
  {
    var all := es + [e];
    assert all[|es|] == e;
    forall i | 0 <= i < |es|
      ensures all[i] == es[i]
    {
    }
  }

  lemma {:induction false} StepDescribes(b: Bans, es: seq<Event>, e: Event, peer: string, before: int)
    requires Describes(b, es, peer, before) && before <= e.now
    ensures Describes(Step(b, e), if e.peer != peer then es else if e.Unban? then [] else es + [e], peer, e.now)
  {
    if e.peer == peer && !e.Unban? {
      HasBanSnoc(es, e);
      assert (es + [e])[..|es + [e]| - 1] == es;
    }
  }

  lemma {:induction false} ExecDescribes(history: seq<Event>, peer: string, now: int)
    requires Timed(history, now)
    ensures Describes(Exec(history), SinceUnban(history, peer), peer, now)
  {
    if history != [] {
      var rest, e := history[..|history| - 1], history[|history| - 1];
      ExecDescribes(rest, peer, e.now);
      StepDescribes(Exec(rest), SinceUnban(rest, peer), e, peer, e.now);
      Later(Exec(history), SinceUnban(history, peer), peer, e.now, now);
    }
  }

  lemma Later(b: Bans, es: seq<Event>, peer: string, before: int, now: int)
    requires Describes(b, es, peer, before) && before <= now
    ensures Describes(b, es, peer, now)
  {
  }

  /** Whatever was called in whatever order, a peer is let through exactly when, since it was last
      unbanned, nobody banned it, it got fewer than ten warnings, and its latest temporary ban (the
      hour of a fifth or later warning included) is over. In particular, deleting expired entries
      inside `isAllowed` changes no answer. */
  lemma AllowedIff(history: seq<Event>, peer: string, now: int)
    requires Timed(history, now)
    ensures var es := SinceUnban(history, peer);
      IsAllowed(Exec(history), peer, now) <==>
      (!HasBan(es) && WarnCount(es) < 10
       && (BannedUntil(es).Some? ==> now >= BannedUntil(es).value))
  {
    ExecDescribes(history, peer, now);
  }

  /** The latest temporary ban wins, not the longest: a fifth warning replaces a day's ban by an
      hour's. Whatever else happened before, the peer is let through again after that hour. */
  lemma WarningShortensBan(history: seq<Event>, peer: string, start: int, now: int)
    requires Timed(history, start) && WarnCount(SinceUnban(history, peer)) == 4
    requires !HasBan(SinceUnban(history, peer)) && start + 3_600_000 <= now
    ensures var h := history + [TempBan(peer, start, 86_400_000)];
      now < start + 86_400_000 ==> !IsAllowed(Exec(h), peer, now)
    ensures IsAllowed(Exec(history + [TempBan(peer, start, 86_400_000), Warn(peer, start)]), peer, now)
  {
    hide HasBan, Exec, IsAllowed;
    var es := SinceUnban(history, peer);
    var e1, e2 := TempBan(peer, start, 86_400_000), Warn(peer, start);
    var h1, h2 := history + [e1], history + [e1, e2];
    assert h1[..|h1| - 1] == history && h2[..|h2| - 1] == h1;
    assert SinceUnban(h1, peer) == es + [e1] && SinceUnban(h2, peer) == es + [e1] + [e2];
    assert (es + [e1])[..|es|] == es && (es + [e1] + [e2])[..|es| + 1] == es + [e1];
    HasBanSnoc(es, e1);
    HasBanSnoc(es + [e1], e2);
    AllowedIff(h1, peer, now);
    AllowedIff(h2, peer, now);
  }

  /** One more warning in a history. */
  lemma AnotherWarning(history: seq<Event>, peer: string, now: int)
    requires Timed(history, now)
    ensures var longer := history + [Warn(peer, now)];
      && Timed(longer, now) && (HasBan(SinceUnban(longer, peer)) <==> HasBan(SinceUnban(history, peer)))
      && WarnCount(SinceUnban(longer, peer)) == WarnCount(SinceUnban(history, peer)) + 1
      && BannedUntil(SinceUnban(longer, peer)) ==
           if WarnCount(SinceUnban(longer, peer)) >= 5 then Some(now + 3_600_000)
           else BannedUntil(SinceUnban(history, peer))
  {
    hide HasBan;
    var w, es := Warn(peer, now), SinceUnban(history, peer);
    var longer := history + [w];
    assert longer[..|history|] == history && longer[|history|] == w;
    assert SinceUnban(longer, peer) == es + [w];
    assert (es + [w])[..|es|] == es && (es + [w])[|es|] == w;
    HasBanSnoc(es, w);
  }

  /** Four warnings in a row are such a history. */
  lemma FourWarnings(peer: string, now: int) returns (history: seq<Event>)
    requires now > 0
    ensures history == [Warn(peer, now), Warn(peer, now), Warn(peer, now), Warn(peer, now)]
    ensures Timed(history, now) && WarnCount(SinceUnban(history, peer)) == 4
    ensures !HasBan(SinceUnban(history, peer))
  {
    var w := Warn(peer, now);
    history := [];
    assert Timed(history, now) && SinceUnban(history, peer) == [] && WarnCount([]) == 0 && !HasBan([]);
    hide Timed, SinceUnban, WarnCount, HasBan;
    AnotherWarning(history, peer, now);
    AnotherWarning([] + [w], peer, now);
    AnotherWarning([] + [w] + [w], peer, now);
    AnotherWarning([] + [w] + [w] + [w], peer, now);
    history := [] + [w] + [w] + [w] + [w];
  }

  /** Warnings alone, k of them at one time: fewer than five change nothing, five to nine keep the peer out
      for an hour, ten and more for good. */
  lemma {:induction false} WarnedTimes(peer: string, k: nat, start: int, now: int)
    requires 0 < start <= now
    ensures var h := Repeated(Warn(peer, start), k);
      IsAllowed(Exec(h), peer, now) <==> k < 5 || (k < 10 && now >= start + 3_600_000)
  {
    hide Exec, IsAllowed, Timed, SinceUnban, HasBan;
    RepeatedWarnings(peer, k, start);
    Timely(Repeated(Warn(peer, start), k), start, now);
    AllowedIff(Repeated(Warn(peer, start), k), peer, now);
  }

  function Repeated(e: Event, k: nat): seq<Event> {
    if k == 0 then [] else Repeated(e, k - 1) + [e]
  }

  lemma {:induction false} RepeatedWarnings(peer: string, k: nat, start: int)
    requires start > 0
    ensures var h := Repeated(Warn(peer, start), k);
      && Timed(h, start) && !HasBan(SinceUnban(h, peer)) && WarnCount(SinceUnban(h, peer)) == k
      && BannedUntil(SinceUnban(h, peer)) == if k < 5 then None else Some(start + 3_600_000)
  {
    hide Timed, SinceUnban, WarnCount, HasBan, BannedUntil;
    if k > 0 {
      RepeatedWarnings(peer, k - 1, start);
      AnotherWarning(Repeated(Warn(peer, start), k - 1), peer, start);
    } else {
      NoHistory(peer, start);
    }
  }

  lemma NoHistory(peer: string, now: int)
    requires now > 0
    ensures Timed([], now) && SinceUnban([], peer) == [] && WarnCount([]) == 0 && !HasBan([]) && BannedUntil([]) == None
  {
  }

  lemma Timely(history: seq<Event>, before: int, now: int)
    requires Timed(history, before) && before <= now
    ensures Timed(history, now)
  {
  }

  /** A check drops the peer's temporary ban when it is over, and nothing else. */
  lemma CheckMeans(b: Bans, peer: string, now: int, p: string)
    ensures var b1 := Step(b, Check(peer, now));
      && b1.blacklist == b.blacklist && b1.warnings == b.warnings
      && (p in b1.tempBans <==>
          p in b.tempBans && !(p == peer && peer !in b.blacklist && b.tempBans[p] != 0 && b.tempBans[p] <= now))
      && (p in b1.tempBans ==> b1.tempBans[p] == b.tempBans[p])
  {
  }

  /** Ten warnings mean a permanent ban, and only unbanning takes a peer off the blacklist. */
  ghost predicate Escalated(b: Bans) {
    forall p :: p in b.warnings && b.warnings[p] >= 10 ==> p in b.blacklist
  }

  lemma StepEscalated(b: Bans, e: Event, peer: string)
    requires Escalated(b)
    ensures Escalated(Step(b, e))
    ensures peer in b.blacklist && !(e.Unban? && e.peer == peer) ==> peer in Step(b, e).blacklist
    ensures !(e.Unban? && e.peer == peer) ==> Warnings(Step(b, e), peer) >= Warnings(b, peer)
  {
  }

  // ----- The ban manager object -----

  class CorePeerBanManager {
    var blacklist: set<string>
    var tempBans: map<string, int>
    var warningCount: map<string, nat>

    ghost function View(): Bans
      reads this
    {
      Bans(blacklist, tempBans, warningCount)
    }

    constructor ()
      ensures View() == EMPTY
    {
      blacklist, tempBans, warningCount := {}, map[], map[];
    }

    method BanNow(peerId: string)
      modifies this`blacklist
      ensures View() == Step(old(View()), Ban(peerId, 0))
    {
      blacklist := blacklist + {peerId};
    }

    method TempBanNow(peerId: string, duration: int, now: int)
      modifies this`tempBans
      ensures View() == Step(old(View()), TempBan(peerId, now, duration))
    {
      var until := now + duration;
      tempBans := tempBans[peerId := until];
    }

    method WarnNow(peerId: string, now: int)
      modifies this
      ensures View() == Step(old(View()), Warn(peerId, now))
    {
      var count := (if peerId in warningCount then warningCount[peerId] else 0) + 1;
      warningCount := warningCount[peerId := count];
      if count >= 5 {
        TempBanNow(peerId, 60 * 60 * 1000, now);
      }
      if count >= 10 {
        BanNow(peerId);
      }
    }

    method IsAllowedNow(peerId: string, now: int) returns (ok: bool)
      modifies this`tempBans
      ensures ok == IsAllowed(old(View()), peerId, now)
      ensures View() == Step(old(View()), Check(peerId, now))
    {
      if peerId in blacklist {
        return false;
      }
      var until := if peerId in tempBans then tempBans[peerId] else 0;
      if until != 0 && now < until {
        return false;
      }
      if until != 0 && now >= until {
        tempBans := tempBans - {peerId};
      }
      return true;
    }

    method UnbanNow(peerId: string)
      modifies this
      ensures View() == Step(old(View()), Unban(peerId, 0))
    {
      blacklist := blacklist - {peerId};
      tempBans := tempBans - {peerId};
      warningCount := warningCount - {peerId};
    }
  }
}
