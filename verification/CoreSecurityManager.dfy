/** The object of lib/p2p/security.ts behind SecurityManager, with its three collaborators. An
    asynchronous call is the method up to its first wait, then one Settle per validator answer. */
module CoreSecurityManagers {
  import opened SecurityManager
  import Limits = RateLimiter
  import Tracking = ResourceTracker
  import Banning = PeerBans

  class CoreSecurityManager {
    const dhtRateLimiter: Limits.DHTAnnouncementRateLimiter
    const resourceTracker: Tracking.DHTResourceTracker
    const peerBanManager: Banning.CorePeerBanManager
    const config: Config
    var protocolValidators: seq<(string, Hooks)>
    var total: int
    var rejected: int
    var rateLimited: int
    var calls: seq<Call>
    ghost var base: seq<Call>

    ghost function View(): Manager
      reads this, dhtRateLimiter, resourceTracker, peerBanManager
    {
      Manager(dhtRateLimiter.View(), resourceTracker.View(), peerBanManager.View(), protocolValidators,
              Metrics(total, rejected, rateLimited), calls, base)
    }

    constructor (config: Config)
      ensures View() == START && this.config == config
      ensures fresh(dhtRateLimiter) && fresh(resourceTracker) && fresh(peerBanManager)
    {
      this.config := config;
      dhtRateLimiter := new Limits.DHTAnnouncementRateLimiter();
      resourceTracker := new Tracking.DHTResourceTracker();
      peerBanManager := new Banning.CorePeerBanManager();
      protocolValidators := [];
      total, rejected, rateLimited := 0, 0, 0;
      calls, base := [], [];
    }

    /** The validator lookup: an exact name, then the first registered prefix. */
    method FindValidator(resourceType: string) returns (h: Hooks)
      ensures h == FindHooks(protocolValidators, resourceType)
    {
      var i := 0;
      while i < |protocolValidators|
        invariant i <= |protocolValidators|
        invariant Lookup(protocolValidators, resourceType) == Lookup(protocolValidators[i..], resourceType)
      {
        if protocolValidators[i].0 == resourceType {
          return protocolValidators[i].1;
        }
        i := i + 1;
      }
      i := 0;
      while i < |protocolValidators|
        invariant i <= |protocolValidators|
        invariant FirstPrefix(protocolValidators, resourceType) == FirstPrefix(protocolValidators[i..], resourceType)
      {
        if protocolValidators[i].0 <= resourceType {
          return protocolValidators[i].1;
        }
        i := i + 1;
      }
      return NO_HOOKS;
    }

    /** Everything up to the first wait; the call gets the next number in the log. */
    method CanAnnounceToDHT(peerId: string, resourceType: string, resourceId: string, now: int)
      returns (status: Status)
      modifies this, dhtRateLimiter, resourceTracker, peerBanManager
      ensures View() == Step(config, old(View()), Announce(peerId, now, resourceType, resourceId))
      ensures status == Decide(config, old(View()), peerId, now, resourceType, resourceId).1
    {
      var hooks;
      status, hooks := DecideNow(peerId, resourceType, resourceId, now);
      calls := calls + [Call(peerId, now, hooks, status)];
    }

    method DecideNow(peerId: string, resourceType: string, resourceId: string, now: int)
      returns (status: Status, hooks: Hooks)
      modifies this, dhtRateLimiter, resourceTracker, peerBanManager
      ensures (View(), status, hooks) == Decide(config, old(View()), peerId, now, resourceType, resourceId)
    {
      hide Banning.Step, Banning.IsAllowed, Limits.CanAnnounce, Tracking.Announce, FindHooks;
      total := total + 1;
      hooks := NO_HOOKS;
      if config.disabled {
        status := Accepted;
        return;
      }
      var allowed := peerBanManager.IsAllowedNow(peerId, now);
      if !allowed {
        rejected := rejected + 1;
        status := Rejected;
        return;
      }
      var spaced := dhtRateLimiter.CanAnnounceAt(peerId, config.minInterval, now);
      if !spaced {
        rateLimited := rateLimited + 1;
        peerBanManager.WarnNow(peerId, now);
        status := RateLimited;
        return;
      }
      var fits := resourceTracker.CanAnnounceResource(peerId, resourceType, resourceId);
      if !fits {
        rejected := rejected + 1;
        peerBanManager.WarnNow(peerId, now);
        status := Rejected;
        return;
      }
      hooks := FindValidator(resourceType);
      status := if hooks.policy then AwaitsPolicy else if hooks.data then AwaitsData else Accepted;
    }

    /** A validator hook that call i waits for answers, or throws. */
    method SettleNow(i: nat, answer: Answer, now: int)
      requires i < |calls| && Waiting(calls[i].status)
      modifies this, peerBanManager
      ensures View() == Step(config, old(View()), Settle(i, now, answer))
    {
      hide Banning.Step;
      var call := calls[i];
      match answer {
        case Throws =>
          calls := calls[i := call.(status := Threw)];
        case No =>
          rejected := rejected + 1;
          calls := calls[i := call.(status := Rejected)];
          if call.status == AwaitsData {
            peerBanManager.WarnNow(call.peer, now);
          }
        case Yes =>
          var more := call.status == AwaitsPolicy && call.hooks.data;
          calls := calls[i := call.(status := if more then AwaitsData else Accepted)];
      }
    }

    method RegisterProtocolValidator(name: string, hooks: Hooks)
      modifies this
      ensures View() == Step(config, old(View()), RegisterValidator(name, 0, hooks))
    {
      var i := 0;
      while i < |protocolValidators| && protocolValidators[i].0 != name
        invariant i <= |protocolValidators|
        invariant forall j :: 0 <= j < i ==> protocolValidators[j].0 != name
      {
        i := i + 1;
      }
      RegisterAt(protocolValidators, i, name, hooks);
      if i < |protocolValidators| {
        protocolValidators := protocolValidators[..i] + [(name, hooks)] + protocolValidators[i + 1..];
      } else {
        protocolValidators := protocolValidators + [(name, hooks)];
      }
    }

    method Cleanup(now: int)
      modifies dhtRateLimiter
      ensures View() == Step(config, old(View()), CleanupAt(now))
    {
      dhtRateLimiter.CleanupOld(now);
    }

    method ResetMetricsNow()
      modifies this
      ensures View() == Step(config, old(View()), ResetMetrics(0))
    {
      total, rejected, rateLimited := 0, 0, 0;
      base := calls;
    }
  }
}
