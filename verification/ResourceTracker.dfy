/** DHTResourceTracker of lib/p2p/security.ts: per peer a flat set of "type:id" keys and a set of
    ids per type, kept side by side. */
module ResourceTracker {

  const MAX_PER_PEER := 100
  const MAX_PER_TYPE := 20

  type TypeMap = map<string, set<string>>

  datatype Tracker = Tracker(flat: map<string, set<string>>, byType: map<string, TypeMap>)

  const EMPTY := Tracker(map[], map[])

  function Key(resourceType: string, resourceId: string): string {
    resourceType + ":" + resourceId
  }

  function FlatSet(t: Tracker, peer: string): set<string> {
    if peer in t.flat then t.flat[peer] else {}
  }

  function Types(t: Tracker, peer: string): TypeMap {
    if peer in t.byType then t.byType[peer] else map[]
  }

  function TypeSet(t: Tracker, peer: string, resourceType: string): set<string> {
    var m := Types(t, peer);
    if resourceType in m then m[resourceType] else {}
  }

  // ----- The operations -----

  /** Both limit tests of `canAnnounceResource`. */
  predicate WithinLimits(t: Tracker, peer: string, ty: string, id: string) {
    && (|FlatSet(t, peer)| >= MAX_PER_PEER ==> Key(ty, id) in FlatSet(t, peer))
    && (|TypeSet(t, peer, ty)| >= MAX_PER_TYPE ==> id in TypeSet(t, peer, ty))
  }

  /** `canAnnounceResource`: the new state and the result. */
  function Announce(t: Tracker, peer: string, ty: string, id: string): (Tracker, bool) {
    if |FlatSet(t, peer)| >= MAX_PER_PEER && Key(ty, id) !in FlatSet(t, peer) then (t, false)
    else
      var m := Types(t, peer);
      if |TypeSet(t, peer, ty)| >= MAX_PER_TYPE && id !in TypeSet(t, peer, ty) then
        (t.(byType := t.byType[peer := m]), false)
      else
        (Tracker(t.flat[peer := FlatSet(t, peer) + {Key(ty, id)}],
                 t.byType[peer := m[ty := TypeSet(t, peer, ty) + {id}]]), true)
  }

  /** Removes from a set and drops it when it becomes empty. */
  function Shrink<K>(m: map<K, set<string>>, k: K, x: string): map<K, set<string>> {
    if k !in m then m
    else if m[k] - {x} == {} then m - {k}
    else m[k := m[k] - {x}]
  }

  /** `removeResource`. */
  function Remove(t: Tracker, peer: string, ty: string, id: string): Tracker {
    var flat := Shrink(t.flat, peer, Key(ty, id));
    if peer !in t.byType then t.(flat := flat)
    else
      var m := Shrink(t.byType[peer], ty, id);
      Tracker(flat, if m == map[] then t.byType - {peer} else t.byType[peer := m])
  }

  // ----- Agreement of the two views -----

  /** The (type, id) pairs tracked for a peer. */
  ghost function Pairs(t: Tracker, peer: string): set<(string, string)> {
    PairsOf(Types(t, peer))
  }

  ghost function PairsOf(m: TypeMap): set<(string, string)> {
    set ty, id | ty in m && id in m[ty] :: (ty, id)
  }

  ghost function KeysOf(pairs: set<(string, string)>): set<string> {
    set p | p in pairs :: Key(p.0, p.1)
  }

  /** The sum of the sizes of the per-type sets. */
  ghost function SumSizes(m: TypeMap): nat
    decreases m.Keys
  {
    if m == map[] then 0
    else
      var ty :| ty in m;
      assert (m - {ty}).Keys < m.Keys;
      |m[ty]| + SumSizes(m - {ty})
  }

  /** The flat set is the union of the per-type sets, and as large as all of them together. */
  ghost predicate Agrees(t: Tracker, peer: string) {
    FlatSet(t, peer) == KeysOf(Pairs(t, peer)) && |FlatSet(t, peer)| == |Pairs(t, peer)|
  }

  ghost predicate WithinBounds(t: Tracker, peer: string) {
    |FlatSet(t, peer)| <= MAX_PER_PEER && forall ty :: |TypeSet(t, peer, ty)| <= MAX_PER_TYPE
  }

  /** Counting pairs is summing set sizes. */
  lemma {:induction false} PairCount(m: TypeMap)
    ensures |PairsOf(m)| == SumSizes(m)
    decreases m.Keys
  {
    if m == map[] {
      assert PairsOf(m) == {};
    } else {
      var ty :| ty in m && SumSizes(m) == |m[ty]| + SumSizes(m - {ty});
      var rest := m - {ty};
      PairCount(rest);
      var here := set id | id in m[ty] :: (ty, id);
      PairsOfOneType(ty, m[ty]);
      assert PairsOf(m) == here + PairsOf(rest);
      assert here !! PairsOf(rest);
    }
  }

  lemma {:induction false} PairsOfOneType(ty: string, ids: set<string>)
    ensures |set id | id in ids :: (ty, id)| == |ids|
  {
    if ids != {} {
      var x :| x in ids;
      PairsOfOneType(ty, ids - {x});
      assert (set id | id in ids :: (ty, id)) == (set id | id in ids - {x} :: (ty, id)) + {(ty, x)};
    }
  }

  lemma AnnouncePairs(t: Tracker, peer: string, ty: string, id: string)
    requires Announce(t, peer, ty, id).1
    ensures Pairs(Announce(t, peer, ty, id).0, peer) == Pairs(t, peer) + {(ty, id)}
    ensures FlatSet(Announce(t, peer, ty, id).0, peer) == FlatSet(t, peer) + {Key(ty, id)}
  {
    hide Announce;
    AnnounceFrame(t, peer, ty, id, peer);
    Accepted(t, peer, ty, id);
    AddPair(Types(t, peer), ty, id);
  }

  lemma AddPair(m: TypeMap, ty: string, id: string)
    ensures PairsOf(m[ty := (if ty in m then m[ty] else {}) + {id}]) == PairsOf(m) + {(ty, id)}
  {
  }

  lemma RemovePairs(t: Tracker, peer: string, ty: string, id: string)
    ensures Pairs(Remove(t, peer, ty, id), peer) == Pairs(t, peer) - {(ty, id)}
    ensures FlatSet(Remove(t, peer, ty, id), peer) == FlatSet(t, peer) - {Key(ty, id)}
  {
    var m, m1 := Types(t, peer), Types(Remove(t, peer, ty, id), peer);
    ShrinkPairs(m, ty, id);
    if peer in t.byType {
      assert m1 == Shrink(m, ty, id);
    }
  }

  lemma ShrinkPairs(m: TypeMap, ty: string, id: string)
    ensures PairsOf(Shrink(m, ty, id)) == PairsOf(m) - {(ty, id)}
  {
    var m1 := Shrink(m, ty, id);
    forall p: (string, string)
      ensures p in PairsOf(m1) <==> p in PairsOf(m) && p != (ty, id)
    {
      if ty in m && p.0 == ty && p.1 != id && p.1 in m[ty] {
        assert p.1 in m[ty] - {id};
      }
    }
  }

  /** Only the announcing peer's entries change, and a refusal changes no set at all. */
  lemma AnnounceFrame(t: Tracker, peer: string, ty: string, id: string, other: string)
    ensures var (t1, ok) := Announce(t, peer, ty, id);
      && (other != peer || !ok ==> FlatSet(t1, other) == FlatSet(t, other) && Types(t1, other) == Types(t, other))
      && (ok <==> WithinLimits(t, peer, ty, id))
  {
  }

  lemma RemoveFrame(t: Tracker, peer: string, ty: string, id: string, other: string)
    requires other != peer
    ensures FlatSet(Remove(t, peer, ty, id), other) == FlatSet(t, other)
    ensures Types(Remove(t, peer, ty, id), other) == Types(t, other)
  {
  }

  lemma KeysOfAdd(pairs: set<(string, string)>, ty: string, id: string)
    ensures KeysOf(pairs + {(ty, id)}) == KeysOf(pairs) + {Key(ty, id)}
  {
    assert (ty, id) in pairs + {(ty, id)};
  }

  /** An accepted announcement keeps the two views in agreement exactly when it is a repetition or
      its key is not already used by another pair. */
  lemma AnnounceAgreesIff(t: Tracker, peer: string, ty: string, id: string)
    requires Agrees(t, peer) && Announce(t, peer, ty, id).1
    ensures Agrees(Announce(t, peer, ty, id).0, peer) <==>
      (ty, id) in Pairs(t, peer) || Key(ty, id) !in FlatSet(t, peer)
  {
    hide Announce, Pairs, FlatSet, Key;
    AnnouncePairs(t, peer, ty, id);
    KeysOfAdd(Pairs(t, peer), ty, id);
    if (ty, id) in Pairs(t, peer) {
      assert Pairs(t, peer) + {(ty, id)} == Pairs(t, peer);
    }
  }

  /** A removal keeps agreement exactly when the pair is tracked, or its key belongs to no other. */
  lemma RemoveAgreesIff(t: Tracker, peer: string, ty: string, id: string)
    requires Agrees(t, peer)
    ensures Agrees(Remove(t, peer, ty, id), peer) <==>
      (ty, id) in Pairs(t, peer) || Key(ty, id) !in FlatSet(t, peer)
  {
    hide Remove, Pairs, FlatSet, Key;
    RemovePairs(t, peer, ty, id);
    var pairs := Pairs(t, peer);
    if (ty, id) in pairs {
      var rest := pairs - {(ty, id)};
      KeysOfAdd(rest, ty, id);
      assert rest + {(ty, id)} == pairs;
      KeysOfSize(rest);
      assert Key(ty, id) !in KeysOf(rest);
    } else {
      assert pairs - {(ty, id)} == pairs;
    }
  }

  /** There are never more keys than pairs. */
  lemma {:induction false} KeysOfSize(pairs: set<(string, string)>)
    ensures |KeysOf(pairs)| <= |pairs|
  {
    if pairs != {} {
      var p :| p in pairs;
      KeysOfSize(pairs - {p});
      KeysOfAdd(pairs - {p}, p.0, p.1);
      assert pairs - {p} + {(p.0, p.1)} == pairs;
    }
  }

  // ----- Colon-free types -----

  predicate ColonFree(ty: string) {
    ':' !in ty
  }

  /** Without a colon in the types, the key determines type and id. */
  lemma KeyInjective(ty: string, id: string, ty': string, id': string)
    requires ColonFree(ty) && ColonFree(ty') && Key(ty, id) == Key(ty', id')
    ensures ty == ty' && id == id'
  {
    var k, k' := Key(ty, id), Key(ty', id');
    assert k[|ty|] == ':' && forall i :: 0 <= i < |ty| ==> k[i] != ':';
    assert k'[|ty'|] == ':' && forall i :: 0 <= i < |ty'| ==> k'[i] != ':';
    assert k[..|ty|] == ty && k'[..|ty'|] == ty';
    assert k[|ty| + 1..] == id && k'[|ty'| + 1..] == id';
  }

  datatype Event = Announced(peer: string, ty: string, id: string) | Removed(peer: string, ty: string, id: string)

  function Step(t: Tracker, e: Event): Tracker {
    match e
    case Announced(peer, ty, id) => Announce(t, peer, ty, id).0
    case Removed(peer, ty, id) => Remove(t, peer, ty, id)
  }

  function Exec(t: Tracker, events: seq<Event>): Tracker
    decreases |events|
  {
    if events == [] then t else Exec(Step(t, events[0]), events[1..])
  }

  /** Agreement, the limits, and colon-free tracked types. */
  ghost predicate Inv(t: Tracker, peer: string) {
    Agrees(t, peer) && WithinBounds(t, peer) && forall p :: p in Pairs(t, peer) ==> ColonFree(p.0)
  }

  lemma FreshKey(t: Tracker, peer: string, ty: string, id: string)
    requires Inv(t, peer) && ColonFree(ty)
    ensures (ty, id) in Pairs(t, peer) || Key(ty, id) !in FlatSet(t, peer)
  {
    hide Pairs, FlatSet, Key, WithinBounds;
    if Key(ty, id) in FlatSet(t, peer) {
      var p :| p in Pairs(t, peer) && Key(p.0, p.1) == Key(ty, id);
      KeyInjective(p.0, p.1, ty, id);
    }
  }

  lemma AnnounceBounds(t: Tracker, peer: string, ty: string, id: string)
    requires WithinBounds(t, peer)
    ensures WithinBounds(Announce(t, peer, ty, id).0, peer)
  {
    var t1 := Announce(t, peer, ty, id).0;
    forall ty' ensures |TypeSet(t1, peer, ty')| <= MAX_PER_TYPE {
      assert |TypeSet(t, peer, ty')| <= MAX_PER_TYPE;
      if id in TypeSet(t, peer, ty) {
        assert TypeSet(t, peer, ty) + {id} == TypeSet(t, peer, ty);
      }
    }
    if Key(ty, id) in FlatSet(t, peer) {
      assert FlatSet(t, peer) + {Key(ty, id)} == FlatSet(t, peer);
    }
  }

  lemma RemoveBounds(t: Tracker, peer: string, ty: string, id: string)
    requires WithinBounds(t, peer)
    ensures WithinBounds(Remove(t, peer, ty, id), peer)
  {
    var t1 := Remove(t, peer, ty, id);
    RemovePairs(t, peer, ty, id);
    forall ty' ensures |TypeSet(t1, peer, ty')| <= MAX_PER_TYPE {
      assert |TypeSet(t, peer, ty')| <= MAX_PER_TYPE;
      assert TypeSet(t1, peer, ty') <= TypeSet(t, peer, ty');
      Smaller(TypeSet(t1, peer, ty'), TypeSet(t, peer, ty'));
    }
    Smaller(FlatSet(t1, peer), FlatSet(t, peer));
  }

  lemma Smaller(a: set<string>, b: set<string>)
    requires a <= b
    ensures |a| <= |b|
  {
    assert b == a + (b - a);
  }

  lemma StepInv(t: Tracker, e: Event, peer: string)
    requires Inv(t, peer) && ColonFree(e.ty)
    ensures Inv(Step(t, e), peer)
  {
    hide Announce, Remove, Agrees, WithinBounds;
    if e.peer != peer {
      if e.Announced? {
        AnnounceFrame(t, e.peer, e.ty, e.id, peer);
      } else {
        RemoveFrame(t, e.peer, e.ty, e.id, peer);
      }
      SameView(t, Step(t, e), peer);
    } else {
      FreshKey(t, peer, e.ty, e.id);
      if e.Removed? {
        RemoveBounds(t, peer, e.ty, e.id);
        RemovePairs(t, peer, e.ty, e.id);
        RemoveAgreesIff(t, peer, e.ty, e.id);
      } else {
        AnnounceBounds(t, peer, e.ty, e.id);
        if Announce(t, peer, e.ty, e.id).1 {
          AnnouncePairs(t, peer, e.ty, e.id);
          AnnounceAgreesIff(t, peer, e.ty, e.id);
        } else {
          AnnounceFrame(t, peer, e.ty, e.id, peer);
          SameView(t, Step(t, e), peer);
        }
      }
    }
  }

  lemma SameView(t: Tracker, t1: Tracker, peer: string)
    requires FlatSet(t1, peer) == FlatSet(t, peer) && Types(t1, peer) == Types(t, peer)
    requires Inv(t, peer)
    ensures Inv(t1, peer)
  {
    assert forall ty :: TypeSet(t1, peer, ty) == TypeSet(t, peer, ty);
  }

  /** After any sequence of announcements and removals with colon-free types, every peer's flat set
      is the union of its per-type sets, its size is the sum of theirs, and both limits hold. */
  lemma {:induction false} TrackerAgreement(t: Tracker, events: seq<Event>, peer: string)
    requires Inv(t, peer)
    requires forall i :: 0 <= i < |events| ==> ColonFree(events[i].ty)
    ensures var r := Exec(t, events);
      && FlatSet(r, peer) == KeysOf(Pairs(r, peer)) && |FlatSet(r, peer)| == SumSizes(Types(r, peer))
      && |FlatSet(r, peer)| <= MAX_PER_PEER && forall ty :: |TypeSet(r, peer, ty)| <= MAX_PER_TYPE
    decreases |events|
  {
    if events == [] {
      PairCount(Types(t, peer));
    } else {
      StepInv(t, events[0], peer);
      TrackerAgreement(Step(t, events[0]), events[1..], peer);
    }
  }

  lemma EmptyInv(peer: string)
    ensures Inv(EMPTY, peer)
  {
    assert Pairs(EMPTY, peer) == {};
  }

  /** The same for a fresh tracker. */
  lemma EveryRun(events: seq<Event>, peer: string)
    requires forall i :: 0 <= i < |events| ==> ColonFree(events[i].ty)
    ensures var r := Exec(EMPTY, events);
      && FlatSet(r, peer) == KeysOf(Pairs(r, peer)) && |FlatSet(r, peer)| == SumSizes(Types(r, peer))
      && |FlatSet(r, peer)| <= MAX_PER_PEER && forall ty :: |TypeSet(r, peer, ty)| <= MAX_PER_TYPE
  {
    EmptyInv(peer);
    TrackerAgreement(EMPTY, events, peer);
  }

  /** After any sequence of announcements and removals with colon-free types: a resource is accepted
      exactly when it is tracked already, or fewer than 100 resources of the peer and fewer than 20 of
      the type are; and then it is tracked besides the others. */
  lemma AnnounceIff(events: seq<Event>, peer: string, ty: string, id: string)
    requires ColonFree(ty) && forall i :: 0 <= i < |events| ==> ColonFree(events[i].ty)
    ensures var t := Exec(EMPTY, events);
      var (t1, ok) := Announce(t, peer, ty, id);
      var pairs := Pairs(t, peer);
      && (ok <==> (ty, id) in pairs || (|pairs| < 100 && |TypeSet(t, peer, ty)| < 20))
      && Pairs(t1, peer) == if ok then pairs + {(ty, id)} else pairs
  {
    hide Announce, Exec, Pairs, FlatSet, Agrees, WithinBounds;
    var t := Exec(EMPTY, events);
    EmptyInv(peer);
    RunInv(EMPTY, events, peer);
    AnnounceFrame(t, peer, ty, id, peer);
    FreshKey(t, peer, ty, id);
    InTypeSet(t, peer, ty, id);
    if Announce(t, peer, ty, id).1 {
      AnnouncePairs(t, peer, ty, id);
    } else {
      SamePairs(t, Announce(t, peer, ty, id).0, peer);
    }
    AgreedSizes(t, peer, ty, id);
  }

  lemma AgreedSizes(t: Tracker, peer: string, ty: string, id: string)
    requires Agrees(t, peer)
    ensures |FlatSet(t, peer)| == |Pairs(t, peer)|
    ensures (ty, id) in Pairs(t, peer) ==> Key(ty, id) in FlatSet(t, peer)
  {
    hide Pairs, FlatSet, Key;
    assert forall p :: p in Pairs(t, peer) ==> Key(p.0, p.1) in KeysOf(Pairs(t, peer));
    assert (ty, id) in Pairs(t, peer) ==> Key((ty, id).0, (ty, id).1) in KeysOf(Pairs(t, peer));
  }

  lemma InTypeSet(t: Tracker, peer: string, ty: string, id: string)
    ensures id in TypeSet(t, peer, ty) <==> (ty, id) in Pairs(t, peer)
  {
  }

  lemma SamePairs(t: Tracker, t1: Tracker, peer: string)
    requires Types(t1, peer) == Types(t, peer)
    ensures Pairs(t1, peer) == Pairs(t, peer)
  {
  }

  lemma {:induction false} RunInv(t: Tracker, events: seq<Event>, peer: string)
    requires Inv(t, peer) && forall i :: 0 <= i < |events| ==> ColonFree(events[i].ty)
    ensures Inv(Exec(t, events), peer)
    decreases |events|
  {
    hide Step, Inv;
    if events != [] {
      StepInv(t, events[0], peer);
      RunInv(Step(t, events[0]), events[1..], peer);
    }
  }

  /** No set without elements and no type map without types is kept. */
  ghost predicate Tight(t: Tracker) {
    && (forall p :: p in t.flat ==> t.flat[p] != {})
    && (forall p :: p in t.byType ==> TightTypes(t.byType[p]))
  }

  ghost predicate TightTypes(m: TypeMap) {
    m != map[] && forall ty :: ty in m ==> m[ty] != {}
  }

  lemma StepTight(t: Tracker, e: Event)
    requires Tight(t)
    ensures Tight(Step(t, e))
  {
    match e
    case Announced(peer, ty, id) => AnnounceTight(t, peer, ty, id);
    case Removed(peer, ty, id) =>
      hide Shrink, TightTypes;
      if peer in t.byType {
        ShrinkTight(t.byType[peer], ty, id);
      }
      ShrinkFlat(t.flat, peer, Key(ty, id));
  }

  lemma AnnounceTight(t: Tracker, peer: string, ty: string, id: string)
    requires Tight(t)
    ensures Tight(Announce(t, peer, ty, id).0)
  {
    hide Key, FlatSet, Types, TypeSet, TightTypes;
    var m, ids := Types(t, peer), TypeSet(t, peer, ty) + {id};
    assert id in ids && Key(ty, id) in FlatSet(t, peer) + {Key(ty, id)};
    TypesTight(t, peer, ty);
    AddedTight(m, ty, ids);
  }

  lemma TypesTight(t: Tracker, peer: string, ty: string)
    requires Tight(t)
    ensures forall x :: x in Types(t, peer) ==> Types(t, peer)[x] != {}
    ensures |TypeSet(t, peer, ty)| > 0 ==> TightTypes(Types(t, peer))
  {
  }

  lemma AddedTight(m: TypeMap, ty: string, ids: set<string>)
    requires ids != {} && forall x :: x in m ==> m[x] != {}
    ensures TightTypes(m[ty := ids])
  {
    assert ty in m[ty := ids];
  }

  lemma ShrinkFlat(m: map<string, set<string>>, k: string, x: string)
    requires forall p :: p in m ==> m[p] != {}
    ensures forall p :: p in Shrink(m, k, x) ==> Shrink(m, k, x)[p] != {}
  {
  }

  lemma ShrinkTight(m: TypeMap, ty: string, id: string)
    requires TightTypes(m)
    ensures var m1 := Shrink(m, ty, id); m1 != map[] ==> TightTypes(m1)
  {
  }

  /** After any sequence of announcements and removals whatever becomes empty is gone. */
  lemma {:induction false} EveryRunTight(events: seq<Event>)
    ensures Tight(Exec(EMPTY, events))
  {
    RunTight(EMPTY, events);
  }

  lemma {:induction false} RunTight(t: Tracker, events: seq<Event>)
    requires Tight(t)
    ensures Tight(Exec(t, events))
    decreases |events|
  {
    hide Step, Tight;
    if events != [] {
      StepTight(t, events[0]);
      RunTight(Step(t, events[0]), events[1..]);
    }
  }

  /** Announcing a tracked resource again succeeds and changes no set, even at the limits. */
  lemma ReannounceSucceeds(t: Tracker, peer: string, ty: string, id: string)
    requires Agrees(t, peer) && (ty, id) in Pairs(t, peer)
    ensures var (t1, ok) := Announce(t, peer, ty, id);
      ok && FlatSet(t1, peer) == FlatSet(t, peer) && Types(t1, peer) == Types(t, peer)
  {
    assert Key(ty, id) in KeysOf(Pairs(t, peer));
    assert TypeSet(t, peer, ty) + {id} == TypeSet(t, peer, ty);
    assert FlatSet(t, peer) + {Key(ty, id)} == FlatSet(t, peer);
    assert Types(t, peer)[ty := TypeSet(t, peer, ty)] == Types(t, peer);
  }

  /** With a colon in a type two resources share a key: the flat set counts them once, and removing
      one of them leaves the other tracked by type only. */
  lemma ColonsBreakAgreement(peer: string)
    ensures var t := Exec(EMPTY, [Announced(peer, "a:b", "c"), Announced(peer, "a", "b:c")]);
      && |FlatSet(t, peer)| == 1 && |Pairs(t, peer)| == 2
      && FlatSet(Remove(t, peer, "a", "b:c"), peer) == {}
      && "c" in TypeSet(Remove(t, peer, "a", "b:c"), peer, "a:b")
  {
    var e1, e2 := Announced(peer, "a:b", "c"), Announced(peer, "a", "b:c");
    var t1 := Step(EMPTY, e1);
    var t2 := Step(t1, e2);
    assert Key("a:b", "c") == "a:b:c" == Key("a", "b:c");
    assert FlatSet(t1, peer) == {"a:b:c"} && Types(t1, peer) == map["a:b" := {"c"}];
    assert FlatSet(t2, peer) == {"a:b:c"} && Types(t2, peer) == map["a:b" := {"c"}, "a" := {"b:c"}];
    assert Pairs(t2, peer) == {("a:b", "c"), ("a", "b:c")};
    assert Exec(EMPTY, [e1, e2]) == t2 by {
      assert [e1, e2][1..] == [e2] && [e2][1..] == [];
      assert Exec(t1, [e2]) == Exec(t2, []);
    }
    RemovePairs(t2, peer, "a", "b:c");
    assert ("a:b", "c") in Pairs(Remove(t2, peer, "a", "b:c"), peer);
  }

  // ----- The tracker object -----

  lemma RefusedForPeer(t: Tracker, peer: string, ty: string, id: string)
    requires |FlatSet(t, peer)| >= MAX_PER_PEER && Key(ty, id) !in FlatSet(t, peer)
    ensures Announce(t, peer, ty, id) == (t, false)
  {
  }

  lemma RefusedForType(t: Tracker, peer: string, ty: string, id: string)
    requires |FlatSet(t, peer)| >= MAX_PER_PEER ==> Key(ty, id) in FlatSet(t, peer)
    requires |TypeSet(t, peer, ty)| >= MAX_PER_TYPE && id !in TypeSet(t, peer, ty)
    ensures Announce(t, peer, ty, id) == (Tracker(t.flat, t.byType[peer := Types(t, peer)]), false)
  {
  }

  lemma Accepted(t: Tracker, peer: string, ty: string, id: string)
    requires WithinLimits(t, peer, ty, id)
    ensures Announce(t, peer, ty, id) ==
      (Tracker(t.flat[peer := FlatSet(t, peer) + {Key(ty, id)}],
               t.byType[peer := Types(t, peer)[ty := TypeSet(t, peer, ty) + {id}]]), true)
  {
  }

  lemma TypeSetIn(t: Tracker, peer: string, ty: string)
    ensures TypeSet(t, peer, ty) == if ty in Types(t, peer) then Types(t, peer)[ty] else {}
  {
  }

  lemma SetTwice<K, V>(m: map<K, V>, k: K, v: V, w: V)
    ensures m[k := v][k := w] == m[k := w]
  {
  }

  class DHTResourceTracker {
    var peerResources: map<string, set<string>>
    var peerResourcesByType: map<string, TypeMap>

    ghost function View(): Tracker
      reads this
    {
      Tracker(peerResources, peerResourcesByType)
    }

    constructor ()
      ensures View() == EMPTY
    {
      peerResources, peerResourcesByType := map[], map[];
    }

    method CanAnnounceResource(peerId: string, resourceType: string, resourceId: string) returns (ok: bool)
      modifies this
      ensures (View(), ok) == Announce(old(View()), peerId, resourceType, resourceId)
    {
      hide Announce, FlatSet, TypeSet, Types;
      ghost var before := View();
      var resourceKey := resourceType + ":" + resourceId;
      var peerResourceSet := ResourcesOf(peerId);
      if |peerResourceSet| >= MAX_PER_PEER && resourceKey !in peerResourceSet {
        RefusedForPeer(before, peerId, resourceType, resourceId);
        return false;
      }
      var typeMap := TypeMapFor(peerId);
      var typeResourceSet := if resourceType in typeMap then typeMap[resourceType] else {};
      TypeSetIn(before, peerId, resourceType);
      if |typeResourceSet| >= MAX_PER_TYPE && resourceId !in typeResourceSet {
        RefusedForType(before, peerId, resourceType, resourceId);
        return false;
      }
      Accepted(before, peerId, resourceType, resourceId);
      peerResources := peerResources[peerId := peerResourceSet + {resourceKey}];
      typeMap := typeMap[resourceType := typeResourceSet + {resourceId}];
      SetTwice(before.byType, peerId, Types(before, peerId), typeMap);
      peerResourcesByType := peerResourcesByType[peerId := typeMap];
      return true;
    }

    function ResourcesOf(peerId: string): (r: set<string>)
      reads this
      ensures r == FlatSet(View(), peerId)
    {
      if peerId in peerResources then peerResources[peerId] else {}
    }

    /** The peer's type map, created when it has none. */
    method TypeMapFor(peerId: string) returns (typeMap: TypeMap)
      modifies this`peerResourcesByType
      ensures typeMap == Types(old(View()), peerId)
      ensures peerResourcesByType == old(peerResourcesByType)[peerId := typeMap]
    {
      if peerId !in peerResourcesByType {
        peerResourcesByType := peerResourcesByType[peerId := map[]];
      }
      typeMap := peerResourcesByType[peerId];
      assert peerResourcesByType == peerResourcesByType[peerId := typeMap];
    }

    method RemoveResource(peerId: string, resourceType: string, resourceId: string)
      modifies this
      ensures View() == Remove(old(View()), peerId, resourceType, resourceId)
    {
      var resourceKey := resourceType + ":" + resourceId;
      if peerId in peerResources {
        var set1 := peerResources[peerId] - {resourceKey};
        peerResources := if set1 == {} then peerResources - {peerId} else peerResources[peerId := set1];
      }
      if peerId in peerResourcesByType {
        var typeMap := peerResourcesByType[peerId];
        if resourceType in typeMap {
          var ids := typeMap[resourceType] - {resourceId};
          typeMap := if ids == {} then typeMap - {resourceType} else typeMap[resourceType := ids];
        }
        peerResourcesByType :=
          if typeMap == map[] then peerResourcesByType - {peerId} else peerResourcesByType[peerId := typeMap];
      }
    }
  }
}
