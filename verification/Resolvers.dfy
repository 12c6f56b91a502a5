/**
 The resolvers as objects (backend/services/team_resolver.py:58-159, backend/services/org_role_resolver.py:62-201) and
 the active-org decision on top of them (backend/core/active_org.py:77-137). The methods run a whole call without
 interleaving; `CallIsARun` shows that each such call is a run of the interleaved system in TieredCache.
 */
module Resolvers {
  import opened Text
  import opened TieredCache

  /** User and organisation. */
  type Key = (string, string)

  type Tier<+V> = map<Key, Entry<V>>

  /** What the outside contributes to one call. */
  datatype World<+V> = World(now: real, readFault: bool, reply: Reply, value: V, writeFault: bool)

  predicate Hit<V>(tier: Tier<V>, key: Key, now: real) { key in tier && Live(tier[key], now) }

  datatype Call<+V> = Call(l1: Tier<V>, l2: Tier<V>, outcome: Outcome<V>)

  /** The effect of `get_team_ids` or `resolve_org_role` on both tiers, and its outcome. */
  function Get<V>(l1: Tier<V>, l2: Tier<V>, key: Key, w: World<V>): Call<V> {
    if Hit(l1, key, w.now) then Call(l1, l2, Returned(l1[key].value, l1[key].readAt))
    else if !w.readFault && Hit(l2, key, w.now) then
      Call(l1[key := Entry(l2[key].value, l2[key].readAt, w.now + L1_TTL)], l2, Returned(l2[key].value, l2[key].readAt))
    else match w.reply
      case Unavailable => Call(l1, l2, Raised)
      case Rejected => Call(l1, l2, Denied)
      case Answered =>
        Call(l1[key := Entry(w.value, w.now, w.now + L1_TTL)],
             if w.writeFault then l2 else l2[key := Entry(w.value, w.now, w.now + L2_TTL)],
             Returned(w.value, w.now))
  }

  class Redis<V> {
    var store: Tier<V>

    constructor ()
      ensures store == map[]
    {
      store := map[];
    }
  }

  class Resolver<V> {
    var l1: Tier<V>
    const redis: Redis<V>

    constructor (redis: Redis<V>)
      ensures this.redis == redis && l1 == map[]
    {
      this.redis := redis;
      l1 := map[];
    }

    method Resolve(key: Key, w: World<V>) returns (r: Outcome<V>)
      modifies this, redis
      ensures Call(l1, redis.store, r) == Get(old(l1), old(redis.store), key, w)
    {
      if key in l1 && Live(l1[key], w.now) {
        return Returned(l1[key].value, l1[key].readAt);
      }
      if !w.readFault && key in redis.store && Live(redis.store[key], w.now) {
        var e := redis.store[key];
        l1 := l1[key := Entry(e.value, e.readAt, w.now + L1_TTL)];
        return Returned(e.value, e.readAt);
      }
      match w.reply {
        case Unavailable => return Raised;
        case Rejected => return Denied;
        case Answered =>
      }
      l1 := l1[key := Entry(w.value, w.now, w.now + L1_TTL)];
      if !w.writeFault {
        redis.store := redis.store[key := Entry(w.value, w.now, w.now + L2_TTL)];
      }
      return Returned(w.value, w.now);
    }

    /** `invalidate_for_org`; a Redis failure leaves the shared entry. */
    method InvalidateForOrg(key: Key, fault: bool)
      modifies this, redis
      ensures l1 == old(l1) - {key}
      ensures redis.store == if fault then old(redis.store) else old(redis.store) - {key}
    {
      l1 := l1 - {key};
      if !fault {
        redis.store := redis.store - {key};
      }
    }

    /** `invalidate`: every L1 entry of the user, whatever the organisation; Redis is left to its expiry. */
    method Invalidate(user: string)
      modifies this
      ensures l1 == map k | k in old(l1) && k.0 != user :: old(l1)[k]
    {
      var keys := set k | k in l1 && k.0 == user;
      var left := keys;
      while left != {}
        invariant left <= keys
        invariant l1 == map k | k in old(l1) && (k.0 != user || k in left) :: old(l1)[k]
      {
        var k :| k in left;
        l1 := l1 - {k};
        left := left - {k};
      }
    }
  }

  // ---- a call is a run of the system ----

  /** The pod's part of the system. */
  ghost predicate Shows<V>(s: System<Key, V>, pod: nat, l1: Tier<V>, l2: Tier<V>) {
    && s.l2 == l2
    && (forall k: Key :: k in l1 <==> (pod, k) in s.l1)
    && (forall k: Key :: k in l1 ==> l1[k] == s.l1[(pod, k)])
  }

  ghost predicate OtherPodsUnchanged<V>(s: System<Key, V>, t: System<Key, V>, pod: nat) {
    forall pk: (nat, Key) :: pk.0 != pod ==>
      (pk in s.l1 <==> pk in t.l1) && (pk in s.l1 ==> s.l1[pk] == t.l1[pk])
  }

  /** The run is possible, and its last step gives the answer and the tiers of `call` and leaves the rest alone. */
  ghost predicate Performs<V>(s: System<Key, V>, run: seq<Event<Key>>, e: Event<Key>, pod: nat, key: Key, call: Call<V>,
                              truth: Truth<Key, V>) {
    && Possible(s, run, truth, 0.0)
    && var before := After(s, run, truth, 0.0);
    && Enabled(before, e, 0.0)
    && Emitted(before, e, 0.0) == Some(Answer(pod, key, call.outcome))
    && var after := Apply(before, e, truth, 0.0);
    && Shows(after, pod, call.l1, call.l2) && OtherPodsUnchanged(s, after, pod)
    && after.now == s.now && after.flights == s.flights
  }

  /** A lookup that misses L1 and has heard from Redis. */
  lemma PastRedis<V>(s: System<Key, V>, id: nat, pod: nat, key: Key, fault: bool, truth: Truth<Key, V>)
    returns (run: seq<Event<Key>>, t: System<Key, V>)
    requires id !in s.flights && !L1Hit(s, pod, key)
    ensures Possible(s, run, truth, 0.0) && After(s, run, truth, 0.0) == t
    ensures t == s.(flights := s.flights[id := Flight(pod, key,
                      if !fault && key in s.l2 && Live(s.l2[key], s.now) then GotL2(s.l2[key], s.now) else AskSource)])
  {
    var s1 := Apply(s, Lookup(id, pod, key), truth, 0.0);
    t := Apply(s1, ReadL2(id, fault), truth, 0.0);
    run := [Lookup(id, pod, key)] + [ReadL2(id, fault)];
    RunStep(s1, ReadL2(id, fault), [], truth, 0.0);
    RunStep(s, Lookup(id, pod, key), [ReadL2(id, fault)], truth, 0.0);
  }

  lemma RedisHitPerforms<V>(s: System<Key, V>, id: nat, pod: nat, l1: Tier<V>, l2: Tier<V>, key: Key, w: World<V>,
                            truth: Truth<Key, V>) returns (run: seq<Event<Key>>, e: Event<Key>)
    requires Shows(s, pod, l1, l2) && id !in s.flights && s.now == w.now
    requires !Hit(l1, key, w.now) && !w.readFault && Hit(l2, key, w.now)
    ensures Performs(s, run, e, pod, key, Get(l1, l2, key, w), truth)
  {
    var t;
    run, t := PastRedis(s, id, pod, key, w.readFault, truth);
    e := ResumeHit(id);
    var after := Apply(t, e, truth, 0.0);
    assert after.flights == s.flights;
  }

  lemma RefusalPerforms<V>(s: System<Key, V>, id: nat, pod: nat, l1: Tier<V>, l2: Tier<V>, key: Key, w: World<V>,
                           truth: Truth<Key, V>) returns (run: seq<Event<Key>>, e: Event<Key>)
    requires Shows(s, pod, l1, l2) && id !in s.flights && s.now == w.now
    requires !Hit(l1, key, w.now) && (w.readFault || !Hit(l2, key, w.now)) && !w.reply.Answered?
    ensures Performs(s, run, e, pod, key, Get(l1, l2, key, w), truth)
  {
    var t;
    run, t := PastRedis(s, id, pod, key, w.readFault, truth);
    e := ReadSource(id, w.reply);
    assert Apply(t, e, truth, 0.0).flights == s.flights;
  }

  lemma MissPerforms<V>(s: System<Key, V>, id: nat, pod: nat, l1: Tier<V>, l2: Tier<V>, key: Key, w: World<V>,
                        truth: Truth<Key, V>) returns (run: seq<Event<Key>>, e: Event<Key>)
    requires Shows(s, pod, l1, l2) && id !in s.flights && s.now == w.now && w.value == truth(key, w.now)
    requires !Hit(l1, key, w.now) && (w.readFault || !Hit(l2, key, w.now)) && w.reply.Answered?
    ensures Performs(s, run, e, pod, key, Get(l1, l2, key, w), truth)
  {
    var t;
    run, t := PastRedis(s, id, pod, key, w.readFault, truth);
    e := MissIsARun(t, id, w, truth);
    RunConcat(s, run, [ReadSource(id, Answered), StoreL1(id)], truth, 0.0);
    run := run + [ReadSource(id, Answered), StoreL1(id)];
    StoreEnds(s, After(s, run, truth, 0.0), id, pod, l1, l2, key, w, truth);
  }

  /** The last step of a miss: the store to Redis, if it works, and the answer. */
  lemma StoreEnds<V>(s: System<Key, V>, before: System<Key, V>, id: nat, pod: nat, l1: Tier<V>, l2: Tier<V>, key: Key,
                     w: World<V>, truth: Truth<Key, V>)
    requires Shows(s, pod, l1, l2) && id !in s.flights && s.now == w.now
    requires !Hit(l1, key, w.now) && (w.readFault || !Hit(l2, key, w.now)) && w.reply.Answered?
    requires before == s.(l1 := s.l1[(pod, key) := Entry(w.value, s.now, s.now + L1_TTL)],
                          flights := s.flights[id := Flight(pod, key, AskStore(w.value, s.now))])
    ensures var e, call := StoreL2(id, w.writeFault), Get(l1, l2, key, w);
      && Enabled(before, e, 0.0)
      && Emitted(before, e, 0.0) == Some(Answer(pod, key, call.outcome))
      && var after := Apply(before, e, truth, 0.0);
      && Shows(after, pod, call.l1, call.l2) && OtherPodsUnchanged(s, after, pod)
      && after.now == s.now && after.flights == s.flights
  {
    assert Apply(before, StoreL2(id, w.writeFault), truth, 0.0).flights == s.flights;
  }

  /** One uninterrupted call of a pod is a sequence of steps at one instant that ends with the same answer. */
  lemma CallIsARun<V>(s: System<Key, V>, id: nat, pod: nat, l1: Tier<V>, l2: Tier<V>, key: Key, w: World<V>,
                      truth: Truth<Key, V>) returns (run: seq<Event<Key>>, e: Event<Key>)
    requires Shows(s, pod, l1, l2) && id !in s.flights && s.now == w.now && w.value == truth(key, w.now)
    ensures Performs(s, run, e, pod, key, Get(l1, l2, key, w), truth)
  {
    if Hit(l1, key, w.now) {
      run, e := [], Lookup(id, pod, key);
    } else if !w.readFault && Hit(l2, key, w.now) {
      run, e := RedisHitPerforms(s, id, pod, l1, l2, key, w, truth);
    } else if w.reply.Answered? {
      run, e := MissPerforms(s, id, pod, l1, l2, key, w, truth);
    } else {
      run, e := RefusalPerforms(s, id, pod, l1, l2, key, w, truth);
    }
  }

  lemma MissIsARun<V>(s: System<Key, V>, id: nat, w: World<V>, truth: Truth<Key, V>) returns (e: Event<Key>)
    requires id in s.flights && s.flights[id].stage.AskSource? && w.value == truth(s.flights[id].key, s.now)
    ensures e == StoreL2(id, w.writeFault)
    ensures var run := [ReadSource(id, Answered), StoreL1(id)];
      && Possible(s, run, truth, 0.0)
      && var f := s.flights[id];
      && After(s, run, truth, 0.0)
         == s.(l1 := s.l1[(f.pod, f.key) := Entry(w.value, s.now, s.now + L1_TTL)],
               flights := s.flights[id := Flight(f.pod, f.key, AskStore(w.value, s.now))])
  {
    e := StoreL2(id, w.writeFault);
    var s1 := Apply(s, ReadSource(id, Answered), truth, 0.0);
    RunStep(s1, StoreL1(id), [], truth, 0.0);
    RunStep(s, ReadSource(id, Answered), [StoreL1(id)], truth, 0.0);
  }

  // ---- the active organisation ----

  /** `role` absent means a confirmed non-member. */
  datatype Membership = Membership(role: Option<string>, orgType: Option<string>)

  datatype Resolved = Resolved(orgId: string, role: Option<string>, orgType: Option<string>)

  const NO_ORG := Resolved("", None, None)

  function OrEmpty(s: Option<string>): string { match s case Some(t) => t case None => "" }

  /** The organisation a human caller asks for: the header if it is not empty, else the token's. */
  function Requested(header: Option<string>, tokenOrg: Option<string>): string {
    if OrEmpty(header) != "" then OrEmpty(header) else OrEmpty(tokenOrg)
  }

  /** Whether the decision has to ask the resolver. */
  predicate AsksResolver(mode: string, authMethod: string, header: Option<string>, tokenOrg: Option<string>,
                         sentinel: string) {
    mode == "m3" && authMethod == "keycloak" && Requested(header, tokenOrg) !in ["", sentinel]
  }

  /** `resolve_active_org`, with the resolver's answer for the requested organisation. */
  function ActiveOrg(mode: string, authMethod: string, header: Option<string>, tokenOrg: Option<string>,
                     sentinel: string, answer: Outcome<Membership>): Resolved {
    if mode != "m3" then Resolved(OrEmpty(tokenOrg), None, None)
    else if authMethod != "keycloak" then Resolved(OrEmpty(tokenOrg), None, None)
    else
      var requested := Requested(header, tokenOrg);
      if requested == "" || requested == sentinel then NO_ORG
      else match answer
        case Raised => NO_ORG
        case Denied => NO_ORG
        case Returned(m, _) =>
          if m.role == None then NO_ORG else Resolved(requested, m.role, m.orgType)
  }

  /**
   The m3 decision fails closed: a non-empty organisation is granted exactly when the resolver returned a role for the
   very organisation asked for, and the grant carries that role.
   */
  lemma GrantIffRole(header: Option<string>, tokenOrg: Option<string>, sentinel: string, answer: Outcome<Membership>)
    ensures var r := ActiveOrg("m3", "keycloak", header, tokenOrg, sentinel, answer);
      && (r.orgId != "" <==>
            AsksResolver("m3", "keycloak", header, tokenOrg, sentinel)
            && answer.Returned? && answer.value.role.Some?)
      && (r.orgId != "" ==>
            r.orgId == Requested(header, tokenOrg) && r.role == answer.value.role && r.orgType == answer.value.orgType)
      && (r.orgId == "" ==> r == NO_ORG)
  {}

  /**
   Which organisation is acted for, in every mode: the token's where the caller is no human or the mode is not m3;
   otherwise what the header asks for, and what the token says only when the header is absent or empty.
   */
  lemma ActsForTheOrgAskedFor(mode: string, authMethod: string, header: Option<string>, tokenOrg: Option<string>,
                              sentinel: string, answer: Outcome<Membership>)
    ensures var r := ActiveOrg(mode, authMethod, header, tokenOrg, sentinel, answer);
      var member := answer.Returned? && answer.value.role.Some?;
      if mode != "m3" || authMethod != "keycloak" then
        r == Resolved(if tokenOrg.Some? then tokenOrg.value else "", None, None)
      else if header.Some? && header.value != "" then
        r.orgId == (if member && header.value != sentinel then header.value else "")
      else if tokenOrg.Some? && tokenOrg.value != "" then
        r.orgId == (if member && tokenOrg.value != sentinel then tokenOrg.value else "")
      else r == NO_ORG
  {}

  /**
   Over every run: an organisation granted on a resolver answer rests on a role the caller really had in that
   organisation at most 65 seconds plus twice the delay before, and a failed resolution grants nothing.
   */
  lemma GrantRestsOnRecentRole(start: real, run: seq<Event<Key>>, e: Event<Key>, truth: Truth<Key, Membership>,
                               delay: real, sub: string, header: Option<string>, tokenOrg: Option<string>,
                               sentinel: string)
    requires delay >= 0.0 && Possible(Start(start), run, truth, delay)
    requires var s := After(Start(start), run, truth, delay);
      && Enabled(s, e, delay)
      && Emitted(s, e, delay).Some?
      && Emitted(s, e, delay).value.key == (sub, Requested(header, tokenOrg))
    ensures var s := After(Start(start), run, truth, delay);
      var answer := Emitted(s, e, delay).value.outcome;
      var r := ActiveOrg("m3", "keycloak", header, tokenOrg, sentinel, answer);
      && (!answer.Returned? ==> r.orgId == "")
      && (r.orgId != "" ==>
            exists t: real :: s.now - 65.0 - 2.0 * delay <= t <= s.now && r.role.Some?
                              && truth((sub, r.orgId), t) == Membership(r.role, r.orgType))
  {
    BoundedStaleness(start, run, e, truth, delay);
  }
}
