/**
 The two-tier cache behind the team resolver and the org-role resolver (backend/services/team_resolver.py,
 backend/services/org_role_resolver.py): every pod has a private 5-second L1, all pods share a 60-second L2, and a
 changing source of truth stands behind both.

 A lookup is not atomic. It gives up control at every call to Redis or to the source, so the model takes one step per
 stretch between two such calls, and any number of lookups in any number of pods interleave.
 */
module TieredCache {
  import opened Text

  const L1_TTL: real := 5.0
  const L2_TTL: real := 60.0

  /** A cached value. `readAt`, when the value left the source, is bookkeeping of the model only. */
  datatype Entry<+V> = Entry(value: V, readAt: real, expires: real)

  predicate Live<V>(e: Entry<V>, now: real) { now < e.expires }

  /** How far a lookup has come. */
  datatype Stage<+V> =
    | AskL2                                    // waiting for Redis
    | GotL2(entry: Entry<V>, at: real)         // Redis answered at that time, the lookup has not resumed yet
    | AskSource                                // waiting for the source
    | GotSource(value: V, readAt: real)        // the source answered, nothing stored yet
    | AskStore(value: V, readAt: real)         // L1 written, waiting for the write to Redis

  datatype Flight<+K, +V> = Flight(pod: nat, key: K, stage: Stage<V>)

  datatype System<K, +V> = System(
    now: real,
    l1: map<(nat, K), Entry<V>>,
    l2: map<K, Entry<V>>,
    flights: map<nat, Flight<K, V>>)

  /** The answer of the source: a membership, no usable answer, or a status that means "deny, do not cache". */
  datatype Reply = Answered | Unavailable | Rejected

  datatype Outcome<+V> = Returned(value: V, readAt: real) | Raised | Denied

  datatype Event<+K> =
    | Tick(d: real)
    | Lookup(id: nat, pod: nat, key: K)
    | ReadL2(id: nat, fault: bool)
    | ResumeHit(id: nat)
    | ReadSource(id: nat, reply: Reply)
    | StoreL1(id: nat)
    | StoreL2(id: nat, fault: bool)
    | DropL1(pod: nat, key: K)                 // expiry, eviction, restart, or the L1 half of an invalidation
    | DropL2(key: K)                           // expiry, eviction, or the L2 half of an invalidation

  /** The source of truth, as it changes over time. */
  type Truth<!K, !V> = (K, real) -> V

  /**
   `delay` bounds how long a lookup may sit on a value between the read that gave it and the write that stores it;
   0 means atomic lookups.
   */
  predicate Waits<V>(stage: Stage<V>, until: real, delay: real) {
    match stage
    case GotL2(_, at) => until <= at + delay
    case GotSource(_, readAt) => until <= readAt + delay
    case AskStore(_, readAt) => until <= readAt + delay
    case _ => true
  }

  predicate Enabled<K, V>(s: System<K, V>, e: Event<K>, delay: real) {
    match e
    case Tick(d) => d >= 0.0 && forall id <- s.flights :: Waits(s.flights[id].stage, s.now + d, delay)
    case Lookup(id, _, _) => id !in s.flights
    case ReadL2(id, _) => id in s.flights && s.flights[id].stage.AskL2?
    case ResumeHit(id) => id in s.flights && s.flights[id].stage.GotL2?
    case ReadSource(id, _) => id in s.flights && s.flights[id].stage.AskSource?
    case StoreL1(id) => id in s.flights && s.flights[id].stage.GotSource?
    case StoreL2(id, _) => id in s.flights && s.flights[id].stage.AskStore?
    case DropL1(_, _) => true
    case DropL2(_) => true
  }

  function Advance<K, V>(s: System<K, V>, id: nat, stage: Stage<V>): System<K, V>
    requires id in s.flights
  {
    s.(flights := s.flights[id := s.flights[id].(stage := stage)])
  }

  function Land<K, V>(s: System<K, V>, id: nat): System<K, V> { s.(flights := s.flights - {id}) }

  function Fill<K, V>(s: System<K, V>, pod: nat, key: K, value: V, readAt: real): System<K, V> {
    s.(l1 := s.l1[(pod, key) := Entry(value, readAt, s.now + L1_TTL)])
  }

  predicate L1Hit<K, V>(s: System<K, V>, pod: nat, key: K) { (pod, key) in s.l1 && Live(s.l1[(pod, key)], s.now) }

  function Apply<K, V>(s: System<K, V>, e: Event<K>, truth: Truth<K, V>, delay: real): System<K, V>
    requires Enabled(s, e, delay)
  {
    match e
    case Tick(d) => s.(now := s.now + d)
    case Lookup(id, pod, key) =>
      if L1Hit(s, pod, key) then s else s.(flights := s.flights[id := Flight(pod, key, AskL2)])
    case ReadL2(id, fault) =>
      var key := s.flights[id].key;
      if !fault && key in s.l2 && Live(s.l2[key], s.now) then Advance(s, id, GotL2(s.l2[key], s.now))
      else Advance(s, id, AskSource)
    case ResumeHit(id) =>
      var f := s.flights[id];
      Land(Fill(s, f.pod, f.key, f.stage.entry.value, f.stage.entry.readAt), id)
    case ReadSource(id, reply) =>
      if reply.Answered? then Advance(s, id, GotSource(truth(s.flights[id].key, s.now), s.now)) else Land(s, id)
    case StoreL1(id) =>
      var f := s.flights[id];
      Advance(Fill(s, f.pod, f.key, f.stage.value, f.stage.readAt), id, AskStore(f.stage.value, f.stage.readAt))
    case StoreL2(id, fault) =>
      var f := s.flights[id];
      var stored := if fault then s else
        s.(l2 := s.l2[f.key := Entry(f.stage.value, f.stage.readAt, s.now + L2_TTL)]);
      Land(stored, id)
    case DropL1(pod, key) => s.(l1 := s.l1 - {(pod, key)})
    case DropL2(key) => s.(l2 := s.l2 - {key})
  }

  /** What a caller sees at a step, if a lookup ends there. */
  datatype Answer<+K, +V> = Answer(pod: nat, key: K, outcome: Outcome<V>)

  function Emitted<K, V>(s: System<K, V>, e: Event<K>, delay: real): Option<Answer<K, V>>
    requires Enabled(s, e, delay)
  {
    match e
    case Lookup(_, pod, key) =>
      if L1Hit(s, pod, key) then
        Some(Answer(pod, key, Returned(s.l1[(pod, key)].value, s.l1[(pod, key)].readAt)))
      else None
    case ResumeHit(id) =>
      var f := s.flights[id];
      Some(Answer(f.pod, f.key, Returned(f.stage.entry.value, f.stage.entry.readAt)))
    case ReadSource(id, reply) =>
      var f := s.flights[id];
      if reply.Unavailable? then Some(Answer(f.pod, f.key, Raised))
      else if reply.Rejected? then Some(Answer(f.pod, f.key, Denied))
      else None
    case StoreL2(id, _) =>
      var f := s.flights[id];
      Some(Answer(f.pod, f.key, Returned(f.stage.value, f.stage.readAt)))
    case _ => None
  }

  function Start<K, V>(now: real): System<K, V> { System(now, map[], map[], map[]) }

  /** The state after a run, and whether the run is possible. */
  ghost predicate Possible<K, V>(s: System<K, V>, run: seq<Event<K>>, truth: Truth<K, V>, delay: real)
    decreases |run|
  {
    run == [] || (Enabled(s, run[0], delay) && Possible(Apply(s, run[0], truth, delay), run[1..], truth, delay))
  }

  ghost function After<K, V>(s: System<K, V>, run: seq<Event<K>>, truth: Truth<K, V>, delay: real): System<K, V>
    requires Possible(s, run, truth, delay)
    decreases |run|
  {
    if run == [] then s else After(Apply(s, run[0], truth, delay), run[1..], truth, delay)
  }

  // ---- what every state of every run satisfies ----

  ghost predicate L1Ok<K, V>(key: K, e: Entry<V>, now: real, truth: Truth<K, V>, delay: real) {
    && e.value == truth(key, e.readAt) && e.readAt <= now
    && e.expires <= e.readAt + L1_TTL + L2_TTL + 2.0 * delay
    && e.expires <= now + L1_TTL
  }

  ghost predicate L2Ok<K, V>(key: K, e: Entry<V>, now: real, truth: Truth<K, V>, delay: real) {
    && e.value == truth(key, e.readAt) && e.readAt <= now
    && e.expires <= e.readAt + L2_TTL + delay
  }

  ghost predicate FlightOk<K, V>(f: Flight<K, V>, now: real, truth: Truth<K, V>, delay: real) {
    match f.stage
    case GotL2(e, at) => L2Ok(f.key, e, now, truth, delay) && at < e.expires && at <= now <= at + delay
    case GotSource(v, readAt) => v == truth(f.key, readAt) && readAt <= now <= readAt + delay
    case AskStore(v, readAt) => v == truth(f.key, readAt) && readAt <= now <= readAt + delay
    case _ => true
  }

  ghost predicate Ok<K, V>(s: System<K, V>, truth: Truth<K, V>, delay: real) {
    && delay >= 0.0
    && (forall pk <- s.l1 :: L1Ok(pk.1, s.l1[pk], s.now, truth, delay))
    && (forall k <- s.l2 :: L2Ok(k, s.l2[k], s.now, truth, delay))
    && (forall id <- s.flights :: FlightOk(s.flights[id], s.now, truth, delay))
  }

  lemma StartIsOk<K, V>(now: real, truth: Truth<K, V>, delay: real)
    requires delay >= 0.0
    ensures Ok(Start(now), truth, delay)
  {}

  lemma StepKeepsOk<K, V>(s: System<K, V>, e: Event<K>, truth: Truth<K, V>, delay: real)
    requires Ok(s, truth, delay) && Enabled(s, e, delay)
    ensures Ok(Apply(s, e, truth, delay), truth, delay)
  {
    match e
    case ResumeHit(id) => assert FlightOk(s.flights[id], s.now, truth, delay);
    case StoreL1(id) => assert FlightOk(s.flights[id], s.now, truth, delay);
    case StoreL2(id, _) => assert FlightOk(s.flights[id], s.now, truth, delay);
    case ReadL2(id, _) =>
    case _ =>
  }

  /** A value returned at some time was the truth at most 65 s plus twice the delay before. */
  lemma AnswersAreRecent<K, V>(s: System<K, V>, e: Event<K>, truth: Truth<K, V>, delay: real)
    requires Ok(s, truth, delay) && Enabled(s, e, delay)
    ensures var a := Emitted(s, e, delay);
      a.Some? && a.value.outcome.Returned? ==>
        && a.value.outcome.value == truth(a.value.key, a.value.outcome.readAt)
        && a.value.outcome.readAt <= s.now <= a.value.outcome.readAt + L1_TTL + L2_TTL + 2.0 * delay
  {
    match e
    case ResumeHit(id) => assert FlightOk(s.flights[id], s.now, truth, delay);
    case StoreL2(id, _) => assert FlightOk(s.flights[id], s.now, truth, delay);
    case Lookup(_, pod, key) =>
      if L1Hit(s, pod, key) { assert L1Ok(key, s.l1[(pod, key)], s.now, truth, delay); }
    case _ =>
  }

  lemma {:induction false} RunKeepsOk<K, V>(s: System<K, V>, run: seq<Event<K>>, truth: Truth<K, V>, delay: real)
    requires Ok(s, truth, delay) && Possible(s, run, truth, delay)
    ensures Ok(After(s, run, truth, delay), truth, delay)
    decreases |run|
  {
    if run != [] {
      StepKeepsOk(s, run[0], truth, delay);
      RunKeepsOk(Apply(s, run[0], truth, delay), run[1..], truth, delay);
    }
  }

  /** Bounded staleness, for every run of every number of pods. */
  lemma BoundedStaleness<K, V>(now: real, run: seq<Event<K>>, e: Event<K>, truth: Truth<K, V>, delay: real)
    requires delay >= 0.0 && Possible(Start(now), run, truth, delay)
    requires Enabled(After(Start(now), run, truth, delay), e, delay)
    ensures var s := After(Start(now), run, truth, delay);
      var a := Emitted(s, e, delay);
      a.Some? && a.value.outcome.Returned? ==>
        exists t: real :: s.now - 65.0 - 2.0 * delay <= t <= s.now && a.value.outcome.value == truth(a.value.key, t)
  {
    var s := After(Start(now), run, truth, delay);
    StartIsOk(now, truth, delay);
    RunKeepsOk(Start(now), run, truth, delay);
    AnswersAreRecent(s, e, truth, delay);
    var a := Emitted(s, e, delay);
    if a.Some? && a.value.outcome.Returned? {
      var t := a.value.outcome.readAt;
      assert s.now - 65.0 - 2.0 * delay <= t <= s.now && a.value.outcome.value == truth(a.value.key, t);
    }
  }

  // ---- invalidation ----

  /** The value a flight carries, if any, left the source no earlier than `since`. */
  predicate CarriesSince<V>(stage: Stage<V>, since: real) {
    match stage
    case GotL2(e, _) => since <= e.readAt
    case GotSource(_, readAt) => since <= readAt
    case AskStore(_, readAt) => since <= readAt
    case _ => true
  }

  /** No lookup of the key, in whatever pod, holds an answer that left the source before `since`. */
  ghost predicate NoOldSource<K, V>(s: System<K, V>, key: K, since: real) {
    forall id <- s.flights :: s.flights[id].key == key && !s.flights[id].stage.GotL2? ==>
      CarriesSince(s.flights[id].stage, since)
  }

  /** Nothing about `key` from before `since` is left, except in L1s, and on its way there, where it dies by `until`. */
  ghost predicate Purged<K, V>(s: System<K, V>, key: K, since: real, until: real, delay: real) {
    && (key in s.l2 ==> since <= s.l2[key].readAt)
    && NoOldSource(s, key, since)
    && (forall id <- s.flights :: s.flights[id].key == key ==> DiesBy(s.flights[id].stage, since, until, delay))
    && (forall pk <- s.l1 :: pk.1 == key ==> since <= s.l1[pk].readAt || s.l1[pk].expires <= until)
  }

  predicate DiesBy<V>(stage: Stage<V>, since: real, until: real, delay: real) {
    stage.GotL2? ==> since <= stage.entry.readAt || stage.at + delay + L1_TTL <= until
  }

  lemma StepKeepsPurged<K, V>(s: System<K, V>, e: Event<K>, key: K, since: real, until: real,
                              truth: Truth<K, V>, delay: real)
    requires Purged(s, key, since, until, delay) && Ok(s, truth, delay) && since <= s.now && Enabled(s, e, delay)
    ensures Purged(Apply(s, e, truth, delay), key, since, until, delay)
  {
    match e
    case ResumeHit(id) =>
      assert FlightOk(s.flights[id], s.now, truth, delay);
      assert s.flights[id].key == key ==> DiesBy(s.flights[id].stage, since, until, delay);
    case StoreL1(id) => assert s.flights[id].key == key ==> CarriesSince(s.flights[id].stage, since);
    case StoreL2(id, _) => assert s.flights[id].key == key ==> CarriesSince(s.flights[id].stage, since);
    case _ =>
  }

  lemma PurgedAnswersAreFresh<K, V>(s: System<K, V>, e: Event<K>, key: K, since: real, until: real,
                                    truth: Truth<K, V>, delay: real)
    requires Purged(s, key, since, until, delay) && Ok(s, truth, delay) && Enabled(s, e, delay) && until <= s.now
    ensures var a := Emitted(s, e, delay);
      a.Some? && a.value.key == key && a.value.outcome.Returned? ==> since <= a.value.outcome.readAt
  {
    match e
    case ResumeHit(id) =>
      assert FlightOk(s.flights[id], s.now, truth, delay);
      assert s.flights[id].key == key ==> DiesBy(s.flights[id].stage, since, until, delay);
    case StoreL2(id, _) => assert s.flights[id].key == key ==> CarriesSince(s.flights[id].stage, since);
    case _ =>
  }

  lemma {:induction false} RunKeepsPurged<K, V>(s: System<K, V>, run: seq<Event<K>>, key: K, since: real, until: real,
                                                truth: Truth<K, V>, delay: real)
    requires Purged(s, key, since, until, delay) && Ok(s, truth, delay) && since <= s.now && Possible(s, run, truth, delay)
    ensures Purged(After(s, run, truth, delay), key, since, until, delay)
    decreases |run|
  {
    if run != [] {
      StepKeepsPurged(s, run[0], key, since, until, truth, delay);
      StepKeepsOk(s, run[0], truth, delay);
      RunKeepsPurged(Apply(s, run[0], truth, delay), run[1..], key, since, until, truth, delay);
    }
  }

  lemma {:induction false} TimePasses<K, V>(s: System<K, V>, run: seq<Event<K>>, truth: Truth<K, V>, delay: real)
    requires Possible(s, run, truth, delay)
    ensures s.now <= After(s, run, truth, delay).now
    decreases |run|
  {
    if run != [] { TimePasses(Apply(s, run[0], truth, delay), run[1..], truth, delay); }
  }

  /**
   `invalidate_for_org` pops the pod's own L1 entry, waits for Redis, during which anything can happen, and then the
   shared entry is gone. This is the state just before that.
   */
  ghost function AtDelete<K, V>(s: System<K, V>, pod: nat, key: K, during: seq<Event<K>>,
                                truth: Truth<K, V>, delay: real): System<K, V>
    requires Possible(Apply(s, DropL1(pod, key), truth, delay), during, truth, delay)
  {
    After(Apply(s, DropL1(pod, key), truth, delay), during, truth, delay)
  }

  ghost predicate Invalidating<K, V>(s: System<K, V>, pod: nat, key: K, during: seq<Event<K>>,
                                     truth: Truth<K, V>, delay: real) {
    Possible(Apply(s, DropL1(pod, key), truth, delay), during, truth, delay)
  }

  /**
   When no lookup of the key holds an answer of the source from before the invalidation at the moment of the delete,
   every read in any pod from five seconds after the last old answer of Redis can be stored is as fresh as the
   invalidation.
   */
  lemma InvalidationTakesEffect<K, V>(
    start: real, before: seq<Event<K>>, pod: nat, key: K, during: seq<Event<K>>, later: seq<Event<K>>, e: Event<K>,
    truth: Truth<K, V>, delay: real)
    requires delay >= 0.0 && Possible(Start(start), before, truth, delay)
    requires var s := After(Start(start), before, truth, delay);
      && Invalidating(s, pod, key, during, truth, delay)
      && var t := AtDelete(s, pod, key, during, truth, delay);
      && NoOldSource(t, key, s.now)
      && Possible(Apply(t, DropL2(key), truth, delay), later, truth, delay)
      && Enabled(After(Apply(t, DropL2(key), truth, delay), later, truth, delay), e, delay)
    ensures var s := After(Start(start), before, truth, delay);
      var t := AtDelete(s, pod, key, during, truth, delay);
      var u := After(Apply(t, DropL2(key), truth, delay), later, truth, delay);
      var a := Emitted(u, e, delay);
      a.Some? && a.value.key == key && a.value.outcome.Returned? && t.now + delay + L1_TTL <= u.now
      ==> s.now <= a.value.outcome.readAt
  {
    StartIsOk(start, truth, delay);
    RunKeepsOk(Start(start), before, truth, delay);
    var s := After(Start(start), before, truth, delay);
    StepKeepsOk(s, DropL1(pod, key), truth, delay);
    RunKeepsOk(Apply(s, DropL1(pod, key), truth, delay), during, truth, delay);
    TimePasses(Apply(s, DropL1(pod, key), truth, delay), during, truth, delay);
    var t := AtDelete(s, pod, key, during, truth, delay);
    PurgedThenFresh(t, key, s.now, later, e, truth, delay);
  }

  lemma PurgedThenFresh<K, V>(t: System<K, V>, key: K, since: real, later: seq<Event<K>>, e: Event<K>,
                              truth: Truth<K, V>, delay: real)
    requires Ok(t, truth, delay) && NoOldSource(t, key, since) && since <= t.now
    requires Possible(Apply(t, DropL2(key), truth, delay), later, truth, delay)
    requires Enabled(After(Apply(t, DropL2(key), truth, delay), later, truth, delay), e, delay)
    ensures var u := After(Apply(t, DropL2(key), truth, delay), later, truth, delay);
      var a := Emitted(u, e, delay);
      a.Some? && a.value.key == key && a.value.outcome.Returned? && t.now + delay + L1_TTL <= u.now
      ==> since <= a.value.outcome.readAt
  {
    var t', until := Apply(t, DropL2(key), truth, delay), t.now + delay + L1_TTL;
    StepKeepsOk(t, DropL2(key), truth, delay);
    assert Purged(t', key, since, until, delay) by {
      forall pk <- t'.l1 ensures t'.l1[pk].expires <= until { assert L1Ok(pk.1, t'.l1[pk], t'.now, truth, delay); }
      forall id <- t'.flights ensures DiesBy(t'.flights[id].stage, since, until, delay) {
        assert FlightOk(t'.flights[id], t'.now, truth, delay);
      }
    }
    RunKeepsPurged(t', later, key, since, until, truth, delay);
    RunKeepsOk(t', later, truth, delay);
    var u := After(t', later, truth, delay);
    if until <= u.now { PurgedAnswersAreFresh(u, e, key, since, until, truth, delay); }
  }

  // ---- and exactly when it takes effect in every pod ----

  /** Every answer about the key in any pod in any continuation, from `from` on, is at least as fresh as `since`. */
  ghost predicate FreshFrom<K(!new), V>(s: System<K, V>, key: K, since: real, from: real, truth: Truth<K, V>, delay: real) {
    forall later: seq<Event<K>>, e: Event<K> ::
      Possible(s, later, truth, delay) && Enabled(After(s, later, truth, delay), e, delay)
      && from <= After(s, later, truth, delay).now ==>
        FreshAnywhere(Emitted(After(s, later, truth, delay), e, delay), key, since)
  }

  ghost predicate FreshAnywhere<K, V>(a: Option<Answer<K, V>>, key: K, since: real) {
    a.Some? && a.value.key == key && a.value.outcome.Returned? ==> since <= a.value.outcome.readAt
  }

  /** The lookup waits for somebody else, for as long as it takes. */
  predicate Idle<V>(stage: Stage<V>) { stage.AskL2? || stage.AskSource? }

  /** Some lookup can be brought to its end at once; Redis is not written to. */
  lemma FinishOne<K, V>(s: System<K, V>, id: nat, truth: Truth<K, V>, delay: real) returns (run: seq<Event<K>>)
    requires id in s.flights && !Idle(s.flights[id].stage)
    ensures Possible(s, run, truth, delay)
    ensures var t := After(s, run, truth, delay); t.now == s.now && t.l2 == s.l2 && t.flights == s.flights - {id}
  {
    match s.flights[id].stage
    case GotL2(_, _) =>
      run := [ResumeHit(id)];
      RunStep(s, ResumeHit(id), [], truth, delay);
    case AskStore(_, _) =>
      run := [StoreL2(id, true)];
      RunStep(s, StoreL2(id, true), [], truth, delay);
    case GotSource(_, _) =>
      var s1 := Apply(s, StoreL1(id), truth, delay);
      run := [StoreL1(id), StoreL2(id, true)];
      RunStep(s1, StoreL2(id, true), [], truth, delay);
      RunStep(s, StoreL1(id), [StoreL2(id, true)], truth, delay);
  }

  ghost predicate AllIdle<K, V>(s: System<K, V>) { forall id <- s.flights :: Idle(s.flights[id].stage) }

  lemma {:induction false} FinishAll<K, V>(s: System<K, V>, truth: Truth<K, V>, delay: real) returns (run: seq<Event<K>>)
    ensures Possible(s, run, truth, delay)
    ensures var t := After(s, run, truth, delay); t.now == s.now && t.l2 == s.l2 && AllIdle(t)
    decreases |s.flights|
  {
    run := [];
    if id :| id in s.flights && !Idle(s.flights[id].stage) {
      var first := FinishOne(s, id, truth, delay);
      var next := After(s, first, truth, delay);
      assert |next.flights| < |s.flights| by { FewerFlights(s.flights, id); }
      var rest := FinishAll(next, truth, delay);
      RunConcat(s, first, rest, truth, delay);
      run := first + rest;
    }
  }

  lemma FewerFlights<K, V>(flights: map<nat, Flight<K, V>>, id: nat)
    requires id in flights
    ensures |flights - {id}| < |flights|
  {
    assert (flights - {id}).Keys == flights.Keys - {id};
    assert |(flights - {id}).Keys| == |flights - {id}|;
  }

  /** An older answer of the source can be stored in Redis at once. */
  lemma StoreOld<K, V>(s: System<K, V>, id: nat, truth: Truth<K, V>, delay: real) returns (run: seq<Event<K>>)
    requires id in s.flights && (s.flights[id].stage.GotSource? || s.flights[id].stage.AskStore?)
    ensures Possible(s, run, truth, delay)
    ensures var t, f := After(s, run, truth, delay), s.flights[id];
      t.now == s.now && t.l2 == s.l2[f.key := Entry(f.stage.value, f.stage.readAt, s.now + L2_TTL)]
  {
    if s.flights[id].stage.AskStore? {
      run := [StoreL2(id, false)];
      RunStep(s, StoreL2(id, false), [], truth, delay);
    } else {
      var s1 := Apply(s, StoreL1(id), truth, delay);
      run := [StoreL1(id), StoreL2(id, false)];
      RunStep(s1, StoreL2(id, false), [], truth, delay);
      RunStep(s, StoreL1(id), [StoreL2(id, false)], truth, delay);
    }
  }

  /** A lookup takes what is in Redis five seconds later and sits on it as long as it may. */
  lemma ReadLate<K(!new), V>(s: System<K, V>, pod: nat, key: K, truth: Truth<K, V>, delay: real)
    returns (run: seq<Event<K>>, e: Event<K>)
    requires delay >= 0.0 && AllIdle(s) && key in s.l2 && s.l2[key].expires == s.now + L2_TTL
    ensures Possible(s, run, truth, delay) && Enabled(After(s, run, truth, delay), e, delay)
    ensures var t := After(s, run, truth, delay);
      && t.now == s.now + delay + L1_TTL
      && Emitted(t, e, delay) == Some(Answer(pod, key, Returned(s.l2[key].value, s.l2[key].readAt)))
  {
    var id := FreshId(s.flights, {});
    var s1 := Apply(s, Tick(L1_TTL), truth, delay);
    var s2 := Apply(s1, DropL1(pod, key), truth, delay);
    var s3 := Apply(s2, Lookup(id, pod, key), truth, delay);
    var s4 := Apply(s3, ReadL2(id, false), truth, delay);
    assert s4.flights[id].stage == GotL2(s.l2[key], s4.now);
    assert forall other <- s4.flights :: other == id || s4.flights[other] == s.flights[other];
    run, e := [Tick(L1_TTL)] + ([DropL1(pod, key)] + ([Lookup(id, pod, key)] + ([ReadL2(id, false)] + [Tick(delay)]))), ResumeHit(id);
    RunStep(s4, Tick(delay), [], truth, delay);
    RunStep(s3, ReadL2(id, false), [Tick(delay)], truth, delay);
    RunStep(s2, Lookup(id, pod, key), [ReadL2(id, false)] + [Tick(delay)], truth, delay);
    RunStep(s1, DropL1(pod, key), [Lookup(id, pod, key)] + ([ReadL2(id, false)] + [Tick(delay)]), truth, delay);
    RunStep(s, Tick(L1_TTL), [DropL1(pod, key)] + ([Lookup(id, pod, key)] + ([ReadL2(id, false)] + [Tick(delay)])), truth, delay);
  }

  /** An older answer of the source in flight comes back after the delete. */
  lemma OldSourceComesBack<K(!new), V>(s: System<K, V>, id: nat, key: K, since: real, truth: Truth<K, V>, delay: real)
    requires delay >= 0.0 && id in s.flights && s.flights[id].key == key
    requires !s.flights[id].stage.GotL2? && !CarriesSince(s.flights[id].stage, since)
    ensures !FreshFrom(s, key, since, s.now + delay + L1_TTL, truth, delay)
  {
    var f := s.flights[id];
    var first := StoreOld(s, id, truth, delay);
    var s1 := After(s, first, truth, delay);
    var second := FinishAll(s1, truth, delay);
    var s2 := After(s1, second, truth, delay);
    var third, e := ReadLate(s2, f.pod, key, truth, delay);
    RunConcat(s1, second, third, truth, delay);
    RunConcat(s, first, second + third, truth, delay);
    var later := first + (second + third);
    assert !FreshAnywhere(Emitted(After(s, later, truth, delay), e, delay), key, since);
  }

  /**
   From five seconds and one delay after the delete on, the invalidation is in effect in every pod exactly when no lookup
   of the key holds an older answer of the source at the delete.
   */
  lemma InvalidationTakesEffectIff<K(!new), V>(
    start: real, before: seq<Event<K>>, pod: nat, key: K, during: seq<Event<K>>, truth: Truth<K, V>, delay: real)
    requires delay >= 0.0 && Possible(Start(start), before, truth, delay)
    requires Invalidating(After(Start(start), before, truth, delay), pod, key, during, truth, delay)
    ensures var s := After(Start(start), before, truth, delay);
      var t := AtDelete(s, pod, key, during, truth, delay);
      FreshFrom(Apply(t, DropL2(key), truth, delay), key, s.now, t.now + delay + L1_TTL, truth, delay)
      <==> NoOldSource(t, key, s.now)
  {
    var s := After(Start(start), before, truth, delay);
    var t := AtDelete(s, pod, key, during, truth, delay);
    var t' := Apply(t, DropL2(key), truth, delay);
    if id :| id in t.flights && t.flights[id].key == key && !t.flights[id].stage.GotL2?
             && !CarriesSince(t.flights[id].stage, s.now) {
      OldSourceComesBack(t', id, key, s.now, truth, delay);
    } else {
      assert NoOldSource(t, key, s.now);
      forall later: seq<Event<K>>, e: Event<K>
        | Possible(t', later, truth, delay) && Enabled(After(t', later, truth, delay), e, delay)
          && t.now + delay + L1_TTL <= After(t', later, truth, delay).now
        ensures FreshAnywhere(Emitted(After(t', later, truth, delay), e, delay), key, s.now)
      {
        InvalidationTakesEffect(start, before, pod, key, during, later, e, truth, delay);
      }
    }
  }

  // ---- exactly when an invalidation protects its own pod at once ----

  /** Nothing older than `since` can reach the pod: not from its L1, not from Redis, not from a lookup under way. */
  ghost predicate PodFresh<K, V>(s: System<K, V>, pod: nat, key: K, since: real) {
    && since <= s.now
    && FreshHit(s, pod, key, since)
    && (key in s.l2 ==> since <= s.l2[key].readAt)
    && NoOldFlight(s, pod, key, since)
  }

  /** What the pod's L1 answers, if it does, is no older. */
  ghost predicate FreshHit<K, V>(s: System<K, V>, pod: nat, key: K, since: real) {
    L1Hit(s, pod, key) ==> since <= s.l1[(pod, key)].readAt
  }

  /** No lookup of the key holds an older answer of the source, and none of the pod's holds an older one of Redis. */
  ghost predicate NoOldFlight<K, V>(s: System<K, V>, pod: nat, key: K, since: real) {
    forall id <- s.flights ::
      s.flights[id].key == key && (s.flights[id].pod == pod || !s.flights[id].stage.GotL2?) ==>
        CarriesSince(s.flights[id].stage, since)
  }

  ghost predicate FreshAnswer<K, V>(a: Option<Answer<K, V>>, pod: nat, key: K, since: real) {
    a.Some? && a.value.key == key && a.value.pod == pod && a.value.outcome.Returned? ==>
      since <= a.value.outcome.readAt
  }

  /** Every answer the pod gives for the key in any continuation is at least as fresh as `since`. */
  ghost predicate AlwaysFresh<K(!new), V>(s: System<K, V>, pod: nat, key: K, since: real, truth: Truth<K, V>, delay: real) {
    forall later: seq<Event<K>>, e: Event<K> ::
      Possible(s, later, truth, delay) && Enabled(After(s, later, truth, delay), e, delay) ==>
        FreshAnswer(Emitted(After(s, later, truth, delay), e, delay), pod, key, since)
  }

  lemma StepKeepsPodFresh<K, V>(s: System<K, V>, e: Event<K>, pod: nat, key: K, since: real,
                                truth: Truth<K, V>, delay: real)
    requires PodFresh(s, pod, key, since) && Enabled(s, e, delay)
    ensures PodFresh(Apply(s, e, truth, delay), pod, key, since)
    ensures FreshAnswer(Emitted(s, e, delay), pod, key, since)
  {}

  lemma {:induction false} RunKeepsPodFresh<K, V>(s: System<K, V>, run: seq<Event<K>>, pod: nat, key: K, since: real,
                                                  truth: Truth<K, V>, delay: real)
    requires PodFresh(s, pod, key, since) && Possible(s, run, truth, delay)
    ensures PodFresh(After(s, run, truth, delay), pod, key, since)
    decreases |run|
  {
    if run != [] {
      StepKeepsPodFresh(s, run[0], pod, key, since, truth, delay);
      RunKeepsPodFresh(Apply(s, run[0], truth, delay), run[1..], pod, key, since, truth, delay);
    }
  }

  lemma RunStep<K, V>(s: System<K, V>, e: Event<K>, rest: seq<Event<K>>, truth: Truth<K, V>, delay: real)
    requires Enabled(s, e, delay) && Possible(Apply(s, e, truth, delay), rest, truth, delay)
    ensures Possible(s, [e] + rest, truth, delay)
    ensures After(s, [e] + rest, truth, delay) == After(Apply(s, e, truth, delay), rest, truth, delay)
    ensures [e] + [] == [e]
  {
    assert ([e] + rest)[1..] == rest;
  }

  /** A lookup that stores an old answer of the source in Redis hands it to the pod on the pod's next lookup. */
  lemma OldStoreComesBack<K(!new), V>(s: System<K, V>, id: nat, pod: nat, key: K, since: real,
                                      truth: Truth<K, V>, delay: real) returns (later: seq<Event<K>>, e: Event<K>)
    requires id in s.flights && s.flights[id].key == key && s.flights[id].stage.AskStore?
    requires !CarriesSince(s.flights[id].stage, since) && !L1Hit(s, pod, key)
    ensures Possible(s, later, truth, delay) && Enabled(After(s, later, truth, delay), e, delay)
    ensures !FreshAnswer(Emitted(After(s, later, truth, delay), e, delay), pod, key, since)
  {
    var s1 := Apply(s, StoreL2(id, false), truth, delay);
    var s2 := Apply(s1, Lookup(id, pod, key), truth, delay);
    var s3 := Apply(s2, ReadL2(id, false), truth, delay);
    assert s3.flights[id].stage.GotL2?;
    later, e := [StoreL2(id, false), Lookup(id, pod, key), ReadL2(id, false)], ResumeHit(id);
    RunStep(s2, ReadL2(id, false), [], truth, delay);
    RunStep(s1, Lookup(id, pod, key), [ReadL2(id, false)], truth, delay);
    RunStep(s, StoreL2(id, false), [Lookup(id, pod, key), ReadL2(id, false)], truth, delay);
    assert [Lookup(id, pod, key)] + [ReadL2(id, false)] == [Lookup(id, pod, key), ReadL2(id, false)];
    assert [StoreL2(id, false)] + [Lookup(id, pod, key), ReadL2(id, false)] == later;
  }

  lemma OldFlightComesBack<K(!new), V>(s: System<K, V>, id: nat, pod: nat, key: K, since: real,
                                       truth: Truth<K, V>, delay: real) returns (later: seq<Event<K>>, e: Event<K>)
    requires id in s.flights && s.flights[id].key == key && !CarriesSince(s.flights[id].stage, since)
    requires s.flights[id].pod == pod || !s.flights[id].stage.GotL2?
    requires (pod, key) !in s.l1
    ensures Possible(s, later, truth, delay) && Enabled(After(s, later, truth, delay), e, delay)
    ensures !FreshAnswer(Emitted(After(s, later, truth, delay), e, delay), pod, key, since)
  {
    match s.flights[id].stage
    case GotL2(_, _) => later, e := [], ResumeHit(id);
    case AskStore(_, _) => later, e := OldStoreComesBack(s, id, pod, key, since, truth, delay);
    case GotSource(v, readAt) =>
      var s1 := Apply(s, StoreL1(id), truth, delay);
      if s.flights[id].pod == pod {
        later, e := [StoreL1(id)], StoreL2(id, false);
        RunStep(s, StoreL1(id), [], truth, delay);
      } else {
        var more: seq<Event<K>>;
        more, e := OldStoreComesBack(s1, id, pod, key, since, truth, delay);
        later := [StoreL1(id)] + more;
        RunStep(s, StoreL1(id), more, truth, delay);
      }
  }

  /** Some lookup can always be started. */
  lemma {:induction false} FreshId<K, V>(flights: map<nat, Flight<K, V>>, ids: set<nat>) returns (id: nat)
    ensures id !in flights && id !in ids
    decreases flights.Keys - ids
  {
    if some :| some in flights.Keys - ids {
      id := FreshId(flights, ids + {some});
    } else {
      assert forall known <- flights :: known in flights.Keys - ids || known in ids;
      id := Outside(ids);
    }
  }

  lemma {:induction false} Outside(ids: set<nat>) returns (id: nat)
    ensures forall other <- ids :: other < id
    decreases ids
  {
    id := 0;
    if some :| some in ids {
      var above := Outside(ids - {some});
      id := if some < above then above else some + 1;
      forall other <- ids ensures other < id { assert other == some || other in ids - {some}; }
    }
  }

  lemma OldHitComesBack<K(!new), V>(s: System<K, V>, pod: nat, key: K, since: real,
                                    truth: Truth<K, V>, delay: real) returns (later: seq<Event<K>>, e: Event<K>)
    requires !FreshHit(s, pod, key, since)
    ensures Possible(s, later, truth, delay) && Enabled(After(s, later, truth, delay), e, delay)
    ensures !FreshAnswer(Emitted(After(s, later, truth, delay), e, delay), pod, key, since)
  {
    var id := FreshId(s.flights, {});
    later, e := [], Lookup(id, pod, key);
  }

  /** The entry in the pod's L1 may be evicted first. */
  lemma OldFlightStillComesBack<K(!new), V>(s: System<K, V>, pod: nat, key: K, since: real,
                                            truth: Truth<K, V>, delay: real) returns (later: seq<Event<K>>, e: Event<K>)
    requires !NoOldFlight(s, pod, key, since)
    ensures Possible(s, later, truth, delay) && Enabled(After(s, later, truth, delay), e, delay)
    ensures !FreshAnswer(Emitted(After(s, later, truth, delay), e, delay), pod, key, since)
  {
    var id :| id in s.flights && s.flights[id].key == key
              && (s.flights[id].pod == pod || !s.flights[id].stage.GotL2?)
              && !CarriesSince(s.flights[id].stage, since);
    var drop: Event<K> := DropL1(pod, key);
    var more: seq<Event<K>>;
    more, e := OldFlightComesBack(Apply(s, drop, truth, delay), id, pod, key, since, truth, delay);
    later := [drop] + more;
    RunStep(s, drop, more, truth, delay);
  }

  lemma FreshFromDeleteIff<K(!new), V>(t: System<K, V>, pod: nat, key: K, since: real, truth: Truth<K, V>, delay: real)
    requires since <= t.now
    ensures AlwaysFresh(Apply(t, DropL2(key), truth, delay), pod, key, since, truth, delay)
            <==> FreshHit(t, pod, key, since) && NoOldFlight(t, pod, key, since)
  {
    var t' := Apply(t, DropL2(key), truth, delay);
    if !FreshHit(t', pod, key, since) {
      var later, e := OldHitComesBack(t', pod, key, since, truth, delay);
    } else if !NoOldFlight(t', pod, key, since) {
      var later, e := OldFlightStillComesBack(t', pod, key, since, truth, delay);
    } else {
      forall later: seq<Event<K>>, e: Event<K>
        | Possible(t', later, truth, delay) && Enabled(After(t', later, truth, delay), e, delay)
        ensures FreshAnswer(Emitted(After(t', later, truth, delay), e, delay), pod, key, since)
      {
        RunKeepsPodFresh(t', later, pod, key, since, truth, delay);
        StepKeepsPodFresh(After(t', later, truth, delay), e, pod, key, since, truth, delay);
      }
    }
  }

  /**
   An invalidation protects its own pod from the moment it is through, whatever happened while it waited for Redis,
   exactly when at that moment the pod's L1 has not been refilled with an older value, no lookup of the key is holding an
   older answer of the source, in whatever pod, and none of the pod's own is holding an older answer of Redis.
   */
  lemma InvalidationProtectsPodIff<K(!new), V>(s: System<K, V>, pod: nat, key: K, during: seq<Event<K>>,
                                               truth: Truth<K, V>, delay: real)
    requires Invalidating(s, pod, key, during, truth, delay)
    ensures var t := AtDelete(s, pod, key, during, truth, delay);
      AlwaysFresh(Apply(t, DropL2(key), truth, delay), pod, key, s.now, truth, delay)
      <==> FreshHit(t, pod, key, s.now) && NoOldFlight(t, pod, key, s.now)
  {
    TimePasses(Apply(s, DropL1(pod, key), truth, delay), during, truth, delay);
    FreshFromDeleteIff(AtDelete(s, pod, key, during, truth, delay), pod, key, s.now, truth, delay);
  }

  /** Nothing need be under way when it starts: a lookup of the pod that hits Redis while it waits is enough. */
  lemma RefilledWhileItWaits<K(!new), V>(s: System<K, V>, pod: nat, key: K, truth: Truth<K, V>)
    requires s.flights == map[] && key in s.l2 && Live(s.l2[key], s.now) && s.l2[key].readAt < s.now
    ensures exists during: seq<Event<K>> ::
      && Invalidating(s, pod, key, during, truth, 0.0)
      && AtDelete(s, pod, key, during, truth, 0.0).flights == map[]
      && !AlwaysFresh(Apply(AtDelete(s, pod, key, during, truth, 0.0), DropL2(key), truth, 0.0), pod, key, s.now, truth, 0.0)
  {
    var s1 := Apply(s, DropL1(pod, key), truth, 0.0);
    var during: seq<Event<K>> := [Lookup(0, pod, key), ReadL2(0, false), ResumeHit(0)];
    WarmLookup(s1, pod, key, truth);
    assert Invalidating(s, pod, key, during, truth, 0.0);
    InvalidationProtectsPodIff(s, pod, key, during, truth, 0.0);
    assert AtDelete(s, pod, key, during, truth, 0.0).flights == map[];
  }

  // ---- the documented minute ----

  lemma {:induction false} RunConcat<K, V>(s: System<K, V>, a: seq<Event<K>>, b: seq<Event<K>>,
                                           truth: Truth<K, V>, delay: real)
    requires Possible(s, a, truth, delay) && Possible(After(s, a, truth, delay), b, truth, delay)
    ensures Possible(s, a + b, truth, delay)
    ensures After(s, a + b, truth, delay) == After(After(s, a, truth, delay), b, truth, delay)
    decreases |a|
  {
    if a == [] {
      assert a + b == b;
    } else {
      RunConcat(Apply(s, a[0], truth, delay), a[1..], b, truth, delay);
      assert a + b == [a[0]] + (a[1..] + b);
      RunStep(s, a[0], a[1..] + b, truth, delay);
    }
  }

  lemma AskThenStore<K, V>(s: System<K, V>, pod: nat, key: K, truth: Truth<K, V>)
    requires s.flights == map[0 := Flight(pod, key, AskSource)]
    ensures var v := truth(key, s.now);
      var run := [ReadSource(0, Answered), StoreL1(0), StoreL2(0, false)];
      && Possible(s, run, truth, 0.0)
      && After(s, run, truth, 0.0) == System(s.now, s.l1[(pod, key) := Entry(v, s.now, s.now + L1_TTL)],
                                             s.l2[key := Entry(v, s.now, s.now + L2_TTL)], map[])
  {
    var s1 := Apply(s, ReadSource(0, Answered), truth, 0.0);
    var s2 := Apply(s1, StoreL1(0), truth, 0.0);
    RunStep(s2, StoreL2(0, false), [], truth, 0.0);
    RunStep(s1, StoreL1(0), [StoreL2(0, false)], truth, 0.0);
    RunStep(s, ReadSource(0, Answered), [StoreL1(0), StoreL2(0, false)], truth, 0.0);
  }

  /** A whole lookup that misses both tiers and reads `v` from the source. */
  lemma ColdLookup<K, V>(s: System<K, V>, pod: nat, key: K, truth: Truth<K, V>)
    requires s.flights == map[] && (pod, key) !in s.l1 && key !in s.l2
    ensures var v := truth(key, s.now);
      var run := [Lookup(0, pod, key), ReadL2(0, false), ReadSource(0, Answered), StoreL1(0), StoreL2(0, false)];
      && Possible(s, run, truth, 0.0)
      && After(s, run, truth, 0.0) == System(s.now, s.l1[(pod, key) := Entry(v, s.now, s.now + L1_TTL)],
                                             s.l2[key := Entry(v, s.now, s.now + L2_TTL)], map[])
  {
    var s1 := Apply(s, Lookup(0, pod, key), truth, 0.0);
    var s2 := Apply(s1, ReadL2(0, false), truth, 0.0);
    AskThenStore(s2, pod, key, truth);
    RunStep(s1, ReadL2(0, false), [ReadSource(0, Answered), StoreL1(0), StoreL2(0, false)], truth, 0.0);
    RunStep(s, Lookup(0, pod, key), [ReadL2(0, false), ReadSource(0, Answered), StoreL1(0), StoreL2(0, false)],
            truth, 0.0);
  }

  /** A whole lookup that misses L1 and hits Redis. */
  lemma WarmLookup<K, V>(s: System<K, V>, pod: nat, key: K, truth: Truth<K, V>)
    requires s.flights == map[] && (pod, key) !in s.l1 && key in s.l2 && Live(s.l2[key], s.now)
    ensures var run := [Lookup(0, pod, key), ReadL2(0, false), ResumeHit(0)];
      && Possible(s, run, truth, 0.0)
      && After(s, run, truth, 0.0)
         == s.(l1 := s.l1[(pod, key) := Entry(s.l2[key].value, s.l2[key].readAt, s.now + L1_TTL)])
  {
    var s1 := Apply(s, Lookup(0, pod, key), truth, 0.0);
    var s2 := Apply(s1, ReadL2(0, false), truth, 0.0);
    RunStep(s2, ResumeHit(0), [], truth, 0.0);
    RunStep(s1, ReadL2(0, false), [ResumeHit(0)], truth, 0.0);
    RunStep(s, Lookup(0, pod, key), [ReadL2(0, false), ResumeHit(0)], truth, 0.0);
  }

  lemma Wait<K, V>(s: System<K, V>, d: real, truth: Truth<K, V>)
    requires s.flights == map[] && d >= 0.0
    ensures Possible(s, [Tick(d)], truth, 0.0) && After(s, [Tick(d)], truth, 0.0) == s.(now := s.now + d)
  {
    RunStep(s, Tick(d), [], truth, 0.0);
  }

  /**
   The bound of 65 s is approached, with atomic lookups and no failure: a value as old as any age below it can be
   returned, whatever the source has said since.
   */
  lemma EveryAgeBelow65IsReached<K(!new), V>(key: K, age: real, truth: Truth<K, V>)
    requires 0.0 <= age < 65.0
    ensures exists run: seq<Event<K>>, e: Event<K> ::
      && Possible(Start<K, V>(0.0), run, truth, 0.0)
      && var s := After(Start<K, V>(0.0), run, truth, 0.0);
      && Enabled(s, e, 0.0) && s.now == age
      && Emitted(s, e, 0.0) == Some(Answer(1, key, Returned(truth(key, 0.0), 0.0)))
  {
    var s0 := Start<K, V>(0.0);
    var cold: seq<Event<K>> :=
      [Lookup(0, 0, key), ReadL2(0, false), ReadSource(0, Answered), StoreL1(0), StoreL2(0, false)];
    ColdLookup(s0, 0, key, truth);
    var s1 := After(s0, cold, truth, 0.0);
    var first, second := age * 12.0 / 13.0, age / 13.0;
    Wait(s1, first, truth);
    RunConcat(s0, cold, [Tick(first)], truth, 0.0);
    var s2 := s1.(now := first);
    var more := HeldInL1(s2, key, second, truth);
    RunConcat(s0, cold + [Tick(first)], more, truth, 0.0);
    var run := cold + [Tick(first)] + more;
    assert first + second == age;
    assert Enabled(After(s0, run, truth, 0.0), Event<K>.Lookup(0, 1, key), 0.0);
  }

  /** Another pod takes the value from Redis and waits. */
  lemma HeldInL1<K(!new), V>(s: System<K, V>, key: K, d: real, truth: Truth<K, V>) returns (run: seq<Event<K>>)
    requires s.flights == map[] && (1, key) !in s.l1 && key in s.l2 && Live(s.l2[key], s.now) && 0.0 <= d < L1_TTL
    ensures Possible(s, run, truth, 0.0)
    ensures var t := After(s, run, truth, 0.0);
      && t.now == s.now + d && t.flights == map[]
      && Emitted(t, Lookup(0, 1, key), 0.0) == Some(Answer(1, key, Returned(s.l2[key].value, s.l2[key].readAt)))
  {
    var warm: seq<Event<K>> := [Lookup(0, 1, key), ReadL2(0, false), ResumeHit(0)];
    WarmLookup(s, 1, key, truth);
    Wait(After(s, warm, truth, 0.0), d, truth);
    RunConcat(s, warm, [Tick(d)], truth, 0.0);
    run := warm + [Tick(d)];
  }

  /** A lookup that has an answer of the source takes a while before and after it fills its L1. */
  lemma SlowFinish<K, V>(s: System<K, V>, key: K, v: V, a: real, truth: Truth<K, V>, delay: real) returns (run: seq<Event<K>>)
    requires s.flights == map[0 := Flight(0, key, GotSource(v, s.now))] && 0.0 <= a && 2.0 * a <= delay
    ensures Possible(s, run, truth, delay)
    ensures var t := After(s, run, truth, delay);
      && t.now == s.now + 2.0 * a && t.flights == map[]
      && t.l2 == s.l2[key := Entry(v, s.now, t.now + L2_TTL)] && t.l1 == s.l1[(0, key) := Entry(v, s.now, s.now + a + L1_TTL)]
  {
    var s1 := Apply(s, Tick(a), truth, delay);
    var s2 := Apply(s1, StoreL1(0), truth, delay);
    assert s2.flights == map[0 := Flight(0, key, AskStore(v, s.now))];
    var s3 := Apply(s2, Tick(a), truth, delay);
    RunStep(s3, StoreL2(0, false), [], truth, delay);
    RunStep(s2, Tick(a), [StoreL2(0, false)] + [], truth, delay);
    RunStep(s1, StoreL1(0), [Tick(a)] + ([StoreL2(0, false)] + []), truth, delay);
    run := [StoreL1(0)] + ([Tick(a)] + ([StoreL2(0, false)] + []));
    RunStep(s, Tick(a), run, truth, delay);
    run := [Tick(a)] + run;
  }

  /** A first lookup that reads the source at once and is slow from then on. */
  lemma SlowStore<K, V>(key: K, a: real, truth: Truth<K, V>, delay: real) returns (run: seq<Event<K>>)
    requires 0.0 <= a && 2.0 * a <= delay
    ensures Possible(Start<K, V>(0.0), run, truth, delay)
    ensures var t := After(Start<K, V>(0.0), run, truth, delay);
      t.now == 2.0 * a && t.l2 == map[key := Entry(truth(key, 0.0), 0.0, 2.0 * a + L2_TTL)] && t.flights == map[]
      && (1, key) !in t.l1
  {
    var s0 := Start<K, V>(0.0);
    var s1 := Apply(s0, Lookup(0, 0, key), truth, delay);
    var s2 := Apply(s1, ReadL2(0, false), truth, delay);
    var s3 := Apply(s2, ReadSource(0, Answered), truth, delay);
    assert s3 == System(0.0, map[], map[], map[0 := Flight(0, key, GotSource(truth(key, 0.0), 0.0))]);
    var rest := SlowFinish(s3, key, truth(key, 0.0), a, truth, delay);
    RunStep(s2, ReadSource(0, Answered), rest, truth, delay);
    RunStep(s1, ReadL2(0, false), [ReadSource(0, Answered)] + rest, truth, delay);
    run := [ReadL2(0, false)] + ([ReadSource(0, Answered)] + rest);
    RunStep(s0, Lookup(0, 0, key), run, truth, delay);
    run := [Lookup(0, 0, key)] + run;
  }

  /** A lookup of another pod that comes later and takes a while with what Redis gave it. */
  lemma SlowRead<K, V>(s: System<K, V>, key: K, b: real, c: real, truth: Truth<K, V>, delay: real) returns (run: seq<Event<K>>)
    requires s.flights == map[] && (1, key) !in s.l1 && key in s.l2 && s.now + b < s.l2[key].expires && b >= 0.0
    requires 0.0 <= c <= delay
    ensures Possible(s, run, truth, delay)
    ensures var t := After(s, run, truth, delay);
      t.now == s.now + b + c && t.flights == map[] && (1, key) in t.l1
      && t.l1[(1, key)] == Entry(s.l2[key].value, s.l2[key].readAt, t.now + L1_TTL)
  {
    var s1 := Apply(s, Tick(b), truth, delay);
    var s2 := Apply(s1, Lookup(1, 1, key), truth, delay);
    var s3 := Apply(s2, ReadL2(1, false), truth, delay);
    assert s3.flights == map[1 := Flight(1, key, GotL2(s.l2[key], s3.now))];
    var s4 := Apply(s3, Tick(c), truth, delay);
    RunStep(s4, ResumeHit(1), [], truth, delay);
    RunStep(s3, Tick(c), [ResumeHit(1)] + [], truth, delay);
    RunStep(s2, ReadL2(1, false), [Tick(c)] + ([ResumeHit(1)] + []), truth, delay);
    RunStep(s1, Lookup(1, 1, key), [ReadL2(1, false)] + ([Tick(c)] + ([ResumeHit(1)] + [])), truth, delay);
    run := [Lookup(1, 1, key)] + ([ReadL2(1, false)] + ([Tick(c)] + ([ResumeHit(1)] + [])));
    RunStep(s, Tick(b), run, truth, delay);
    run := [Tick(b)] + run;
  }

  /** The bound on staleness is approached for every delay: every age below it is that of some answer. */
  lemma EveryAgeBelowTheBoundIsReached<K(!new), V>(key: K, age: real, truth: Truth<K, V>, delay: real)
    requires delay >= 0.0 && 0.0 <= age < 65.0 + 2.0 * delay
    ensures exists run: seq<Event<K>>, e: Event<K> ::
      && Possible(Start<K, V>(0.0), run, truth, delay)
      && var s := After(Start<K, V>(0.0), run, truth, delay);
      && Enabled(s, e, delay) && s.now == age
      && Emitted(s, e, delay) == Some(Answer(1, key, Returned(truth(key, 0.0), 0.0)))
  {
    var part, slow := Shares(age, delay);
    var first := SlowStore(key, slow / 2.0, truth, delay);
    var s1 := After(Start<K, V>(0.0), first, truth, delay);
    var second := SlowRead(s1, key, 12.0 * part, slow, truth, delay);
    RunConcat(Start<K, V>(0.0), first, second, truth, delay);
    var s2 := After(s1, second, truth, delay);
    RunStep(s2, Tick(part), [], truth, delay);
    RunConcat(Start<K, V>(0.0), first + second, [Tick(part)] + [], truth, delay);
    var run := first + second + ([Tick(part)] + []);
    var s3 := After(Start<K, V>(0.0), run, truth, delay);
    assert s3.now == age && L1Hit(s3, 1, key);
    assert Enabled(s3, Event<K>.Lookup(0, 1, key), delay);
    assert Emitted(s3, Event<K>.Lookup(0, 1, key), delay) == Some(Answer(1, key, Returned(truth(key, 0.0), 0.0)));
  }

  /** The age in parts: twelve in Redis, one in L1, and twice what is lost on the way. */
  lemma Shares(age: real, delay: real) returns (part: real, slow: real)
    requires delay >= 0.0 && 0.0 <= age < 65.0 + 2.0 * delay
    ensures 0.0 <= part < 5.0 && 0.0 <= slow <= delay && 13.0 * part + 2.0 * slow == age
  {
    slow := if 2.0 * delay <= age then delay else age / 2.0;
    part := (age - 2.0 * slow) / 13.0;
  }

  /** "Membership changes propagate within one minute" does not hold: a value replaced at 1 s is returned at 63.5 s. */
  lemma OneMinuteIsNotEnough()
    ensures var truth: Truth<nat, bool> := (k, t) => t >= 1.0;
      exists run: seq<Event<nat>>, e: Event<nat> ::
        && Possible(Start<nat, bool>(0.0), run, truth, 0.0)
        && var s := After(Start<nat, bool>(0.0), run, truth, 0.0);
        && Enabled(s, e, 0.0) && s.now == 63.5
        && Emitted(s, e, 0.0) == Some(Answer(1, 7, Returned(false, 0.0)))
  {
    var truth: Truth<nat, bool> := (k, t) => t >= 1.0;
    EveryAgeBelow65IsReached<nat, bool>(7, 63.5, truth);
  }
}
