/**
 Coalescing of L3 summaries (backend/services/compression_pipeline.py:429-624, 1116-1134, 1441-1486) of one user and
 namespace: a lock, a debounce on the number of memories, and upserts of the policy row that never downgrade its tier.

 A task runs alone between two awaits, so the model takes one step per stretch and lets any number of tasks interleave
 with memories coming and going and with L3.1 syntheses. Whether a gate is passed, whether a generation or an upsert
 succeeds and whether the stored summary is stale are choices of the environment, and a task may fail at any await.
 */
module Coalescing {
  import opened Text

  const THRESHOLD: nat := 2          // L3_SUMMARY_THRESHOLD
  const MIN_NEW: nat := 3            // L3_SUMMARY_MIN_NEW_MEMORIES
  const MIN_FOR_MODEL: nat := 5      // L3_GROQ_MIN_MEMORIES

  datatype Task =
    // _maybe_summarize_l3
    | Start(force: bool, trigger: bool)
    | Counted(force: bool, trigger: bool, seen: set<nat>)
    | Waiting(force: bool, trigger: bool, seen: set<nat>)     // for the lock
    | Gating(force: bool, trigger: bool, seen: set<nat>)      // holds the lock, awaits the novelty gates
    // _do_summarize_l3; `locked` unless prewarm_namespace runs it
    | Generating(seen: set<nat>, locked: bool)
    | Upserting(seen: set<nat>, locked: bool)
    | Upserted(seen: set<nat>, locked: bool)
    // prewarm_namespace: before it reads the policy, and before it reads the memories
    | Prewarm
    | Selecting
    | Done

  /** The tier of the policy row of the namespace, which other users and the synthesis write as well. */
  datatype Tier = NoRow | Untiered | L3 | L31

  /**
   `last` is the recorded count, 0 when there is none; `records` are the memories counted in each record so far, and
   `memories` the active ones that are no concepts.
   */
  datatype State = State(
    memories: set<nat>, last: nat, holder: Option<nat>, tasks: map<nat, Task>, tier: Tier, records: seq<set<nat>>)

  datatype Event =
    | Advance(id: nat, yes: bool)
    | Fail(id: nat)                  // the task ends with an exception
    | Commit(added: set<nat>)        // a transaction adds memories
    | Retire(gone: set<nat>)
    | Synthesize                     // an L3.1 run upserts the row without a condition
    | OtherUser                      // an L3 run of another user in the same namespace upserts the row

  predicate Enabled(s: State, e: Event) {
    match e
    case Advance(id, _) => id in s.tasks && !s.tasks[id].Done? && (s.tasks[id].Waiting? ==> s.holder.None?)
    case Fail(id) => id in s.tasks && !s.tasks[id].Done?
    case _ => true
  }

  function Go(s: State, id: nat, t: Task): State { s.(tasks := s.tasks[id := t]) }

  /** The task is over, and so is its hold on the lock. */
  function End(s: State, id: nat): State { Go(if s.holder == Some(id) then s.(holder := None) else s, id, Done) }

  /** The conditional upsert of an L3 summary. */
  function L3Upsert(tier: Tier): Tier { if tier.L31? then tier else L3 }

  /** Inside the lock: the debounce. */
  function Enter(s: State, id: nat, force: bool, trigger: bool, seen: set<nat>): State {
    if !force && |seen| - s.last < MIN_NEW && s.last > 0 then Go(s, id, Done)
    else Go(s.(holder := Some(id)), id, Gating(force, trigger, seen))
  }

  function Record(s: State, seen: set<nat>): State { s.(last := |seen|, records := s.records + [seen]) }

  /** A few memories become a bullet list at once; for more the language model is awaited. */
  function Summarize(seen: set<nat>, locked: bool): Task {
    if |seen| < MIN_FOR_MODEL then Upserting(seen, locked) else Generating(seen, locked)
  }

  function Apply(s: State, e: Event): State
    requires Enabled(s, e)
  {
    match e
    case Commit(added) => s.(memories := s.memories + added)
    case Retire(gone) => s.(memories := s.memories - gone)
    case Synthesize => s.(tier := L31)
    case OtherUser => s.(tier := L3Upsert(s.tier))
    case Fail(id) => End(s, id)
    case Advance(id, yes) => Advanced(s, id, yes)
  }

  function Advanced(s: State, id: nat, yes: bool): State
    requires id in s.tasks
  {
    match s.tasks[id]
    case Start(force, trigger) =>
      Go(s, id, if |s.memories| < THRESHOLD then Done else Counted(force, trigger, s.memories))
    case Counted(force, trigger, seen) =>
      if s.holder.Some? && !force then Go(s, id, Done)
      else if s.holder.None? && forall w <- s.tasks :: !s.tasks[w].Waiting? then Enter(s, id, force, trigger, seen)
      else Go(s, id, Waiting(force, trigger, seen))
    case Waiting(force, trigger, seen) => Enter(s, id, force, trigger, seen)
    case Gating(force, trigger, seen) =>
      if !force && trigger && !yes then Record(End(s, id), seen) else Go(s, id, Summarize(seen, true))
    case Generating(seen, locked) => if yes then Go(s, id, Upserting(seen, locked)) else End(s, id)
    case Upserting(seen, locked) =>
      if yes then Go(s.(tier := L3Upsert(s.tier)), id, Upserted(seen, locked)) else End(s, id)
    case Upserted(seen, _) => Record(End(s, id), seen)
    case Prewarm => Go(s, id, if yes then Selecting else Done)
    case Selecting => Go(s, id, if |s.memories| < THRESHOLD then Done else Summarize(s.memories, false))
    case Done => s
  }

  ghost predicate Possible(s: State, run: seq<Event>)
    decreases |run|
  {
    run == [] || (Enabled(s, run[0]) && Possible(Apply(s, run[0]), run[1..]))
  }

  ghost function After(s: State, run: seq<Event>): State
    requires Possible(s, run)
    decreases |run|
  {
    if run == [] then s else After(Apply(s, run[0]), run[1..])
  }

  /** Nothing has run; any number of tasks is about to. */
  ghost predicate Initial(s: State) {
    s.last == 0 && s.holder.None? && s.records == [] && forall t <- s.tasks :: s.tasks[t].Start? || s.tasks[t].Prewarm?
  }

  // ---- one generation at a time ----

  /** A summary is being made, up to its record. */
  predicate InFlight(t: Task) { t.Generating? || t.Upserting? || t.Upserted? }

  predicate NeedsLock(t: Task) { t.Gating? || (InFlight(t) && t.locked) }

  ghost predicate LockOk(s: State) {
    && (forall t <- s.tasks :: NeedsLock(s.tasks[t]) <==> s.holder == Some(t))
    && (s.holder.Some? ==> s.holder.value in s.tasks)
  }

  predicate IsPrewarm(t: Task) { t.Prewarm? || t.Selecting? || (InFlight(t) && !t.locked) }

  ghost predicate NoPrewarm(s: State) { forall t <- s.tasks :: !IsPrewarm(s.tasks[t]) }

  /** A step of a task takes the lock, gives it back or leaves it, and changes no other task. */
  lemma LockMoves(s: State, e: Event)
    requires (e.Advance? || e.Fail?) && Enabled(s, e) && (NeedsLock(s.tasks[e.id]) <==> s.holder == Some(e.id))
    ensures var a := Apply(s, e);
      && a.tasks == s.tasks[e.id := a.tasks[e.id]]
      && (NeedsLock(a.tasks[e.id]) <==> a.holder == Some(e.id))
      && (a.holder == s.holder || (s.holder.None? && a.holder == Some(e.id)) || (s.holder == Some(e.id) && a.holder.None?))
  {}

  lemma PrewarmsStay(s: State, e: Event)
    requires (e.Advance? || e.Fail?) && Enabled(s, e)
    ensures IsPrewarm(Apply(s, e).tasks[e.id]) ==> IsPrewarm(s.tasks[e.id])
  {}

  lemma StepKeepsLock(s: State, e: Event)
    requires LockOk(s) && Enabled(s, e)
    ensures LockOk(Apply(s, e))
    ensures NoPrewarm(s) ==> NoPrewarm(Apply(s, e))
    ensures Apply(s, e).tasks.Keys == s.tasks.Keys
  {
    if e.Advance? || e.Fail? {
      LockMoves(s, e);
      PrewarmsStay(s, e);
      ChangeKeepsLock(s, Apply(s, e), e.id);
    }
  }

  lemma ChangeKeepsLock(s: State, a: State, id: nat)
    requires LockOk(s) && id in s.tasks && id in a.tasks && a.tasks == s.tasks[id := a.tasks[id]]
    requires NeedsLock(a.tasks[id]) <==> a.holder == Some(id)
    requires a.holder == s.holder || (s.holder.None? && a.holder == Some(id)) || (s.holder == Some(id) && a.holder.None?)
    ensures LockOk(a)
    ensures NoPrewarm(s) && (IsPrewarm(a.tasks[id]) ==> IsPrewarm(s.tasks[id])) ==> NoPrewarm(a)
    ensures a.tasks.Keys == s.tasks.Keys
  {
    forall t <- a.tasks ensures NeedsLock(a.tasks[t]) <==> a.holder == Some(t) {
      assert t in s.tasks && (NeedsLock(s.tasks[t]) <==> s.holder == Some(t));
    }
  }

  lemma {:induction false} RunKeepsLock(s: State, run: seq<Event>)
    requires LockOk(s) && Possible(s, run)
    ensures LockOk(After(s, run))
    ensures NoPrewarm(s) ==> NoPrewarm(After(s, run))
    ensures After(s, run).tasks.Keys == s.tasks.Keys
    decreases |run|
  {
    if run != [] {
      StepKeepsLock(s, run[0]);
      RunKeepsLock(Apply(s, run[0]), run[1..]);
    }
  }

  ghost predicate OneInFlight(s: State) {
    forall a, b :: a in s.tasks && b in s.tasks && InFlight(s.tasks[a]) && InFlight(s.tasks[b]) ==> a == b
  }

  /** Without prewarming, at most one generation is in flight in every interleaving, forced ones included. */
  lemma OneGenerationInFlight(s: State, run: seq<Event>)
    requires Initial(s) && NoPrewarm(s) && Possible(s, run)
    ensures OneInFlight(After(s, run))
  {
    RunKeepsLock(s, run);
  }

  /** A prewarm that has company. */
  ghost predicate Prewarmed(s: State) {
    exists p, q :: p in s.tasks && q in s.tasks && p != q && s.tasks[p].Prewarm?
  }

  /**
   Prewarming does not take the lock, although the generation it calls says its caller holds it: two generations can be
   in flight at once if and only if a prewarm is not the only task.
   */
  lemma PrewarmOverlapsIff(s: State)
    requires Initial(s)
    ensures (exists run :: Possible(s, run) && !OneInFlight(After(s, run))) <==> Prewarmed(s)
  {
    if Prewarmed(s) {
      var p, q :| p in s.tasks && q in s.tasks && p != q && s.tasks[p].Prewarm?;
      var run := TwoInFlight(s, p, q);
      assert !OneInFlight(After(s, run));
    } else {
      forall run | Possible(s, run) ensures OneInFlight(After(s, run)) {
        RunKeepsLock(s, run);
        if NoPrewarm(s) { OneGenerationInFlight(s, run); }
      }
    }
  }

  lemma BothInFlight(s: State, p: nat, q: nat)
    requires p in s.tasks && q in s.tasks && p != q && InFlight(s.tasks[p]) && InFlight(s.tasks[q])
    ensures !OneInFlight(s)
  {}

  lemma TwoInFlight(s: State, p: nat, q: nat) returns (run: seq<Event>)
    requires Initial(s) && p in s.tasks && q in s.tasks && p != q && s.tasks[p].Prewarm?
    ensures Possible(s, run) && !OneInFlight(After(s, run))
  {
    var s1 := Apply(s, Commit({0, 1}));
    TwoAreEnough(s1.memories);
    assert forall w <- s1.tasks :: !s1.tasks[w].Waiting?;
    var s2 := StartsGeneration(s1, q);
    var first := if s.tasks[q].Prewarm? then [Advance(q, true), Advance(q, true)]
                 else [Advance(q, true), Advance(q, true), Advance(q, true)];
    var second := [Advance(p, true), Advance(p, true)];
    PrewarmStarts(s2, p);
    BothInFlight(After(s2, second), p, q);
    Concat(s1, first, second);
    run := [Commit({0, 1})] + (first + second);
    Prepend(s, Commit({0, 1}), first + second);
  }

  lemma TwoAreEnough(memories: set<nat>)
    requires {0, 1} <= memories
    ensures |memories| >= THRESHOLD
  {
    var rest := memories - {0, 1};
    assert memories == rest + {0, 1} && rest !! {0, 1};
  }

  lemma PrewarmStarts(s: State, p: nat)
    requires p in s.tasks && s.tasks[p].Prewarm? && |s.memories| >= THRESHOLD
    ensures var run := [Advance(p, true), Advance(p, true)];
      && Possible(s, run) && After(s, run).tasks.Keys == s.tasks.Keys && InFlight(After(s, run).tasks[p])
      && (forall t <- s.tasks :: t != p ==> After(s, run).tasks[t] == s.tasks[t])
      && After(s, run).memories == s.memories
  {
    var s1 := Apply(s, Advance(p, true));
    Prepend(s1, Advance(p, true), []);
    assert [Advance(p, true)] + [] == [Advance(p, true)];
    Prepend(s, Advance(p, true), [Advance(p, true)]);
    assert [Advance(p, true)] + [Advance(p, true)] == [Advance(p, true), Advance(p, true)];
  }

  /** From the start a task that nobody disturbs gets as far as its generation. */
  lemma StartsGeneration(s: State, q: nat) returns (after: State)
    requires q in s.tasks && (s.tasks[q].Start? || s.tasks[q].Prewarm?) && |s.memories| >= THRESHOLD
    requires s.last == 0 && s.holder.None? && forall t <- s.tasks :: s.tasks[t].Start? || s.tasks[t].Prewarm?
    ensures var run := if s.tasks[q].Prewarm? then [Advance(q, true), Advance(q, true)]
                       else [Advance(q, true), Advance(q, true), Advance(q, true)];
      Possible(s, run) && after == After(s, run)
    ensures after.tasks.Keys == s.tasks.Keys && InFlight(after.tasks[q]) && after.memories == s.memories
    ensures forall t <- s.tasks :: t != q ==> after.tasks[t] == s.tasks[t]
  {
    var step := Advance(q, true);
    if s.tasks[q].Prewarm? {
      PrewarmStarts(s, q);
      after := After(s, [step, step]);
    } else {
      var s1 := Apply(s, step);
      assert forall w <- s1.tasks :: !s1.tasks[w].Waiting?;
      var s2 := Apply(s1, step);
      assert s2.tasks[q].Gating?;
      after := Apply(s2, step);
      Prepend(s2, step, []);
      assert [step] + [] == [step];
      Prepend(s1, step, [step]);
      assert [step] + [step] == [step, step];
      Prepend(s, step, [step, step]);
      assert [step] + [step, step] == [step, step, step];
    }
  }

  // ---- the debounce ----

  predicate Forced(t: Task) { (t.Start? || t.Counted? || t.Waiting? || t.Gating?) && t.force }

  ghost predicate NoForce(s: State) { forall t <- s.tasks :: !Forced(s.tasks[t]) }

  ghost predicate CountsFrom2To(t: Task, n: nat) {
    t.Counted? || t.Waiting? || t.Gating? || InFlight(t) ==> THRESHOLD <= |t.seen| <= n
  }

  /** Each count recorded is larger than the one before by three or more. */
  ghost predicate Growing(records: seq<set<nat>>) {
    forall i :: 0 < i < |records| ==> |records[i]| >= |records[i - 1]| + MIN_NEW
  }

  ghost predicate DebounceOk(s: State, n: nat) {
    && LockOk(s) && NoPrewarm(s) && NoForce(s) && |s.memories| <= n
    && s.last == (if s.records == [] then 0 else |s.records[|s.records| - 1]|)
    && Growing(s.records)
    && (forall i :: 0 <= i < |s.records| ==> THRESHOLD <= |s.records[i]| <= n)
    && (forall t <- s.tasks :: CountsFrom2To(s.tasks[t], n))
    && (forall t <- s.tasks :: NeedsLock(s.tasks[t]) ==> s.last == 0 || |s.tasks[t].seen| >= s.last + MIN_NEW)
  }

  /** The namespace never has more than `n` memories. */
  ghost predicate StaysWithin(s: State, run: seq<Event>, n: nat)
    requires Possible(s, run)
    decreases |run|
  {
    |s.memories| <= n && (run == [] || StaysWithin(Apply(s, run[0]), run[1..], n))
  }

  lemma ForceIsOwn(s: State, e: Event)
    requires (e.Advance? || e.Fail?) && Enabled(s, e)
    ensures var a := Apply(s, e);
      a.tasks == s.tasks[e.id := a.tasks[e.id]] && (Forced(a.tasks[e.id]) ==> Forced(s.tasks[e.id]))
  {}

  lemma StepKeepsNoForce(s: State, e: Event)
    requires NoForce(s) && Enabled(s, e)
    ensures NoForce(Apply(s, e))
  {
    if e.Advance? || e.Fail? { ForceIsOwn(s, e); }
  }

  lemma StepKeepsRecords(s: State, e: Event, n: nat)
    requires DebounceOk(s, n) && Enabled(s, e)
    ensures var a := Apply(s, e);
      && a.last == (if a.records == [] then 0 else |a.records[|a.records| - 1]|)
      && Growing(a.records)
      && (forall i :: 0 <= i < |a.records| ==> THRESHOLD <= |a.records[i]| <= n)
    ensures Apply(s, e).last != s.last || Apply(s, e).records != s.records ==> e.Advance? && NeedsLock(s.tasks[e.id])
  {
    if e.Advance? { assert CountsFrom2To(s.tasks[e.id], n); }
  }

  lemma StepKeepsCounts(s: State, e: Event, n: nat)
    requires DebounceOk(s, n) && Enabled(s, e)
    ensures var a := Apply(s, e); forall t <- a.tasks :: CountsFrom2To(a.tasks[t], n)
  {
    if e.Advance? { assert CountsFrom2To(s.tasks[e.id], n); }
  }

  lemma StepKeepsHeadroom(s: State, e: Event, n: nat)
    requires DebounceOk(s, n) && Enabled(s, e)
    ensures var a := Apply(s, e);
      forall t <- a.tasks :: NeedsLock(a.tasks[t]) ==> a.last == 0 || |a.tasks[t].seen| >= a.last + MIN_NEW
  {
    StepKeepsLock(s, e);
    StepKeepsRecords(s, e, n);
    var a := Apply(s, e);
    if e.Advance? {
      forall t <- a.tasks | NeedsLock(a.tasks[t]) ensures a.last == 0 || |a.tasks[t].seen| >= a.last + MIN_NEW {
        assert a.holder == Some(t);
      }
    }
  }

  lemma StepKeepsDebounce(s: State, e: Event, n: nat)
    requires DebounceOk(s, n) && Enabled(s, e) && |Apply(s, e).memories| <= n
    ensures DebounceOk(Apply(s, e), n)
  {
    StepKeepsLock(s, e);
    StepKeepsNoForce(s, e);
    StepKeepsRecords(s, e, n);
    StepKeepsCounts(s, e, n);
    StepKeepsHeadroom(s, e, n);
  }

  lemma {:induction false} RunKeepsDebounce(s: State, run: seq<Event>, n: nat)
    requires DebounceOk(s, n) && Possible(s, run) && StaysWithin(s, run, n)
    ensures DebounceOk(After(s, run), n)
    decreases |run|
  {
    if run != [] {
      StepKeepsDebounce(s, run[0], n);
      RunKeepsDebounce(Apply(s, run[0]), run[1..], n);
    }
  }

  lemma {:induction false} GrowthBounds(records: seq<set<nat>>, k: nat)
    requires Growing(records) && k < |records| && |records[0]| >= THRESHOLD
    ensures |records[k]| >= THRESHOLD + MIN_NEW * k
  {
    if k > 0 { GrowthBounds(records, k - 1); }
  }

  /**
   Without force and prewarming, in every interleaving the recorded count grows by at least 3 after its first value, so a
   namespace that never has more than n memories has at most 1 + (n - 2) / 3 counts recorded.
   */
  lemma RecordsAreFew(s: State, run: seq<Event>, n: nat)
    requires Initial(s) && NoPrewarm(s) && NoForce(s) && Possible(s, run) && StaysWithin(s, run, n)
    ensures Growing(After(s, run).records)
    ensures |After(s, run).records| > 0 ==> n >= 2 && |After(s, run).records| <= 1 + (n - 2) / 3
  {
    RunKeepsDebounce(s, run, n);
    var records := After(s, run).records;
    if records != [] { GrowthBounds(records, |records| - 1); }
  }

  // ---- that summaries are made ----

  /** The debounce lets a task through exactly when it is forced, nothing was recorded yet, or three memories are new. */
  lemma DebounceIff(s: State, id: nat, force: bool, trigger: bool, seen: set<nat>)
    requires id in s.tasks
    ensures var t := Enter(s, id, force, trigger, seen).tasks[id];
      && (t.Gating? <==> force || s.last == 0 || |seen| >= s.last + 3)
      && (t.Gating? ==> t.seen == seen && Enter(s, id, force, trigger, seen).holder == Some(id))
      && (!t.Gating? ==> t.Done?)
  {}

  /** Nobody has the lock or waits for it. */
  ghost predicate LockFree(s: State) { s.holder.None? && forall t <- s.tasks :: !s.tasks[t].Waiting? }

  /** The steps of a generation, from its start to its record, when all of them succeed. */
  function Successes(id: nat, t: Task): seq<Event> {
    match t
    case Generating(_, _) => [Advance(id, true)] + ([Advance(id, true)] + ([Advance(id, true)] + []))
    case Upserting(_, _) => [Advance(id, true)] + ([Advance(id, true)] + [])
    case _ => []
  }

  lemma GenerationRecords(s: State, id: nat, seen: set<nat>, locked: bool)
    requires id in s.tasks && s.tasks[id] == Summarize(seen, locked)
    ensures var run := Successes(id, s.tasks[id]);
      && Possible(s, run)
      && var a := After(s, run);
      && a.records == s.records + [seen] && a.last == |seen| && a.tasks == s.tasks[id := Done]
      && a.tier == (if s.tier.L31? then L31 else L3)
      && a.holder == (if s.holder == Some(id) then None else s.holder)
  {
    var step := Advance(id, true);
    var s1 := if s.tasks[id].Generating? then Apply(s, step) else s;
    assert s1.tasks[id] == Upserting(seen, locked);
    var s2 := Apply(s1, step);
    assert s2.tasks[id] == Upserted(seen, locked);
    Prepend(s2, step, []);
    Prepend(s1, step, [step] + []);
    if s.tasks[id].Generating? { Prepend(s, step, [step] + ([step] + [])); }
  }

  /**
   An undisturbed writer makes the summary: with two memories or more, none recorded or three new ones, it counts them,
   generates, and leaves a record of just them, a tier of L3 or L3.1, and the lock free.
   */
  lemma LoneWriterRecords(s: State, id: nat, trigger: bool) returns (run: seq<Event>)
    requires id in s.tasks && s.tasks[id] == Start(false, trigger) && LockFree(s)
    requires |s.memories| >= 2 && (s.last == 0 || |s.memories| >= s.last + 3)
    ensures Possible(s, run)
    ensures var a := After(s, run);
      && a.records == s.records + [s.memories] && a.last == |s.memories| && a.tasks == s.tasks[id := Done]
      && a.tier == (if s.tier.L31? then L31 else L3) && a.holder.None?
  {
    var step := Advance(id, true);
    var s1 := Apply(s, step);
    assert s1.tasks[id] == Counted(false, trigger, s.memories);
    assert forall w <- s1.tasks :: !s1.tasks[w].Waiting?;
    var s2 := Apply(s1, step);
    DebounceIff(s1, id, false, trigger, s.memories);
    var s3 := Apply(s2, step);
    assert s3.tasks[id] == Summarize(s.memories, true);
    GenerationRecords(s3, id, s.memories, true);
    var rest := Successes(id, s3.tasks[id]);
    assert After(s3, rest).tasks == s.tasks[id := Done];
    Prepend(s2, step, rest);
    Prepend(s1, step, [step] + rest);
    Prepend(s, step, [step] + ([step] + rest));
    run := [step] + ([step] + ([step] + rest));
  }

  /** One memory makes no summary, nor does a writer whose count is less than three ahead of the record. */
  lemma TooFewMakeNone(s: State, id: nat, trigger: bool, yes: bool)
    requires id in s.tasks && s.tasks[id] == Start(false, trigger) && LockFree(s)
    requires |s.memories| < 2 || (0 < s.last && |s.memories| < s.last + 3)
    ensures var s1 := Apply(s, Advance(id, yes));
      if |s.memories| < 2 then s1 == s.(tasks := s.tasks[id := Done])
      else Apply(s1, Advance(id, yes)) == s.(tasks := s.tasks[id := Done])
  {
    var s1 := Apply(s, Advance(id, yes));
    if |s.memories| >= 2 {
      assert forall w <- s1.tasks :: !s1.tasks[w].Waiting?;
      assert Apply(s1, Advance(id, yes)).tasks == s.tasks[id := Done];
    }
  }

  /** A memory that is nothing new is recorded without a summary, unless the run is forced or about no memory. */
  lemma GateIff(s: State, id: nat, yes: bool)
    requires id in s.tasks && s.tasks[id].Gating?
    ensures var t, a := s.tasks[id], Apply(s, Advance(id, yes));
      if yes || t.force || !t.trigger then a == s.(tasks := s.tasks[id := Summarize(t.seen, true)])
      else a.tasks[id].Done? && a.records == s.records + [t.seen] && a.last == |t.seen| && a.tier == s.tier
  {}

  /** Five memories are enough for the language model. */
  lemma ModelIsForFive(seen: set<nat>, locked: bool)
    ensures Summarize(seen, locked).Generating? <==> |seen| >= 5
  {}

  /** A stale prewarm over two memories or more makes its summary, whoever has the lock. */
  lemma PrewarmRecords(s: State, id: nat) returns (run: seq<Event>)
    requires id in s.tasks && s.tasks[id].Prewarm? && |s.memories| >= 2 && s.holder != Some(id)
    ensures Possible(s, run)
    ensures var a := After(s, run); a.records == s.records + [s.memories] && a.tasks == s.tasks[id := Done] && a.holder == s.holder
  {
    var step := Advance(id, true);
    var s1 := Apply(s, step);
    var s2 := Apply(s1, step);
    assert s2.tasks[id] == Summarize(s.memories, false);
    GenerationRecords(s2, id, s.memories, false);
    var rest := Successes(id, s2.tasks[id]);
    assert After(s2, rest).tasks == s.tasks[id := Done];
    Prepend(s1, step, rest);
    Prepend(s, step, [step] + rest);
    run := [step] + ([step] + rest);
  }

  /** What the others do: memories come and go, a synthesis wins over any summary, another user's summary not over one. */
  lemma EnvironmentActs(s: State, some: set<nat>)
    ensures forall m :: m in Apply(s, Commit(some)).memories <==> m in s.memories || m in some
    ensures forall m :: m in Apply(s, Retire(some)).memories <==> m in s.memories && m !in some
    ensures Apply(s, Synthesize) == s.(tier := L31)
    ensures Apply(s, OtherUser) == if s.tier.L31? then s else s.(tier := L3)
  {}

  /** A fresh summary, or a failure, ends a task without a record. */
  lemma FailureRecordsNothing(s: State, id: nat)
    requires Enabled(s, Fail(id))
    ensures var a := Apply(s, Fail(id)); a.tasks[id].Done? && a.records == s.records && a.last == s.last && a.tier == s.tier
    ensures s.tasks[id].Prewarm? ==> Apply(s, Advance(id, false)) == s.(tasks := s.tasks[id := Done])
  {}

  // ---- the tier ----

  /** No run takes a policy from L3.1 back to L3, prewarming, forced runs and other users included. */
  lemma {:induction false} SynthesisStays(s: State, run: seq<Event>)
    requires Possible(s, run) && s.tier == L31
    ensures After(s, run).tier == L31
    decreases |run|
  {
    if run != [] { SynthesisStays(Apply(s, run[0]), run[1..]); }
  }

  // ---- limits ----

  /** What a task has counted, once it has: it does not count again. */
  predicate HasSeen(t: Task, seen: set<nat>) {
    t.Done? || ((t.Counted? || t.Waiting? || t.Gating? || InFlight(t)) && t.seen == seen)
  }

  lemma {:induction false} CountStays(s: State, run: seq<Event>, id: nat, seen: set<nat>)
    requires Possible(s, run) && id in s.tasks && HasSeen(s.tasks[id], seen)
    ensures id in After(s, run).tasks && HasSeen(After(s, run).tasks[id], seen)
    decreases |run|
  {
    if run != [] { CountStays(Apply(s, run[0]), run[1..], id, seen); }
  }

  lemma {:induction false} DoneStays(s: State, run: seq<Event>, id: nat)
    requires Possible(s, run) && id in s.tasks && s.tasks[id].Done?
    ensures id in After(s, run).tasks && After(s, run).tasks[id].Done?
    decreases |run|
  {
    if run != [] { DoneStays(Apply(s, run[0]), run[1..], id); }
  }

  /** Where the holder of the lock counts, where a writer finds the lock held, and where the holder records. */
  ghost predicate SkippedIn(s: State, h: nat, between: seq<Event>, w: nat, later: seq<Event>) {
    && Enabled(s, Advance(h, true)) && s.tasks[h].Start?
    && var counted := Apply(s, Advance(h, true));
    && Possible(counted, between)
    && var found := After(counted, between);
    && found.holder == Some(h) && w in found.tasks && found.tasks[w].Counted? && !found.tasks[w].force
    && var left := Apply(found, Advance(w, true));
    && Possible(left, later)
    && h in After(left, later).tasks && After(left, later).tasks[h].Upserted?
  }

  /**
   A writer that finds the lock held leaves its memories to the holder. In every interleaving it is done without a record
   of its own, and what the holder records covers a memory if and only if it was there when the holder counted.
   */
  lemma SkippedWriterIsCoveredIff(s: State, h: nat, between: seq<Event>, w: nat, later: seq<Event>)
    requires SkippedIn(s, h, between, w, later)
    ensures var found := After(Apply(s, Advance(h, true)), between); var left := Apply(found, Advance(w, true));
      var before := After(left, later); var after := Apply(before, Advance(h, true));
      && left == found.(tasks := found.tasks[w := Done]) && w in before.tasks && before.tasks[w].Done?
      && after.records == before.records + [s.memories]
      && (found.tasks[w].seen <= after.records[|before.records|] <==> found.tasks[w].seen <= s.memories)
  {
    var counted := Apply(s, Advance(h, true));
    CountStays(counted, between, h, s.memories);
    var left := Apply(After(counted, between), Advance(w, true));
    CountStays(left, later, h, s.memories);
    DoneStays(left, later, w);
  }

  /** All tasks are done, and the memories that the last record does not cover are enough for another run. */
  ghost predicate LeftBehind(s: State) {
    && (forall t <- s.tasks :: s.tasks[t].Done?)
    && s.records != [] && |s.memories - s.records[|s.records| - 1]| >= MIN_NEW && |s.memories| - s.last >= MIN_NEW
  }

  /**
   And then they stay without a summary when no further writer comes, although the debounce would let one through: here
   two memories were there when the holder counted and three came before the writer did.
   */
  lemma SkippedWriterIsLost(s: State)
    requires Initial(s) && s.memories == {0, 1} && s.tasks == map[0 := Start(false, false), 1 := Start(false, false)]
    ensures exists run :: Possible(s, run) && LeftBehind(After(s, run))
  {
    var s1 := Apply(s, Advance(0, true));
    assert |s.memories| == 2 && s1.tasks == map[0 := Counted(false, false, {0, 1}), 1 := Start(false, false)];
    var s2 := Apply(s1, Advance(0, true));
    assert s2.tasks == map[0 := Gating(false, false, {0, 1}), 1 := Start(false, false)];
    var s3 := Apply(s2, Advance(0, true));
    assert s3.tasks == map[0 := Upserting({0, 1}, true), 1 := Start(false, false)];
    SkippedWhileHeld(s3);
    var tail := [Commit({2, 3, 4})] + TAIL;
    Prepend(s2, Advance(0, true), tail);
    Prepend(s1, Advance(0, true), [Advance(0, true)] + tail);
    Prepend(s, Advance(0, true), [Advance(0, true)] + ([Advance(0, true)] + tail));
  }

  const TAIL: seq<Event> :=
    [Advance(1, true)] + ([Advance(1, true)] + ([Advance(0, true)] + ([Advance(0, true)] + [])))

  lemma SkippedWhileHeld(s: State)
    requires s.last == 0 && s.records == [] && s.holder == Some(0) && s.memories == {0, 1}
    requires s.tasks == map[0 := Upserting({0, 1}, true), 1 := Start(false, false)]
    ensures Possible(s, [Commit({2, 3, 4})] + TAIL) && LeftBehind(After(s, [Commit({2, 3, 4})] + TAIL))
  {
    var s4 := Apply(s, Commit({2, 3, 4}));
    assert s4.memories == {0, 1, 2, 3, 4};
    var s5 := Apply(s4, Advance(1, true));
    assert |s4.memories| == 5 && s5.tasks == map[0 := Upserting({0, 1}, true), 1 := Counted(false, false, s4.memories)];
    var s6 := Apply(s5, Advance(1, true));
    assert s6.tasks == map[0 := Upserting({0, 1}, true), 1 := Done];
    HolderEnds(s6);
    var last := [Advance(0, true)] + ([Advance(0, true)] + []);
    Prepend(s5, Advance(1, true), last);
    Prepend(s4, Advance(1, true), [Advance(1, true)] + last);
    Prepend(s, Commit({2, 3, 4}), TAIL);
  }

  lemma ThreeAreMissing()
    ensures var all: set<nat> := {0, 1, 2, 3, 4}; all - {0, 1} == {2, 3, 4} && |all| == 5 && |all - {0, 1}| == 3
  {
    var all: set<nat> := {0, 1, 2, 3, 4};
    assert all - {0, 1} == {2, 3, 4};
  }

  lemma HolderEnds(s: State)
    requires s.records == [] && s.holder == Some(0) && s.memories == {0, 1, 2, 3, 4}
    requires s.tasks == map[0 := Upserting({0, 1}, true), 1 := Done]
    ensures var run := [Advance(0, true)] + ([Advance(0, true)] + []); Possible(s, run) && LeftBehind(After(s, run))
  {
    var s1 := Apply(s, Advance(0, true));
    assert s1.tasks == map[0 := Upserted({0, 1}, true), 1 := Done];
    var s2 := Apply(s1, Advance(0, true));
    assert s2.tasks == map[0 := Done, 1 := Done] && s2.records == [{0, 1}];
    assert |{0, 1}| == 2;
    ThreeAreMissing();
    Prepend(s1, Advance(0, true), []);
    Prepend(s, Advance(0, true), [Advance(0, true)] + []);
  }

  lemma Prepend(s: State, e: Event, run: seq<Event>)
    requires Enabled(s, e) && Possible(Apply(s, e), run)
    ensures Possible(s, [e] + run) && After(s, [e] + run) == After(Apply(s, e), run)
  {
    assert ([e] + run)[1..] == run;
  }

  lemma {:induction false} Concat(s: State, a: seq<Event>, b: seq<Event>)
    requires Possible(s, a) && Possible(After(s, a), b)
    ensures Possible(s, a + b) && After(s, a + b) == After(After(s, a), b)
    decreases |a|
  {
    if a == [] {
      assert a + b == b;
    } else {
      assert (a + b)[1..] == a[1..] + b;
      Concat(Apply(s, a[0]), a[1..], b);
    }
  }
}
