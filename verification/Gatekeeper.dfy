/**
 The rule engine (backend/services/gatekeeper_service.py:330-445, 577-627) and the batched filter of the namespace list
 that is meant to agree with it (backend/services/memory_service.py:1142-1177).

 Glob matching is a parameter. Rules come active and in order of priority.
 */
module Gatekeeper {
  import opened Text

  datatype Action = Allow | Deny | Jit | Other(name: string)

  datatype Window = Window(startHour: int, endHour: int)

  datatype Rule = Rule(
    id: nat, agent: Option<string>, scope: string, namespaceFilter: Option<string>, window: Option<Window>, action: Action)

  datatype Request = Request(agent: string, scope: string, namespace: Option<string>, resource: Option<string>)

  type Glob = (string, string) -> bool

  predicate IsPrefix(p: string, s: string) { p <= s }

  predicate MatchesAgent(r: Rule, agent: string) { r.agent.None? || r.agent.value == agent }

  predicate MatchesScope(r: Rule, scope: string) {
    || r.scope == scope
    || r.scope == "admin:*"
    || (|r.scope| >= 2 && r.scope[|r.scope| - 2..] == ":*" && IsPrefix(r.scope[..|r.scope| - 1], scope))
  }

  predicate MatchesNamespace(r: Rule, namespace: Option<string>, glob: Glob) {
    || r.namespaceFilter.None? || r.namespaceFilter.value == ""
    || namespace.None? || namespace.value == ""
    || glob(namespace.value, r.namespaceFilter.value)
  }

  predicate MatchesConditions(r: Rule, hour: int) {
    r.window.None? || r.window.value.startHour <= hour < r.window.value.endHour
  }

  /** Who, what and where: all that the batch looks at. */
  predicate Concerns(r: Rule, q: Request, glob: Glob) {
    MatchesAgent(r, q.agent) && MatchesScope(r, q.scope) && MatchesNamespace(r, q.namespace, glob)
  }

  /** The engine skips a rule outside its hours, and one with an action it does not know. */
  predicate Decides(r: Rule, q: Request, hour: int, glob: Glob) {
    Concerns(r, q, glob) && MatchesConditions(r, hour) && !r.action.Other?
  }

  predicate IsBearer(agent: string) { agent == "" || agent == "None" || agent == "none" }

  datatype Outcome = Allowed | Denied | JitPending

  datatype Decision = Decision(outcome: Outcome, rule: Option<nat>)

  datatype Consent = Consent(agent: string, scope: string, resource: Option<string>, rule: nat)

  /** What a consent is asked for: an empty resource counts as none. */
  function Asked(q: Request): Option<string> {
    if q.resource.None? || q.resource.value == "" then q.namespace else q.resource
  }

  /** `i` is the first rule that decides. */
  ghost predicate IsFirst(rules: seq<Rule>, i: int, q: Request, hour: int, glob: Glob) {
    0 <= i < |rules| && Decides(rules[i], q, hour, glob) && forall j :: 0 <= j < i ==> !Decides(rules[j], q, hour, glob)
  }

  ghost predicate Permits(rules: seq<Rule>, q: Request, hour: int, glob: Glob) {
    IsBearer(q.agent) || exists i :: IsFirst(rules, i, q, hour, glob) && rules[i].action.Allow?
  }

  lemma FirstIsOne(rules: seq<Rule>, i: int, j: int, q: Request, hour: int, glob: Glob)
    requires IsFirst(rules, i, q, hour, glob) && IsFirst(rules, j, q, hour, glob)
    ensures i == j
  {}

  class Engine {
    const glob: Glob
    var granted: nat              // the agents' statistics
    var refused: nat
    var consents: seq<Consent>

    constructor (glob: Glob)
      ensures granted == refused == 0 && consents == [] && this.glob == glob
    {
      this.glob, granted, refused, consents := glob, 0, 0, [];
    }

    method Evaluate(rules: seq<Rule>, q: Request, hour: int) returns (d: Decision)
      modifies this
      ensures d.outcome.Allowed? <==> Permits(rules, q, hour, glob)
      ensures d.outcome.JitPending? <==>
                !IsBearer(q.agent) && exists i :: IsFirst(rules, i, q, hour, glob) && rules[i].action.Jit?
      ensures d.rule.Some? ==> exists i :: IsFirst(rules, i, q, hour, glob) && rules[i].id == d.rule.value
      ensures consents == old(consents) +
                (if d.outcome.JitPending? && d.rule.Some? then
                   [Consent(q.agent, q.scope, if q.resource.None? || q.resource.value == "" then q.namespace else q.resource,
                          d.rule.value)]
                 else [])
      ensures d.outcome.JitPending? ==> d.rule.Some?
      ensures granted == old(granted) + (if d.outcome.Allowed? && !IsBearer(q.agent) then 1 else 0)
      ensures refused == old(refused) + (if d.outcome.Denied? then 1 else 0)
    {
      if IsBearer(q.agent) { return Decision(Allowed, None); }
      var i := 0;
      while i < |rules|
        invariant 0 <= i <= |rules|
        invariant forall j :: 0 <= j < i ==> !Decides(rules[j], q, hour, glob)
        invariant consents == old(consents) && granted == old(granted) && refused == old(refused)
      {
        var rule := rules[i];
        if MatchesAgent(rule, q.agent) && MatchesScope(rule, q.scope) && MatchesNamespace(rule, q.namespace, glob)
           && MatchesConditions(rule, hour) && !rule.action.Other? {
          assert IsFirst(rules, i, q, hour, glob);
          forall k | IsFirst(rules, k, q, hour, glob) ensures k == i { FirstIsOne(rules, i, k, q, hour, glob); }
          match rule.action
          case Allow =>
            granted := granted + 1;
            return Decision(Allowed, Some(rule.id));
          case Deny =>
            refused := refused + 1;
            return Decision(Denied, Some(rule.id));
          case Jit =>
            consents := consents + [Consent(q.agent, q.scope, Asked(q), rule.id)];
            return Decision(JitPending, Some(rule.id));
        }
        i := i + 1;
      }
      refused := refused + 1;
      d := Decision(Denied, None);
    }
  }

  // ---- what the rules match ----

  /** A scope matches itself, "admin:*" everything, and a scope that ends in ":*" what continues its part up to the colon. */
  lemma ScopeMatchesIff(r: Rule, scope: string)
    ensures MatchesScope(r, scope) <==>
            || r.scope == scope || r.scope == "admin:*"
            || exists area, rest :: r.scope == area + ":*" && scope == area + ":" + rest
  {
    var n := |r.scope|;
    if n >= 2 && r.scope[n - 2..] == ":*" && r.scope[..n - 1] <= scope {
      var area, rest := r.scope[..n - 2], scope[n - 1..];
      assert r.scope == area + ":*";
      assert r.scope[..n - 1] == area + ":";
      assert scope == area + ":" + rest;
    }
    if area, rest :| r.scope == area + ":*" && scope == area + ":" + rest {
      assert n == |area| + 2 && r.scope[n - 2..] == ":*";
      assert r.scope[..n - 1] == area + ":" == scope[..n - 1];
    }
  }

  /** A rule concerns the agent it names, or all; and in its namespaces, or where neither side says which. */
  lemma ConcernsIff(r: Rule, q: Request, glob: Glob)
    requires MatchesScope(r, q.scope)
    ensures r.agent.Some? && r.agent.value != q.agent ==> !Concerns(r, q, glob)
    ensures (r.agent == None || r.agent == Some(q.agent)) ==>
              (Concerns(r, q, glob) <==>
                 r.namespaceFilter in [None, Some("")] || q.namespace in [None, Some("")]
                 || glob(q.namespace.value, r.namespaceFilter.value))
  {}

  /** A rule for every agent, scope, namespace and hour in front of the others decides everything but for bearers. */
  lemma CatchAllDecides(r: Rule, rest: seq<Rule>, q: Request, hour: int, glob: Glob)
    requires !IsBearer(q.agent) && r.agent.None? && r.scope == "admin:*" && r.namespaceFilter.None? && r.window.None?
    requires !r.action.Other?
    ensures Permits([r] + rest, q, hour, glob) <==> r.action.Allow?
  {
    assert IsFirst([r] + rest, 0, q, hour, glob);
    if i :| IsFirst([r] + rest, i, q, hour, glob) { FirstIsOne([r] + rest, i, 0, q, hour, glob); }
  }

  /** A rule that is the only one decides from its first hour up to its last, which is not its own. */
  lemma DecidesWithinItsHours(r: Rule, from: int, to: int, q: Request, hour: int, glob: Glob)
    requires !IsBearer(q.agent) && r.window == Some(Window(from, to)) && Concerns(r, q, glob) && r.action.Allow?
    ensures Permits([r], q, hour, glob) <==> from <= hour <= to - 1
  {
    if from <= hour <= to - 1 { assert IsFirst([r], 0, q, hour, glob); }
  }

  /** Callers without an agent are let through: no name, or "none" in the two spellings the service knows. */
  lemma BearersArePermitted(rules: seq<Rule>, q: Request, hour: int, glob: Glob)
    requires q.agent in ["", "None", "none"]
    ensures Permits(rules, q, hour, glob)
  {}

  lemma NoRuleMeansNo(q: Request, hour: int, glob: Glob)
    requires q.agent !in ["", "None", "none"]
    ensures !Permits([], q, hour, glob)
  {}

  // ---- the batched filter ----

  /** A registered agent, whose id is a UUID. */
  type AgentId = a: string | !IsBearer(a) witness "agent"

  /** `str(agent_id)`: how a caller appears to the engine; a bearer has no agent. */
  function Named(agent: Option<AgentId>): string { match agent case Some(a) => a case None => "None" }

  function ReadRequest(agent: string, namespace: string): Request { Request(agent, "memory:read", Some(namespace), None) }

  ghost predicate IsFirstConcerned(rules: seq<Rule>, i: int, q: Request, glob: Glob) {
    0 <= i < |rules| && Concerns(rules[i], q, glob) && forall j :: 0 <= j < i ==> !Concerns(rules[j], q, glob)
  }

  ghost predicate BatchPermits(rules: seq<Rule>, q: Request, glob: Glob) {
    exists i :: IsFirstConcerned(rules, i, q, glob) && rules[i].action.Allow?
  }

  function ForAgent(rules: seq<Rule>, agent: string, scope: string): seq<Rule> {
    if rules == [] then []
    else
      var front := ForAgent(rules[..|rules| - 1], agent, scope);
      var r := rules[|rules| - 1];
      if MatchesAgent(r, agent) && MatchesScope(r, scope) then front + [r] else front
  }

  /** The rules in front of the last one decide first. */
  lemma BatchOfFront(rules: seq<Rule>, r: Rule, q: Request, glob: Glob)
    ensures BatchPermits(rules + [r], q, glob) <==>
            if exists j :: 0 <= j < |rules| && Concerns(rules[j], q, glob) then BatchPermits(rules, q, glob)
            else Concerns(r, q, glob) && r.action.Allow?
  {
    var all := rules + [r];
    if BatchPermits(all, q, glob) {
      var i :| IsFirstConcerned(all, i, q, glob) && all[i].action.Allow?;
      forall j | 0 <= j < |rules| ensures all[j] == rules[j] {}
      if i < |rules| {
        forall j | 0 <= j < i ensures !Concerns(rules[j], q, glob) { assert !Concerns(all[j], q, glob); }
        assert IsFirstConcerned(rules, i, q, glob);
      } else {
        forall j | 0 <= j < |rules| ensures !Concerns(rules[j], q, glob) { assert !Concerns(all[j], q, glob); }
      }
    }
    if BatchPermits(rules, q, glob) {
      var i :| IsFirstConcerned(rules, i, q, glob) && rules[i].action.Allow?;
      assert IsFirstConcerned(all, i, q, glob);
    }
    if Concerns(r, q, glob) && r.action.Allow? && forall j :: 0 <= j < |rules| ==> !Concerns(rules[j], q, glob) {
      assert IsFirstConcerned(all, |rules|, q, glob);
    }
  }

  /** Picking the rules for the agent and the scope beforehand changes nothing. */
  lemma {:induction false} PrefilterIsNeutral(rules: seq<Rule>, q: Request, glob: Glob)
    ensures BatchPermits(ForAgent(rules, q.agent, q.scope), q, glob) <==> BatchPermits(rules, q, glob)
    ensures (exists j :: 0 <= j < |ForAgent(rules, q.agent, q.scope)| && Concerns(ForAgent(rules, q.agent, q.scope)[j], q, glob))
       <==> (exists j :: 0 <= j < |rules| && Concerns(rules[j], q, glob))
  {
    if rules != [] {
      var front, r := rules[..|rules| - 1], rules[|rules| - 1];
      assert rules == front + [r];
      PrefilterIsNeutral(front, q, glob);
      BatchOfFront(front, r, q, glob);
      BatchOfFront(ForAgent(front, q.agent, q.scope), r, q, glob);
      ConcernedInFront(front, r, q, glob);
      ConcernedInFront(ForAgent(front, q.agent, q.scope), r, q, glob);
    }
  }

  lemma ConcernedInFront(rules: seq<Rule>, r: Rule, q: Request, glob: Glob)
    ensures (exists j :: 0 <= j < |rules + [r]| && Concerns((rules + [r])[j], q, glob))
       <==> (exists j :: 0 <= j < |rules| && Concerns(rules[j], q, glob)) || Concerns(r, q, glob)
  {
    var all := rules + [r];
    assert all[|rules|] == r;
    if j :| 0 <= j < |rules| && Concerns(rules[j], q, glob) { assert Concerns(all[j], q, glob); }
  }

  /** The namespaces that a predicate keeps, in order. */
  ghost function Kept(namespaces: seq<string>, keep: string -> bool): seq<string> {
    if namespaces == [] then []
    else
      Kept(namespaces[..|namespaces| - 1], keep)
      + (if keep(namespaces[|namespaces| - 1]) then [namespaces[|namespaces| - 1]] else [])
  }

  /** What the list keeps: for a caller without an agent, for an administrator and without a gatekeeper, everything. */
  ghost predicate Lists(rules: seq<Rule>, agent: Option<AgentId>, everything: bool, namespace: string, glob: Glob) {
    everything || agent.None? || BatchPermits(rules, ReadRequest(agent.value, namespace), glob)
  }

  method ListNamespaces(
    namespaces: seq<string>, rules: seq<Rule>, agent: Option<AgentId>, adminView: bool, skipGatekeeper: bool, glob: Glob)
    returns (filtered: seq<string>)
    ensures filtered == Kept(namespaces, (ns: string) => Lists(rules, agent, adminView || skipGatekeeper, ns, glob))
  {
    ghost var keep := (ns: string) => Lists(rules, agent, adminView || skipGatekeeper, ns, glob);
    if agent.Some? && !adminView && !skipGatekeeper {
      filtered := FilterNamespaces(namespaces, rules, agent.value, glob);
      SameKept(namespaces, keep, (ns: string) => BatchPermits(rules, ReadRequest(agent.value, ns), glob));
    } else {
      filtered := namespaces;
      AllKept(namespaces, keep);
    }
  }

  lemma {:induction false} SameKept(namespaces: seq<string>, keep: string -> bool, other: string -> bool)
    requires forall ns :: keep(ns) == other(ns)
    ensures Kept(namespaces, keep) == Kept(namespaces, other)
  {
    if namespaces != [] { SameKept(namespaces[..|namespaces| - 1], keep, other); }
  }

  lemma {:induction false} AllKept(namespaces: seq<string>, keep: string -> bool)
    requires forall ns :: keep(ns)
    ensures Kept(namespaces, keep) == namespaces
  {
    if namespaces != [] { AllKept(namespaces[..|namespaces| - 1], keep); }
  }

  method FilterNamespaces(namespaces: seq<string>, rules: seq<Rule>, agent: AgentId, glob: Glob)
    returns (filtered: seq<string>)
    ensures filtered == Kept(namespaces, (ns: string) => BatchPermits(rules, ReadRequest(agent, ns), glob))
  {
    var agentScopeRules := [];
    for i := 0 to |rules|
      invariant agentScopeRules == ForAgent(rules[..i], agent, "memory:read")
      invariant forall r <- agentScopeRules :: MatchesAgent(r, agent) && MatchesScope(r, "memory:read")
    {
      assert rules[..i + 1] == rules[..i] + [rules[i]];
      if MatchesAgent(rules[i], agent) && MatchesScope(rules[i], "memory:read") {
        agentScopeRules := agentScopeRules + [rules[i]];
      }
    }
    assert rules[..|rules|] == rules;
    filtered := [];
    ghost var keep := (ns: string) => BatchPermits(rules, ReadRequest(agent, ns), glob);
    for n := 0 to |namespaces|
      invariant filtered == Kept(namespaces[..n], keep)
    {
      assert namespaces[..n + 1] == namespaces[..n] + [namespaces[n]];
      var allowed := FirstMatchAllows(agentScopeRules, agent, namespaces[n], glob);
      PrefilterIsNeutral(rules, ReadRequest(agent, namespaces[n]), glob);
      if allowed { filtered := filtered + [namespaces[n]]; }
    }
    assert namespaces[..|namespaces|] == namespaces;
  }

  /** `_allowed`, over rules that all concern the agent and the scope. */
  method FirstMatchAllows(rules: seq<Rule>, agent: string, namespace: string, glob: Glob) returns (allowed: bool)
    requires forall r <- rules :: MatchesAgent(r, agent) && MatchesScope(r, "memory:read")
    ensures allowed <==> BatchPermits(rules, ReadRequest(agent, namespace), glob)
  {
    ghost var q := ReadRequest(agent, namespace);
    for i := 0 to |rules|
      invariant forall j :: 0 <= j < i ==> !Concerns(rules[j], q, glob)
    {
      assert rules[i] in rules;
      if MatchesNamespace(rules[i], Some(namespace), glob) {
        assert IsFirstConcerned(rules, i, q, glob);
        return rules[i].action.Allow?;
      }
    }
    allowed := false;
  }

  // ---- when they agree ----

  predicate Blocks(r: Rule) { r.action.Deny? || r.action.Jit? }

  predicate IsHour(hour: int) { 0 <= hour < 24 }

  ghost function AllHours(): set<int> { set hour | 0 <= hour < 24 && IsHour(hour) }

  /** The hours in which one of the first `n` rules that concern the request and allow (or block) it is open. */
  ghost function HoursOf(rules: seq<Rule>, n: int, allow: bool, q: Request, glob: Glob): set<int> {
    set hour | 0 <= hour < 24 && IsHour(hour) && exists i :: 0 <= i < n && i < |rules| && IsOpenFor(rules[i], hour, allow, q, glob)
  }

  predicate IsOpenFor(r: Rule, hour: int, allow: bool, q: Request, glob: Glob) {
    Concerns(r, q, glob) && MatchesConditions(r, hour) && if allow then r.action.Allow? else Blocks(r)
  }

  /** Every rule of the one kind is open only when a rule of the other kind in front of it is. */
  ghost predicate Shadowed(rules: seq<Rule>, allow: bool, q: Request, glob: Glob) {
    forall i, hour :: 0 <= i < |rules| && IsHour(hour) && IsOpenFor(rules[i], hour, allow, q, glob) ==>
      hour in HoursOf(rules, i, !allow, q, glob)
  }

  lemma {:induction false} SomeRuleIsFirst(rules: seq<Rule>, j: nat, q: Request, hour: int, glob: Glob) returns (i: int)
    requires j < |rules| && Decides(rules[j], q, hour, glob)
    ensures IsFirst(rules, i, q, hour, glob) && i <= j
    decreases j
  {
    i := j;
    if k :| 0 <= k < j && Decides(rules[k], q, hour, glob) { i := SomeRuleIsFirst(rules, k, q, hour, glob); }
  }

  /** The engine allows in every hour when an allowing rule is always open and no other rule gets in front. */
  lemma AlwaysPermitsIff(rules: seq<Rule>, q: Request, glob: Glob)
    requires !IsBearer(q.agent)
    ensures (forall hour :: IsHour(hour) ==> Permits(rules, q, hour, glob)) <==>
            HoursOf(rules, |rules|, true, q, glob) == AllHours() && Shadowed(rules, false, q, glob)
  {
    var open := HoursOf(rules, |rules|, true, q, glob);
    if forall hour :: IsHour(hour) ==> Permits(rules, q, hour, glob) {
      forall hour | 0 <= hour < 24 ensures hour in open {
        assert IsHour(hour);
        var i :| IsFirst(rules, i, q, hour, glob) && rules[i].action.Allow?;
        assert IsOpenFor(rules[i], hour, true, q, glob);
      }
      forall j, hour | 0 <= j < |rules| && IsHour(hour) && IsOpenFor(rules[j], hour, false, q, glob)
        ensures hour in HoursOf(rules, j, true, q, glob)
      {
        var i :| IsFirst(rules, i, q, hour, glob) && rules[i].action.Allow?;
        assert Decides(rules[j], q, hour, glob) && i < j;
        assert IsOpenFor(rules[i], hour, true, q, glob);
      }
    }
    if open == AllHours() && Shadowed(rules, false, q, glob) {
      forall hour | IsHour(hour) ensures Permits(rules, q, hour, glob) {
        assert hour in open;
        var j :| 0 <= j < |rules| && IsOpenFor(rules[j], hour, true, q, glob);
        FirstIsOf(rules, j, true, q, hour, glob);
      }
    }
  }

  /** It never does when each allowing rule is open only behind a rule that blocks. */
  lemma NeverPermitsIff(rules: seq<Rule>, q: Request, glob: Glob)
    requires !IsBearer(q.agent)
    ensures (forall hour :: IsHour(hour) ==> !Permits(rules, q, hour, glob)) <==> Shadowed(rules, true, q, glob)
  {
    if forall hour :: IsHour(hour) ==> !Permits(rules, q, hour, glob) {
      forall j, hour | 0 <= j < |rules| && IsHour(hour) && IsOpenFor(rules[j], hour, true, q, glob)
        ensures hour in HoursOf(rules, j, false, q, glob)
      {
        var i := SomeRuleIsFirst(rules, j, q, hour, glob);
        assert !Permits(rules, q, hour, glob) && i != j;
        assert IsOpenFor(rules[i], hour, false, q, glob);
      }
    }
    if Shadowed(rules, true, q, glob) {
      forall hour | IsHour(hour) ensures !Permits(rules, q, hour, glob) {
        if i :| IsFirst(rules, i, q, hour, glob) && rules[i].action.Allow? {
          FirstIsOf(rules, i, false, q, hour, glob);
        }
      }
    }
  }

  /** The first rule to decide is of the kind that is not shadowed. */
  lemma FirstIsOf(rules: seq<Rule>, j: nat, allow: bool, q: Request, hour: int, glob: Glob)
    requires IsHour(hour) && j < |rules| && Decides(rules[j], q, hour, glob) && Shadowed(rules, !allow, q, glob)
    ensures exists i :: IsFirst(rules, i, q, hour, glob) && rules[i].action.Allow? == allow
  {
    var i := SomeRuleIsFirst(rules, j, q, hour, glob);
    forall k | 0 <= k < i ensures !IsOpenFor(rules[k], hour, allow, q, glob) {
      assert !Decides(rules[k], q, hour, glob);
    }
    assert hour !in HoursOf(rules, i, allow, q, glob);
    assert !IsOpenFor(rules[i], hour, !allow, q, glob);
  }

  /**
   The list, which does not look at the clock, agrees with the engine in every hour if and only if the caller has no
   agent; or the namespace is listed, an allowing rule is open at every hour and every rule that blocks is open only
   behind an allowing one; or it is not listed and every allowing rule is open only behind one that blocks.
   */
  lemma BatchAgreesIff(rules: seq<Rule>, agent: Option<AgentId>, namespace: string, glob: Glob)
    ensures var q := ReadRequest(Named(agent), namespace);
      (forall hour :: IsHour(hour) ==> (Lists(rules, agent, false, namespace, glob) <==> Permits(rules, q, hour, glob))) <==>
            agent.None? ||
            if BatchPermits(rules, q, glob) then
              HoursOf(rules, |rules|, true, q, glob) == AllHours() && Shadowed(rules, false, q, glob)
            else Shadowed(rules, true, q, glob)
  {
    if agent.Some? {
      var q := ReadRequest(agent.value, namespace);
      AlwaysPermitsIff(rules, q, glob);
      NeverPermitsIff(rules, q, glob);
    }
  }

  /** A single rule for all agents lists a namespace if it is about reading memories, allows, and its filter lets it through. */
  lemma ReadRuleLists(r: Rule, agent: AgentId, namespace: string, glob: Glob)
    requires r.agent.None? && r.scope in ["memory:read", "memory:write", "memory:*", "admin:*"]
    ensures Lists([r], Some(agent), false, namespace, glob) <==>
            && r.scope != "memory:write" && r.action.Allow?
            && (r.namespaceFilter in [None, Some("")] || namespace == "" || glob(namespace, r.namespaceFilter.value))
  {
    var q := ReadRequest(agent, namespace);
    ReadScopes(r);
    if MatchesScope(r, q.scope) { ConcernsIff(r, q, glob); }
    if Concerns(r, q, glob) { assert IsFirstConcerned([r], 0, q, glob); }
    assert BatchPermits([r], q, glob) <==> Concerns(r, q, glob) && r.action.Allow?;
  }

  lemma ReadScopes(r: Rule)
    requires r.scope in ["memory:read", "memory:write", "memory:*", "admin:*"]
    ensures MatchesScope(r, "memory:read") <==> r.scope != "memory:write"
  {
    assert "memory:*"[..7] == "memory:" && "memory:*"[6..] == ":*" && "memory:read"[..7] == "memory:";
    assert "memory:write"[10..] == "te";
  }

  lemma BatchAgreesOn(rules: seq<Rule>, q: Request, hour: int, glob: Glob)
    requires !IsBearer(q.agent)
    requires forall r <- rules :: MatchesConditions(r, hour) && !r.action.Other?
    ensures BatchPermits(rules, q, glob) <==> Permits(rules, q, hour, glob)
  {
    if j :| 0 <= j < |rules| && Concerns(rules[j], q, glob) {
      var i := FirstConcerned(rules, j, q, glob);
      assert rules[i] in rules;
      assert IsFirst(rules, i, q, hour, glob);
      if k :| IsFirst(rules, k, q, hour, glob) { FirstIsOne(rules, i, k, q, hour, glob); }
    }
  }

  lemma {:induction false} FirstConcerned(rules: seq<Rule>, j: nat, q: Request, glob: Glob) returns (i: int)
    requires j < |rules| && Concerns(rules[j], q, glob)
    ensures IsFirstConcerned(rules, i, q, glob)
    decreases j
  {
    i := j;
    if k :| 0 <= k < j && Concerns(rules[k], q, glob) { i := FirstConcerned(rules, k, q, glob); }
  }

  /**
   Without an agent, or when every rule is inside its hours and has a known action, the list shows exactly what the engine
   would allow.
   */
  lemma {:induction false} BatchRefinesEngine(
    namespaces: seq<string>, rules: seq<Rule>, agent: Option<AgentId>, hour: int, glob: Glob)
    requires agent.None? || forall r <- rules :: MatchesConditions(r, hour) && !r.action.Other?
    ensures Kept(namespaces, (ns: string) => Lists(rules, agent, false, ns, glob))
         == Kept(namespaces, (ns: string) => Permits(rules, ReadRequest(Named(agent), ns), hour, glob))
  {
    if namespaces != [] {
      BatchRefinesEngine(namespaces[..|namespaces| - 1], rules, agent, hour, glob);
      if agent.Some? { BatchAgreesOn(rules, ReadRequest(agent.value, namespaces[|namespaces| - 1]), hour, glob); }
    }
  }

  /** Outside its hours an allowing rule still lists its namespaces, which the engine refuses to read. */
  lemma ClosedRuleStillLists(r: Rule, q: Request, hour: int, glob: Glob)
    requires !IsBearer(q.agent) && Concerns(r, q, glob) && r.action.Allow? && !MatchesConditions(r, hour)
    ensures BatchPermits([r], q, glob) && !Permits([r], q, hour, glob)
  {
    assert IsFirstConcerned([r], 0, q, glob);
  }
}
