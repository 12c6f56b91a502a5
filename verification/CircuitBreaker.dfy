/**
 The circuit breaker of the Cognition OS bridge (backend/services/cognition_bridge.py:92-115, 155-215), for requests that
 do not overlap. Reading `circuit_open` changes the state: after the cooldown it forgets the failures.

 Times are in milliseconds of the monotonic clock.
 */
module CircuitBreaker {
  const MAX_FAILURES: nat := 5
  const COOLDOWN: nat := 60_000

  datatype Breaker = Breaker(failures: nat, openUntil: int)

  /** The state after a read of `circuit_open`; the circuit is open exactly when it still has its failures. */
  function AfterRead(b: Breaker, now: int): Breaker {
    if b.failures >= MAX_FAILURES && now >= b.openUntil then b.(failures := 0) else b
  }

  predicate IsOpen(b: Breaker, now: int) { b.failures >= MAX_FAILURES && now < b.openUntil }

  /**
   What a request that is sent gets: an answer of status 2xx, one of status 2xx whose body is not JSON, or anything else,
   a connection error included.
   */
  datatype Answer = Good | Unreadable | Failed

  datatype Event =
    | Read(at: int)
    | Request(at: int, end: int, answer: Answer)      // when it is tried, and when its answer or error comes

  function EndOf(e: Event): int { if e.Request? then e.end else e.at }

  predicate Sent(b: Breaker, e: Event) { e.Request? && !IsOpen(b, e.at) }

  /** One more failure, at `now`. */
  function Counted(b: Breaker, now: int): Breaker {
    var failures := b.failures + 1;
    Breaker(failures, if failures >= MAX_FAILURES then now + COOLDOWN else b.openUntil)
  }

  /** The counter is reset before the body is parsed, so an unreadable body is the first failure of a new streak. */
  function Step(b: Breaker, e: Event): Breaker {
    var read := AfterRead(b, e.at);
    if !Sent(b, e) then read
    else match e.answer
      case Good => read.(failures := 0)
      case Unreadable => Counted(read.(failures := 0), e.end)
      case Failed => Counted(read, e.end)
  }

  class CognitionBridge {
    var failures: nat
    var openUntil: int

    function View(): Breaker
      reads this
    {
      Breaker(failures, openUntil)
    }

    constructor ()
      ensures View() == Breaker(0, 0)
    {
      failures, openUntil := 0, 0;
    }

    method CircuitOpen(now: int) returns (open: bool)
      modifies this
      ensures open == IsOpen(old(View()), now)
      ensures View() == AfterRead(old(View()), now)
    {
      if failures >= MAX_FAILURES {
        if now < openUntil { return true; }
        failures := 0;
      }
      return false;
    }

    /** `_request`; `end` and `answer` are what the network does with a request that is sent. */
    method Request(at: int, end: int, answer: Answer) returns (sent: bool)
      modifies this
      ensures sent == Sent(old(View()), Event.Request(at, end, answer))
      ensures View() == Step(old(View()), Event.Request(at, end, answer))
    {
      var open := CircuitOpen(at);
      if open { return false; }
      if !answer.Failed? { failures := 0; }
      if !answer.Good? {
        failures := failures + 1;
        if failures >= MAX_FAILURES { openUntil := end + COOLDOWN; }
      }
      return true;
    }
  }

  // ---- runs ----

  function Front(run: seq<Event>): seq<Event>
    requires run != []
  {
    run[..|run| - 1]
  }

  function State(b: Breaker, run: seq<Event>): Breaker {
    if run == [] then b else Step(State(b, Front(run)), run[|run| - 1])
  }

  /** The clock is monotonic and requests do not overlap. */
  predicate Sequential(run: seq<Event>) {
    && (forall i :: 0 <= i < |run| ==> run[i].at <= EndOf(run[i]))
    && (forall i, j :: 0 <= i < j < |run| ==> EndOf(run[i]) <= run[j].at)
  }

  lemma {:induction false} StaysTripped(b: Breaker, run: seq<Event>)
    requires b.failures >= MAX_FAILURES && forall e <- run :: e.at < b.openUntil
    ensures State(b, run) == b
  {
    if run != [] {
      assert forall e <- Front(run) :: e in run;
      StaysTripped(b, Front(run));
      assert run[|run| - 1] in run;
    }
  }

  /** After a trip no request is sent until the cooldown is over, however often the breaker is read or tried. */
  lemma NothingSentWhileOpen(b: Breaker, trip: Event, run: seq<Event>, e: Event)
    requires Sent(b, trip) && Step(b, trip).failures >= MAX_FAILURES
    requires Sequential([trip] + run + [e]) && Sent(State(Step(b, trip), run), e)
    ensures e.at >= trip.end + COOLDOWN
  {
    var all := [trip] + run + [e];
    if e.at < trip.end + COOLDOWN {
      forall i | 0 <= i < |run| ensures run[i].at < trip.end + COOLDOWN {
        assert all[i + 1] == run[i] && all[|run| + 1] == e;
        assert all[i + 1].at <= EndOf(all[i + 1]) <= all[|run| + 1].at;
      }
      StaysTripped(Step(b, trip), run);
    }
  }

  /**
   A good answer forgets the failures before it: after one, four more requests can fail, however they do and whatever else
   happened before, and the circuit is still closed.
   */
  lemma GoodAnswerForgives(b: Breaker, good: Event, run: seq<Event>, at: int)
    requires Sent(b, good) && good.answer.Good?
    requires |run| < MAX_FAILURES && forall e <- run :: e.Request?
    ensures State(Step(b, good), run).failures <= |run| && !IsOpen(State(Step(b, good), run), at)
  {
    FailuresAreRequests(Step(b, good), run);
  }

  lemma {:induction false} FailuresAreRequests(b: Breaker, run: seq<Event>)
    ensures State(b, run).failures <= b.failures + |run|
  {
    if run != [] { FailuresAreRequests(b, Front(run)); }
  }

  /** Five failures in a row trip the breaker, for one minute from the last. */
  lemma FifthFailureTrips(b: Breaker, e: Event)
    requires Sent(b, e) && e.answer.Failed? && b.failures == 4
    ensures IsOpen(Step(b, e), e.end) && IsOpen(Step(b, e), e.end + 59_999) && !IsOpen(Step(b, e), e.end + 60_000)
  {}

  // ---- how long a streak of failures takes ----

  /** The answers to the requests that were sent, and when they came. */
  function Answers(b: Breaker, run: seq<Event>): seq<Answer> {
    if run == [] then []
    else Answers(b, Front(run)) + if Sent(State(b, Front(run)), run[|run| - 1]) then [run[|run| - 1].answer] else []
  }

  function Ends(b: Breaker, run: seq<Event>): (r: seq<int>)
    ensures |r| == |Answers(b, run)|
  {
    if run == [] then []
    else Ends(b, Front(run)) + if Sent(State(b, Front(run)), run[|run| - 1]) then [run[|run| - 1].end] else []
  }

  predicate AllFail(run: seq<Event>) { forall e <- run :: e.Request? ==> !e.answer.Good? }

  /** A run of the breaker in which every request sent fails, in the ways of `answers`. */
  predicate Streak(b: Breaker, run: seq<Event>, answers: seq<Answer>) {
    Sequential(run) && AllFail(run) && Answers(b, run) == answers
  }

  /** From the first failure to the last. */
  function Span(b: Breaker, run: seq<Event>): int
    requires Answers(b, run) != []
  {
    Ends(b, run)[|Ends(b, run)| - 1] - Ends(b, run)[0]
  }

  function Cooldowns(n: nat): nat { 60_000 * n }

  /** The cooldowns a streak has sat out, the failures on the counter, and those that an unreadable body wiped off it. */
  datatype Tally = Tally(rounds: nat, count: nat, lost: nat)

  function Next(t: Tally, a: Answer): Tally {
    var sent := if t.count == MAX_FAILURES then t.(rounds := t.rounds + 1, count := 0) else t;
    if a.Unreadable? then sent.(count := 1, lost := sent.lost + sent.count) else sent.(count := sent.count + 1)
  }

  function TallyOf(answers: seq<Answer>): (t: Tally)
    ensures t.count <= MAX_FAILURES && |answers| == MAX_FAILURES * t.rounds + t.lost + t.count
    ensures answers != [] ==> t.count > 0
  {
    if answers == [] then Tally(0, 0, 0) else Next(TallyOf(answers[..|answers| - 1]), answers[|answers| - 1])
  }

  /** What the breaker remembers of a streak. */
  ghost predicate Paced(s: Breaker, t: Tally, ends: seq<int>, now: int)
    requires ends != []
  {
    var first, last := ends[0], ends[|ends| - 1];
    && last >= first + Cooldowns(t.rounds) && now >= last
    && (s.failures == t.count || (s.failures == 0 && t.count == MAX_FAILURES && now >= last + Cooldowns(1)))
    && (s.failures == MAX_FAILURES ==> s.openUntil == last + Cooldowns(1))
  }

  lemma PacedStep(s: Breaker, t: Tally, ends: seq<int>, now: int, e: Event)
    requires ends != [] && Paced(s, t, ends, now) && 0 < t.count <= MAX_FAILURES
    requires now <= e.at <= EndOf(e) && (e.Request? ==> !e.answer.Good?)
    ensures if e.Request? && Sent(s, e) then Paced(Step(s, e), Next(t, e.answer), ends + [e.end], e.end)
            else Paced(Step(s, e), t, ends, EndOf(e))
  {}

  lemma SequentialFront(run: seq<Event>)
    requires run != [] && Sequential(run) && AllFail(run)
    ensures Sequential(Front(run)) && AllFail(Front(run)) && !(run[|run| - 1].Request? && run[|run| - 1].answer.Good?)
    ensures run[|run| - 1].at <= EndOf(run[|run| - 1])
    ensures |run| > 1 ==> EndOf(run[|run| - 2]) <= run[|run| - 1].at
  {
    assert forall e <- Front(run) :: e in run;
  }

  ghost predicate RunPaced(b: Breaker, run: seq<Event>) {
    if Answers(b, run) == [] then State(b, run) == b
    else run != [] && Paced(State(b, run), TallyOf(Answers(b, run)), Ends(b, run), EndOf(run[|run| - 1]))
  }

  lemma {:induction false} RunIsPaced(b: Breaker, run: seq<Event>)
    requires b.failures == 0 && Sequential(run) && AllFail(run)
    ensures RunPaced(b, run)
  {
    if run != [] {
      SequentialFront(run);
      RunIsPaced(b, Front(run));
      RunStepPaced(b, run);
    }
  }

  lemma RunStepPaced(b: Breaker, run: seq<Event>)
    requires b.failures == 0 && run != [] && RunPaced(b, Front(run))
    requires var e := run[|run| - 1];
      && e.at <= EndOf(e) && !(e.Request? && e.answer.Good?)
      && (|run| > 1 ==> EndOf(run[|run| - 2]) <= e.at)
    ensures RunPaced(b, run)
  {
    var front, e := Front(run), run[|run| - 1];
    var answers, s := Answers(b, front), State(b, front);
    if answers != [] {
      PacedStep(s, TallyOf(answers), Ends(b, front), EndOf(front[|front| - 1]), e);
      if Sent(s, e) {
        assert (answers + [e.answer])[..|answers|] == answers;
      } else {
        assert Answers(b, run) == answers && Ends(b, run) == Ends(b, front);
      }
    } else if Sent(b, e) {
      FirstOfStreak(b, e);
      assert Answers(b, run) == [e.answer] && Ends(b, run) == [e.end];
    }
  }

  lemma FirstOfStreak(b: Breaker, e: Event)
    requires b.failures == 0 && Sent(b, e) && !e.answer.Good?
    ensures Paced(Step(b, e), TallyOf([e.answer]), [e.end], e.end)
  {
    assert [e.answer][..0] == [];
    assert TallyOf([e.answer]) == Tally(0, 1, 0);
  }

  /** The fastest schedule: no request takes any time, and the next is sent as soon as the circuit lets it. */
  function Fastest(answers: seq<Answer>): seq<Event> {
    if answers == [] then []
    else
      var at := Cooldowns(TallyOf(answers).rounds);
      Fastest(answers[..|answers| - 1]) + [Request(at, at, answers[|answers| - 1])]
  }

  ghost predicate IsFast(b: Breaker, answers: seq<Answer>) {
    var run, t := Fastest(answers), TallyOf(answers);
    && |run| == |answers| && Answers(b, run) == answers
    && State(b, run).failures == t.count
    && (t.count == MAX_FAILURES ==> State(b, run).openUntil == Cooldowns(t.rounds + 1))
    && (answers != [] ==> Ends(b, run)[0] == 0 && Ends(b, run)[|answers| - 1] == Cooldowns(t.rounds))
  }

  ghost predicate IsInstant(answers: seq<Answer>) {
    var run := Fastest(answers);
    && |run| == |answers|
    && forall i :: 0 <= i < |run| ==> run[i].Request? && run[i].at == run[i].end && run[i].at <= Cooldowns(TallyOf(answers).rounds)
  }

  lemma {:induction false} FastestIsSequential(answers: seq<Answer>)
    requires Good !in answers
    ensures Sequential(Fastest(answers)) && AllFail(Fastest(answers)) && IsInstant(answers)
  {
    if answers != [] {
      var front := answers[..|answers| - 1];
      assert forall a <- front :: a in answers;
      FastestIsSequential(front);
    }
  }

  lemma {:induction false} FastestIsFast(b: Breaker, answers: seq<Answer>)
    requires b.failures == 0 && Good !in answers
    ensures IsFast(b, answers)
  {
    if answers != [] {
      var front := answers[..|answers| - 1];
      assert forall a <- front :: a in answers;
      FastestIsFast(b, front);
      FastestStep(b, answers);
    }
  }

  lemma FastestStep(b: Breaker, answers: seq<Answer>)
    requires b.failures == 0 && answers != [] && IsFast(b, answers[..|answers| - 1]) && !answers[|answers| - 1].Good?
    ensures IsFast(b, answers)
  {
    var front, run := answers[..|answers| - 1], Fastest(answers);
    assert Front(run) == Fastest(front);
    assert Sent(State(b, Fastest(front)), run[|front|]);
    assert Answers(b, run) == answers;
    assert front == [] ==> TallyOf(answers) == Tally(0, 1, 0);
  }

  /** The shortest time in which a streak of these answers can happen is a cooldown for each of its rounds. */
  lemma LeastSpan(b: Breaker, answers: seq<Answer>)
    requires b.failures == 0 && answers != [] && Good !in answers
    ensures forall run :: Streak(b, run, answers) ==> Span(b, run) >= Cooldowns(TallyOf(answers).rounds)
    ensures Streak(b, Fastest(answers), answers) && Span(b, Fastest(answers)) == Cooldowns(TallyOf(answers).rounds)
  {
    forall run | Streak(b, run, answers) ensures Span(b, run) >= Cooldowns(TallyOf(answers).rounds) {
      SpanIsLong(b, run, answers);
    }
    FastestAttains(b, answers);
  }

  lemma SpanIsLong(b: Breaker, run: seq<Event>, answers: seq<Answer>)
    requires b.failures == 0 && answers != [] && Streak(b, run, answers)
    ensures Span(b, run) >= Cooldowns(TallyOf(answers).rounds)
  {
    RunIsPaced(b, run);
  }

  lemma FastestAttains(b: Breaker, answers: seq<Answer>)
    requires b.failures == 0 && answers != [] && Good !in answers
    ensures Streak(b, Fastest(answers), answers) && Span(b, Fastest(answers)) == Cooldowns(TallyOf(answers).rounds)
  {
    FastestIsFast(b, answers);
    FastestIsSequential(answers);
  }

  /**
   Five failures to a cooldown: a streak of k failures takes (k - 1) / 5 cooldowns from the first to the last, whatever the
   schedule, if and only if the failures on the counter and those wiped off it by unreadable bodies are five at most.
   */
  lemma StreakTakesCooldownsIff(b: Breaker, answers: seq<Answer>)
    requires b.failures == 0 && answers != [] && Good !in answers
    ensures (forall run :: Streak(b, run, answers) ==> Span(b, run) >= Cooldowns((|answers| - 1) / MAX_FAILURES))
            <==> TallyOf(answers).lost + TallyOf(answers).count <= MAX_FAILURES
  {
    LeastSpan(b, answers);
    var t := TallyOf(answers);
    FifthsAndRounds(|answers|, t);
  }

  lemma FifthsAndRounds(k: nat, t: Tally)
    requires k > 0 && k == MAX_FAILURES * t.rounds + t.lost + t.count
    ensures Cooldowns((k - 1) / MAX_FAILURES) <= Cooldowns(t.rounds) <==> t.lost + t.count <= MAX_FAILURES
  {
    assert (k - 1) / 5 <= t.rounds <==> k - 1 < 5 * (t.rounds + 1);
  }

  lemma {:induction false} NothingIsLost(answers: seq<Answer>)
    requires Unreadable !in answers
    ensures TallyOf(answers).lost == 0
  {
    if answers != [] {
      assert forall a <- answers[..|answers| - 1] :: a in answers;
      NothingIsLost(answers[..|answers| - 1]);
      assert answers[|answers| - 1] in answers;
    }
  }

  /** Without unreadable bodies a streak of k failures always takes its (k - 1) / 5 cooldowns. */
  lemma StreakTakesCooldowns(b: Breaker, run: seq<Event>)
    requires b.failures == 0 && Sequential(run) && AllFail(run) && Answers(b, run) != [] && Unreadable !in Answers(b, run)
    ensures Span(b, run) >= Cooldowns((|Answers(b, run)| - 1) / MAX_FAILURES)
  {
    var answers := Answers(b, run);
    SpanIsLong(b, run, answers);
    NothingIsLost(answers);
    FifthsAndRounds(|answers|, TallyOf(answers));
  }

  lemma {:induction false} AllWiped(k: nat)
    ensures TallyOf(seq(k + 1, _ => Unreadable)) == Tally(0, 1, k)
  {
    var answers := seq(k + 1, _ => Unreadable);
    assert answers[..k] == seq(k, _ => Unreadable);
    if k > 0 { AllWiped(k - 1); }
  }

  /** A service that answers every request with a body that cannot be read never trips the breaker. */
  lemma UnreadableBodiesNeverTrip(b: Breaker, k: nat) returns (run: seq<Event>)
    requires b.failures == 0
    ensures Streak(b, run, seq(k + 1, _ => Unreadable)) && Span(b, run) == 0 && State(b, run).failures == 1
  {
    var answers := seq(k + 1, _ => Unreadable);
    AllWiped(k);
    LeastSpan(b, answers);
    FastestIsFast(b, answers);
    run := Fastest(answers);
  }

  /**
   The request after the cooldown is not a single probe: the failures are forgotten, so it takes five more to trip again,
   and from a trip on five requests can fail back to back once the cooldown is over.
   */
  lemma ProbeDoesNotTrip(b: Breaker, at: int, end: int)
    requires b.failures >= MAX_FAILURES && at >= b.openUntil
    ensures Step(b, Request(at, end, Failed)) == Breaker(1, b.openUntil)
    ensures forall later :: !IsOpen(Step(b, Request(at, end, Failed)), later)
  {}
}
