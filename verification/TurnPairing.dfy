/** Pairing chat turns into exchanges (backend/services/session_digest_service.py:79-127, 833-873). */
module TurnPairing {
  import opened Text

  datatype Role = User | Assistant | OtherRole(name: string)

  /** A stored turn; `text` is its content, or the empty text, without blanks at the ends. */
  datatype Turn = Turn(id: string, role: Role, text: string, sequence: Option<int>, created: Option<int>)

  function Key(t: Turn): int { match t.sequence case Some(n) => n case None => 0 }

  predicate IsUser(t: Turn) { t.role.User? }
  predicate IsAssistant(t: Turn) { t.role.Assistant? }
  predicate Blank(t: Turn) { t.text == "" }

  /** One exchange, with the turns it was made of. */
  datatype Exchange = Exchange(user: Option<Turn>, assistant: Option<Turn>) {
    function Turns(): seq<Turn> {
      (if user.Some? then [user.value] else []) + (if assistant.Some? then [assistant.value] else [])
    }

    /** The answer's id if there is an answer, else the question's. */
    function Anchor(): string
      requires user.Some? || assistant.Some?
    {
      Last().id
    }

    function Last(): Turn
      requires user.Some? || assistant.Some?
    {
      if assistant.Some? then assistant.value else user.value
    }

    function Content(): string
      requires user.Some? || assistant.Some?
    {
      if user.None? then "Assistant: " + assistant.value.text
      else if assistant.None? then "User: " + user.value.text
      else "User: " + user.value.text + "\nAssistant: " + assistant.value.text
    }
  }

  /** What an exchange reads like. */
  lemma ContentReads(q: Turn, a: Turn)
    ensures Exchange(Some(q), Some(a)).Content() == "User: " + q.text + "\nAssistant: " + a.text
    ensures Exchange(Some(q), None).Content() == "User: " + q.text
    ensures Exchange(None, Some(a)).Content() == "Assistant: " + a.text
    ensures Exchange(Some(q), Some(a)).Anchor() == Exchange(None, Some(a)).Anchor() == a.id
    ensures Exchange(Some(q), None).Anchor() == q.id
  {}

  // ---- the order of the turns ----

  function Insert(t: Turn, sorted: seq<Turn>): seq<Turn> {
    if sorted == [] || Key(t) <= Key(sorted[0]) then [t] + sorted else [sorted[0]] + Insert(t, sorted[1..])
  }

  /** `sorted(turns, key=sequence)`: ascending, equal keys in their original order. */
  function Sorted(turns: seq<Turn>): seq<Turn> {
    if turns == [] then [] else Insert(turns[0], Sorted(turns[1..]))
  }

  function Spoken(turns: seq<Turn>): seq<Turn> {
    if turns == [] then []
    else (if IsUser(turns[0]) || IsAssistant(turns[0]) then [turns[0]] else []) + Spoken(turns[1..])
  }

  function Ordered(turns: seq<Turn>): seq<Turn> { Sorted(Spoken(turns)) }

  // ---- the pairing ----

  /** The exchanges a turn completes, and the question that is open after it. */
  datatype Step = Step(done: seq<Exchange>, pending: Option<Turn>)

  function Take(pending: Option<Turn>, t: Turn): Step {
    if Blank(t) then Step([], pending)
    else if IsUser(t) then Step(Flush(pending), Some(t))
    else Step([Exchange(pending, Some(t))], None)
  }

  function Flush(pending: Option<Turn>): seq<Exchange> {
    if pending.None? then [] else [Exchange(pending, None)]
  }

  /** The exchanges of `turns` when the question `pending` is still open. */
  function PairFrom(pending: Option<Turn>, turns: seq<Turn>): seq<Exchange>
    decreases |turns|
  {
    if turns == [] then Flush(pending)
    else Take(pending, turns[0]).done + PairFrom(Take(pending, turns[0]).pending, turns[1..])
  }

  function Paired(turns: seq<Turn>): seq<Exchange> { PairFrom(None, Ordered(turns)) }

  /** `_pair_chat_turns` */
  method PairChatTurns(turns: seq<Turn>) returns (exchanges: seq<Exchange>)
    ensures exchanges == Paired(turns)
  {
    var ordered := Ordered(turns);
    var pending: Option<Turn> := None;
    exchanges := [];
    ghost var all := PairFrom(None, ordered);
    assert ordered[0..] == ordered;
    for k := 0 to |ordered|
      invariant exchanges + PairFrom(pending, ordered[k..]) == all
    {
      var turn := ordered[k];
      ghost var before, step := exchanges, Take(pending, turn);
      PairFromAt(exchanges, pending, ordered, k);
      if IsUser(turn) {
        if turn.text != "" {
          if pending.Some? {
            exchanges := exchanges + [Exchange(pending, None)];
          }
          pending := Some(turn);
        }
      } else if pending.Some? && turn.text != "" {
        exchanges := exchanges + [Exchange(pending, Some(turn))];
        pending := None;
      } else if pending.None? && turn.text != "" {
        exchanges := exchanges + [Exchange(None, Some(turn))];
      }
      assert exchanges == before + step.done && pending == step.pending;
    }
    if pending.Some? {
      exchanges := exchanges + [Exchange(pending, None)];
    }
  }

  lemma PairFromAt(exchanges: seq<Exchange>, pending: Option<Turn>, turns: seq<Turn>, k: nat)
    requires k < |turns|
    ensures exchanges + PairFrom(pending, turns[k..]) ==
            (exchanges + Take(pending, turns[k]).done) + PairFrom(Take(pending, turns[k]).pending, turns[k + 1..])
  {
    assert turns[k..][1..] == turns[k + 1..];
  }

  // ---- conservation ----

  function NonBlank(turns: seq<Turn>): seq<Turn> {
    if turns == [] then [] else (if Blank(turns[0]) then [] else [turns[0]]) + NonBlank(turns[1..])
  }

  function Flatten(exchanges: seq<Exchange>): seq<Turn> {
    if exchanges == [] then [] else exchanges[0].Turns() + Flatten(exchanges[1..])
  }

  /** At least one turn; the question is a question and the answer an answer, neither blank. */
  predicate WellShaped(e: Exchange) {
    && (e.user.Some? || e.assistant.Some?)
    && (e.user.Some? ==> IsUser(e.user.value) && !Blank(e.user.value))
    && (e.assistant.Some? ==> IsAssistant(e.assistant.value) && !Blank(e.assistant.value))
  }

  /** No open question in front of an answer without a question. */
  predicate Tight(exchanges: seq<Exchange>) {
    forall i :: 0 <= i < |exchanges| - 1 ==> !(exchanges[i].assistant.None? && exchanges[i + 1].user.None?)
  }

  /** Exactly a pairing of `turns`: nothing lost, nothing twice, nothing out of order, no pair torn apart. */
  ghost predicate IsPairing(exchanges: seq<Exchange>, turns: seq<Turn>) {
    (forall e <- exchanges :: WellShaped(e)) && Flatten(exchanges) == NonBlank(turns) && Tight(exchanges)
  }

  predicate AllSpoken(turns: seq<Turn>) { forall t <- turns :: IsUser(t) || IsAssistant(t) }

  lemma {:induction false} FlattenConcat(a: seq<Exchange>, b: seq<Exchange>)
    ensures Flatten(a + b) == Flatten(a) + Flatten(b)
  {
    if a == [] {
      assert a + b == b;
    } else {
      assert (a + b)[0] == a[0] && (a + b)[1..] == a[1..] + b;
      FlattenConcat(a[1..], b);
      assert a[0].Turns() + (Flatten(a[1..]) + Flatten(b)) == (a[0].Turns() + Flatten(a[1..])) + Flatten(b);
    }
  }

  function Open(pending: Option<Turn>): seq<Turn> { if pending.Some? then [pending.value] else [] }

  predicate Askable(pending: Option<Turn>) { pending.Some? ==> WellShaped(Exchange(pending, None)) }

  lemma FlattenOne(e: Exchange)
    ensures Flatten([e]) == e.Turns()
  {
    assert [e][1..] == [];
  }

  /** A step moves the open question and the turn to the completed exchanges or keeps them open. */
  lemma TakeConserves(pending: Option<Turn>, t: Turn)
    requires Askable(pending) && (IsUser(t) || IsAssistant(t))
    ensures var s := Take(pending, t);
      && (forall e <- s.done :: WellShaped(e)) && Askable(s.pending)
      && Flatten(s.done) + Open(s.pending) == Open(pending) + (if Blank(t) then [] else [t])
  {
    FlattenOne(Exchange(pending, None));
    FlattenOne(Exchange(pending, Some(t)));
  }

  lemma {:induction false} PairFromConserves(pending: Option<Turn>, turns: seq<Turn>)
    requires AllSpoken(turns) && Askable(pending)
    ensures forall e <- PairFrom(pending, turns) :: WellShaped(e)
    ensures Flatten(PairFrom(pending, turns)) == Open(pending) + NonBlank(turns)
    decreases |turns|
  {
    if turns == [] {
      FlattenOne(Exchange(pending, None));
    } else {
      var t, rest := turns[0], turns[1..];
      assert t in turns && forall x <- rest :: x in turns;
      var s := Take(pending, t);
      TakeConserves(pending, t);
      PairFromConserves(s.pending, rest);
      StepConserves(s.done, PairFrom(s.pending, rest), Open(s.pending), Open(pending), if Blank(t) then [] else [t],
                    NonBlank(rest));
    }
  }

  lemma StepConserves(done: seq<Exchange>, more: seq<Exchange>, open: seq<Turn>, before: seq<Turn>, one: seq<Turn>,
                      rest: seq<Turn>)
    requires (forall e <- done :: WellShaped(e)) && (forall e <- more :: WellShaped(e))
    requires Flatten(done) + open == before + one && Flatten(more) == open + rest
    ensures forall e <- done + more :: WellShaped(e)
    ensures Flatten(done + more) == before + (one + rest)
  {
    FlattenConcat(done, more);
    assert Flatten(done) + (open + rest) == (Flatten(done) + open) + rest;
    assert (before + one) + rest == before + (one + rest);
  }

  /** An open question is the question of the next exchange. */
  lemma {:induction false} OpenQuestionComesFirst(pending: Option<Turn>, turns: seq<Turn>)
    requires pending.Some?
    ensures PairFrom(pending, turns) != [] && PairFrom(pending, turns)[0].user == pending
    decreases |turns|
  {
    if turns != [] && Blank(turns[0]) { OpenQuestionComesFirst(pending, turns[1..]); }
  }

  lemma TightCons(e: Exchange, rest: seq<Exchange>)
    requires Tight(rest) && (rest != [] && e.assistant.None? ==> rest[0].user.Some?)
    ensures Tight([e] + rest)
  {
    forall i | 0 <= i < |[e] + rest| - 1
      ensures !(([e] + rest)[i].assistant.None? && ([e] + rest)[i + 1].user.None?)
    {
      if i > 0 { assert ([e] + rest)[i] == rest[i - 1] && ([e] + rest)[i + 1] == rest[i - 1 + 1]; }
    }
  }

  lemma {:induction false} PairFromIsTight(pending: Option<Turn>, turns: seq<Turn>)
    ensures Tight(PairFrom(pending, turns))
    decreases |turns|
  {
    if turns != [] {
      var s, rest := Take(pending, turns[0]), turns[1..];
      PairFromIsTight(s.pending, rest);
      if s.done == [] {
        assert [] + PairFrom(s.pending, rest) == PairFrom(s.pending, rest);
      } else {
        if s.pending.Some? { OpenQuestionComesFirst(s.pending, rest); }
        TightCons(s.done[0], PairFrom(s.pending, rest));
        assert s.done == [s.done[0]];
      }
    }
  }

  lemma {:induction false} SpokenAreSpoken(turns: seq<Turn>)
    ensures AllSpoken(Spoken(turns))
  {
    if turns != [] { SpokenAreSpoken(turns[1..]); }
  }

  lemma {:induction false} InsertMembers(t: Turn, sorted: seq<Turn>)
    ensures multiset(Insert(t, sorted)) == multiset{t} + multiset(sorted)
  {
    if sorted != [] && Key(t) > Key(sorted[0]) {
      InsertMembers(t, sorted[1..]);
      assert sorted == [sorted[0]] + sorted[1..];
    }
  }

  lemma {:induction false} SortedMembers(turns: seq<Turn>)
    ensures multiset(Sorted(turns)) == multiset(turns)
  {
    if turns != [] {
      SortedMembers(turns[1..]);
      InsertMembers(turns[0], Sorted(turns[1..]));
      assert turns == [turns[0]] + turns[1..];
    }
  }

  lemma OrderedAreSpoken(turns: seq<Turn>)
    ensures AllSpoken(Ordered(turns))
  {
    SpokenAreSpoken(turns);
    SortedMembers(Spoken(turns));
    forall t <- Ordered(turns) ensures IsUser(t) || IsAssistant(t) {
      assert t in multiset(Spoken(turns));
    }
  }

  /** Every non-blank turn lands in exactly one exchange, in order, next to its partner. */
  lemma PairingConservesTurns(turns: seq<Turn>)
    ensures IsPairing(Paired(turns), Ordered(turns))
  {
    OrderedAreSpoken(turns);
    PairFromConserves(None, Ordered(turns));
    PairFromIsTight(None, Ordered(turns));
    assert [] + NonBlank(Ordered(turns)) == NonBlank(Ordered(turns));
  }

  lemma PairingHasTurns(a: seq<Exchange>)
    requires a != [] && forall e <- a :: WellShaped(e)
    ensures Flatten(a) != []
  {
    assert a[0] in a && a[0].Turns() != [];
  }

  /** There is only one such pairing, so the two lemmas together say exactly what the state machine computes. */
  lemma {:induction false} PairingIsUnique(a: seq<Exchange>, b: seq<Exchange>)
    requires (forall e <- a :: WellShaped(e)) && (forall e <- b :: WellShaped(e))
    requires Tight(a) && Tight(b) && Flatten(a) == Flatten(b)
    ensures a == b
    decreases |a|
  {
    if a != [] { PairingHasTurns(a); }
    if b != [] { PairingHasTurns(b); }
    if a != [] && b != [] {
      SameFirstExchange(a, b);
      assert Flatten(a[1..]) == Flatten(a)[|a[0].Turns()|..];
      assert Flatten(b[1..]) == Flatten(b)[|b[0].Turns()|..];
      assert forall e <- a[1..] :: e in a;
      assert forall e <- b[1..] :: e in b;
      TightTail(a);
      TightTail(b);
      PairingIsUnique(a[1..], b[1..]);
      assert a == [a[0]] + a[1..] && b == [b[0]] + b[1..];
    }
  }

  lemma TightTail(a: seq<Exchange>)
    requires Tight(a) && a != []
    ensures Tight(a[1..])
  {
    forall i | 0 <= i < |a[1..]| - 1 ensures !(a[1..][i].assistant.None? && a[1..][i + 1].user.None?) {
      assert a[1..][i] == a[i + 1] && a[1..][i + 1] == a[(i + 1) + 1];
    }
  }

  /** The first exchange can be read off the first two turns. */
  lemma FirstExchange(a: seq<Exchange>)
    requires a != [] && (forall e <- a :: WellShaped(e)) && Tight(a)
    ensures var f := Flatten(a);
      f != [] && a[0] ==
        if IsAssistant(f[0]) then Exchange(None, Some(f[0]))
        else if |f| > 1 && IsAssistant(f[1]) then Exchange(Some(f[0]), Some(f[1]))
        else Exchange(Some(f[0]), None)
  {
    var f, e := Flatten(a), a[0];
    assert e in a;
    if e.user.Some? && e.assistant.None? {
      assert f == [e.user.value] + Flatten(a[1..]);
      if |a| > 1 {
        assert a[1] in a && a[1].user.Some?;
        assert a[1..][0] == a[1];
        assert f[1] == a[1].user.value;
      } else {
        assert a[1..] == [];
      }
    }
  }

  lemma SameFirstExchange(a: seq<Exchange>, b: seq<Exchange>)
    requires a != [] && b != [] && (forall e <- a :: WellShaped(e)) && (forall e <- b :: WellShaped(e))
    requires Tight(a) && Tight(b) && Flatten(a) == Flatten(b)
    ensures a[0] == b[0]
  {
    FirstExchange(a);
    FirstExchange(b);
  }

  // ---- anchors ----

  ghost predicate DistinctIds(turns: seq<Turn>) {
    forall i, j :: 0 <= i < j < |turns| ==> turns[i].id != turns[j].id
  }

  /** Positions of the flattened turns at which the exchanges end. */
  function EndOf(exchanges: seq<Exchange>, i: nat): nat
    requires i < |exchanges|
  {
    |exchanges[0].Turns()| + if i == 0 then 0 else EndOf(exchanges[1..], i - 1)
  }

  /** The anchor of an exchange is the id of its last turn. */
  lemma {:induction false} AnchorAt(exchanges: seq<Exchange>, i: nat)
    requires i < |exchanges| && (forall e <- exchanges :: WellShaped(e))
    ensures WellShaped(exchanges[i]) && 0 < EndOf(exchanges, i) <= |Flatten(exchanges)|
    ensures Flatten(exchanges)[EndOf(exchanges, i) - 1].id == exchanges[i].Anchor()
  {
    assert exchanges[i] in exchanges && exchanges[0] in exchanges;
    if i > 0 {
      assert forall e <- exchanges[1..] :: e in exchanges;
      AnchorAt(exchanges[1..], i - 1);
      assert exchanges[1..][i - 1] == exchanges[i];
    }
  }

  lemma {:induction false} EndsIncrease(exchanges: seq<Exchange>, i: nat, j: nat)
    requires i < j < |exchanges| && (forall e <- exchanges :: WellShaped(e))
    ensures EndOf(exchanges, i) < EndOf(exchanges, j)
  {
    var rest := exchanges[1..];
    assert forall e <- rest :: e in exchanges;
    if i == 0 {
      AnchorAt(rest, j - 1);
    } else {
      EndsIncrease(rest, i - 1, j - 1);
    }
  }

  /** With distinct turn ids the anchors, and with them the exchange ids, are distinct. */
  lemma AnchorsDistinct(exchanges: seq<Exchange>, i: nat, j: nat)
    requires i < j < |exchanges| && (forall e <- exchanges :: WellShaped(e)) && DistinctIds(Flatten(exchanges))
    ensures WellShaped(exchanges[i]) && WellShaped(exchanges[j])
    ensures exchanges[i].Anchor() != exchanges[j].Anchor()
  {
    AnchorAt(exchanges, i);
    AnchorAt(exchanges, j);
    EndsIncrease(exchanges, i, j);
  }

  lemma {:induction false} TurnAt(exchanges: seq<Exchange>, i: nat, t: Turn) returns (m: nat)
    requires i < |exchanges| && t in exchanges[i].Turns()
    ensures EndOf(exchanges, i) - |exchanges[i].Turns()| <= m < EndOf(exchanges, i) <= |Flatten(exchanges)|
    ensures Flatten(exchanges)[m] == t
  {
    var first := exchanges[0].Turns();
    if i == 0 {
      m :| 0 <= m < |first| && first[m] == t;
    } else {
      assert exchanges[1..][i - 1] == exchanges[i];
      var n := TurnAt(exchanges[1..], i - 1, t);
      m := |first| + n;
    }
  }

  lemma {:induction false} EndsLeaveRoom(exchanges: seq<Exchange>, i: nat, j: nat)
    requires i < j < |exchanges|
    ensures EndOf(exchanges, i) <= EndOf(exchanges, j) - |exchanges[j].Turns()|
  {
    assert exchanges[1..][j - 1] == exchanges[j];
    if i == 0 {
      EndIsLater(exchanges[1..], j - 1);
    } else {
      EndsLeaveRoom(exchanges[1..], i - 1, j - 1);
    }
  }

  lemma {:induction false} EndIsLater(exchanges: seq<Exchange>, j: nat)
    requires j < |exchanges|
    ensures |exchanges[j].Turns()| <= EndOf(exchanges, j)
  {
    if j > 0 {
      assert exchanges[1..][j - 1] == exchanges[j];
      EndIsLater(exchanges[1..], j - 1);
    }
  }

  /** Two exchanges of one pairing share no turn. */
  lemma ExchangesShareNoTurn(exchanges: seq<Exchange>, i: nat, j: nat, t: Turn)
    requires i < j < |exchanges| && DistinctIds(Flatten(exchanges))
    ensures !(t in exchanges[i].Turns() && t in exchanges[j].Turns())
  {
    if t in exchanges[i].Turns() {
      var m := TurnAt(exchanges, i, t);
      forall u <- exchanges[j].Turns() ensures u.id != t.id {
        var n := TurnAt(exchanges, j, u);
        EndsLeaveRoom(exchanges, i, j);
        assert m < n;
      }
    }
  }

  // ---- growth: a longer conversation keeps all exchanges but the last ----

  /** All of `a` but its last element is at the front of `b`. */
  predicate AllButLast(a: seq<Exchange>, b: seq<Exchange>) { a == [] || a[..|a| - 1] <= b }

  lemma AllButLastBehind(front: seq<Exchange>, a: seq<Exchange>, b: seq<Exchange>)
    requires AllButLast(a, b)
    ensures AllButLast(front + a, front + b)
  {
    if a != [] { assert (front + a)[..|front + a| - 1] == front + a[..|a| - 1]; }
  }

  lemma {:induction false} PairFromGrows(pending: Option<Turn>, a: seq<Turn>, b: seq<Turn>)
    ensures AllButLast(PairFrom(pending, a), PairFrom(pending, a + b))
    decreases |a|
  {
    if a != [] {
      var s := Take(pending, a[0]);
      assert (a + b)[0] == a[0] && (a + b)[1..] == a[1..] + b;
      PairFromGrows(s.pending, a[1..], b);
      AllButLastBehind(s.done, PairFrom(s.pending, a[1..]), PairFrom(s.pending, a[1..] + b));
    }
  }

  ghost predicate KeysUpTo(turns: seq<Turn>, k: int) { forall t <- turns :: Key(t) <= k }
  ghost predicate KeysFrom(turns: seq<Turn>, k: int) { forall t <- turns :: Key(t) >= k }

  lemma {:induction false} InsertInFront(t: Turn, a: seq<Turn>, b: seq<Turn>)
    requires KeysFrom(b, Key(t))
    ensures Insert(t, a + b) == Insert(t, a) + b
  {
    if a == [] {
      assert a + b == b;
      if b != [] { assert b[0] in b; }
    } else {
      assert (a + b)[0] == a[0] && (a + b)[1..] == a[1..] + b;
      InsertInFront(t, a[1..], b);
    }
  }

  /** Turns appended with larger sequence numbers stay behind. */
  lemma {:induction false} SortedGrows(a: seq<Turn>, b: seq<Turn>, k: int)
    requires KeysUpTo(a, k) && KeysFrom(b, k)
    ensures Sorted(a + b) == Sorted(a) + Sorted(b)
  {
    if a == [] {
      assert a + b == b && Sorted(a) + Sorted(b) == Sorted(b);
    } else {
      assert (a + b)[0] == a[0] && (a + b)[1..] == a[1..] + b;
      assert a[0] in a && forall t <- a[1..] :: t in a;
      SortedGrows(a[1..], b, k);
      SortedMembers(b);
      forall t <- Sorted(b) ensures Key(t) >= Key(a[0]) { assert t in multiset(b); }
      InsertInFront(a[0], Sorted(a[1..]), Sorted(b));
    }
  }

  lemma {:induction false} SpokenConcat(a: seq<Turn>, b: seq<Turn>)
    ensures Spoken(a + b) == Spoken(a) + Spoken(b)
    ensures forall t <- Spoken(a) :: t in a
  {
    if a == [] {
      assert a + b == b;
    } else {
      assert (a + b)[0] == a[0] && (a + b)[1..] == a[1..] + b;
      SpokenConcat(a[1..], b);
    }
  }

  /** When turns are appended, all exchanges but the last stay exactly as they were. */
  lemma PairedGrows(a: seq<Turn>, b: seq<Turn>, k: int)
    requires KeysUpTo(a, k) && KeysFrom(b, k)
    ensures AllButLast(Paired(a), Paired(a + b))
  {
    SpokenConcat(a, b);
    SpokenConcat(b, []);
    assert b + [] == b;
    SortedGrows(Spoken(a), Spoken(b), k);
    PairFromGrows(None, Ordered(a), Ordered(b));
  }
}
