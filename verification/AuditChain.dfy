/**
 The audit hash chain (backend/services/audit_service.py:107-202, 432-480): what `log_audit_event` appends,
 `verify_audit_chain` accepts, and what the last hash says about the rows before it.

 SHA-256 and the rendering of a time are parameters. Of a row the model keeps what the hash covers, and the outcome for
 all that it does not.
 */
module AuditChain {
  import opened Text

  datatype Row = Row(user: string, action: string, resource: Option<string>, outcome: string, at: int, hash: string)

  datatype Event = Event(user: string, action: string, resource: Option<string>, outcome: string, at: int)

  const GENESIS := "GENESIS"

  function Shown(resource: Option<string>): string {
    if resource.Some? && resource.value != "" then resource.value else "none"
  }

  /** The text that is hashed. */
  function Covered(prev: string, action: string, resource: string, time: string): string {
    prev + ":" + action + ":" + resource + ":" + time
  }

  /** Action and resource as the hash has them, with nothing to tell where the one ends. */
  function Joined(action: string, resource: string): string { action + ":" + resource }

  datatype Crypto = Crypto(hash: string -> string, iso: int -> string) {
    function Chain(prev: string, action: string, resource: Option<string>, at: int): string {
      hash(Covered(prev, action, Shown(resource), iso(at)))
    }
  }

  predicate NoColon(s: string) { ':' !in s }

  function Colons(s: string): nat {
    if s == "" then 0 else Colons(s[..|s| - 1]) + (if s[|s| - 1] == ':' then 1 else 0)
  }

  /** SHA-256 in hexadecimal without collisions, and ISO times with an offset: three colons each. */
  ghost predicate Sound(c: Crypto) {
    && (forall s, t :: c.hash(s) == c.hash(t) ==> s == t)
    && (forall s :: NoColon(c.hash(s)) && c.hash(s) != GENESIS && c.hash(s) != "")
    && (forall x, y :: c.iso(x) == c.iso(y) ==> x == y)
    && (forall x :: Colons(c.iso(x)) == 3)
  }

  // ---- verify_audit_chain ----

  function PrevHash(logs: seq<Row>, i: nat): string
    requires i <= |logs|
  {
    if i == 0 then GENESIS else logs[i - 1].hash
  }

  predicate Holds(c: Crypto, logs: seq<Row>, i: nat)
    requires i < |logs|
  {
    logs[i].hash == c.Chain(PrevHash(logs, i), logs[i].action, logs[i].resource, logs[i].at)
  }

  predicate Verifies(c: Crypto, logs: seq<Row>) {
    forall i :: 0 <= i < |logs| ==> Holds(c, logs, i)
  }

  datatype Status = Empty | Valid | Tampered

  /** `logs` is the answer to the query: the rows of the user, oldest first, cut at the limit. */
  method VerifyAuditChain(c: Crypto, logs: seq<Row>) returns (status: Status, verified: nat, errors: seq<nat>)
    ensures status.Empty? <==> logs == []
    ensures status.Tampered? <==> !Verifies(c, logs)
    ensures verified == |logs|
    ensures forall i: nat :: i in errors <==> i < |logs| && !Holds(c, logs, i)
    ensures forall k, l :: 0 <= k < l < |errors| ==> errors[k] < errors[l]
  {
    errors := [];
    if |logs| == 0 { return Empty, 0, errors; }
    var previous := GENESIS;
    var i := 0;
    while i < |logs|
      invariant 0 <= i <= |logs| && previous == PrevHash(logs, i)
      invariant forall k: nat :: k in errors <==> k < i && !Holds(c, logs, k)
      invariant forall k, l :: 0 <= k < l < |errors| ==> errors[k] < errors[l]
    {
      var expected := c.Chain(previous, logs[i].action, logs[i].resource, logs[i].at);
      if logs[i].hash != expected {
        assert forall k :: 0 <= k < |errors| ==> errors[k] in errors;
        errors := errors + [i];
      }
      previous := logs[i].hash;
      i := i + 1;
    }
    if errors != [] { assert errors[0] in errors; }
    status := if errors == [] then Valid else Tampered;
    verified := |logs|;
  }

  // ---- log_audit_event ----

  /** The latest of the first `n` rows of the user; of two of the same time, which the query may break either way, the newer. */
  function Latest(rows: seq<Row>, n: nat, user: string): Option<nat>
    requires n <= |rows|
    ensures var r := Latest(rows, n, user);
      r.Some? ==> r.value < n && rows[r.value].user == user
  {
    if n == 0 then None
    else
      var before := Latest(rows, n - 1, user);
      if rows[n - 1].user == user && (before.None? || rows[before.value].at <= rows[n - 1].at) then Some(n - 1) else before
  }

  function Previous(rows: seq<Row>, user: string): string {
    var last := Latest(rows, |rows|, user);
    if last.Some? && rows[last.value].hash != "" then rows[last.value].hash else GENESIS
  }

  function Entry(c: Crypto, prev: string, e: Event): Row {
    Row(e.user, e.action, e.resource, e.outcome, e.at, c.Chain(prev, e.action, e.resource, e.at))
  }

  class AuditTable {
    const crypto: Crypto
    var rows: seq<Row>

    constructor (crypto: Crypto)
      ensures rows == [] && this.crypto == crypto
    {
      this.crypto, rows := crypto, [];
    }

    method LogAuditEvent(e: Event) returns (row: Row)
      modifies this
      ensures row == Entry(crypto, Previous(old(rows), e.user), e)
      ensures rows == old(rows) + [row]
    {
      var previous := GENESIS;
      var last := Latest(rows, |rows|, e.user);
      if last.Some? && rows[last.value].hash != "" { previous := rows[last.value].hash; }
      row := Row(e.user, e.action, e.resource, e.outcome, e.at, crypto.Chain(previous, e.action, e.resource, e.at));
      rows := rows + [row];
    }
  }

  // ---- honest logs verify ----

  /** The table after the first `n` events. */
  function Logged(c: Crypto, events: seq<Event>, n: nat): (rows: seq<Row>)
    requires n <= |events|
    ensures |rows| == n
  {
    if n == 0 then []
    else
      var rows := Logged(c, events, n - 1);
      rows + [Entry(c, Previous(rows, events[n - 1].user), events[n - 1])]
  }

  function OfUser(rows: seq<Row>, user: string): seq<Row> {
    if rows == [] then []
    else OfUser(rows[..|rows| - 1], user) + (if rows[|rows| - 1].user == user then [rows[|rows| - 1]] else [])
  }

  ghost predicate Increasing(rows: seq<Row>) {
    forall i, j :: 0 <= i < j < |rows| ==> rows[i].at < rows[j].at
  }

  /** Every user's events come with strictly increasing times; users interleave freely. */
  ghost predicate Monotone(events: seq<Event>) {
    forall i, j :: 0 <= i < j < |events| && events[i].user == events[j].user ==> events[i].at < events[j].at
  }

  lemma {:induction false} LoggedRow(c: Crypto, events: seq<Event>, n: nat, k: nat)
    requires k < n <= |events|
    ensures var r := Logged(c, events, n)[k]; r.user == events[k].user && r.at == events[k].at
    ensures Logged(c, events, n)[k] == Entry(c, Previous(Logged(c, events, k), events[k].user), events[k])
  {
    if k < n - 1 { LoggedRow(c, events, n - 1, k); }
  }

  lemma {:induction false} LatestIgnoresLater(rows: seq<Row>, more: seq<Row>, n: nat, user: string)
    requires n <= |rows|
    ensures Latest(rows + more, n, user) == Latest(rows, n, user)
  {
    if n > 0 { LatestIgnoresLater(rows, more, n - 1, user); }
  }

  /** With increasing times the latest row of the user is the last of the user's log. */
  lemma {:induction false} LatestIsLast(rows: seq<Row>, user: string)
    requires forall i, j :: 0 <= i < j < |rows| && rows[i].user == user && rows[j].user == user ==> rows[i].at < rows[j].at
    ensures var log := OfUser(rows, user); var last := Latest(rows, |rows|, user);
      (last.None? <==> log == []) && (last.Some? ==> rows[last.value] == log[|log| - 1])
  {
    if rows != [] {
      var front, end := rows[..|rows| - 1], rows[|rows| - 1];
      LatestIsLast(front, user);
      LatestIgnoresLater(front, [end], |front|, user);
      assert front + [end] == rows;
    }
  }

  lemma {:induction false} OfUserKeeps(rows: seq<Row>, user: string, r: Row)
    ensures r in OfUser(rows, user) <==> r in rows && r.user == user
  {
    if rows != [] {
      OfUserKeeps(rows[..|rows| - 1], user, r);
      assert rows == rows[..|rows| - 1] + [rows[|rows| - 1]];
    }
  }

  lemma AddedRowVerifies(c: Crypto, log: seq<Row>, e: Event)
    requires Verifies(c, log)
    ensures Verifies(c, log + [Entry(c, PrevHash(log, |log|), e)])
  {
    var longer := log + [Entry(c, PrevHash(log, |log|), e)];
    forall i | 0 <= i < |longer| ensures Holds(c, longer, i) {
      assert PrevHash(longer, i) == PrevHash(log, i);
      if i < |log| { assert Holds(c, log, i); }
    }
  }

  /** The time of an event is later than those of the user's rows so far. */
  lemma EventIsLater(c: Crypto, events: seq<Event>, n: nat)
    requires Monotone(events) && n < |events|
    ensures forall r <- OfUser(Logged(c, events, n), events[n].user) :: r.at < events[n].at
  {
    var rows := Logged(c, events, n);
    forall r <- OfUser(rows, events[n].user) ensures r.at < events[n].at {
      OfUserKeeps(rows, events[n].user, r);
      var i :| 0 <= i < n && rows[i] == r;
      LoggedRow(c, events, n, i);
    }
  }

  lemma PreviousIsLast(c: Crypto, events: seq<Event>, n: nat, user: string)
    requires Sound(c) && Monotone(events) && n <= |events|
    requires Verifies(c, OfUser(Logged(c, events, n), user))
    ensures var log := OfUser(Logged(c, events, n), user);
      Previous(Logged(c, events, n), user) == PrevHash(log, |log|)
  {
    var rows := Logged(c, events, n);
    forall k | 0 <= k < n ensures rows[k].user == events[k].user && rows[k].at == events[k].at {
      LoggedRow(c, events, n, k);
    }
    LatestIsLast(rows, user);
    HashesAreNotEmpty(c, OfUser(rows, user));
  }

  lemma OfUserAfter(rows: seq<Row>, row: Row, user: string)
    ensures OfUser(rows + [row], user) == if row.user == user then OfUser(rows, user) + [row] else OfUser(rows, user)
  {
    assert (rows + [row])[..|rows|] == rows;
  }

  /**
   However the users' events interleave, each user's log is in order of time and verifies; so does every prefix of it,
   which is what a limit leaves.
   */
  lemma {:induction false} HonestLogsVerify(c: Crypto, events: seq<Event>, n: nat, user: string)
    requires Sound(c) && Monotone(events) && n <= |events|
    ensures var log := OfUser(Logged(c, events, n), user); Verifies(c, log) && Increasing(log)
  {
    if n > 0 {
      HonestLogsVerify(c, events, n - 1, user);
      NextEventVerifies(c, events, n - 1, user);
    }
  }

  lemma NextEventVerifies(c: Crypto, events: seq<Event>, n: nat, user: string)
    requires Sound(c) && Monotone(events) && n < |events|
    requires var log := OfUser(Logged(c, events, n), user); Verifies(c, log) && Increasing(log)
    ensures var log := OfUser(Logged(c, events, n + 1), user); Verifies(c, log) && Increasing(log)
  {
    var e, rows := events[n], Logged(c, events, n);
    if e.user == user {
      EventIsLater(c, events, n);
      PreviousIsLast(c, events, n, user);
    }
    EventVerifies(c, rows, e, user);
    assert Logged(c, events, n + 1) == rows + [Entry(c, Previous(rows, e.user), e)];
  }

  lemma EventVerifies(c: Crypto, rows: seq<Row>, e: Event, user: string)
    requires Verifies(c, OfUser(rows, user)) && Increasing(OfUser(rows, user))
    requires e.user == user ==> Previous(rows, user) == PrevHash(OfUser(rows, user), |OfUser(rows, user)|)
    requires e.user == user ==> forall r <- OfUser(rows, user) :: r.at < e.at
    ensures var after := OfUser(rows + [Entry(c, Previous(rows, e.user), e)], user);
      Verifies(c, after) && Increasing(after)
  {
    var row := Entry(c, Previous(rows, e.user), e);
    OfUserAfter(rows, row, user);
    if e.user == user {
      AddedRowVerifies(c, OfUser(rows, user), e);
      AddedRowIncreases(OfUser(rows, user), row);
    }
  }

  lemma AddedRowIncreases(log: seq<Row>, row: Row)
    requires Increasing(log) && forall r <- log :: r.at < row.at
    ensures Increasing(log + [row])
  {
    forall i | 0 <= i < |log| ensures log[i].at < row.at { assert log[i] in log; }
  }

  lemma HashesAreNotEmpty(c: Crypto, log: seq<Row>)
    requires Sound(c) && Verifies(c, log)
    ensures log != [] ==> log[|log| - 1].hash != GENESIS
    ensures log != [] ==> log[|log| - 1].hash != ""
  {
    if log != [] { assert Holds(c, log, |log| - 1); }
  }

  lemma PrefixVerifies(c: Crypto, log: seq<Row>, n: nat)
    requires Verifies(c, log) && n <= |log|
    ensures Verifies(c, log[..n])
  {
    forall i | 0 <= i < n ensures Holds(c, log[..n], i) { assert Holds(c, log, i); }
  }

  // ---- the hashed text can be read back ----

  lemma {:induction false} ColonsOfConcat(s: string, t: string)
    ensures Colons(s + t) == Colons(s) + Colons(t)
  {
    if t == "" {
      assert s + t == s;
    } else {
      ColonsOfConcat(s, t[..|t| - 1]);
      assert (s + t)[..|s + t| - 1] == s + t[..|t| - 1];
    }
  }

  lemma {:induction false} NoColonCounts(s: string)
    requires NoColon(s)
    ensures Colons(s) == 0
  {
    if s != "" { NoColonCounts(s[..|s| - 1]); }
  }

  lemma LongerTailHasMore(whole: string, k: nat, l: nat)
    requires l < k <= |whole| && whole[k - 1] == ':'
    ensures Colons(whole[l..]) > Colons(whole[k..])
  {
    var colon := whole[k - 1..k];
    assert whole[l..] == whole[l..k - 1] + (colon + whole[k..]);
    ColonsOfConcat(whole[l..k - 1], colon + whole[k..]);
    ColonsOfConcat(colon, whole[k..]);
    assert colon[..0] == "";
    assert Colons(colon) == 1;
  }

  lemma BackIsNotLonger(a: string, b: string, x: string, y: string)
    requires a + ":" + x == b + ":" + y && Colons(x) == Colons(y)
    ensures |a| <= |b|
  {
    var whole := a + ":" + x;
    assert x == whole[|a| + 1..] && y == whole[|b| + 1..];
    assert whole[|a|] == ':';
    if |b| < |a| { LongerTailHasMore(whole, |a| + 1, |b| + 1); }
  }

  /** What stands behind a colon is settled by the number of colons in it. */
  lemma CutFromBack(a: string, b: string, x: string, y: string)
    requires a + ":" + x == b + ":" + y && Colons(x) == Colons(y)
    ensures a == b && x == y
  {
    BackIsNotLonger(a, b, x, y);
    BackIsNotLonger(b, a, y, x);
    var whole := a + ":" + x;
    assert x == whole[|a| + 1..] && y == whole[|b| + 1..];
    assert a == whole[..|a|] && b == whole[..|b|];
  }

  lemma FrontIsNotLonger(a: string, b: string, x: string, y: string)
    requires a + (":" + x) == b + (":" + y) && NoColon(b)
    ensures |b| <= |a|
  {
    var whole := a + (":" + x);
    assert whole[|a|] == ':';
    forall i | 0 <= i < |b| ensures whole[i] != ':' { assert whole[i] == b[i] && b[i] in b; }
  }

  /** And what stands before the first colon by having none. */
  lemma CutFromFront(a: string, b: string, x: string, y: string)
    requires a + (":" + x) == b + (":" + y) && NoColon(a) && NoColon(b)
    ensures a == b && x == y
  {
    FrontIsNotLonger(a, b, x, y);
    FrontIsNotLonger(b, a, y, x);
    var whole := a + (":" + x);
    assert a == whole[..|a|] && b == whole[..|b|];
    assert x == whole[|a| + 1..] && y == whole[|b| + 1..];
  }

  lemma CoveredInFront(prev: string, action: string, resource: string, time: string)
    ensures prev + ":" + action + ":" + resource == prev + (":" + Joined(action, resource))
    ensures Covered(prev, action, resource, time) == prev + ":" + Joined(action, resource) + ":" + time
  {}

  /** Predecessor, time, and action and resource together can be read off the text, whatever colons these have. */
  lemma CoveredBinds(p: string, a: string, r: string, t: string, p': string, a': string, r': string, t': string)
    requires NoColon(p) && NoColon(p') && Colons(t) == Colons(t')
    ensures Covered(p, a, r, t) == Covered(p', a', r', t') <==> p == p' && Joined(a, r) == Joined(a', r') && t == t'
  {
    CoveredInFront(p, a, r, t);
    CoveredInFront(p', a', r', t');
    if Covered(p, a, r, t) == Covered(p', a', r', t') {
      CutFromBack(p + ":" + a + ":" + r, p' + ":" + a' + ":" + r', t, t');
      CutFromFront(p, p', Joined(a, r), Joined(a', r'));
    }
  }

  /** Some of what the one has in its resource, the other has at the end of its action. */
  ghost predicate Shifted(a: string, r: string, a': string, r': string) {
    exists moved :: a' == a + ":" + moved && r == moved + ":" + r'
  }

  lemma ShiftsJoin(a: string, r: string, a': string, r': string, moved: string)
    requires a' == a + ":" + moved && r == moved + ":" + r'
    ensures Joined(a, r) == Joined(a', r')
  {
    assert a + ":" + (moved + ":" + r') == (a + ":" + moved) + ":" + r';
  }

  lemma LongerActionIsShifted(a: string, r: string, a': string, r': string)
    requires Joined(a, r) == Joined(a', r') && |a| < |a'|
    ensures Shifted(a, r, a', r')
  {
    var whole := Joined(a, r);
    var moved := whole[|a| + 1..|a'|];
    assert whole[|a|] == ':' && whole[|a'|] == ':';
    assert a == whole[..|a|] && a' == whole[..|a'|];
    assert r == whole[|a| + 1..] && r' == whole[|a'| + 1..];
    assert a' == a + ":" + moved && r == moved + ":" + r';
  }

  /** Two pairs that the hash cannot tell apart are equal, or one is the other with a colon moved. */
  lemma JoinedIff(a: string, r: string, a': string, r': string)
    ensures Joined(a, r) == Joined(a', r') <==> (a == a' && r == r') || Shifted(a, r, a', r') || Shifted(a', r', a, r)
  {
    if moved :| a' == a + ":" + moved && r == moved + ":" + r' { ShiftsJoin(a, r, a', r', moved); }
    if moved :| a == a' + ":" + moved && r' == moved + ":" + r { ShiftsJoin(a', r', a, r, moved); }
    if Joined(a, r) == Joined(a', r') {
      if |a| < |a'| { LongerActionIsShifted(a, r, a', r'); }
      if |a'| < |a| { LongerActionIsShifted(a', r', a, r); }
      if |a| == |a'| {
        assert a == Joined(a, r)[..|a|] && r == Joined(a, r)[|a| + 1..];
        assert a' == Joined(a', r')[..|a'|] && r' == Joined(a', r')[|a'| + 1..];
      }
    }
  }

  /** Without a colon in the resources the pair itself can be read off. */
  lemma JoinedIsInjective(a: string, r: string, a': string, r': string)
    requires Joined(a, r) == Joined(a', r') && NoColon(r) && NoColon(r')
    ensures a == a' && r == r'
  {
    NoColonCounts(r);
    NoColonCounts(r');
    CutFromBack(a, a', r, r');
  }

  /** So all four parts can be then; the action may have colons of its own. */
  lemma CoveredIsInjective(p: string, a: string, r: string, t: string, p': string, a': string, r': string, t': string)
    requires Covered(p, a, r, t) == Covered(p', a', r', t')
    requires NoColon(p) && NoColon(p') && NoColon(r) && NoColon(r') && Colons(t) == Colons(t')
    ensures p == p' && a == a' && r == r' && t == t'
  {
    CoveredBinds(p, a, r, t, p', a', r', t');
    JoinedIsInjective(a, r, a', r');
  }

  // ---- what the last hash binds ----

  predicate Plain(logs: seq<Row>) {
    forall i :: 0 <= i < |logs| ==> NoColon(Shown(logs[i].resource))
  }

  /** The rows differ in nothing that the hash can tell. */
  predicate SameToHash(a: Row, b: Row) {
    Joined(a.action, Shown(a.resource)) == Joined(b.action, Shown(b.resource)) && a.at == b.at
  }

  lemma PrevHasNoColon(c: Crypto, logs: seq<Row>, n: nat)
    requires Sound(c) && Verifies(c, logs) && n <= |logs|
    ensures NoColon(PrevHash(logs, n))
    ensures n > 0 ==> PrevHash(logs, n) != GENESIS
  {
    if n > 0 { assert Holds(c, logs, n - 1); }
  }

  /** Equal hashes come from equal predecessors and equal rows, as far as the hash goes. */
  lemma ChainBinds(c: Crypto, p: string, a: string, r: Option<string>, x: int, q: string, b: string, s: Option<string>, y: int)
    requires Sound(c) && NoColon(p) && NoColon(q)
    ensures c.Chain(p, a, r, x) == c.Chain(q, b, s, y) <==> p == q && Joined(a, Shown(r)) == Joined(b, Shown(s)) && x == y
  {
    CoveredBinds(p, a, Shown(r), c.iso(x), q, b, Shown(s), c.iso(y));
  }

  lemma EqualHashes(c: Crypto, a: seq<Row>, n: nat, b: seq<Row>, m: nat)
    requires Sound(c) && Verifies(c, a) && Verifies(c, b) && n < |a| && m < |b|
    ensures a[n].hash == b[m].hash <==> PrevHash(a, n) == PrevHash(b, m) && SameToHash(a[n], b[m])
  {
    PrevHasNoColon(c, a, n);
    PrevHasNoColon(c, b, m);
    assert Holds(c, a, n) && Holds(c, b, m);
    ChainBinds(c, PrevHash(a, n), a[n].action, a[n].resource, a[n].at, PrevHash(b, m), b[m].action, b[m].resource, b[m].at);
  }

  /**
   Two logs that verify end in the same hash exactly when they have the same length and agree on every time and every
   action and resource joined.
   */
  lemma {:induction false} LastHashBinds(c: Crypto, a: seq<Row>, n: nat, b: seq<Row>, m: nat)
    requires Sound(c) && Verifies(c, a) && Verifies(c, b) && 0 < n <= |a| && 0 < m <= |b|
    ensures a[n - 1].hash == b[m - 1].hash <==> n == m && forall i :: 0 <= i < n ==> SameToHash(a[i], b[i])
  {
    EqualHashes(c, a, n - 1, b, m - 1);
    if PrevHash(a, n - 1) == PrevHash(b, m - 1) { SameStart(c, a, n - 1, b, m - 1); }
    if n > 1 && m > 1 { LastHashBinds(c, a, n - 1, b, m - 1); }
  }

  /** Where no resource id has a colon, they agree on actions and resources themselves. */
  lemma LastHashBindsPlain(c: Crypto, a: seq<Row>, b: seq<Row>)
    requires Sound(c) && Verifies(c, a) && Verifies(c, b) && Plain(a) && Plain(b)
    requires a != [] && b != [] && a[|a| - 1].hash == b[|b| - 1].hash
    ensures |a| == |b|
    ensures forall i :: 0 <= i < |a| ==>
              a[i].action == b[i].action && Shown(a[i].resource) == Shown(b[i].resource) && a[i].at == b[i].at
  {
    LastHashBinds(c, a, |a|, b, |b|);
    forall i | 0 <= i < |a| ensures a[i].action == b[i].action && Shown(a[i].resource) == Shown(b[i].resource) {
      assert SameToHash(a[i], b[i]);
      JoinedIsInjective(a[i].action, Shown(a[i].resource), b[i].action, Shown(b[i].resource));
    }
  }

  lemma SameStart(c: Crypto, a: seq<Row>, n: nat, b: seq<Row>, m: nat)
    requires Sound(c) && Verifies(c, a) && Verifies(c, b) && n <= |a| && m <= |b| && PrevHash(a, n) == PrevHash(b, m)
    ensures n == 0 <==> m == 0
  {
    PrevHasNoColon(c, a, n);
    PrevHasNoColon(c, b, m);
  }

  // ---- tampering ----

  /**
   A row changed in place, its hash and its place in the order kept, is reported, alone, unless its time and its action and
   resource joined are what they were.
   */
  lemma ChangedRowIsReported(c: Crypto, logs: seq<Row>, i: nat, row: Row)
    requires Sound(c) && Verifies(c, logs) && i < |logs| && row.hash == logs[i].hash
    ensures var changed := logs[i := row];
      && (Holds(c, changed, i) <==> SameToHash(row, logs[i]))
      && (forall k :: 0 <= k < |logs| && k != i ==> Holds(c, changed, k))
  {
    var changed := logs[i := row];
    forall k | 0 <= k < |logs| ensures PrevHash(changed, k) == PrevHash(logs, k) {}
    assert Holds(c, logs, i);
    PrevHasNoColon(c, logs, i);
    var p := PrevHash(logs, i);
    ChainBinds(c, p, row.action, row.resource, row.at, p, logs[i].action, logs[i].resource, logs[i].at);
    forall k | 0 <= k < |logs| && k != i ensures Holds(c, changed, k) { assert Holds(c, logs, k); }
  }

  /** So a change goes unreported exactly when it keeps the time and changes neither part, or moves a colon. */
  lemma UnreportedChangeIff(c: Crypto, logs: seq<Row>, i: nat, row: Row)
    requires Sound(c) && Verifies(c, logs) && i < |logs| && row.hash == logs[i].hash
    ensures var was := logs[i]; var a, r, b, s := row.action, Shown(row.resource), was.action, Shown(was.resource);
      Verifies(c, logs[i := row]) <==> row.at == was.at && ((a == b && r == s) || Shifted(a, r, b, s) || Shifted(b, s, a, r))
  {
    ChangedRowIsReported(c, logs, i, row);
    JoinedIff(row.action, Shown(row.resource), logs[i].action, Shown(logs[i].resource));
  }

  /** No two hashes of a log repeat, the start included. */
  lemma HashesDiffer(c: Crypto, logs: seq<Row>, n: nat, m: nat)
    requires Sound(c) && Verifies(c, logs) && n < m <= |logs|
    ensures PrevHash(logs, n) != PrevHash(logs, m)
  {
    PrevHasNoColon(c, logs, m);
    if n > 0 { LastHashBinds(c, logs, n, logs, m); }
  }

  /** A row does not hold behind another predecessor. */
  lemma OtherPredecessor(c: Crypto, p: string, q: string, r: Row)
    requires Sound(c) && NoColon(p) && NoColon(q)
    requires r.hash == c.Chain(p, r.action, r.resource, r.at) == c.Chain(q, r.action, r.resource, r.at)
    ensures p == q
  {
    ChainBinds(c, p, r.action, r.resource, r.at, q, r.action, r.resource, r.at);
  }

  /** Taking one row out goes unnoticed exactly when it is the last. */
  lemma RemovedRowIsReported(c: Crypto, logs: seq<Row>, i: nat)
    requires Sound(c) && Verifies(c, logs) && i < |logs|
    ensures Verifies(c, logs[..i] + logs[i + 1..]) <==> i == |logs| - 1
  {
    var left := logs[..i] + logs[i + 1..];
    if i == |logs| - 1 {
      PrefixVerifies(c, logs, i);
      assert left == logs[..i];
    } else {
      assert Holds(c, logs, i + 1) && left[i] == logs[i + 1];
      assert PrevHash(left, i) == PrevHash(logs, i);
      HashesDiffer(c, logs, i, i + 1);
      PrevHasNoColon(c, logs, i);
      PrevHasNoColon(c, logs, i + 1);
      if Holds(c, left, i) { OtherPredecessor(c, PrevHash(logs, i), PrevHash(logs, i + 1), logs[i + 1]); }
    }
  }

  /**
   An event that read its predecessor before other rows of the user came in, or whose clock was behind, lands with the
   hash of the first `p` rows as predecessor in position `k`. The log verifies exactly when both are the end of it, so
   concurrent or backdated events of one user are reported as tampering.
   */
  lemma ForkIsReported(c: Crypto, logs: seq<Row>, p: nat, k: nat, e: Event)
    requires Sound(c) && Verifies(c, logs) && p <= |logs| && k <= |logs|
    ensures Verifies(c, logs[..k] + [Entry(c, PrevHash(logs, p), e)] + logs[k..]) <==> p == k == |logs|
  {
    var row := Entry(c, PrevHash(logs, p), e);
    var longer := logs[..k] + [row] + logs[k..];
    assert longer[k] == row;
    assert PrevHash(longer, k) == PrevHash(logs, k);
    PrevHasNoColon(c, logs, p);
    PrevHasNoColon(c, logs, k);
    if p == k == |logs| {
      AddedRowVerifies(c, logs, e);
      assert longer == logs + [row];
    } else if Verifies(c, longer) {
      assert Holds(c, longer, k);
      OtherPredecessor(c, PrevHash(logs, k), PrevHash(logs, p), row);
      if p < k { HashesDiffer(c, logs, p, k); }
      if k < p { HashesDiffer(c, logs, k, p); }
      // so p == k, and the row that followed has lost its predecessor
      assert longer[k + 1] == logs[k] && Holds(c, longer, k + 1) && Holds(c, logs, k);
      OtherPredecessor(c, row.hash, PrevHash(logs, k), logs[k]);
      OwnHashIsNew(c, logs, k, row.hash, e);
    }
  }

  /** The hash of an event is not that of its predecessor. */
  lemma OwnHashIsNew(c: Crypto, logs: seq<Row>, k: nat, hash: string, e: Event)
    requires Sound(c) && Verifies(c, logs) && k <= |logs|
    requires hash == c.Chain(PrevHash(logs, k), e.action, e.resource, e.at)
    ensures hash != PrevHash(logs, k)
  {
    if k > 0 && hash == PrevHash(logs, k) {
      assert Holds(c, logs, k - 1);
      PrevHasNoColon(c, logs, k);
      PrevHasNoColon(c, logs, k - 1);
      var r := logs[k - 1];
      ChainBinds(c, PrevHash(logs, k), e.action, e.resource, e.at, PrevHash(logs, k - 1), r.action, r.resource, r.at);
      HashesDiffer(c, logs, k - 1, k);
    }
  }

  /** The hash of the first event of a user, in full. */
  lemma FirstHash(c: Crypto, rows: seq<Row>, e: Event)
    requires forall r <- rows :: r.user != e.user
    ensures Entry(c, Previous(rows, e.user), e).hash
         == c.hash("GENESIS:" + e.action + ":" + (if e.resource.None? || e.resource == Some("") then "none" else e.resource.value)
                   + ":" + c.iso(e.at))
  {
    NoRowOfUser(rows, |rows|, e.user);
    var r := Shown(e.resource);
    assert "GENESIS" + ":" + e.action + ":" + r + ":" + c.iso(e.at) == "GENESIS:" + e.action + ":" + r + ":" + c.iso(e.at);
  }

  lemma {:induction false} NoRowOfUser(rows: seq<Row>, n: nat, user: string)
    requires n <= |rows| && forall r <- rows :: r.user != user
    ensures Latest(rows, n, user).None?
  {
    if n > 0 { NoRowOfUser(rows, n - 1, user); }
  }

  // ---- what it does not bind ----

  /** Outcomes, and with them all columns that are not hashed, can be rewritten freely. */
  lemma OutcomeIsNotBound(c: Crypto, logs: seq<Row>, i: nat, outcome: string)
    requires i < |logs| && Verifies(c, logs)
    ensures Verifies(c, logs[i := logs[i].(outcome := outcome)])
  {
    var changed := logs[i := logs[i].(outcome := outcome)];
    forall k | 0 <= k < |logs| ensures Holds(c, changed, k) {
      assert Holds(c, logs, k) && PrevHash(changed, k) == PrevHash(logs, k);
    }
  }

  /** Colons in a resource id can be moved into the action without changing the hash. */
  lemma ColonsShift(c: Crypto, prev: string, action: string, left: string, right: string, at: int)
    requires right != ""
    ensures c.Chain(prev, action, Some(left + ":" + right), at) == c.Chain(prev, action + ":" + left, Some(right), at)
  {
    assert Covered(prev, action, left + ":" + right, c.iso(at)) == Covered(prev, action + ":" + left, right, c.iso(at));
  }
}
