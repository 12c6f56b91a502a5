/**
 Concurrent exact deduplication (backend/services/memory_service.py:455-472, 601-619, 776-838, 861-878, 1340-1357, 1465-1489) over
 the partial unique index on (user, namespace, content hash) of active memories (backend/models/memory.py:317-324), with
 the semantic layer off.

 Every request runs in a transaction of its own and gives up control between its statements, so the model takes one step
 per statement and lets any number of creators, updaters and deleters interleave. Statements read committed rows. An
 insert or update of an indexed key fails when another row holds the key for good, and waits while another transaction
 that has not ended makes it uncertain.
 */
module Dedup {
  import opened Text

  datatype Key = Key(user: string, namespace: string, hash: string)

  /** An open change of a row: the transaction and the indexed key after it, none for an inactive row. */
  datatype Change = Change(tx: nat, after: Option<Key>)

  /** A row with its committed key (none when inactive or not committed) and the open change, if any. */
  datatype Row = Row(committed: Option<Key>, open: Option<Change>)

  datatype Result = Returned(id: nat) | Finished | Failed

  /** A request and how far it has come; the transaction number is the request's own. */
  datatype Task =
    // create_memory
    | Checking(key: Key)
    | Inserting(key: Key)
    | Inserted(key: Key, id: nat)
    | Rechecking(key: Key)
    | Matched(key: Key, id: nat)      // found the row, about to count the access
    | Touched(key: Key, id: nat)
    | CreateDone(key: Key, result: Result)
    // update_memory of a memory to a new content hash; `asUser` is the caller, not necessarily the owner
    | Loading(id: nat, asUser: string, hash: string)
    | Colliding(id: nat, asUser: string, seen: Key, hash: string)
    | Rewriting(id: nat, seen: Key, hash: string)
    | Rewritten(id: nat)
    // delete_memory
    | Finding(id: nat)
    | Deleting(id: nat)
    | Deleted(id: nat)
    | ChangeDone(result: Result)

  datatype State = State(rows: map<nat, Row>, tasks: map<nat, Task>)

  datatype Event =
    | Advance(tx: nat, newId: nat)    // the request's next statement; `newId` is the id of a new row
    | Abort(tx: nat)                  // an exception outside the model, after the flush

  // ---- what statements see ----

  predicate Holds(rows: map<nat, Row>, id: nat, k: Key) { id in rows && rows[id].committed == Some(k) }

  /** The row could hold the key once the open transactions have ended. */
  predicate MayHold(rows: map<nat, Row>, id: nat, k: Key) {
    id in rows &&
    (rows[id].committed == Some(k) || (rows[id].open.Some? && rows[id].open.value.after == Some(k)))
  }

  /** `_find_by_hash`: the ids of the active rows with the key. */
  function Find(rows: map<nat, Row>, k: Key): set<nat> { set id | id in rows && Holds(rows, id, k) }

  /** The query asks for one row or none and raises on two. */
  ghost function OneOf(ids: set<nat>): nat
    requires ids != {}
  {
    var id :| id in ids; id
  }

  /** Another row holds the key and no open transaction can change that. */
  predicate Taken(rows: map<nat, Row>, id: nat, k: Key) {
    exists o <- rows :: o != id && Holds(rows, o, k) && rows[o].open.None?
  }

  /** Another row has the key, or is getting it, in an open transaction. */
  predicate Uncertain(rows: map<nat, Row>, id: nat, k: Key) {
    exists o <- rows :: o != id && MayHold(rows, o, k) && rows[o].open.Some?
  }

  /** The key of the row after an update to `hash`, which does not revive a deleted row. */
  function KeyAfter(row: Row, seen: Key, hash: string): Option<Key> {
    if hash == seen.hash then row.committed
    else match row.committed
      case None => None
      case Some(k) => Some(k.(hash := hash))
  }

  predicate Enabled(s: State, e: Event) {
    e.tx in s.tasks &&
    match e
    case Abort(tx) => s.tasks[tx].Inserted? || s.tasks[tx].Touched? || s.tasks[tx].Rewritten? || s.tasks[tx].Deleted?
    case Advance(tx, newId) =>
      match s.tasks[tx]
      case Inserting(k) => newId !in s.rows && !Uncertain(s.rows, newId, k)
      case Rewriting(id, seen, hash) =>
        && id in s.rows && s.rows[id].open.None?
        && var after := KeyAfter(s.rows[id], seen, hash);
        && (after.Some? ==> !Uncertain(s.rows, id, after.value))
      case Deleting(id) => id in s.rows && s.rows[id].open.None?
      case Inserted(_, id) => id in s.rows
      case Matched(_, id) => id in s.rows && s.rows[id].open.None?
      case Touched(_, id) => id in s.rows
      case Rewritten(id) => id in s.rows
      case Deleted(id) => id in s.rows
      case CreateDone(_, _) => false
      case ChangeDone(_) => false
      case _ => true
  }

  function Go(s: State, tx: nat, t: Task): State { s.(tasks := s.tasks[tx := t]) }

  function Open(s: State, id: nat, tx: nat, after: Option<Key>): State {
    s.(rows := s.rows[id := Row(if id in s.rows then s.rows[id].committed else None, Some(Change(tx, after)))])
  }

  function Commit(s: State, id: nat): State
    requires id in s.rows
  {
    if s.rows[id].open.None? then s
    else s.(rows := s.rows[id := Row(s.rows[id].open.value.after, None)])
  }

  function Rollback(s: State, id: nat): State {
    if id in s.rows then s.(rows := s.rows[id := s.rows[id].(open := None)]) else s
  }

  ghost function Apply(s: State, e: Event): State
    requires Enabled(s, e)
  {
    match e
    case Abort(tx) =>
      var t := s.tasks[tx];
      Go(Rollback(s, t.id), tx, if t.Inserted? || t.Touched? then CreateDone(t.key, Failed) else ChangeDone(Failed))
    case Advance(tx, newId) =>
      match s.tasks[tx]
      case Checking(k) =>
        var found := Find(s.rows, k);
        Go(s, tx, if found == {} then Inserting(k) else Matched(k, OneOf(found)))
      case Inserting(k) =>
        if Taken(s.rows, newId, k) then Go(s, tx, Rechecking(k))
        else Go(Open(s, newId, tx, Some(k)), tx, Inserted(k, newId))
      case Inserted(k, id) => Go(Commit(s, id), tx, CreateDone(k, Returned(id)))
      case Rechecking(k) =>
        var found := Find(s.rows, k);
        Go(s, tx, if found == {} then CreateDone(k, Failed) else Matched(k, OneOf(found)))
      case Matched(k, id) => Go(Open(s, id, tx, s.rows[id].committed), tx, Touched(k, id))
      case Touched(k, id) => Go(Commit(s, id), tx, CreateDone(k, Returned(id)))
      case Loading(id, asUser, hash) =>
        Go(s, tx, if id in s.rows && s.rows[id].committed.Some?
                  then Colliding(id, asUser, s.rows[id].committed.value, hash) else ChangeDone(Failed))
      case Colliding(id, asUser, seen, hash) =>
        var found := Find(s.rows, Key(asUser, seen.namespace, hash)) - {id};
        Go(s, tx, if hash != seen.hash && found != {} then ChangeDone(Failed) else Rewriting(id, seen, hash))
      case Rewriting(id, seen, hash) =>
        var after := KeyAfter(s.rows[id], seen, hash);
        if after.Some? && Taken(s.rows, id, after.value) then Go(s, tx, ChangeDone(Failed))
        else Go(Open(s, id, tx, after), tx, Rewritten(id))
      case Rewritten(id) => Go(Commit(s, id), tx, ChangeDone(Finished))
      case Finding(id) =>
        Go(s, tx, if id in s.rows && s.rows[id].committed.Some? then Deleting(id) else ChangeDone(Failed))
      case Deleting(id) => Go(Open(s, id, tx, None), tx, Deleted(id))
      case Deleted(id) => Go(Commit(s, id), tx, ChangeDone(Finished))
      case CreateDone(_, _) => s
      case ChangeDone(_) => s
  }

  // ---- the invariant ----

  /** At most one row can end up with a key, however the open transactions end. */
  ghost predicate UniqueKeys(rows: map<nat, Row>) {
    forall a, b, k: Key :: MayHold(rows, a, k) && MayHold(rows, b, k) ==> a == b
  }

  /** A request that has flushed owns the open change of its row; other requests own none. */
  ghost predicate OwnsChange(s: State, tx: nat)
    requires tx in s.tasks
  {
    match s.tasks[tx]
    case Inserted(k, id) => id in s.rows && s.rows[id] == Row(None, Some(Change(tx, Some(k))))
    case Touched(_, id) => id in s.rows && s.rows[id].open == Some(Change(tx, s.rows[id].committed))
    case Rewritten(id) => id in s.rows && s.rows[id].open.Some? && s.rows[id].open.value.tx == tx
    case Deleted(id) => id in s.rows && s.rows[id].open == Some(Change(tx, None))
    case _ => true
  }

  ghost predicate Ok(s: State) {
    && UniqueKeys(s.rows)
    && (forall tx <- s.tasks :: OwnsChange(s, tx))
  }

  lemma InsertKeepsUnique(rows: map<nat, Row>, id: nat, row: Row)
    requires UniqueKeys(rows)
    requires forall k: Key, o :: o != id && MayHold(rows, o, k) ==> !MayHold(rows[id := row], id, k)
    ensures UniqueKeys(rows[id := row])
  {
    var rows' := rows[id := row];
    forall a, b, k: Key | MayHold(rows', a, k) && MayHold(rows', b, k) ensures a == b {
      if a != id { assert MayHold(rows, a, k); }
      if b != id { assert MayHold(rows, b, k); }
    }
  }

  lemma ShrinkKeepsUnique(rows: map<nat, Row>, id: nat, row: Row)
    requires UniqueKeys(rows) && id in rows
    requires forall k: Key :: MayHold(rows[id := row], id, k) ==> MayHold(rows, id, k)
    ensures UniqueKeys(rows[id := row])
  {
    var rows' := rows[id := row];
    forall a, b, k: Key | MayHold(rows', a, k) && MayHold(rows', b, k) ensures a == b {
      assert MayHold(rows, a, k) && MayHold(rows, b, k);
    }
  }

  /** No other row can hold a key that is neither taken nor uncertain. */
  lemma FreeKey(rows: map<nat, Row>, id: nat, k: Key)
    requires !Taken(rows, id, k) && !Uncertain(rows, id, k)
    ensures forall o :: o != id ==> !MayHold(rows, o, k)
  {}

  lemma StepKeepsUnique(s: State, e: Event)
    requires Ok(s) && Enabled(s, e)
    ensures UniqueKeys(Apply(s, e).rows)
  {
    var t := s.tasks[e.tx];
    assert OwnsChange(s, e.tx);
    match e
    case Abort(tx) => ShrinkKeepsUnique(s.rows, t.id, s.rows[t.id].(open := None));
    case Advance(tx, newId) =>
      match t
      case Inserting(k) =>
        if !Taken(s.rows, newId, k) {
          FreeKey(s.rows, newId, k);
          InsertKeepsUnique(s.rows, newId, Row(None, Some(Change(tx, Some(k)))));
        }
      case Rewriting(id, seen, hash) =>
        var after := KeyAfter(s.rows[id], seen, hash);
        if !(after.Some? && Taken(s.rows, id, after.value)) {
          if after.Some? { FreeKey(s.rows, id, after.value); }
          forall k: Key, o | o != id && MayHold(s.rows, o, k) ensures s.rows[id].committed != Some(k) && after != Some(k) {
            if s.rows[id].committed == Some(k) { assert MayHold(s.rows, id, k); }
          }
          InsertKeepsUnique(s.rows, id, Row(s.rows[id].committed, Some(Change(tx, after))));
        }
      case Deleting(id) => ShrinkKeepsUnique(s.rows, id, Row(s.rows[id].committed, Some(Change(tx, None))));
      case Matched(_, id) => ShrinkKeepsUnique(s.rows, id, Row(s.rows[id].committed, Some(Change(tx, s.rows[id].committed))));
      case Touched(_, id) => ShrinkKeepsUnique(s.rows, id, Row(s.rows[id].open.value.after, None));
      case Inserted(_, id) => ShrinkKeepsUnique(s.rows, id, Row(s.rows[id].open.value.after, None));
      case Rewritten(id) => ShrinkKeepsUnique(s.rows, id, Row(s.rows[id].open.value.after, None));
      case Deleted(id) => ShrinkKeepsUnique(s.rows, id, Row(None, None));
      case _ =>
  }

  /** The step touches at most one row, and a row only while no other transaction has it open. */
  ghost predicate TouchesOwn(s: State, t: State, tx: nat) {
    && (forall id <- s.rows :: id in t.rows && (t.rows[id] == s.rows[id] || s.rows[id].open.None? || s.rows[id].open.value.tx == tx))
    && (forall o <- s.tasks :: o in t.tasks && (o != tx ==> t.tasks[o] == s.tasks[o]))
    && t.tasks.Keys == s.tasks.Keys
  }

  lemma StepKeepsTasks(s: State, e: Event)
    requires Enabled(s, e)
    ensures Apply(s, e).tasks == s.tasks[e.tx := Apply(s, e).tasks[e.tx]]
  {}

  lemma StepTouchesRows(s: State, e: Event)
    requires Ok(s) && Enabled(s, e)
    ensures forall id <- s.rows ::
      && id in Apply(s, e).rows
      && (Apply(s, e).rows[id] == s.rows[id] || s.rows[id].open.None? || s.rows[id].open.value.tx == e.tx)
  {
    assert OwnsChange(s, e.tx);
  }

  lemma StepOwnsChange(s: State, e: Event)
    requires Ok(s) && Enabled(s, e)
    ensures OwnsChange(Apply(s, e), e.tx)
  {
    assert OwnsChange(s, e.tx);
  }

  lemma StepTouchesOwn(s: State, e: Event)
    requires Ok(s) && Enabled(s, e)
    ensures TouchesOwn(s, Apply(s, e), e.tx)
    ensures OwnsChange(Apply(s, e), e.tx)
  {
    StepKeepsTasks(s, e);
    StepTouchesRows(s, e);
    StepOwnsChange(s, e);
  }

  /** The invariant holds over every interleaving. */
  lemma StepKeepsOk(s: State, e: Event)
    requires Ok(s) && Enabled(s, e)
    ensures Ok(Apply(s, e))
  {
    StepKeepsUnique(s, e);
    StepTouchesOwn(s, e);
    var t := Apply(s, e);
    forall tx <- t.tasks ensures OwnsChange(t, tx) {
      if tx != e.tx { assert OwnsChange(s, tx); }
    }
  }

  /** Requests that have not made a statement yet, over committed rows with distinct keys. */
  ghost predicate Initial(s: State) {
    && (forall id <- s.rows :: s.rows[id].open.None?)
    && (forall a, b :: a in s.rows && b in s.rows && s.rows[a].committed.Some? && s.rows[a].committed == s.rows[b].committed
          ==> a == b)
    && (forall tx <- s.tasks :: s.tasks[tx].Checking? || s.tasks[tx].Loading? || s.tasks[tx].Finding?)
  }

  ghost predicate Possible(s: State, run: seq<Event>)
    decreases |run|
  {
    run == [] || (Enabled(s, run[0]) && Possible(Apply(s, run[0]), run[1..]))
  }

  ghost function After(s: State, run: seq<Event>): State
    requires Possible(s, run)
    decreases |run|
  {
    if run == [] then s else After(Apply(s, run[0]), run[1..])
  }

  lemma InitialIsOk(s: State)
    requires Initial(s)
    ensures Ok(s)
  {
    forall a, b, k: Key | MayHold(s.rows, a, k) && MayHold(s.rows, b, k) ensures a == b {}
  }

  lemma {:induction false} RunKeepsOk(s: State, run: seq<Event>)
    requires Ok(s) && Possible(s, run)
    ensures Ok(After(s, run))
    decreases |run|
  {
    if run != [] {
      StepKeepsOk(s, run[0]);
      RunKeepsOk(Apply(s, run[0]), run[1..]);
    }
  }

  lemma AtMostOneFound(rows: map<nat, Row>, k: Key)
    requires UniqueKeys(rows)
    ensures |Find(rows, k)| <= 1
  {
    var found := Find(rows, k);
    if found != {} {
      var a :| a in found;
      forall b <- found ensures b == a { assert MayHold(rows, a, k) && MayHold(rows, b, k); }
      assert found == {a};
    }
  }

  /**
   In every state of every interleaving, at most one active memory has a given user, namespace and hash, and the lookup
   by hash never meets two.
   */
  lemma NoDuplicates(s: State, run: seq<Event>, k: Key)
    requires Initial(s) && Possible(s, run)
    ensures |Find(After(s, run).rows, k)| <= 1
  {
    InitialIsOk(s);
    RunKeepsOk(s, run);
    AtMostOneFound(After(s, run).rows, k);
  }

  /** A lookup names a row that is active with the key at that moment. */
  lemma MatchedRowIsActive(s: State, e: Event, k: Key, id: nat)
    requires Enabled(s, e) && Apply(s, e).tasks[e.tx] == Matched(k, id)
    ensures Holds(Apply(s, e).rows, id, k)
  {}

  lemma {:induction false} DoneStays(s: State, run: seq<Event>, tx: nat)
    requires Possible(s, run) && tx in s.tasks && s.tasks[tx].CreateDone?
    ensures tx in After(s, run).tasks && After(s, run).tasks[tx].CreateDone?
    decreases |run|
  {
    if run != [] { DoneStays(Apply(s, run[0]), run[1..], tx); }
  }

  /** The row a request has touched is its own until it ends. */
  lemma {:induction false} TouchedRowIsLocked(s: State, run: seq<Event>, tx: nat)
    requires Ok(s) && Possible(s, run) && tx in s.tasks && s.tasks[tx].Touched?
    requires tx in After(s, run).tasks && After(s, run).tasks[tx].Touched?
    ensures After(s, run).tasks[tx] == s.tasks[tx]
    ensures var id := s.tasks[tx].id; id in s.rows && id in After(s, run).rows && After(s, run).rows[id] == s.rows[id]
    decreases |run|
  {
    assert OwnsChange(s, tx);
    if run != [] {
      var next := Apply(s, run[0]);
      StepKeepsOk(s, run[0]);
      StepTouchesOwn(s, run[0]);
      if run[0].tx == tx { DoneStays(next, run[1..], tx); }
      TouchedRowIsLocked(next, run[1..], tx);
    }
  }

  /**
   What a create returns. The row it inserted is active with its key when it returns. A row it matched is so when it
   returns exactly when it still was when the access was counted: from then on the row is locked.
   */
  lemma ReturnedRowIsActiveIff(s: State, before: seq<Event>, counted: Event, later: seq<Event>, e: Event)
    requires Initial(s) && Possible(s, before) && Enabled(After(s, before), counted)
    requires counted.Advance? && e.Advance? && e.tx == counted.tx
    requires After(s, before).tasks[e.tx].Matched? || After(s, before).tasks[e.tx].Inserting?
    requires var next := Apply(After(s, before), counted);
      && Possible(next, later) && Enabled(After(next, later), e)
      && (After(next, later).tasks[e.tx].Touched? || After(next, later).tasks[e.tx].Inserted?)
    ensures var atCount := After(s, before);
      var end := Apply(After(Apply(atCount, counted), later), e);
      && end.tasks[e.tx].CreateDone? && end.tasks[e.tx].result.Returned?
      && var k, id := end.tasks[e.tx].key, end.tasks[e.tx].result.id;
      && (atCount.tasks[e.tx].Matched? ==>
            atCount.tasks[e.tx] == Matched(k, id) && (Holds(end.rows, id, k) <==> Holds(atCount.rows, id, k)))
      && (After(Apply(atCount, counted), later).tasks[e.tx].Inserted? ==> Holds(end.rows, id, k))
  {
    InitialIsOk(s);
    RunKeepsOk(s, before);
    var atCount := After(s, before);
    var next := Apply(atCount, counted);
    StepKeepsOk(atCount, counted);
    RunKeepsOk(next, later);
    assert OwnsChange(After(next, later), e.tx);
    if atCount.tasks[e.tx].Matched? {
      StaysTouched(next, later, e.tx);
      TouchedRowIsLocked(next, later, e.tx);
    }
  }

  lemma {:induction false} StaysTouched(s: State, run: seq<Event>, tx: nat)
    requires Ok(s) && Possible(s, run) && tx in s.tasks && (s.tasks[tx].Touched? || s.tasks[tx].CreateDone?)
    ensures tx in After(s, run).tasks && (After(s, run).tasks[tx].Touched? || After(s, run).tasks[tx].CreateDone?)
    decreases |run|
  {
    if run != [] {
      StepKeepsOk(s, run[0]);
      StepTouchesOwn(s, run[0]);
      StaysTouched(Apply(s, run[0]), run[1..], tx);
    }
  }

  lemma Prepend(s: State, e: Event, run: seq<Event>)
    requires Enabled(s, e) && Possible(Apply(s, e), run)
    ensures Possible(s, [e] + run) && After(s, [e] + run) == After(Apply(s, e), run)
  {
    assert ([e] + run)[1..] == run;
  }

  /** A delete between the lookup and the count: the create returns a memory that is gone. */
  lemma MatchedRowMayBeGone(k: Key)
    ensures var s := State(map[0 := Row(Some(k), None)], map[0 := Checking(k), 1 := Finding(0)]);
      && Initial(s)
      && exists run :: Possible(s, run) && 0 in After(s, run).tasks
                       && After(s, run).tasks[0] == CreateDone(k, Returned(0)) && !Holds(After(s, run).rows, 0, k)
  {
    var a, b := Advance(0, 0), Advance(1, 0);
    var s := State(map[0 := Row(Some(k), None)], map[0 := Checking(k), 1 := Finding(0)]);
    assert Find(s.rows, k) == {0};
    var s1 := Apply(s, a);
    assert s1 == State(s.rows, map[0 := Matched(k, 0), 1 := Finding(0)]);
    var s2 := Apply(s1, b);
    assert s2 == State(s.rows, map[0 := Matched(k, 0), 1 := Deleting(0)]);
    GoneWhileMatched(s2, k);
    Prepend(s1, b, [b] + ([b] + ([a] + ([a] + []))));
    Prepend(s, a, [b] + ([b] + ([b] + ([a] + ([a] + [])))));
  }

  lemma GoneWhileMatched(s: State, k: Key)
    requires s == State(map[0 := Row(Some(k), None)], map[0 := Matched(k, 0), 1 := Deleting(0)])
    ensures var a, b := Advance(0, 0), Advance(1, 0);
      var run := [b] + ([b] + ([a] + ([a] + [])));
      && Possible(s, run) && 0 in After(s, run).tasks
      && After(s, run).tasks[0] == CreateDone(k, Returned(0)) && !Holds(After(s, run).rows, 0, k)
  {
    var a, b := Advance(0, 0), Advance(1, 0);
    var s1 := Apply(s, b);
    assert s1 == State(map[0 := Row(Some(k), Some(Change(1, None)))], map[0 := Matched(k, 0), 1 := Deleted(0)]);
    var s2 := Apply(s1, b);
    assert s2 == State(map[0 := Row(None, None)], map[0 := Matched(k, 0), 1 := ChangeDone(Finished)]);
    CountsOnGoneRow(s2, k);
    Prepend(s1, b, [a] + ([a] + []));
    Prepend(s, b, [b] + ([a] + ([a] + [])));
  }

  lemma CountsOnGoneRow(s: State, k: Key)
    requires s == State(map[0 := Row(None, None)], map[0 := Matched(k, 0), 1 := ChangeDone(Finished)])
    ensures var a := Advance(0, 0); var run := [a] + ([a] + []);
      && Possible(s, run) && 0 in After(s, run).tasks
      && After(s, run).tasks[0] == CreateDone(k, Returned(0)) && !Holds(After(s, run).rows, 0, k)
  {
    var a := Advance(0, 0);
    var s3 := Apply(s, a);
    assert s3 == State(map[0 := Row(None, Some(Change(0, None)))], map[0 := Touched(k, 0), 1 := ChangeDone(Finished)]);
    var s4 := Apply(s3, a);
    assert s4 == State(map[0 := Row(None, None)], map[0 := CreateDone(k, Returned(0)), 1 := ChangeDone(Finished)]);
    Prepend(s3, a, []);
    Prepend(s, a, [a] + []);
  }

  // ---- what updates and deletes do ----

  /** An update to other content gives the row the new hash, and takes the old one from it. */
  lemma UpdateChangesHash(s: State, tx: nat, k: Key)
    requires Ok(s) && tx in s.tasks && s.tasks[tx].Rewriting? && s.tasks[tx].hash != s.tasks[tx].seen.hash
    requires Enabled(s, Advance(tx, 0)) && Holds(s.rows, s.tasks[tx].id, k)
    requires Apply(s, Advance(tx, 0)).tasks[tx].Rewritten?
    ensures var written := Apply(s, Advance(tx, 0));
      && Enabled(written, Advance(tx, 0))
      && var done := Apply(written, Advance(tx, 0));
      && done.tasks[tx] == ChangeDone(Finished)
      && forall other :: Holds(done.rows, s.tasks[tx].id, other) <==>
                         other == Key(k.user, k.namespace, s.tasks[tx].hash)
  {}

  /** One to the same content, or of a row that was deleted meanwhile, leaves the key alone. */
  lemma UpdateKeepsOtherKeys(s: State, tx: nat)
    requires Ok(s) && tx in s.tasks && s.tasks[tx].Rewriting? && Enabled(s, Advance(tx, 0))
    requires var id := s.tasks[tx].id; s.tasks[tx].hash == s.tasks[tx].seen.hash || s.rows[id].committed.None?
    requires Apply(s, Advance(tx, 0)).tasks[tx].Rewritten?
    ensures var written := Apply(s, Advance(tx, 0));
      && Enabled(written, Advance(tx, 0))
      && Apply(written, Advance(tx, 0)).rows[s.tasks[tx].id].committed == s.rows[s.tasks[tx].id].committed
  {}

  /** An update fails exactly when another memory of the owner and namespace has the new content for good. */
  lemma UpdateFailsIff(s: State, tx: nat, k: Key)
    requires Ok(s) && tx in s.tasks && s.tasks[tx].Rewriting? && s.tasks[tx].hash != s.tasks[tx].seen.hash
    requires Enabled(s, Advance(tx, 0)) && Holds(s.rows, s.tasks[tx].id, k)
    ensures Apply(s, Advance(tx, 0)).tasks[tx] == ChangeDone(Failed) <==>
            Find(s.rows, Key(k.user, k.namespace, s.tasks[tx].hash)) - {s.tasks[tx].id} != {}
  {
    var id, wanted := s.tasks[tx].id, Key(k.user, k.namespace, s.tasks[tx].hash);
    assert KeyAfter(s.rows[id], s.tasks[tx].seen, s.tasks[tx].hash) == Some(wanted);
    forall o <- s.rows | o != id && Holds(s.rows, o, wanted) ensures s.rows[o].open.None? && o in Find(s.rows, wanted) - {id} {
      assert MayHold(s.rows, o, wanted);
    }
    if o :| o in Find(s.rows, wanted) - {id} { assert o != id && Holds(s.rows, o, wanted); }
  }

  /** A delete takes the memory away, and a failed request leaves it. */
  lemma DeleteRemoves(s: State, tx: nat)
    requires Ok(s) && tx in s.tasks && s.tasks[tx].Deleting? && Enabled(s, Advance(tx, 0))
    ensures var deleted := Apply(s, Advance(tx, 0));
      && Enabled(deleted, Advance(tx, 0)) && Enabled(deleted, Abort(tx))
      && (forall k :: !Holds(Apply(deleted, Advance(tx, 0)).rows, s.tasks[tx].id, k))
      && Apply(deleted, Abort(tx)).rows == s.rows
  {
    assert s.rows[s.tasks[tx].id].open.None?;
  }

  /** A create of content that is nowhere inserts it, and after the commit it is there. */
  lemma CreateInserts(s: State, tx: nat, newId: nat, k: Key)
    requires Ok(s) && tx in s.tasks && s.tasks[tx] == Inserting(k) && Enabled(s, Advance(tx, newId))
    requires forall id :: !MayHold(s.rows, id, k)
    ensures var inserted := Apply(s, Advance(tx, newId));
      && inserted.tasks[tx] == Inserted(k, newId) && Enabled(inserted, Advance(tx, newId))
      && var done := Apply(inserted, Advance(tx, newId));
      && done.tasks[tx] == CreateDone(k, Returned(newId)) && Holds(done.rows, newId, k)
  {
    forall o ensures !Holds(s.rows, o, k) { assert !MayHold(s.rows, o, k); }
  }

  // ---- creators only ----

  /** A creator, or a change that is over. */
  predicate IsCreator(t: Task) {
    t.ChangeDone? || t.Checking? || t.Inserting? || t.Inserted? || t.Rechecking? || t.Matched? || t.Touched? || t.CreateDone?
  }

  /** With nobody updating or deleting, answers stay true and a lost race always has a winner. */
  ghost predicate CreatorsOk(s: State) {
    forall tx <- s.tasks ::
      && IsCreator(s.tasks[tx])
      && (s.tasks[tx].Rechecking? ==> exists id :: Holds(s.rows, id, s.tasks[tx].key))
      && (s.tasks[tx].Matched? || s.tasks[tx].Touched? ==> Holds(s.rows, s.tasks[tx].id, s.tasks[tx].key))
      && (s.tasks[tx].CreateDone? && s.tasks[tx].result.Returned? ==>
            Holds(s.rows, s.tasks[tx].result.id, s.tasks[tx].key))
  }

  /** Creators never take a committed key away. */
  lemma CreatorsKeepRows(s: State, e: Event)
    requires Ok(s) && CreatorsOk(s) && Enabled(s, e)
    ensures forall id, k: Key :: Holds(s.rows, id, k) ==> Holds(Apply(s, e).rows, id, k)
  {
    assert OwnsChange(s, e.tx) && IsCreator(s.tasks[e.tx]);
  }

  lemma StepKeepsCreatorsOk(s: State, e: Event)
    requires Ok(s) && CreatorsOk(s) && Enabled(s, e)
    ensures CreatorsOk(Apply(s, e))
    ensures Apply(s, e).tasks[e.tx].CreateDone? && Apply(s, e).tasks[e.tx].result.Failed? ==> e.Abort?
  {
    var t := Apply(s, e);
    CreatorsKeepRows(s, e);
    assert OwnsChange(s, e.tx) && IsCreator(s.tasks[e.tx]);
    if s.tasks[e.tx].Rechecking? && e.Advance? {
      var id :| Holds(s.rows, id, s.tasks[e.tx].key);
      assert id in Find(s.rows, s.tasks[e.tx].key);
    }
    if s.tasks[e.tx].Inserting? && e.Advance? && Taken(s.rows, e.newId, s.tasks[e.tx].key) {
      var o :| o in s.rows && o != e.newId && Holds(s.rows, o, s.tasks[e.tx].key) && s.rows[o].open.None?;
      assert Holds(t.rows, o, s.tasks[e.tx].key);
    }
    forall tx <- t.tasks
      ensures IsCreator(t.tasks[tx])
      ensures t.tasks[tx].Rechecking? ==> exists id :: Holds(t.rows, id, t.tasks[tx].key)
      ensures t.tasks[tx].Matched? || t.tasks[tx].Touched? ==> Holds(t.rows, t.tasks[tx].id, t.tasks[tx].key)
      ensures t.tasks[tx].CreateDone? && t.tasks[tx].result.Returned? ==> Holds(t.rows, t.tasks[tx].result.id, t.tasks[tx].key)
    {
      if tx != e.tx { assert tx in s.tasks && t.tasks[tx] == s.tasks[tx]; }
    }
  }

  lemma {:induction false} RunKeepsCreatorsOk(s: State, run: seq<Event>)
    requires Ok(s) && CreatorsOk(s) && Possible(s, run)
    ensures CreatorsOk(After(s, run))
    decreases |run|
  {
    if run != [] {
      StepKeepsOk(s, run[0]);
      StepKeepsCreatorsOk(s, run[0]);
      RunKeepsCreatorsOk(Apply(s, run[0]), run[1..]);
    }
  }

  lemma {:induction false} RunKeepsHeld(s: State, run: seq<Event>, id: nat, k: Key)
    requires Ok(s) && CreatorsOk(s) && Possible(s, run) && Holds(s.rows, id, k)
    ensures Holds(After(s, run).rows, id, k)
    decreases |run|
  {
    if run != [] {
      StepKeepsOk(s, run[0]);
      StepKeepsCreatorsOk(s, run[0]);
      CreatorsKeepRows(s, run[0]);
      RunKeepsHeld(Apply(s, run[0]), run[1..], id, k);
    }
  }

  /**
   What is found after a change: once a memory has a key, and nobody updates or deletes any more, every create of its
   content returns it, and no create of other content does; so a changed memory answers for its new content only.
   */
  lemma CreatesFindTheChanged(s: State, run: seq<Event>, id: nat, k: Key, b: nat)
    requires Ok(s) && Holds(s.rows, id, k) && Possible(s, run)
    requires forall tx <- s.tasks :: s.tasks[tx].Checking? || s.tasks[tx].ChangeDone?
    requires var t := After(s, run).tasks; b in t && t[b].CreateDone? && t[b].result.Returned?
    ensures var t := After(s, run).tasks[b]; t.result.id == id <==> t.key == k
  {
    RunKeepsOk(s, run);
    RunKeepsCreatorsOk(s, run);
    RunKeepsHeld(s, run, id, k);
    var t := After(s, run);
    assert Holds(t.rows, t.tasks[b].result.id, t.tasks[b].key);
    assert MayHold(t.rows, id, k) && MayHold(t.rows, t.tasks[b].result.id, t.tasks[b].key);
  }

  /** Without updates and deletes, all creates of the same content that return get the same memory. */
  lemma CreatorsAgree(s: State, run: seq<Event>, a: nat, b: nat)
    requires Initial(s) && Possible(s, run) && forall tx <- s.tasks :: s.tasks[tx].Checking?
    requires var t := After(s, run).tasks;
      && a in t && b in t && t[a].CreateDone? && t[b].CreateDone? && t[a].key == t[b].key
      && t[a].result.Returned? && t[b].result.Returned?
    ensures After(s, run).tasks[a].result.id == After(s, run).tasks[b].result.id
  {
    InitialIsOk(s);
    RunKeepsOk(s, run);
    RunKeepsCreatorsOk(s, run);
    var t := After(s, run);
    assert MayHold(t.rows, t.tasks[a].result.id, t.tasks[a].key);
    assert MayHold(t.rows, t.tasks[b].result.id, t.tasks[b].key);
  }

  /** And none of them fails of its own accord: the recheck of a lost race always finds the winner. */
  lemma CreatorsDoNotFail(s: State, run: seq<Event>, e: Event)
    requires Initial(s) && Possible(s, run) && forall tx <- s.tasks :: s.tasks[tx].Checking?
    requires Enabled(After(s, run), e) && e.Advance?
    ensures var t := Apply(After(s, run), e).tasks[e.tx]; !(t.CreateDone? && t.result.Failed?)
  {
    InitialIsOk(s);
    RunKeepsOk(s, run);
    RunKeepsCreatorsOk(s, run);
    StepKeepsCreatorsOk(After(s, run), e);
  }
}
