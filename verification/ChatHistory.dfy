/**
 What runs of `upsert_chat`, `append_turns` and `move_chat` on one conversation store
 (backend/services/ai_chat_service.py:296-334, 538-643, 703-1003).

 The reference is a map from source ids to turns in which every accepted push overwrites the ids it carries, the last
 turn of an id winning. It knows neither the content hash that skips a push nor the collapse of repeated ids.
 */
module ChatHistory {
  import opened Text
  import opened ChatUpsert

  /** The fields of a stored turn that the content hash covers. */
  datatype Entry = Entry(body: Body, artifacts: seq<Artifact>, occurredAt: Option<int>)

  /** The turns by source id, and whether there is a turn whose id is the empty string. */
  datatype Model = Model(entries: map<string, Entry>, blank: bool)

  function Write(t: Turn, base: map<string, Entry>): Entry
    requires Truthy(t.sourceId)
  {
    Entry(t.body, t.artifacts,
          if t.timestamp.Some? then t.timestamp
          else if t.sourceId.value in base then base[t.sourceId.value].occurredAt
          else None)
  }

  /** Last write wins, over the first `n` turns of a push. A turn without a time keeps the one known before the push. */
  function Pushed(base: map<string, Entry>, push: seq<Turn>, n: nat): map<string, Entry>
    requires n <= |push|
  {
    if n == 0 then base
    else
      var t := push[n - 1];
      if Truthy(t.sourceId) then Pushed(base, push, n - 1)[t.sourceId.value := Write(t, base)]
      else Pushed(base, push, n - 1)
  }

  function Blank(t: Turn): nat { if t.sourceId == Some("") then 1 else 0 }

  function Blanks(push: seq<Turn>, n: nat): nat
    requires n <= |push|
  {
    if n == 0 then 0 else Blanks(push, n - 1) + Blank(push[n - 1])
  }

  /** None when the push would store a second turn with the empty id. */
  function Absorbed(m: Model, push: seq<Turn>): Option<Model> {
    if Blanks(push, |push|) + (if m.blank then 1 else 0) > 1 then None
    else Some(Model(Pushed(m.entries, push, |push|), m.blank || Blanks(push, |push|) > 0))
  }

  // ---- last write wins, id by id ----

  lemma {:induction false} LastWriteStands(base: map<string, Entry>, push: seq<Turn>, n: nat, j: nat)
    requires j < n <= |push| && Truthy(push[j].sourceId)
    requires forall k :: j < k < n ==> push[k].sourceId != push[j].sourceId
    ensures push[j].sourceId.value in Pushed(base, push, n)
    ensures Pushed(base, push, n)[push[j].sourceId.value] == Write(push[j], base)
  {
    if j < n - 1 { LastWriteStands(base, push, n - 1, j); }
  }

  ghost predicate SameAt(a: map<string, Entry>, b: map<string, Entry>, id: string) {
    (id in a <==> id in b) && (id in a ==> a[id] == b[id])
  }

  lemma {:induction false} UntouchedStands(base: map<string, Entry>, push: seq<Turn>, n: nat, id: string)
    requires n <= |push| && (id == "" || forall k :: 0 <= k < n ==> push[k].sourceId != Some(id))
    ensures SameAt(Pushed(base, push, n), base, id)
  {
    if n > 0 { UntouchedStands(base, push, n - 1, id); }
  }

  lemma {:induction false} LastOf(push: seq<Turn>, id: string, n: nat) returns (j: nat)
    requires n <= |push| && exists k :: 0 <= k < n && push[k].sourceId == Some(id)
    ensures j < n && push[j].sourceId == Some(id)
    ensures forall k :: j < k < n ==> push[k].sourceId != Some(id)
  {
    if push[n - 1].sourceId == Some(id) { j := n - 1; } else { j := LastOf(push, id, n - 1); }
  }

  lemma MapsAgree(a: map<string, Entry>, b: map<string, Entry>)
    requires forall id: string :: SameAt(a, b, id)
    ensures a == b
  {
    forall id: string ensures id in a <==> id in b { assert SameAt(a, b, id); }
    forall id | id in a ensures a[id] == b[id] { assert SameAt(a, b, id); }
  }

  /** Where an id of the push is found in the collapsed push. */
  lemma CollapsedIndex(push: seq<Turn>, j: nat) returns (k: nat)
    requires j < |push| && Truthy(push[j].sourceId) && !Later(push, j + 1, push[j].sourceId)
    ensures k < |Collapsed(push)| && Collapsed(push)[k] == push[j]
  {
    CollapseKeepsLast(push, 0, push[j]);
    k :| 0 <= k < |Collapsed(push)| && Collapsed(push)[k] == push[j];
  }

  lemma CollapseKeepsIds(push: seq<Turn>, id: string)
    requires forall k :: 0 <= k < |push| ==> push[k].sourceId != Some(id)
    ensures forall k :: 0 <= k < |Collapsed(push)| ==> Collapsed(push)[k].sourceId != Some(id)
  {
    forall k | 0 <= k < |Collapsed(push)| ensures Collapsed(push)[k].sourceId != Some(id) {
      CollapseKeepsLast(push, 0, Collapsed(push)[k]);
    }
  }

  lemma CollapsedSameAt(base: map<string, Entry>, push: seq<Turn>, id: string)
    ensures SameAt(Pushed(base, Collapsed(push), |Collapsed(push)|), Pushed(base, push, |push|), id)
  {
    var c := Collapsed(push);
    if id != "" && exists k :: 0 <= k < |push| && push[k].sourceId == Some(id) {
      var j := LastOf(push, id, |push|);
      LastWriteStands(base, push, |push|, j);
      var k := CollapsedIndex(push, j);
      CollapseIsUnique(push, 0);
      LastWriteStands(base, c, |c|, k);
    } else {
      UntouchedStands(base, push, |push|, id);
      if id != "" { CollapseKeepsIds(push, id); }
      UntouchedStands(base, c, |c|, id);
    }
  }

  /** The collapse within a push is invisible in the reference. */
  lemma CollapseKeepsPush(base: map<string, Entry>, push: seq<Turn>)
    ensures Pushed(base, Collapsed(push), |Collapsed(push)|) == Pushed(base, push, |push|)
  {
    forall id: string ensures SameAt(Pushed(base, Collapsed(push), |Collapsed(push)|), Pushed(base, push, |push|), id) {
      CollapsedSameAt(base, push, id);
    }
    MapsAgree(Pushed(base, Collapsed(push), |Collapsed(push)|), Pushed(base, push, |push|));
  }

  lemma {:induction false} BlanksOfFront(x: Turn, c: seq<Turn>, n: nat)
    requires n <= |c|
    ensures Blanks([x] + c, n + 1) == Blank(x) + Blanks(c, n)
  {
    assert ([x] + c)[n] == if n == 0 then x else c[n - 1];
    if n > 0 { BlanksOfFront(x, c, n - 1); }
  }

  lemma {:induction false} CollapseKeepsBlanks(push: seq<Turn>, i: nat)
    requires i <= |push|
    ensures Blanks(CollapsedFrom(push, i), |CollapsedFrom(push, i)|) + Blanks(push, i) == Blanks(push, |push|)
    decreases |push| - i
  {
    if i < |push| {
      CollapseKeepsBlanks(push, i + 1);
      var rest := CollapsedFrom(push, i + 1);
      BlanksOfFront(push[i], rest, |rest|);
    }
  }

  // ---- the rows hold the reference ----

  function Covered(artifacts: seq<ArtifactRow>): seq<Artifact> {
    seq(|artifacts|, i requires 0 <= i < |artifacts| => artifacts[i].artifact)
  }

  function EntryOf(row: TurnRow): Entry { Entry(row.body, Covered(row.artifacts), row.occurredAt) }

  ghost predicate RowFits(row: TurnRow, m: Model) {
    Truthy(row.sourceId) ==> row.sourceId.value in m.entries && m.entries[row.sourceId.value] == EntryOf(row)
  }

  /** Source ids are unique, and the rows with one are exactly the entries of the reference. */
  ghost predicate Represents(rows: seq<TurnRow>, m: Model) {
    && UniqueIds(rows)
    && (m.blank <==> HasId(rows, ""))
    && (forall id <- m.entries :: id != "" && HasId(rows, id))
    && (forall i :: 0 <= i < |rows| ==> RowFits(rows[i], m))
  }

  lemma CoveredOfAttached(artifacts: seq<Artifact>, home: Home)
    ensures Covered(Attached(artifacts, home)) == artifacts
  {}

  function ModelAfter(m: Model, t: Turn, base: map<string, Entry>): Model {
    Model(if Truthy(t.sourceId) then m.entries[t.sourceId.value := Write(t, base)] else m.entries,
          m.blank || t.sourceId == Some(""))
  }

  lemma UpdateFits(rows: seq<TurnRow>, t: Turn, home: Home, base: map<string, Entry>, m: Model)
    requires Represents(rows, m) && Truthy(t.sourceId) && HasId(rows, t.sourceId.value)
    requires SameAt(m.entries, base, t.sourceId.value)
    ensures Persisted(rows, t, home).Some? && Represents(Persisted(rows, t, home).value, ModelAfter(m, t, base))
  {
    var after := Persisted(rows, t, home).value;
    var m' := ModelAfter(m, t, base);
    CoveredOfAttached(t.artifacts, home);
    PersistedKeepsUnique(rows, t, home);
    forall i | 0 <= i < |after| ensures RowFits(after[i], m') {
      assert RowFits(rows[i], m);
    }
    forall id: string ensures HasId(after, id) <==> HasId(rows, id) {
      SameIdsSameLookup(rows, after, id);
    }
  }

  lemma SameIdsSameLookup(rows: seq<TurnRow>, after: seq<TurnRow>, id: string)
    requires |rows| == |after| && forall i :: 0 <= i < |rows| ==> rows[i].sourceId == after[i].sourceId
    ensures HasId(after, id) <==> HasId(rows, id)
  {
    if HasId(after, id) { var i :| 0 <= i < |after| && after[i].sourceId == Some(id); assert rows[i].sourceId == Some(id); }
    if HasId(rows, id) { var i :| 0 <= i < |rows| && rows[i].sourceId == Some(id); assert after[i].sourceId == Some(id); }
  }

  lemma InsertKeepsLookup(rows: seq<TurnRow>, row: TurnRow, id: string)
    ensures HasId(rows + [row], id) <==> HasId(rows, id) || row.sourceId == Some(id)
  {
    var after := rows + [row];
    assert after[|rows|] == row;
    if HasId(rows, id) { var i :| 0 <= i < |rows| && rows[i].sourceId == Some(id); assert after[i] == rows[i]; }
  }

  lemma InsertFits(rows: seq<TurnRow>, t: Turn, home: Home, base: map<string, Entry>, m: Model)
    requires Represents(rows, m) && (t.sourceId.Some? ==> !HasId(rows, t.sourceId.value))
    requires Truthy(t.sourceId) ==> SameAt(m.entries, base, t.sourceId.value)
    ensures Represents(rows + [NewRow(t, home)], ModelAfter(m, t, base))
  {
    var row := NewRow(t, home);
    var after := rows + [row];
    var m' := ModelAfter(m, t, base);
    CoveredOfAttached(t.artifacts, home);
    assert Persisted(rows, t, home) == Some(after);
    PersistedKeepsUnique(rows, t, home);
    forall id: string ensures HasId(after, id) <==> HasId(rows, id) || t.sourceId == Some(id) {
      InsertKeepsLookup(rows, row, id);
    }
    if Truthy(t.sourceId) { assert t.sourceId.value !in m.entries; }
    forall i | 0 <= i < |after| ensures RowFits(after[i], m') {
      if i < |rows| {
        assert after[i] == rows[i] && RowFits(rows[i], m);
        assert t.sourceId.Some? ==> rows[i].sourceId != t.sourceId;
      } else {
        assert after[i] == row;
      }
    }
  }

  lemma PersistFits(rows: seq<TurnRow>, t: Turn, home: Home, base: map<string, Entry>, m: Model)
    requires Represents(rows, m)
    requires Truthy(t.sourceId) ==> SameAt(m.entries, base, t.sourceId.value)
    ensures Persisted(rows, t, home).Some? <==> !(m.blank && t.sourceId == Some(""))
    ensures Persisted(rows, t, home).Some? ==> Represents(Persisted(rows, t, home).value, ModelAfter(m, t, base))
  {
    if Truthy(t.sourceId) && HasId(rows, t.sourceId.value) {
      UpdateFits(rows, t, home, base, m);
    } else if t.sourceId.None? || !HasId(rows, t.sourceId.value) {
      InsertFits(rows, t, home, base, m);
    }
  }

  lemma {:induction false} PersistAllFits(rows: seq<TurnRow>, c: seq<Turn>, n: nat, home: Home, m: Model)
    requires n <= |c| && UniqueTurns(c) && Represents(rows, m)
    ensures PersistedAll(rows, c, n, home).Some? <==> Blanks(c, n) + (if m.blank then 1 else 0) <= 1 || n == 0
    ensures PersistedAll(rows, c, n, home).Some? ==>
              Represents(PersistedAll(rows, c, n, home).value,
                         Model(Pushed(m.entries, c, n), m.blank || Blanks(c, n) > 0))
  {
    if n > 0 {
      PersistAllFits(rows, c, n - 1, home, m);
      var before := PersistedAll(rows, c, n - 1, home);
      if before.Some? {
        var t := c[n - 1];
        var m' := Model(Pushed(m.entries, c, n - 1), m.blank || Blanks(c, n - 1) > 0);
        if Truthy(t.sourceId) { UntouchedStands(m.entries, c, n - 1, t.sourceId.value); }
        PersistFits(before.value, t, home, m.entries, m');
      }
    }
  }

  /** Storing a push fails exactly when the reference refuses it, and otherwise the rows hold the reference. */
  lemma StoreFits(rows: seq<TurnRow>, push: seq<Turn>, home: Home, m: Model)
    requires Represents(rows, m)
    ensures Stored(rows, push, home).Some? <==> Absorbed(m, push).Some?
    ensures Stored(rows, push, home).Some? ==> Represents(Stored(rows, push, home).value, Absorbed(m, push).value)
  {
    CollapseIsUnique(push, 0);
    CollapseKeepsBlanks(push, 0);
    CollapseKeepsPush(m.entries, push);
    PersistAllFits(rows, Collapsed(push), |Collapsed(push)|, home, m);
  }

  lemma SyncFits(rows: seq<TurnRow>, home: Home, m: Model)
    requires Represents(rows, m)
    ensures Represents(Synced(rows, home), m)
  {
    var after := Synced(rows, home);
    forall i | 0 <= i < |rows| ensures RowFits(after[i], m) {
      assert RowFits(rows[i], m);
      assert Covered(after[i].artifacts) == Covered(rows[i].artifacts);
    }
    forall id: string ensures HasId(after, id) <==> HasId(rows, id) {
      SameIdsSameLookup(rows, after, id);
    }
  }

  // ---- runs ----

  /** The reference over a run, with the last payload that was accepted. */
  datatype Log = Log(model: Model, last: Option<Payload>)

  const EMPTY: Log := Log(Model(map[], false), None)

  function Recorded(log: Log, e: Event): Log {
    match e
    case Upsert(p, r) =>
      if r.None? then log
      else (match Absorbed(log.model, p.turns) case None => log case Some(m) => Log(m, Some(p)))
    case Append(turns, valid) =>
      if !valid || log.last.None? then log
      else (match Absorbed(log.model, turns) case None => log case Some(m) => Log(m, log.last))
    case Move(_) => log
  }

  function LogOf(events: seq<Event>, n: nat): Log
    requires n <= |events|
  {
    if n == 0 then EMPTY else Recorded(LogOf(events, n - 1), events[n - 1])
  }

  /** Pushing the turns again would change nothing. */
  ghost predicate Settled(m: Model, turns: seq<Turn>) {
    Pushed(m.entries, turns, |turns|) == m.entries && (Blanks(turns, |turns|) > 0 ==> m.blank)
  }

  /** The push says about an id what the other says, or leaves open when. */
  predicate SameTurn(x: Turn, y: Turn) {
    x.body == y.body && x.artifacts == y.artifacts &&
    (x.timestamp.Some? && y.timestamp.Some? ==> x.timestamp == y.timestamp)
  }

  /** For every id in both, the last turn of one push is as good as the last turn of the other. */
  predicate Agrees(a: seq<Turn>, b: seq<Turn>) {
    forall i, j :: 0 <= i < |Collapsed(a)| && 0 <= j < |Collapsed(b)| && Truthy(Collapsed(a)[i].sourceId)
                   && Collapsed(a)[i].sourceId == Collapsed(b)[j].sourceId
      ==> SameTurn(Collapsed(a)[i], Collapsed(b)[j])
  }

  lemma PushTwiceSameAt(base: map<string, Entry>, push: seq<Turn>, id: string)
    ensures var once := Pushed(base, push, |push|); SameAt(Pushed(once, push, |push|), once, id)
  {
    var once := Pushed(base, push, |push|);
    if id != "" && exists k :: 0 <= k < |push| && push[k].sourceId == Some(id) {
      var j := LastOf(push, id, |push|);
      LastWriteStands(base, push, |push|, j);
      LastWriteStands(once, push, |push|, j);
    } else {
      UntouchedStands(once, push, |push|, id);
    }
  }

  lemma PushSettles(m: Model, push: seq<Turn>)
    requires Absorbed(m, push).Some?
    ensures Settled(Absorbed(m, push).value, push)
  {
    var once := Pushed(m.entries, push, |push|);
    forall id: string ensures SameAt(Pushed(once, push, |push|), once, id) { PushTwiceSameAt(m.entries, push, id); }
    MapsAgree(Pushed(once, push, |push|), once);
  }

  /** The reference reads only what the hash covers. */
  lemma {:induction false} CanonicalDecides(base: map<string, Entry>, p: Payload, q: Payload, n: nat)
    requires CanonicalOf(p) == CanonicalOf(q) && n <= |p.turns|
    ensures |p.turns| == |q.turns| && Pushed(base, p.turns, n) == Pushed(base, q.turns, n)
    ensures Blanks(p.turns, n) == Blanks(q.turns, n)
  {
    assert |CanonicalOf(p).turns| == |p.turns| && |CanonicalOf(q).turns| == |q.turns|;
    if n > 0 {
      CanonicalDecides(base, p, q, n - 1);
      assert CanonicalOf(p).turns[n - 1] == CanonicalOf(q).turns[n - 1];
    }
  }

  /** One id after an append and a repeated push: same as after the append exactly when the two turns agree. */
  lemma RepushOfOne(base: map<string, Entry>, a: seq<Turn>, b: seq<Turn>, i: nat, j: nat)
    requires UniqueTurns(a) && UniqueTurns(b) && i < |a| && j < |b|
    requires Truthy(a[i].sourceId) && a[i].sourceId == b[j].sourceId
    requires Pushed(base, b, |b|) == base
    ensures var after := Pushed(base, a, |a|);
      SameAt(Pushed(after, b, |b|), after, a[i].sourceId.value) <==> SameTurn(a[i], b[j])
  {
    var after := Pushed(base, a, |a|);
    LastWriteStands(base, a, |a|, i);
    LastWriteStands(base, b, |b|, j);
    LastWriteStands(after, b, |b|, j);
  }

  lemma RepushOfOther(base: map<string, Entry>, a: seq<Turn>, b: seq<Turn>, id: string)
    requires UniqueTurns(a) && UniqueTurns(b) && Pushed(base, b, |b|) == base
    requires id == "" || (forall k :: 0 <= k < |a| ==> a[k].sourceId != Some(id))
                      || (forall k :: 0 <= k < |b| ==> b[k].sourceId != Some(id))
    ensures var after := Pushed(base, a, |a|); SameAt(Pushed(after, b, |b|), after, id)
  {
    var after := Pushed(base, a, |a|);
    if id == "" || (forall k :: 0 <= k < |b| ==> b[k].sourceId != Some(id)) {
      UntouchedStands(after, b, |b|, id);
    } else {
      UntouchedStands(base, a, |a|, id);
      var j := LastOf(b, id, |b|);
      LastWriteStands(base, b, |b|, j);
      LastWriteStands(after, b, |b|, j);
    }
  }

  lemma RepushAgrees(base: map<string, Entry>, a: seq<Turn>, b: seq<Turn>)
    requires Pushed(base, b, |b|) == base
    ensures var after := Pushed(base, a, |a|); Pushed(after, b, |b|) == after <==> Agrees(a, b)
  {
    var after := Pushed(base, a, |a|);
    var ca, cb := Collapsed(a), Collapsed(b);
    CollapseIsUnique(a, 0);
    CollapseIsUnique(b, 0);
    CollapseKeepsPush(base, a);
    CollapseKeepsPush(base, b);
    CollapseKeepsPush(after, b);
    if Agrees(a, b) {
      forall id: string ensures SameAt(Pushed(after, cb, |cb|), after, id) {
        if id != "" && (exists i :: 0 <= i < |ca| && ca[i].sourceId == Some(id))
           && (exists j :: 0 <= j < |cb| && cb[j].sourceId == Some(id)) {
          var i := LastOf(ca, id, |ca|);
          var j := LastOf(cb, id, |cb|);
          RepushOfOne(base, ca, cb, i, j);
        } else {
          RepushOfOther(base, ca, cb, id);
        }
      }
      MapsAgree(Pushed(after, cb, |cb|), after);
    } else {
      var i, j :| 0 <= i < |ca| && 0 <= j < |cb| && Truthy(ca[i].sourceId) && ca[i].sourceId == cb[j].sourceId
                  && !SameTurn(ca[i], cb[j]);
      RepushOfOne(base, ca, cb, i, j);
    }
  }

  /** The chat row and its turns follow the reference, and the stored hash is that of the last accepted payload. */
  ghost predicate Tracks(chat: Option<Chat>, log: Log, hash: Canonical -> string) {
    match chat
    case None => log == EMPTY
    case Some(c) =>
      && Represents(c.turns, log.model)
      && log.last.Some?
      && c.contentHash == hash(CanonicalOf(log.last.value))
      && Settled(log.model, log.last.value.turns)
  }

  lemma UpsertTracks(chat: Option<Chat>, log: Log, p: Payload, r: Resolution, platform: string, hash: Canonical -> string)
    requires Tracks(chat, log, hash) && Injective(hash)
    ensures Tracks(Upserted(chat, p, r, platform, hash), Recorded(log, Upsert(p, Some(r))), hash)
  {
    if chat.Some? && chat.value.contentHash == hash(CanonicalOf(p)) {
      CanonicalDecides(log.model.entries, p, log.last.value, |p.turns|);
    } else {
      var to := if chat.Some? then Destination(chat.value, p, r) else r;
      var home := Home(to.namespace, p.projectId, p.projectName, platform);
      var rows := if chat.Some? then chat.value.turns else [];
      assert Represents(rows, log.model);
      StoreFits(rows, p.turns, home, log.model);
      if Absorbed(log.model, p.turns).Some? {
        PushSettles(log.model, p.turns);
        SyncFits(Stored(rows, p.turns, home).value, home, Absorbed(log.model, p.turns).value);
      }
    }
  }

  lemma AppendTracks(chat: Option<Chat>, log: Log, turns: seq<Turn>, platform: string, hash: Canonical -> string)
    requires Tracks(chat, log, hash)
    requires log.last.Some? ==> Agrees(turns, log.last.value.turns)
    ensures Tracks(Step(chat, Append(turns, true), platform, hash), Recorded(log, Append(turns, true)), hash)
  {
    if chat.Some? {
      StoreFits(chat.value.turns, turns, chat.value.home, log.model);
      RepushAgrees(log.model.entries, turns, log.last.value.turns);
    }
  }

  lemma StepTracks(chat: Option<Chat>, log: Log, e: Event, platform: string, hash: Canonical -> string)
    requires Tracks(chat, log, hash) && Injective(hash)
    requires e.Append? && e.valid && log.last.Some? ==> Agrees(e.turns, log.last.value.turns)
    ensures Tracks(Step(chat, e, platform, hash), Recorded(log, e), hash)
  {
    match e
    case Upsert(p, r) => if r.Some? { UpsertTracks(chat, log, p, r.value, platform, hash); }
    case Append(turns, valid) => if valid { AppendTracks(chat, log, turns, platform, hash); }
    case Move(target) =>
      if target.Some? && chat.Some? { SyncFits(chat.value.turns, chat.value.home.(namespace := target.value), log.model); }
  }

  /** Every append in the run agrees with the last accepted payload before it. */
  predicate AppendsAgree(events: seq<Event>, n: nat)
    requires n <= |events|
  {
    forall k :: 0 <= k < n && events[k].Append? && events[k].valid && LogOf(events, k).last.Some? ==>
      Agrees(events[k].turns, LogOf(events, k).last.value.turns)
  }

  lemma {:induction false} RunTracks(events: seq<Event>, n: nat, platform: string, hash: Canonical -> string)
    requires n <= |events| && Injective(hash) && AppendsAgree(events, n)
    ensures Tracks(Run(None, events, n, platform, hash), LogOf(events, n), hash)
  {
    if n > 0 {
      RunTracks(events, n - 1, platform, hash);
      StepTracks(Run(None, events, n - 1, platform, hash), LogOf(events, n - 1), events[n - 1], platform, hash);
    }
  }

  /**
   After any run of upserts, moves and agreeing appends, the stored turns are the last-write-wins map over all accepted
   pushes: the pushes the hash skips and the turns the collapse drops make no difference.
   */
  lemma UpsertsRefineLastWrite(events: seq<Event>, platform: string, hash: Canonical -> string)
    requires Injective(hash) && AppendsAgree(events, |events|)
    ensures var chat := Run(None, events, |events|, platform, hash);
      Represents(if chat.Some? then chat.value.turns else [], LogOf(events, |events|).model)
  {
    RunTracks(events, |events|, platform, hash);
  }

  lemma RepresentsOne(rows: seq<TurnRow>, m: Model, m': Model)
    requires Represents(rows, m) && Represents(rows, m')
    ensures m == m'
  {
    forall id: string ensures SameAt(m.entries, m'.entries, id) {
      if id in m.entries || id in m'.entries {
        var i :| 0 <= i < |rows| && rows[i].sourceId == Some(id);
        assert RowFits(rows[i], m) && RowFits(rows[i], m');
      }
    }
    MapsAgree(m.entries, m'.entries);
  }

  /**
   An append leaves the hash alone, so a repeat of the last accepted payload after it is skipped. The skip is right
   exactly when the append agreed with that payload (or the payload has a turn with the empty id, and would be refused).
   */
  lemma RepushAfterAppendIff(chat: Chat, log: Log, a: seq<Turn>, r: Resolution, platform: string, hash: Canonical -> string)
    requires Tracks(Some(chat), log, hash) && Absorbed(log.model, a).Some?
    ensures var p := log.last.value;
      var after := Step(Step(Some(chat), Append(a, true), platform, hash), Upsert(p, Some(r)), platform, hash);
      after.Some? &&
      (Represents(after.value.turns, Recorded(Recorded(log, Append(a, true)), Upsert(p, Some(r))).model)
       <==> Agrees(a, p.turns) || Blanks(p.turns, |p.turns|) > 0)
  {
    var p := log.last.value;
    StoreFits(chat.turns, a, chat.home, log.model);
    var once := Absorbed(log.model, a).value;
    var rows := Stored(chat.turns, a, chat.home).value;
    RepushAgrees(log.model.entries, a, p.turns);
    var twice := Recorded(Recorded(log, Append(a, true)), Upsert(p, Some(r))).model;
    if Represents(rows, twice) { RepresentsOne(rows, once, twice); }
  }

  // ---- what an operation stores beside the turns ----

  /** The chat goes where the push says: it is new, in the inbox, or the payload names a namespace or a project. */
  predicate GoesAlong(chat: Option<Chat>, p: Payload) {
    || chat.None? || "kora:inbox:" <= chat.value.home.namespace
    || (p.namespace.Some? && p.namespace.value != "")
    || (p.projectId.Some? && p.projectId.value != "")
    || (p.projectName.Some? && p.projectName.value != "")
  }

  /**
   A push that is neither skipped nor refused leaves its title, project and hash, and the namespace it was resolved to with
   the one that was asked for; only a chat that is at home elsewhere and is not told to move keeps both of its own.
   */
  lemma UpsertArrives(chat: Option<Chat>, p: Payload, r: Resolution, platform: string, hash: Canonical -> string)
    requires chat.Some? ==> chat.value.contentHash != hash(CanonicalOf(p))
    ensures var after := Step(chat, Upsert(p, Some(r)), platform, hash);
      after == chat ||
      (after.Some? && var c := after.value;
       && c.title == p.title && c.contentHash == hash(CanonicalOf(p))
       && c.home.projectId == p.projectId && c.home.projectName == p.projectName && c.home.platform == platform
       && (GoesAlong(chat, p) || r.namespace == chat.value.home.namespace ==>
             c.home.namespace == r.namespace && c.requested == r.requested)
       && (!GoesAlong(chat, p) && r.namespace != chat.value.home.namespace ==>
             c.home.namespace == chat.value.home.namespace && c.requested == chat.value.requested))
  {}

  /** A push that is new to the chat is refused only for a turn with the empty id. */
  lemma UpsertIsAccepted(chat: Option<Chat>, log: Log, p: Payload, r: Resolution, platform: string, hash: Canonical -> string)
    requires Tracks(chat, log, hash) && Absorbed(log.model, p.turns).Some?
    ensures var after := Step(chat, Upsert(p, Some(r)), platform, hash);
      after.Some? && after.value.contentHash == hash(CanonicalOf(p))
  {
    if chat.None? || chat.value.contentHash != hash(CanonicalOf(p)) {
      var to := if chat.Some? then Destination(chat.value, p, r) else r;
      StoreFits(if chat.Some? then chat.value.turns else [], p.turns,
                Home(to.namespace, p.projectId, p.projectName, platform), log.model);
    }
  }

  /** The turn is the same in everything but where its artifacts are. */
  predicate SameButHome(a: TurnRow, b: TurnRow) {
    && a.sourceId == b.sourceId && a.body == b.body && a.occurredAt == b.occurredAt && a.extra == b.extra
    && Covered(a.artifacts) == Covered(b.artifacts)
  }

  /** A move arrives: the namespace is the target, nothing is asked for any more, and all else is as it was. */
  lemma MoveArrives(chat: Chat, target: string, platform: string, hash: Canonical -> string)
    ensures var after := Step(Some(chat), Move(Some(target)), platform, hash);
      && after.Some? && after.value.home == Home(target, chat.home.projectId, chat.home.projectName, chat.home.platform)
      && after.value.requested == None && after.value.title == chat.title && after.value.contentHash == chat.contentHash
      && |after.value.turns| == |chat.turns|
      && forall i :: 0 <= i < |chat.turns| ==> SameButHome(after.value.turns[i], chat.turns[i])
  {
    var home := chat.home.(namespace := target);
    forall i | 0 <= i < |chat.turns| ensures SameButHome(Synced(chat.turns, home)[i], chat.turns[i]) {
      assert Covered(Rehomed(chat.turns[i].artifacts, home)) == Covered(chat.turns[i].artifacts);
    }
  }

  /** An append changes the turns and nothing else, and an event that is refused or comes before the chat nothing at all. */
  lemma AppendKeepsTheRest(chat: Option<Chat>, turns: seq<Turn>, valid: bool, platform: string, hash: Canonical -> string)
    ensures var after := Step(chat, Append(turns, valid), platform, hash);
      && (chat.None? || !valid ==> after == chat)
      && (chat.Some? ==> after.Some? && after.value == chat.value.(turns := after.value.turns))
  {}

  lemma RefusedChangesNothing(chat: Option<Chat>, p: Payload, platform: string, hash: Canonical -> string)
    ensures Step(chat, Upsert(p, None), platform, hash) == Step(chat, Move(None), platform, hash) == chat
  {}

  /** What the hash does not cover is stored with the turn too. */
  lemma LastTurnIsStored(rows: seq<TurnRow>, t: Turn, home: Home)
    requires Persisted(rows, t, home).Some?
    ensures exists row :: row in Persisted(rows, t, home).value && row.sourceId == t.sourceId && row.extra == t.extra
                          && row.body == t.body && Covered(row.artifacts) == t.artifacts && Housed([row], home)
  {
    var after := Persisted(rows, t, home).value;
    CoveredOfAttached(t.artifacts, home);
    if Truthy(t.sourceId) && HasId(rows, t.sourceId.value) {
      var i :| 0 <= i < |rows| && rows[i].sourceId == t.sourceId;
      assert after[i] == Overwritten(rows[i], t, home) && after[i] in after;
    } else {
      assert after[|rows|] == NewRow(t, home) && after[|rows|] in after;
    }
  }

  // ---- where a chat and its artifacts live ----

  ghost predicate Housed(rows: seq<TurnRow>, home: Home) {
    forall i, j :: 0 <= i < |rows| && 0 <= j < |rows[i].artifacts| ==> rows[i].artifacts[j].home == home
  }

  lemma {:induction false} PersistKeepsHoused(rows: seq<TurnRow>, turns: seq<Turn>, n: nat, home: Home)
    requires n <= |turns| && Housed(rows, home)
    ensures PersistedAll(rows, turns, n, home).Some? ==> Housed(PersistedAll(rows, turns, n, home).value, home)
  {
    if n > 0 { PersistKeepsHoused(rows, turns, n - 1, home); }
  }

  lemma StepKeepsHoused(chat: Option<Chat>, e: Event, platform: string, hash: Canonical -> string)
    requires chat.Some? ==> Housed(chat.value.turns, chat.value.home)
    ensures var after := Step(chat, e, platform, hash); after.Some? ==> Housed(after.value.turns, after.value.home)
  {
    match e
    case Upsert(p, r) =>
      if chat.None? && r.Some? {
        var home := Home(r.value.namespace, p.projectId, p.projectName, platform);
        PersistKeepsHoused([], Collapsed(p.turns), |Collapsed(p.turns)|, home);
      }
    case Append(turns, valid) =>
      if chat.Some? { PersistKeepsHoused(chat.value.turns, Collapsed(turns), |Collapsed(turns)|, chat.value.home); }
    case Move(_) =>
  }

  /** In every run, every artifact row carries the namespace, project and platform of its chat. */
  lemma {:induction false} ArtifactsFollowTheChat(events: seq<Event>, n: nat, platform: string, hash: Canonical -> string)
    requires n <= |events|
    ensures var chat := Run(None, events, n, platform, hash); chat.Some? ==> Housed(chat.value.turns, chat.value.home)
  {
    if n > 0 {
      ArtifactsFollowTheChat(events, n - 1, platform, hash);
      StepKeepsHoused(Run(None, events, n - 1, platform, hash), events[n - 1], platform, hash);
    }
  }

  /** Neither a move nor an upsert that names a namespace or a project. */
  predicate LeavesHome(e: Event) { e.Append? || (e.Upsert? && !IsExplicit(e.payload)) }

  /**
   A chat outside the inbox stays in its namespace through any run of such events, whatever the mapping table and the
   matcher say meanwhile.
   */
  lemma {:induction false} MovedChatStays(chat: Chat, events: seq<Event>, n: nat, platform: string, hash: Canonical -> string)
    requires n <= |events| && !IsInbox(chat.home.namespace)
    requires forall k :: 0 <= k < n ==> LeavesHome(events[k])
    ensures var after := Run(Some(chat), events, n, platform, hash);
      after.Some? && after.value.home.namespace == chat.home.namespace
  {
    if n > 0 { MovedChatStays(chat, events, n - 1, platform, hash); }
  }
}
