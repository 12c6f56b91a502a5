/**
 The hash-gated chat upsert (backend/services/ai_chat_service.py:296-334, 538-643, 703-1003): one conversation that is
 pushed whole by `upsert_chat`, extended by `append_turns` and re-homed by `move_chat`.

 The artifact rows of a turn are kept with its row. The hash, the namespace resolution (mapping table and matcher) and
 the validation of a payload are parameters. A failed statement rolls the whole call back.
 */
module ChatUpsert {
  import opened Text

  // ---- payloads ----

  datatype Artifact = Artifact(kind: string, language: Option<string>, content: Option<string>, url: Option<string>)

  datatype Body = Body(role: string, content: string, thinking: Option<string>, toolCalls: string, sequence: nat)

  /** `extra` stands for the fields the hash does not cover: HTML, metadata and the parent turn. */
  datatype Turn = Turn(sourceId: Option<string>, body: Body, timestamp: Option<int>, artifacts: seq<Artifact>, extra: string)

  datatype Payload = Payload(
    platform: string, conversation: string, namespace: Option<string>,
    projectId: Option<string>, projectName: Option<string>, title: string, turns: seq<Turn>)

  datatype CanonicalTurn = CanonicalTurn(sourceId: Option<string>, body: Body, timestamp: Option<int>, artifacts: seq<Artifact>)

  datatype Canonical = Canonical(platform: string, conversation: string, turns: seq<CanonicalTurn>)

  function CanonicalOf(p: Payload): Canonical {
    Canonical(p.platform, p.conversation,
              seq(|p.turns|, i requires 0 <= i < |p.turns| =>
                CanonicalTurn(p.turns[i].sourceId, p.turns[i].body, p.turns[i].timestamp, p.turns[i].artifacts)))
  }

  ghost predicate Injective(hash: Canonical -> string) {
    forall a, b :: hash(a) == hash(b) ==> a == b
  }

  // ---- rows ----

  /** Where a chat lives; every artifact row repeats it. */
  datatype Home = Home(namespace: string, projectId: Option<string>, projectName: Option<string>, platform: string)

  datatype ArtifactRow = ArtifactRow(artifact: Artifact, home: Home)

  datatype TurnRow = TurnRow(
    sourceId: Option<string>, body: Body, occurredAt: Option<int>, extra: string, artifacts: seq<ArtifactRow>)

  datatype Chat = Chat(home: Home, requested: Option<string>, title: string, contentHash: string, turns: seq<TurnRow>)

  /** The outcome of `_resolve_namespace`. */
  datatype Resolution = Resolution(namespace: string, requested: Option<string>)

  datatype Event =
    | Upsert(payload: Payload, resolution: Option<Resolution>)   // no resolution: invalid payload, or a conflict
    | Append(turns: seq<Turn>, valid: bool)
    | Move(target: Option<string>)                               // no target: an empty name, or a conflict

  predicate Truthy(s: Option<string>) { s.Some? && s.value != "" }

  // ---- _collapse_duplicate_source_ids ----

  predicate Later(turns: seq<Turn>, i: nat, id: Option<string>) {
    exists j :: i <= j < |turns| && turns[j].sourceId == id
  }

  /** The turns from `i` on that no later turn with the same id replaces. */
  function CollapsedFrom(turns: seq<Turn>, i: nat): seq<Turn>
    requires i <= |turns|
    decreases |turns| - i
  {
    if i == |turns| then []
    else if Truthy(turns[i].sourceId) && Later(turns, i + 1, turns[i].sourceId) then CollapsedFrom(turns, i + 1)
    else [turns[i]] + CollapsedFrom(turns, i + 1)
  }

  function Collapsed(turns: seq<Turn>): seq<Turn> { CollapsedFrom(turns, 0) }

  function Backwards<T>(s: seq<T>): seq<T> {
    seq(|s|, i requires 0 <= i < |s| => s[|s| - 1 - i])
  }

  lemma BackwardsOfPush<T>(s: seq<T>, x: T)
    ensures Backwards(s + [x]) == [x] + Backwards(s)
  {}

  method CollapseDuplicateSourceIds(turns: seq<Turn>) returns (kept: seq<Turn>)
    ensures kept == Collapsed(turns)
  {
    var seen: set<string> := {};
    var collapsed: seq<Turn> := [];
    var i := |turns|;
    while i > 0
      invariant 0 <= i <= |turns|
      invariant Backwards(collapsed) == CollapsedFrom(turns, i)
      invariant forall id: string :: id in seen <==> id != "" && Later(turns, i, Some(id))
    {
      i := i - 1;
      var sourceId := turns[i].sourceId;
      assert forall id :: Later(turns, i, id) <==> turns[i].sourceId == id || Later(turns, i + 1, id);
      if !(Truthy(sourceId) && sourceId.value in seen) {
        if Truthy(sourceId) { seen := seen + {sourceId.value}; }
        BackwardsOfPush(collapsed, turns[i]);
        collapsed := collapsed + [turns[i]];
      }
    }
    kept := Backwards(collapsed);
  }

  /** A turn is kept exactly when it is the last of its id in the push, or has no id. */
  lemma {:induction false} CollapseKeepsLast(turns: seq<Turn>, i: nat, t: Turn)
    requires i <= |turns|
    ensures t in CollapsedFrom(turns, i) <==>
            exists j :: i <= j < |turns| && turns[j] == t && !(Truthy(t.sourceId) && Later(turns, j + 1, t.sourceId))
    decreases |turns| - i
  {
    if i < |turns| { CollapseKeepsLast(turns, i + 1, t); }
  }

  predicate UniqueTurns(c: seq<Turn>) {
    forall a, b :: 0 <= a < b < |c| && Truthy(c[a].sourceId) ==> c[a].sourceId != c[b].sourceId
  }

  lemma AddingFrontKeepsUnique(x: Turn, c: seq<Turn>)
    requires UniqueTurns(c) && (Truthy(x.sourceId) ==> forall b :: 0 <= b < |c| ==> c[b].sourceId != x.sourceId)
    ensures UniqueTurns([x] + c)
  {
    var d := [x] + c;
    forall a, b | 0 <= a < b < |d| && Truthy(d[a].sourceId) ensures d[a].sourceId != d[b].sourceId {
      assert d[b] == c[b - 1];
      if a > 0 { assert d[a] == c[a - 1]; }
    }
  }

  /** No id is kept twice. */
  lemma {:induction false} CollapseIsUnique(turns: seq<Turn>, i: nat)
    requires i <= |turns|
    ensures UniqueTurns(CollapsedFrom(turns, i))
    decreases |turns| - i
  {
    if i < |turns| {
      CollapseIsUnique(turns, i + 1);
      if !(Truthy(turns[i].sourceId) && Later(turns, i + 1, turns[i].sourceId)) {
        if Truthy(turns[i].sourceId) { CollapseHasNoOther(turns, i + 1, turns[i].sourceId); }
        AddingFrontKeepsUnique(turns[i], CollapsedFrom(turns, i + 1));
      }
    }
  }

  lemma {:induction false} CollapseHasNoOther(turns: seq<Turn>, i: nat, id: Option<string>)
    requires i <= |turns| && !Later(turns, i, id)
    ensures forall b :: 0 <= b < |CollapsedFrom(turns, i)| ==> CollapsedFrom(turns, i)[b].sourceId != id
    decreases |turns| - i
  {
    if i < |turns| { CollapseHasNoOther(turns, i + 1, id); }
  }

  // ---- _persist_turns ----

  predicate HasId(rows: seq<TurnRow>, id: string) {
    exists i :: 0 <= i < |rows| && rows[i].sourceId == Some(id)
  }

  function Attached(artifacts: seq<Artifact>, home: Home): seq<ArtifactRow> {
    seq(|artifacts|, i requires 0 <= i < |artifacts| => ArtifactRow(artifacts[i], home))
  }

  function NewRow(t: Turn, home: Home): TurnRow {
    TurnRow(t.sourceId, t.body, t.timestamp, t.extra, Attached(t.artifacts, home))
  }

  /** An update keeps the known time of the message when the new push does not give one. */
  function Overwritten(row: TurnRow, t: Turn, home: Home): TurnRow {
    TurnRow(row.sourceId, t.body, if t.timestamp.Some? then t.timestamp else row.occurredAt, t.extra,
            Attached(t.artifacts, home))
  }

  /**
   One turn: an update of the rows with its id if there are any, else an insert. The insert fails on the unique constraint
   over (chat, source id) when the id is the empty string and the chat has one already: the lookup skips such ids.
   */
  function Persisted(rows: seq<TurnRow>, t: Turn, home: Home): Option<seq<TurnRow>> {
    if Truthy(t.sourceId) && HasId(rows, t.sourceId.value) then
      Some(seq(|rows|, i requires 0 <= i < |rows| =>
        if rows[i].sourceId == t.sourceId then Overwritten(rows[i], t, home) else rows[i]))
    else if t.sourceId.Some? && HasId(rows, t.sourceId.value) then None
    else Some(rows + [NewRow(t, home)])
  }

  /** The first `n` turns, one after the other. */
  function PersistedAll(rows: seq<TurnRow>, turns: seq<Turn>, n: nat, home: Home): Option<seq<TurnRow>>
    requires n <= |turns|
  {
    if n == 0 then Some(rows)
    else match PersistedAll(rows, turns, n - 1, home)
      case None => None
      case Some(r) => Persisted(r, turns[n - 1], home)
  }

  function Stored(rows: seq<TurnRow>, turns: seq<Turn>, home: Home): Option<seq<TurnRow>> {
    PersistedAll(rows, Collapsed(turns), |Collapsed(turns)|, home)
  }

  predicate UniqueIds(rows: seq<TurnRow>) {
    forall i, j :: 0 <= i < j < |rows| && rows[i].sourceId.Some? ==> rows[i].sourceId != rows[j].sourceId
  }

  lemma PersistedKeepsUnique(rows: seq<TurnRow>, t: Turn, home: Home)
    requires UniqueIds(rows) && Persisted(rows, t, home).Some?
    ensures UniqueIds(Persisted(rows, t, home).value)
  {}

  /** With unique ids the update meets one row. */
  lemma UpdateMeetsOneRow(rows: seq<TurnRow>, i: nat, t: Turn, home: Home)
    requires UniqueIds(rows) && i < |rows| && Truthy(t.sourceId) && rows[i].sourceId == t.sourceId
    ensures Persisted(rows, t, home) == Some(rows[i := Overwritten(rows[i], t, home)])
  {
    assert HasId(rows, t.sourceId.value);
    var updated := Persisted(rows, t, home).value;
    assert updated == rows[i := Overwritten(rows[i], t, home)];
  }

  lemma {:induction false} FailureIsFinal(rows: seq<TurnRow>, turns: seq<Turn>, n: nat, m: nat, home: Home)
    requires n <= m <= |turns| && PersistedAll(rows, turns, n, home).None?
    ensures PersistedAll(rows, turns, m, home).None?
  {
    if n < m { FailureIsFinal(rows, turns, n, m - 1, home); }
  }

  // ---- _sync_chat_artifact_namespace ----

  function Rehomed(artifacts: seq<ArtifactRow>, home: Home): seq<ArtifactRow> {
    seq(|artifacts|, i requires 0 <= i < |artifacts| => artifacts[i].(home := home))
  }

  function Synced(rows: seq<TurnRow>, home: Home): seq<TurnRow> {
    seq(|rows|, i requires 0 <= i < |rows| => rows[i].(artifacts := Rehomed(rows[i].artifacts, home)))
  }

  // ---- the operations on values ----

  predicate IsInbox(namespace: string) { "kora:inbox:" <= namespace }

  /** The payload names a namespace or a project. A mapping that fires without either does not count. */
  predicate IsExplicit(p: Payload) { Truthy(p.namespace) || Truthy(p.projectId) || Truthy(p.projectName) }

  /** The namespace an update stores, and the requested one beside it. */
  function Destination(chat: Chat, p: Payload, r: Resolution): Resolution {
    if !IsExplicit(p) && !IsInbox(chat.home.namespace) && r.namespace != chat.home.namespace
    then Resolution(chat.home.namespace, chat.requested)
    else r
  }

  function Upserted(chat: Option<Chat>, p: Payload, r: Resolution, platform: string, hash: Canonical -> string): Option<Chat> {
    var h := hash(CanonicalOf(p));
    if chat.Some? && chat.value.contentHash == h then chat
    else
      var to := if chat.Some? then Destination(chat.value, p, r) else r;
      var home := Home(to.namespace, p.projectId, p.projectName, platform);
      match Stored(if chat.Some? then chat.value.turns else [], p.turns, home)
      case None => chat
      case Some(rows) =>
        Some(Chat(home, to.requested, p.title, h, if chat.Some? then Synced(rows, home) else rows))
  }

  function Step(chat: Option<Chat>, e: Event, platform: string, hash: Canonical -> string): Option<Chat> {
    match e
    case Upsert(p, r) => if r.Some? then Upserted(chat, p, r.value, platform, hash) else chat
    case Append(turns, valid) =>
      if !valid || chat.None? then chat
      else (match Stored(chat.value.turns, turns, chat.value.home)
            case None => chat
            case Some(rows) => Some(chat.value.(turns := rows)))
    case Move(target) =>
      if target.None? || chat.None? then chat
      else
        var home := chat.value.home.(namespace := target.value);
        Some(chat.value.(home := home, requested := None, turns := Synced(chat.value.turns, home)))
  }

  function Run(chat: Option<Chat>, events: seq<Event>, n: nat, platform: string, hash: Canonical -> string): Option<Chat>
    requires n <= |events|
  {
    if n == 0 then chat else Step(Run(chat, events, n - 1, platform, hash), events[n - 1], platform, hash)
  }

  // ---- the operations on the rows ----

  class Conversation {
    const platform: string              // in lower case, as the chat row has it
    const hash: Canonical -> string
    var stored: bool
    var namespace: string
    var requested: Option<string>
    var projectId: Option<string>
    var projectName: Option<string>
    var title: string
    var contentHash: string
    var turns: seq<TurnRow>

    function Here(): Home
      reads this
    {
      Home(namespace, projectId, projectName, platform)
    }

    function View(): Option<Chat>
      reads this
    {
      if stored then Some(Chat(Here(), requested, title, contentHash, turns)) else None
    }

    ghost predicate Valid()
      reads this
    {
      UniqueIds(turns) && (!stored ==> turns == [])
    }

    constructor (platform: string, hash: Canonical -> string)
      ensures Valid() && View() == None && this.platform == platform && this.hash == hash
    {
      this.platform, this.hash := platform, hash;
      stored, namespace, requested, projectId, projectName := false, "", None, None, None;
      title, contentHash, turns := "", "", [];
    }

    /** `_persist_turns`: false when an insert fails; the caller rolls back. */
    method PersistTurns(push: seq<Turn>) returns (ok: bool, inserted: nat)
      requires Valid() && stored
      modifies this`turns
      ensures ok <==> Stored(old(turns), push, Here()).Some?
      ensures ok ==> Valid() && turns == Stored(old(turns), push, Here()).value
      ensures ok ==> |turns| == |old(turns)| + inserted
    {
      inserted := 0;
      var collapsed := CollapseDuplicateSourceIds(push);
      var k := 0;
      while k < |collapsed|
        invariant 0 <= k <= |collapsed|
        invariant UniqueIds(turns)
        invariant PersistedAll(old(turns), collapsed, k, Here()) == Some(turns)
        invariant |turns| == |old(turns)| + inserted
      {
        var turn := collapsed[k];
        ghost var before := turns;
        if i :| Truthy(turn.sourceId) && 0 <= i < |turns| && turns[i].sourceId == turn.sourceId {
          UpdateMeetsOneRow(turns, i, turn, Here());
          turns := turns[i := Overwritten(turns[i], turn, Here())];
        } else if turn.sourceId.Some? && exists i :: 0 <= i < |turns| && turns[i].sourceId == turn.sourceId {
          assert HasId(turns, turn.sourceId.value);
          FailureIsFinal(old(turns), collapsed, k + 1, |collapsed|, Here());
          return false, inserted;
        } else {
          turns := turns + [NewRow(turn, Here())];
          inserted := inserted + 1;
        }
        assert Persisted(before, turn, Here()) == Some(turns);
        PersistedKeepsUnique(before, turn, Here());
        k := k + 1;
      }
      ok := true;
    }

    method SyncArtifactNamespace()
      modifies this`turns
      ensures turns == Synced(old(turns), Here())
      ensures old(UniqueIds(turns)) ==> UniqueIds(turns)
    {
      turns := Synced(turns, Here());
    }

    /** `upsert_chat` once the payload is valid and its namespace resolved; false when the database refuses. */
    method UpsertChat(p: Payload, r: Resolution) returns (ok: bool)
      requires Valid()
      modifies this
      ensures Valid()
      ensures View() == Step(old(View()), Upsert(p, Some(r)), platform, hash)
      ensures !ok ==> View() == old(View())
    {
      var newHash := hash(CanonicalOf(p));
      if stored && contentHash == newHash { return true; }
      var existed, was := stored, (namespace, requested, projectId, projectName, title, contentHash, turns);
      var to := r;
      if existed && !IsExplicit(p) && !IsInbox(namespace) && r.namespace != namespace {
        to := Resolution(namespace, requested);
      }
      stored, namespace, requested, projectId, projectName := true, to.namespace, to.requested, p.projectId, p.projectName;
      title, contentHash := p.title, newHash;
      var inserted;
      ok, inserted := PersistTurns(p.turns);
      if !ok {
        stored, namespace, requested, projectId, projectName := existed, was.0, was.1, was.2, was.3;
        title, contentHash, turns := was.4, was.5, was.6;
      } else if existed {
        SyncArtifactNamespace();
      }
    }

    method AppendTurns(push: seq<Turn>) returns (ok: bool)
      requires Valid()
      modifies this`turns
      ensures Valid()
      ensures View() == Step(old(View()), Append(push, true), platform, hash)
      ensures ok ==> stored
    {
      if !stored { return false; }
      var was := turns;
      var inserted;
      ok, inserted := PersistTurns(push);
      if !ok { turns := was; }
    }

    method MoveChat(target: string)
      requires Valid()
      modifies this`namespace, this`requested, this`turns
      ensures Valid()
      ensures View() == Step(old(View()), Move(Some(target)), platform, hash)
    {
      if stored {
        namespace, requested := target, None;
        SyncArtifactNamespace();
      }
    }
  }
}
