/**
 Keyset pagination of the namespace timeline (backend/services/namespace_timeline_service.py): the opaque cursor, the
 strict order on (time, id, kind), and the page built from a `limit + 1` probe.
 */
module Timeline {
  import opened Text

  const MAX_LIMIT := 100
  const CHAT := "chat"
  const MEMORY := "memory"

  /** A row of the unified query; the source time counts microseconds. */
  datatype Row = Row(time: int, id: string, kind: string)

  // ---- the tables behind the query ----

  datatype Chat = Chat(user: string, namespace: string, capturedAt: Option<int>, createdAt: int, invalid: bool)

  datatype Memory = Memory(user: string, namespace: string, occurredAt: Option<int>, sourceChat: Option<string>,
                           createdAt: int, invalid: bool)

  datatype Tables = Tables(chats: map<string, Chat>, memories: map<string, Memory>)

  function ChatTime(c: Chat): int { match c.capturedAt case Some(t) => t case None => c.createdAt }

  /** The memory's own source time, else that of its source chat (if the user's), else its creation time. */
  function MemoryTime(m: Memory, chats: map<string, Chat>, user: string): int {
    match m.occurredAt
    case Some(t) => t
    case None =>
      if m.sourceChat.Some? && m.sourceChat.value in chats && chats[m.sourceChat.value].user == user
      then ChatTime(chats[m.sourceChat.value])
      else m.createdAt
  }

  /** The rows of the union of the requested legs. */
  function Rows(t: Tables, user: string, namespace: string, kinds: set<string>): set<Row> {
    (set id | id in t.chats && CHAT in kinds && t.chats[id].user == user && !t.chats[id].invalid
              && t.chats[id].namespace == namespace :: Row(ChatTime(t.chats[id]), id, CHAT))
    + (set id | id in t.memories && MEMORY in kinds && t.memories[id].user == user && !t.memories[id].invalid
                && t.memories[id].namespace == namespace :: Row(MemoryTime(t.memories[id], t.chats, user), id, MEMORY))
  }

  /** An entry has one row, so a row is an entry together with its current time. */
  lemma OneRowPerEntry(t: Tables, user: string, namespace: string, kinds: set<string>, a: Row, b: Row)
    requires a in Rows(t, user, namespace, kinds) && b in Rows(t, user, namespace, kinds)
    requires a.id == b.id && a.kind == b.kind
    ensures a == b
  {
    assert CHAT[0] != MEMORY[0];
  }

  /** A chat is listed when chats are asked for, and it is the user's, in the namespace and not deleted; when it was captured. */
  lemma ChatIsListedIff(t: Tables, user: string, namespace: string, kinds: set<string>, id: string, time: int)
    ensures Row(time, id, "chat") in Rows(t, user, namespace, kinds) <==>
            && "chat" in kinds && id in t.chats && t.chats[id].user == user && t.chats[id].namespace == namespace
            && !t.chats[id].invalid
            && time == (match t.chats[id].capturedAt case Some(captured) => captured case None => t.chats[id].createdAt)
  {
    assert CHAT[0] != MEMORY[0];
  }

  /** A memory likewise; at its own time, else that of the chat it comes from if that is the user's, else its creation. */
  lemma MemoryIsListedIff(t: Tables, user: string, namespace: string, kinds: set<string>, id: string, time: int)
    ensures Row(time, id, "memory") in Rows(t, user, namespace, kinds) <==>
            && "memory" in kinds && id in t.memories && t.memories[id].user == user && t.memories[id].namespace == namespace
            && !t.memories[id].invalid
            && var m := t.memories[id];
            if m.occurredAt.Some? then time == m.occurredAt.value
            else if m.sourceChat.Some? && m.sourceChat.value in t.chats && t.chats[m.sourceChat.value].user == user then
              time == (var c := t.chats[m.sourceChat.value]; if c.capturedAt.Some? then c.capturedAt.value else c.createdAt)
            else time == m.createdAt
  {
    assert CHAT[0] != MEMORY[0];
  }

  // ---- the order ----

  /** The WHERE clause of the query: `a` comes after the cursor row `b` in the descending order. */
  predicate Less(a: Row, b: Row) {
    || a.time < b.time
    || (a.time == b.time && TextLess(a.id, b.id))
    || (a.time == b.time && a.id == b.id && TextLess(a.kind, b.kind))
  }

  lemma LessTotal(a: Row, b: Row)
    ensures Less(a, b) || a == b || Less(b, a)
    ensures !(Less(a, b) && Less(b, a))
    ensures Less(a, b) ==> a != b
  {
    TextLessTotal(a.id, b.id);
    TextLessTotal(a.kind, b.kind);
  }

  lemma LessTransitive(a: Row, b: Row, c: Row)
    requires Less(a, b) && Less(b, c)
    ensures Less(a, c)
  {
    if TextLess(a.id, b.id) && TextLess(b.id, c.id) { TextLessTransitive(a.id, b.id, c.id); }
    if TextLess(a.kind, b.kind) && TextLess(b.kind, c.kind) { TextLessTransitive(a.kind, b.kind, c.kind); }
  }

  /** In figures: later times come first, at the same time greater ids, and for the same id "memory" before "chat". */
  lemma LessMeans(a: Row, b: Row)
    requires Less(a, b) && KnownKind(a) && KnownKind(b)
    ensures a.time <= b.time
    ensures a.time == b.time ==> a.id == b.id || TextLess(a.id, b.id)
    ensures a.time == b.time && a.id == b.id ==> a.kind == "chat" && b.kind == "memory"
  {
    FirstDifferenceDecides([], CHAT, MEMORY);
    TextLessTotal(CHAT, MEMORY);
    TextLessTotal(CHAT, CHAT);
    TextLessTotal(MEMORY, MEMORY);
    TextLessTotal(a.id, a.id);
    assert [] + CHAT == CHAT && [] + MEMORY == MEMORY;
  }

  ghost predicate IsNewest(m: Row, rows: set<Row>) {
    m in rows && forall r <- rows :: r == m || Less(r, m)
  }

  lemma {:induction false} NewestExists(rows: set<Row>)
    requires rows != {}
    ensures exists m :: IsNewest(m, rows)
    decreases |rows|
  {
    var r :| r in rows;
    var rest := rows - {r};
    assert forall x <- rows :: x == r || x in rest;
    if rest == {} {
      assert IsNewest(r, rows);
    } else {
      NewestExists(rest);
      var m :| IsNewest(m, rest);
      LessTotal(m, r);
      if Less(m, r) {
        forall x <- rows ensures x == r || Less(x, r) {
          if x != r && x != m { LessTransitive(x, m, r); }
        }
        assert IsNewest(r, rows);
      } else {
        assert IsNewest(m, rows);
      }
    }
  }

  ghost function Newest(rows: set<Row>): (m: Row)
    requires rows != {}
    ensures IsNewest(m, rows)
  {
    NewestExists(rows);
    var m :| IsNewest(m, rows);
    m
  }

  /** `ORDER BY occurred_at DESC, id DESC, kind DESC` */
  ghost function Ordered(rows: set<Row>): (s: seq<Row>)
    ensures |s| == |rows|
    decreases |rows|
  {
    if rows == {} then [] else [Newest(rows)] + Ordered(rows - {Newest(rows)})
  }

  lemma {:induction false} OrderedMembers(rows: set<Row>)
    ensures forall r :: r in Ordered(rows) <==> r in rows
    decreases |rows|
  {
    if rows != {} { OrderedMembers(rows - {Newest(rows)}); }
  }

  predicate Descending(s: seq<Row>) { forall i, j :: 0 <= i < j < |s| ==> Less(s[j], s[i]) }

  lemma {:induction false} OrderedDescends(rows: set<Row>)
    ensures Descending(Ordered(rows))
    decreases |rows|
  {
    if rows != {} {
      var rest := Ordered(rows - {Newest(rows)});
      OrderedDescends(rows - {Newest(rows)});
      OrderedMembers(rows - {Newest(rows)});
      forall j | 0 <= j < |rest| ensures Less(rest[j], Newest(rows)) {
        assert rest[j] in rest;
      }
    }
  }

  // ---- the cursor ----

  /** ISO timestamps and base64 (section 5 of RFC 4648), as functions with inverses. */
  datatype Codec = Codec(iso: int -> string, parse: string -> Option<int>,
                         encode: string -> string, decode: string -> Option<string>)

  ghost predicate Sound(c: Codec) {
    && (forall t :: c.parse(c.iso(t)) == Some(t) && '|' !in c.iso(t))
    && (forall s :: c.decode(c.encode(s)) == Some(s))
  }

  function EncodeCursor(r: Row, c: Codec): string { c.encode(c.iso(r.time) + "|" + r.kind + "|" + r.id) }

  /** Length of the text in front of the first bar, or the whole length. */
  function BarAt(s: string): (n: nat)
    ensures n <= |s|
    ensures n < |s| ==> s[n] == '|'
    ensures '|' !in s[..n]
  {
    if s == [] || s[0] == '|' then 0
    else
      var n := BarAt(s[1..]);
      assert s[..n + 1] == [s[0]] + s[1..][..n];
      n + 1
  }

  /** `raw.split("|", 2)` into a timestamp, a known kind and an id. */
  function ReadParts(raw: string, c: Codec): Option<Row> {
    var a := BarAt(raw);
    if a == |raw| then None
    else
      var rest := raw[a + 1..];
      var b := BarAt(rest);
      if b == |rest| then None
      else
        var kind, id := rest[..b], rest[b + 1..];
        if kind != CHAT && kind != MEMORY then None
        else match c.parse(raw[..a])
          case None => None
          case Some(time) => Some(Row(time, id, kind))
  }

  /** Anything that is not base64 of three such parts is no cursor. */
  function DecodeCursor(cursor: string, c: Codec): Option<Row> {
    match c.decode(cursor) case None => None case Some(raw) => ReadParts(raw, c)
  }

  lemma BarAtOfConcat(a: string, rest: string)
    requires '|' !in a
    ensures BarAt(a + "|" + rest) == |a|
  {
    var s, n := a + "|" + rest, BarAt(a + "|" + rest);
    assert s[|a|] == '|';
    assert forall k :: 0 <= k < |a| ==> s[k] == a[k] && a[k] in a;
    forall k | 0 <= k < n ensures s[k] != '|' {
      assert s[k] == s[..n][k] && s[..n][k] in s[..n];
    }
  }

  predicate KnownKind(r: Row) { r.kind == CHAT || r.kind == MEMORY }

  /** The cursor carries its row exactly, even when the id itself contains a bar. */
  lemma CursorRoundTrip(r: Row, c: Codec)
    requires Sound(c) && KnownKind(r)
    ensures DecodeCursor(EncodeCursor(r, c), c) == Some(r)
  {
    assert '|' !in CHAT && '|' !in MEMORY;
    PartsReadBack(c.iso(r.time), r.kind, r.id, c);
    assert c.iso(r.time) + "|" + r.kind + "|" + r.id == c.iso(r.time) + "|" + (r.kind + "|" + r.id);
  }

  /** What a cursor is made of, and that nothing else is one. */
  lemma CursorReadsIff(cursor: string, r: Row, c: Codec)
    requires Sound(c)
    ensures cursor == c.encode(c.iso(r.time) + "|" + r.kind + "|" + r.id) && r.kind in ["chat", "memory"] ==>
              DecodeCursor(cursor, c) == Some(r)
    ensures DecodeCursor(cursor, c) == Some(r) ==>
              r.kind in ["chat", "memory"] && c.decode(cursor).Some?
              && exists time :: c.parse(time) == Some(r.time) && c.decode(cursor).value == time + "|" + r.kind + "|" + r.id
  {
    if r.kind in ["chat", "memory"] { CursorRoundTrip(r, c); }
    if DecodeCursor(cursor, c) == Some(r) {
      var raw := c.decode(cursor).value;
      var a := BarAt(raw);
      var rest := raw[a + 1..];
      CutAt(raw, a);
      CutAt(rest, BarAt(rest));
      ThreeParts(raw[..a], r.kind, r.id);
    }
  }

  lemma CutAt(s: string, n: nat)
    requires n < |s| && s[n] == '|'
    ensures s == s[..n] + "|" + s[n + 1..]
  {}

  lemma ThreeParts(a: string, b: string, c: string)
    ensures a + "|" + (b + "|" + c) == a + "|" + b + "|" + c
  {}

  lemma PartsReadBack(time: string, kind: string, id: string, c: Codec)
    requires '|' !in time && '|' !in kind && (kind == CHAT || kind == MEMORY) && c.parse(time).Some?
    ensures ReadParts(time + "|" + (kind + "|" + id), c) == Some(Row(c.parse(time).value, id, kind))
  {
    SplitAtBar(time, kind + "|" + id);
    SplitAtBar(kind, id);
  }

  lemma SplitAtBar(a: string, rest: string)
    requires '|' !in a
    ensures var s := a + "|" + rest; BarAt(s) == |a| < |s| && s[..|a|] == a && s[|a| + 1..] == rest
  {
    BarAtOfConcat(a, rest);
  }

  // ---- one request ----

  /** The rows after the cursor row; no cursor, or one that does not decode, means all of them. */
  function After(rows: set<Row>, from: Option<Row>): set<Row> {
    match from case None => rows case Some(c) => set r | r in rows && Less(r, c)
  }

  function Min(a: int, b: int): int { if a < b then a else b }
  function Clamp(limit: int): (n: nat)
    ensures 1 <= n <= MAX_LIMIT
  {
    if limit < 1 then 1 else Min(limit, MAX_LIMIT)
  }

  /** What the database returns for the probe. */
  ghost function Probe(rows: set<Row>, from: Option<Row>, limit: nat): seq<Row> {
    var all := Ordered(After(rows, from));
    all[..Min(limit + 1, |all|)]
  }

  datatype Page = Page(items: seq<Row>, hasMore: bool, nextCursor: Option<string>)

  function CursorRow(cursor: Option<string>, c: Codec): Option<Row> {
    match cursor case None => None case Some(s) => DecodeCursor(s, c)
  }

  /** The rows of a page whose entry could still be hydrated. */
  function Hydrated(page: seq<Row>, present: set<(string, string)>): seq<Row> {
    if page == [] then []
    else (if (page[0].kind, page[0].id) in present then [page[0]] else []) + Hydrated(page[1..], present)
  }

  function PageOf(probe: seq<Row>, limit: nat, present: set<(string, string)>, c: Codec): Page
    requires limit >= 1
  {
    var page := probe[..Min(limit, |probe|)];
    Page(Hydrated(page, present), |probe| > limit,
         if |probe| > limit then Some(EncodeCursor(page[|page| - 1], c)) else None)
  }

  lemma HydratedAt(items: seq<Row>, page: seq<Row>, k: nat, present: set<(string, string)>)
    requires k < |page|
    ensures items + Hydrated(page[k..], present) ==
            (if (page[k].kind, page[k].id) in present then items + [page[k]] else items) + Hydrated(page[k + 1..], present)
  {
    assert page[k..][1..] == page[k + 1..];
  }

  /** The page logic on the rows the database returned; `present` is what hydration finds. */
  method BuildPage(probe: seq<Row>, limit: nat, present: set<(string, string)>, c: Codec) returns (r: Page)
    requires limit >= 1
    ensures r == PageOf(probe, limit, present, c)
  {
    var hasMore := |probe| > limit;
    var page := probe[..Min(limit, |probe|)];
    var items: seq<Row> := [];
    for k := 0 to |page|
      invariant items + Hydrated(page[k..], present) == Hydrated(page, present)
    {
      HydratedAt(items, page, k, present);
      if (page[k].kind, page[k].id) in present {
        items := items + [page[k]];
      }
    }
    var nextCursor := None;
    if hasMore && page != [] {
      nextCursor := Some(EncodeCursor(page[|page| - 1], c));
    }
    return Page(items, hasMore, nextCursor);
  }

  // ---- following the cursors ----

  /** The database as one request sees it: the rows its query reads, and the entries its hydration finds. */
  datatype Request = Request(rows: set<Row>, present: set<(string, string)>, limit: int)

  ghost predicate WellFormed(q: Request) { forall r <- q.rows :: KnownKind(r) }

  ghost function Serve(q: Request, cursor: Option<string>, c: Codec): Page {
    PageOf(Probe(q.rows, CursorRow(cursor, c), Clamp(q.limit)), Clamp(q.limit), q.present, c)
  }

  /** All items handed out when every request is asked with the cursor of the page before. */
  ghost function Items(requests: seq<Request>, cursor: Option<string>, c: Codec): seq<Row> {
    if requests == [] then []
    else
      var p := Serve(requests[0], cursor, c);
      p.items + if p.nextCursor.None? then [] else Items(requests[1..], p.nextCursor, c)
  }

  /** The last of the requests is the first whose page has no next cursor. */
  ghost predicate Completed(requests: seq<Request>, cursor: Option<string>, c: Codec) {
    requests != [] &&
    var p := Serve(requests[0], cursor, c);
    if p.nextCursor.None? then |requests| == 1 else Completed(requests[1..], p.nextCursor, c)
  }

  /** The newest rows after the cursor, before hydration. */
  ghost function PageRows(q: Request, from: Option<Row>): seq<Row> {
    var all := Ordered(After(q.rows, from));
    all[..Min(Clamp(q.limit), |all|)]
  }

  lemma ServeFacts(q: Request, cursor: Option<string>, c: Codec)
    requires Sound(c) && WellFormed(q)
    ensures var from, p := CursorRow(cursor, c), Serve(q, cursor, c);
      var page := PageRows(q, from);
      && p.items == Hydrated(page, q.present)
      && (p.nextCursor.None? <==> |After(q.rows, from)| <= Clamp(q.limit))
      && (p.nextCursor.Some? ==>
            |page| == Clamp(q.limit) && CursorRow(p.nextCursor, c) == Some(page[|page| - 1]))
  {
    var from := CursorRow(cursor, c);
    var all, limit := Ordered(After(q.rows, from)), Clamp(q.limit);
    var probe := Probe(q.rows, from, limit);
    assert probe[..Min(limit, |probe|)] == all[..Min(limit, |all|)];
    if |all| > limit { NextCursorReadsBack(q, from, c); }
  }

  lemma NextCursorReadsBack(q: Request, from: Option<Row>, c: Codec)
    requires Sound(c) && WellFormed(q) && Clamp(q.limit) < |Ordered(After(q.rows, from))|
    ensures var last := Ordered(After(q.rows, from))[Clamp(q.limit) - 1];
      KnownKind(last) && DecodeCursor(EncodeCursor(last, c), c) == Some(last)
  {
    var last := Ordered(After(q.rows, from))[Clamp(q.limit) - 1];
    OrderedMembers(After(q.rows, from));
    assert last in Ordered(After(q.rows, from));
    CursorRoundTrip(last, c);
  }

  lemma {:induction false} HydratedFacts(page: seq<Row>, present: set<(string, string)>)
    requires Descending(page)
    ensures Descending(Hydrated(page, present))
    ensures forall r :: r in Hydrated(page, present) <==> r in page && (r.kind, r.id) in present
  {
    if page != [] {
      HydratedFacts(page[1..], present);
      var rest := Hydrated(page[1..], present);
      forall j | 0 <= j < |rest| ensures Less(rest[j], page[0]) {
        assert rest[j] in rest;
        var k :| 0 <= k < |page[1..]| && page[1..][k] == rest[j];
        assert page[k + 1] == rest[j];
      }
    }
  }

  lemma PageRowsFacts(q: Request, from: Option<Row>)
    ensures Descending(PageRows(q, from))
    ensures forall r <- PageRows(q, from) :: r in After(q.rows, from)
    ensures |After(q.rows, from)| <= Clamp(q.limit) ==>
              forall r <- After(q.rows, from) :: r in PageRows(q, from)
    ensures |After(q.rows, from)| > Clamp(q.limit) ==>
              forall r <- After(q.rows, from) ::
                r !in PageRows(q, from) ==> Less(r, PageRows(q, from)[Clamp(q.limit) - 1])
  {
    var all := Ordered(After(q.rows, from));
    var page, limit := PageRows(q, from), Clamp(q.limit);
    OrderedDescends(After(q.rows, from));
    OrderedMembers(After(q.rows, from));
    if |all| <= limit {
      assert page == all;
    } else {
      RestIsLess(all, limit);
    }
  }

  lemma RestIsLess(all: seq<Row>, limit: nat)
    requires Descending(all) && 0 < limit < |all|
    ensures forall r <- all :: r !in all[..limit] ==> Less(r, all[limit - 1])
  {
    forall r <- all | r !in all[..limit] ensures Less(r, all[limit - 1]) {
      var k :| 0 <= k < |all| && all[k] == r;
      assert k >= limit by { assert forall i :: 0 <= i < limit ==> all[..limit][i] == all[i]; }
    }
  }

  ghost predicate Before(r: Row, from: Option<Row>) { from.None? || Less(r, from.value) }

  /** Whatever happens to the data between the requests, the items handed out are strictly descending. */
  lemma {:induction false} ItemsDescend(requests: seq<Request>, cursor: Option<string>, c: Codec)
    requires Sound(c) && forall q <- requests :: WellFormed(q)
    ensures Descending(Items(requests, cursor, c))
    ensures forall r <- Items(requests, cursor, c) :: Before(r, CursorRow(cursor, c))
    decreases |requests|
  {
    if requests != [] {
      var q, from, p := requests[0], CursorRow(cursor, c), Serve(requests[0], cursor, c);
      var page := PageRows(q, from);
      assert q in requests;
      ServeFacts(q, cursor, c);
      PageRowsFacts(q, from);
      HydratedFacts(page, q.present);
      if p.nextCursor.Some? {
        var rest := Items(requests[1..], p.nextCursor, c);
        ItemsDescend(requests[1..], p.nextCursor, c);
        var last := page[|page| - 1];
        forall r <- rest ensures Before(r, from) {
          assert last in page;
          if from.Some? { LessTransitive(r, last, from.value); }
        }
        DescendingConcat(p.items, page, rest);
      }
    }
  }

  lemma DescendingConcat(a: seq<Row>, page: seq<Row>, b: seq<Row>)
    requires Descending(a) && Descending(page) && Descending(b) && page != []
    requires (forall r <- a :: r in page) && forall r <- b :: Less(r, page[|page| - 1])
    ensures Descending(a + b)
  {
    var last := page[|page| - 1];
    forall i, j | 0 <= i < |a| && 0 <= j < |b| ensures Less(b[j], a[i]) {
      assert b[j] in b && a[i] in a;
      var k :| 0 <= k < |page| && page[k] == a[i];
      if k < |page| - 1 { LessTransitive(b[j], last, page[k]); }
    }
  }

  ghost predicate ExactlyOnce(r: Row, s: seq<Row>) {
    exists i :: 0 <= i < |s| && s[i] == r && forall j :: 0 <= j < |s| && s[j] == r ==> j == i
  }

  /** A descending list holds no row twice. */
  lemma DescendingIsOnce(s: seq<Row>, r: Row)
    requires Descending(s) && r in s
    ensures ExactlyOnce(r, s)
  {
    var i :| 0 <= i < |s| && s[i] == r;
    LessTotal(r, r);
    forall j | 0 <= j < |s| && s[j] == r ensures j == i {}
  }

  /** One request hands a row out or leaves it behind the next cursor. */
  lemma RowServedOrAhead(q: Request, cursor: Option<string>, r: Row, c: Codec)
    requires Sound(c) && WellFormed(q) && Before(r, CursorRow(cursor, c))
    requires r in q.rows && (r.kind, r.id) in q.present
    ensures var p := Serve(q, cursor, c);
      r in p.items || (p.nextCursor.Some? && Before(r, CursorRow(p.nextCursor, c)))
  {
    var from := CursorRow(cursor, c);
    ServeFacts(q, cursor, c);
    RowOnPageOrAhead(q, from, r);
    assert Descending(PageRows(q, from)) by { PageRowsFacts(q, from); }
    HydratedFacts(PageRows(q, from), q.present);
  }

  lemma RowOnPageOrAhead(q: Request, from: Option<Row>, r: Row)
    requires r in q.rows && Before(r, from)
    ensures r in PageRows(q, from)
         || (Clamp(q.limit) < |After(q.rows, from)| && Clamp(q.limit) == |PageRows(q, from)|
             && Less(r, PageRows(q, from)[Clamp(q.limit) - 1]))
  {
    assert r in After(q.rows, from);
    PageRowsFacts(q, from);
  }

  /** A row that is there for every request of a completed traversal is handed out. */
  lemma {:induction false} StableRowIsHandedOut(requests: seq<Request>, cursor: Option<string>, r: Row, c: Codec)
    requires Sound(c) && forall q <- requests :: WellFormed(q)
    requires Completed(requests, cursor, c) && Before(r, CursorRow(cursor, c))
    requires forall q <- requests :: r in q.rows && (r.kind, r.id) in q.present
    ensures r in Items(requests, cursor, c)
    decreases |requests|
  {
    var p := Serve(requests[0], cursor, c);
    assert requests[0] in requests;
    RowServedOrAhead(requests[0], cursor, r, c);
    if r !in p.items {
      assert forall x <- requests[1..] :: x in requests;
      StableRowIsHandedOut(requests[1..], p.nextCursor, r, c);
    }
  }

  /**
   Pagination under churn: with arbitrary inserts, deletes and moves between the pages, a completed traversal hands out
   every entry that was there throughout, under a fixed key, exactly once.
   */
  lemma StableRowsExactlyOnce(requests: seq<Request>, r: Row, c: Codec)
    requires Sound(c) && forall q <- requests :: WellFormed(q)
    requires Completed(requests, None, c)
    requires forall q <- requests :: r in q.rows && (r.kind, r.id) in q.present
    ensures ExactlyOnce(r, Items(requests, None, c))
  {
    StableRowIsHandedOut(requests, None, r, c);
    ItemsDescend(requests, None, c);
    DescendingIsOnce(Items(requests, None, c), r);
  }

  lemma {:induction false} ItemsAreRows(requests: seq<Request>, cursor: Option<string>, c: Codec)
    requires Sound(c) && forall q <- requests :: WellFormed(q)
    ensures forall r <- Items(requests, cursor, c) :: exists q :: q in requests && r in q.rows
    decreases |requests|
  {
    if requests != [] {
      var q, p := requests[0], Serve(requests[0], cursor, c);
      assert q in requests && forall x <- requests[1..] :: x in requests;
      forall r <- p.items ensures r in q.rows { ItemIsRow(q, cursor, r, c); }
      if p.nextCursor.Some? {
        ItemsAreRows(requests[1..], p.nextCursor, c);
        assert Items(requests, cursor, c) == p.items + Items(requests[1..], p.nextCursor, c);
      }
    }
  }

  lemma ItemIsRow(q: Request, cursor: Option<string>, r: Row, c: Codec)
    requires Sound(c) && WellFormed(q) && r in Serve(q, cursor, c).items
    ensures r in q.rows
  {
    var from := CursorRow(cursor, c);
    ServeFacts(q, cursor, c);
    PageRowsFacts(q, from);
    HydratedFacts(PageRows(q, from), q.present);
  }

  /** The requests read the union over the tables as they are at the time. */
  ghost predicate Reads(requests: seq<Request>, tables: seq<Tables>, user: string, namespace: string, kinds: set<string>) {
    |requests| == |tables| && forall i :: 0 <= i < |requests| ==> requests[i].rows == Rows(tables[i], user, namespace, kinds)
  }

  /** So a chat or a memory that stayed in the tables at its time is one item, and no other item is of that entry. */
  lemma StableEntriesExactlyOnce(
    requests: seq<Request>, tables: seq<Tables>, user: string, namespace: string, kinds: set<string>, r: Row, c: Codec)
    requires Sound(c) && Reads(requests, tables, user, namespace, kinds) && Completed(requests, None, c)
    requires forall q <- requests :: r in q.rows && (r.kind, r.id) in q.present
    ensures ExactlyOnce(r, Items(requests, None, c))
    ensures forall x <- Items(requests, None, c) :: x.id == r.id && x.kind == r.kind ==> x == r
  {
    forall q <- requests ensures WellFormed(q) {
      var i :| 0 <= i < |requests| && requests[i] == q;
      RowsAreKnown(tables[i], user, namespace, kinds);
    }
    StableRowsExactlyOnce(requests, r, c);
    ItemsAreRows(requests, None, c);
    forall x <- Items(requests, None, c) | x.id == r.id && x.kind == r.kind ensures x == r {
      var q :| q in requests && x in q.rows;
      var i :| 0 <= i < |requests| && requests[i] == q;
      OneRowPerEntry(tables[i], user, namespace, kinds, x, r);
    }
  }

  lemma RowsAreKnown(t: Tables, user: string, namespace: string, kinds: set<string>)
    ensures forall r <- Rows(t, user, namespace, kinds) :: KnownKind(r)
  {}

  // ---- whether there is more ----

  /** A page says that there is more exactly when it does not hold all that is left, and then it has the next cursor. */
  lemma HasMoreIff(q: Request, cursor: Option<string>, c: Codec)
    ensures var p := Serve(q, cursor, c);
      && (p.hasMore <==> |After(q.rows, CursorRow(cursor, c))| > Clamp(q.limit))
      && (p.hasMore <==> p.nextCursor.Some?)
  {}

  ghost function Pages(requests: seq<Request>, cursor: Option<string>, c: Codec): seq<Page> {
    if requests == [] then []
    else
      var p := Serve(requests[0], cursor, c);
      [p] + if p.nextCursor.None? then [] else Pages(requests[1..], p.nextCursor, c)
  }

  /** So a client that goes on while there is more makes exactly the requests of a completed traversal. */
  lemma {:induction false} MoreUntilTheLastPage(requests: seq<Request>, cursor: Option<string>, c: Codec)
    requires Completed(requests, cursor, c)
    ensures var pages := Pages(requests, cursor, c);
      |pages| == |requests| && forall i :: 0 <= i < |pages| ==> (pages[i].hasMore <==> i < |pages| - 1)
    decreases |requests|
  {
    var p := Serve(requests[0], cursor, c);
    HasMoreIff(requests[0], cursor, c);
    if p.nextCursor.Some? {
      MoreUntilTheLastPage(requests[1..], p.nextCursor, c);
      var rest := Pages(requests[1..], p.nextCursor, c);
      assert Pages(requests, cursor, c) == [p] + rest;
      forall i | 0 < i < |[p] + rest| ensures ([p] + rest)[i] == rest[i - 1] {}
    }
  }

  /** The limit asked for is used as it is between 1 and 100, and the nearer of the two beyond. */
  lemma ClampIsNearest(limit: int)
    ensures 1 <= limit <= 100 ==> Clamp(limit) == limit
    ensures limit < 1 ==> Clamp(limit) == 1
    ensures limit > 100 ==> Clamp(limit) == 100
  {}

  // ---- a fixed data set ----

  ghost predicate Fixed(requests: seq<Request>, rows: set<Row>) {
    forall q <- requests :: q.rows == rows && forall r <- rows :: (r.kind, r.id) in q.present
  }

  lemma {:induction false} HydratedAll(page: seq<Row>, present: set<(string, string)>)
    requires forall r <- page :: (r.kind, r.id) in present
    ensures Hydrated(page, present) == page
  {
    if page != [] {
      assert page[0] in page && forall r <- page[1..] :: r in page;
      HydratedAll(page[1..], present);
    }
  }

  /** What comes after the last row of a page in the order is what comes after it in the list. */
  lemma {:induction false} OrderedAfter(rows: set<Row>, k: nat)
    requires k < |rows|
    ensures k < |Ordered(rows)| && Ordered(rows)[k + 1..] == Ordered(After(rows, Some(Ordered(rows)[k])))
    decreases |rows|
  {
    var newest, rest := Newest(rows), rows - {Newest(rows)};
    ConsIndex(newest, Ordered(rest), k);
    if k == 0 {
      AfterNewest(rows);
    } else {
      OrderedAfter(rest, k - 1);
      AfterOlder(rows, Ordered(rest)[k - 1]);
    }
  }

  lemma ConsIndex<T>(x: T, s: seq<T>, k: nat)
    requires k <= |s|
    ensures ([x] + s)[k + 1..] == s[k..] && (k > 0 ==> ([x] + s)[k] == s[k - 1]) && s[0..] == s
  {}

  lemma AfterOlder(rows: set<Row>, c: Row)
    requires rows != {} && c in Ordered(rows - {Newest(rows)})
    ensures After(rows, Some(c)) == After(rows - {Newest(rows)}, Some(c))
  {
    OrderedMembers(rows - {Newest(rows)});
    LessTotal(Newest(rows), c);
  }

  lemma AfterNewest(rows: set<Row>)
    requires rows != {}
    ensures After(rows, Some(Newest(rows))) == rows - {Newest(rows)}
  {
    forall r <- rows ensures Less(r, Newest(rows)) <==> r != Newest(rows) { LessTotal(r, Newest(rows)); }
  }

  lemma AfterAfter(rows: set<Row>, from: Option<Row>, c: Row)
    requires Before(c, from)
    ensures After(After(rows, from), Some(c)) == After(rows, Some(c))
  {
    if from.Some? {
      forall r <- rows | Less(r, c) ensures Less(r, from.value) { LessTransitive(r, c, from.value); }
    }
  }

  /** Following the cursors over a fixed data set lists what is after the cursor, in order. */
  lemma {:induction false} FixedItems(requests: seq<Request>, rows: set<Row>, cursor: Option<string>, c: Codec)
    requires Sound(c) && Fixed(requests, rows) && (forall r <- rows :: KnownKind(r))
    requires Completed(requests, cursor, c)
    ensures Items(requests, cursor, c) == Ordered(After(rows, CursorRow(cursor, c)))
    decreases |requests|
  {
    var q, p := requests[0], Serve(requests[0], cursor, c);
    assert q in requests;
    FixedPage(q, cursor, c);
    if p.nextCursor.Some? {
      assert forall x <- requests[1..] :: x in requests;
      FixedItems(requests[1..], rows, p.nextCursor, c);
    }
  }

  /** One page of a fixed data set: all that is left, or the part in front of what the next cursor selects. */
  lemma FixedPage(q: Request, cursor: Option<string>, c: Codec)
    requires Sound(c) && WellFormed(q) && forall r <- q.rows :: (r.kind, r.id) in q.present
    ensures var p := Serve(q, cursor, c);
      Ordered(After(q.rows, CursorRow(cursor, c))) ==
        p.items + if p.nextCursor.None? then [] else Ordered(After(q.rows, CursorRow(p.nextCursor, c)))
  {
    var from := CursorRow(cursor, c);
    var page := PageRows(q, from);
    ServeFacts(q, cursor, c);
    OrderedMembers(After(q.rows, from));
    forall r <- page ensures (r.kind, r.id) in q.present {
      assert r in Ordered(After(q.rows, from));
    }
    HydratedAll(page, q.present);
    if |After(q.rows, from)| > Clamp(q.limit) {
      PageThenRest(q, from);
    }
  }

  /** A full page and what is ordered after its last row make up the ordered rows. */
  lemma PageThenRest(q: Request, from: Option<Row>)
    requires |After(q.rows, from)| > Clamp(q.limit)
    ensures var page := PageRows(q, from);
      page != [] && Ordered(After(q.rows, from)) == page + Ordered(After(q.rows, Some(page[|page| - 1])))
  {
    var some, limit := After(q.rows, from), Clamp(q.limit);
    var all := Ordered(some);
    var last := all[limit - 1];
    OrderedAfter(some, limit - 1);
    assert After(some, Some(last)) == After(q.rows, Some(last)) by {
      OrderedMembers(some);
      assert last in all;
      AfterAfter(q.rows, from, last);
    }
    assert all == all[..limit] + all[limit..];
  }

  /** Over a fixed data set a completed traversal returns exactly the sorted list, each entry once. */
  lemma FixedTraversalIsSortedList(requests: seq<Request>, rows: set<Row>, c: Codec)
    requires Sound(c) && Fixed(requests, rows) && (forall r <- rows :: KnownKind(r))
    requires Completed(requests, None, c)
    ensures Items(requests, None, c) == Ordered(rows) && Descending(Items(requests, None, c))
  {
    FixedItems(requests, rows, None, c);
    OrderedDescends(rows);
  }

  /** It terminates: among more requests than there are rows left, one is the last. */
  lemma {:induction false} FixedTraversalEnds(requests: seq<Request>, rows: set<Row>, cursor: Option<string>, c: Codec)
    returns (n: nat)
    requires Sound(c) && Fixed(requests, rows) && (forall r <- rows :: KnownKind(r))
    requires |requests| > |After(rows, CursorRow(cursor, c))|
    ensures n <= |requests| && Completed(requests[..n], cursor, c)
    decreases |requests|
  {
    var next := Serve(requests[0], cursor, c).nextCursor;
    if next.None? {
      n := 1;
      assert requests[..1][0] == requests[0];
    } else {
      PageShrinksRest(requests, rows, cursor, c);
      FixedRest(requests, rows);
      var m := FixedTraversalEnds(requests[1..], rows, next, c);
      n := m + 1;
      CompletedFront(requests, m, cursor, c);
    }
  }

  lemma FixedRest(requests: seq<Request>, rows: set<Row>)
    requires Fixed(requests, rows) && requests != []
    ensures Fixed(requests[1..], rows)
  {
    assert forall x <- requests[1..] :: x in requests;
  }

  lemma CompletedFront(requests: seq<Request>, m: nat, cursor: Option<string>, c: Codec)
    requires m < |requests| && Serve(requests[0], cursor, c).nextCursor.Some?
    requires Completed(requests[1..][..m], Serve(requests[0], cursor, c).nextCursor, c)
    ensures Completed(requests[..m + 1], cursor, c)
  {
    assert requests[..m + 1][1..] == requests[1..][..m];
    assert requests[..m + 1][0] == requests[0];
  }

  lemma PageShrinksRest(requests: seq<Request>, rows: set<Row>, cursor: Option<string>, c: Codec)
    requires Sound(c) && Fixed(requests, rows) && (forall r <- rows :: KnownKind(r)) && requests != []
    requires Serve(requests[0], cursor, c).nextCursor.Some?
    ensures |After(rows, CursorRow(Serve(requests[0], cursor, c).nextCursor, c))| < |After(rows, CursorRow(cursor, c))|
  {
    var q, from := requests[0], CursorRow(cursor, c);
    assert q in requests;
    ServeFacts(q, cursor, c);
    var page := PageRows(q, from);
    PageRowsFacts(q, from);
    assert page[|page| - 1] in page;
    AfterShrinks(rows, from, page[|page| - 1]);
  }

  lemma AfterShrinks(rows: set<Row>, from: Option<Row>, last: Row)
    requires last in After(rows, from)
    ensures |After(rows, Some(last))| < |After(rows, from)|
  {
    AfterAfter(rows, from, last);
    LessTotal(last, last);
    assert After(rows, Some(last)) <= After(rows, from) - {last};
    SubsetIsSmaller(After(rows, Some(last)), After(rows, from) - {last});
  }

  lemma {:induction false} SubsetIsSmaller(a: set<Row>, b: set<Row>)
    requires a <= b
    ensures |a| <= |b|
  {
    if a != {} {
      var x :| x in a;
      SubsetIsSmaller(a - {x}, b - {x});
    }
  }

  /** A cursor that does not decode silently starts over. */
  lemma BadCursorStartsOver(q: Request, cursor: string, c: Codec)
    requires DecodeCursor(cursor, c) == None
    ensures Serve(q, Some(cursor), c) == Serve(q, None, c)
  {}
}
