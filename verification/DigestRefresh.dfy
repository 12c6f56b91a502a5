/**
 The rolling session digest (backend/services/session_digest_service.py:218-244, 493-594, 600-647, 1059-1071): each
 refresh compacts, in batches of three, the exchanges that are older than the raw tail and not yet in the digest.
 The language model is an arbitrary function of the previous digest and the batch.
 */
module DigestRefresh {
  import opened Text
  import opened DigestBudget
  import opened TurnPairing

  const BATCH_SIZE := 3

  datatype Source = Source(id: string, content: string, memoryId: Option<string>, turnId: Option<string>,
                           createdAt: Option<int>)

  datatype Generation = Generation(text: string, tier: string)

  type Generator = (string, seq<Source>) -> Generation

  /** The fields of the stored row that a refresh writes. */
  datatype Digest = Digest(
    text: string, tier: string,
    exchangeIds: seq<string>, memoryIds: seq<string>, turnIds: seq<string>,
    count: nat, tail: nat, tokens: nat, lastCreated: Option<int>)

  function NewDigest(tail: nat): Digest { Digest("", "L2.1", [], [], [], 0, tail, 0, None) }

  // ---- the pieces ----

  /** `exchanges[:-tail] if tail else exchanges` */
  function Compactable(exchanges: seq<Source>, tail: nat): seq<Source> {
    if tail >= |exchanges| && tail > 0 then [] else exchanges[..|exchanges| - tail]
  }

  /** `exchanges[-tail:] if exchanges else []`; a tail of zero takes everything. */
  function RawTail(exchanges: seq<Source>, tail: nat): seq<Source> {
    if tail == 0 || tail >= |exchanges| then exchanges else exchanges[|exchanges| - tail..]
  }

  function Pending(exchanges: seq<Source>, done: seq<string>): seq<Source> {
    if exchanges == [] then []
    else (if exchanges[0].id in done then [] else [exchanges[0]]) + Pending(exchanges[1..], done)
  }

  function Chunks(items: seq<Source>, size: nat): (batches: seq<seq<Source>>)
    requires size > 0
    ensures forall b <- batches :: 0 < |b| <= size
    decreases |items|
  {
    if items == [] then []
    else if |items| <= size then [items]
    else [items[..size]] + Chunks(items[size..], size)
  }

  function Ids(items: seq<Source>): seq<string> { if items == [] then [] else [items[0].id] + Ids(items[1..]) }

  function Concat(batches: seq<seq<Source>>): seq<Source> {
    if batches == [] then [] else batches[0] + Concat(batches[1..])
  }

  /** Values in order of first appearance, absent and empty ones left out. */
  function Unique(values: seq<Option<string>>, seen: seq<string>): seq<string>
    decreases |values|
  {
    if values == [] then seen
    else if values[0].None? || values[0].value == "" || values[0].value in seen then Unique(values[1..], seen)
    else Unique(values[1..], seen + [values[0].value])
  }

  function Present(ids: seq<string>): seq<Option<string>> {
    seq(|ids|, i requires 0 <= i < |ids| => Some(ids[i]))
  }

  function MemoryIds(items: seq<Source>): seq<Option<string>> {
    seq(|items|, i requires 0 <= i < |items| => items[i].memoryId)
  }

  function TurnIds(items: seq<Source>): seq<Option<string>> {
    seq(|items|, i requires 0 <= i < |items| => items[i].turnId)
  }

  /** The digest after generating from the batches in turn. */
  function Generated(text: string, tier: string, batches: seq<seq<Source>>, generate: Generator): Generation
    decreases |batches|
  {
    if batches == [] then Generation(text, tier)
    else Generated(generate(text, batches[0]).text, generate(text, batches[0]).tier, batches[1..], generate)
  }

  // ---- one refresh ----

  /** The budget fit and its counter, as far as the bookkeeping is concerned any two functions. */
  datatype Fitter = Fitter(fit: string -> string, count: Counter)

  function FitterOf(f: Fit): Fitter { Fitter((t: string) => Fitted(t, f), f.count) }

  datatype Outcome = Outcome(row: Option<Digest>, batches: seq<seq<Source>>)

  /** The new row, and the batches that were handed to the generator. */
  function Refreshed(row: Option<Digest>, exchanges: seq<Source>, tail: nat, f: Fitter, generate: Generator): Outcome {
    var compactable := Compactable(exchanges, tail);
    if row.None? && compactable == [] then Outcome(None, [])
    else
      var previous := if row.Some? then row.value else NewDigest(tail);
      var pending := Pending(compactable, previous.exchangeIds);
      var batches := Chunks(pending, BATCH_SIZE);
      var g := Generated(previous.text, previous.tier, batches, generate);
      var text := f.fit(g.text);
      var ids := previous.exchangeIds + Ids(pending);
      Outcome(Some(Digest(
        text, g.tier, ids,
        Unique(Present(previous.memoryIds) + MemoryIds(pending), []),
        Unique(Present(previous.turnIds) + TurnIds(pending), []),
        |ids|, tail, f.count(text),
        if compactable != [] then compactable[|compactable| - 1].createdAt else previous.lastCreated)), batches)
  }

  /** The loop over the batches. */
  method Compact(digest: Digest, batches: seq<seq<Source>>, generate: Generator)
    returns (g: Generation, done: seq<string>, handed: seq<seq<Source>>)
    ensures g == Generated(digest.text, digest.tier, batches, generate)
    ensures done == digest.exchangeIds + Ids(Concat(batches))
    ensures handed == batches
  {
    var text, tier := digest.text, digest.tier;
    done, handed := digest.exchangeIds, [];
    assert batches[0..] == batches;
    for k := 0 to |batches|
      invariant handed == batches[..k]
      invariant Generated(text, tier, batches[k..], generate) == Generated(digest.text, digest.tier, batches, generate)
      invariant done + Ids(Concat(batches[k..])) == digest.exchangeIds + Ids(Concat(batches))
    {
      GeneratedAt(text, tier, batches, k, generate);
      DoneAt(done, batches, k);
      g := generate(text, batches[k]);
      text, tier := g.text, g.tier;
      done := done + Ids(batches[k]);
      handed := handed + [batches[k]];
    }
    assert batches[|batches|..] == [] && done + [] == done;
    g := Generation(text, tier);
  }

  lemma GeneratedAt(text: string, tier: string, batches: seq<seq<Source>>, k: nat, generate: Generator)
    requires k < |batches|
    ensures var g := generate(text, batches[k]);
      Generated(text, tier, batches[k..], generate) == Generated(g.text, g.tier, batches[k + 1..], generate)
  {
    assert batches[k..][1..] == batches[k + 1..];
  }

  lemma DoneAt(done: seq<string>, batches: seq<seq<Source>>, k: nat)
    requires k < |batches|
    ensures done + Ids(Concat(batches[k..])) == done + Ids(batches[k]) + Ids(Concat(batches[k + 1..]))
  {
    assert batches[k..][1..] == batches[k + 1..];
    IdsConcat(batches[k], Concat(batches[k + 1..]));
  }

  /** The stored digest of one session. */
  class SessionDigest {
    var row: Option<Digest>

    constructor ()
      ensures row == None
    {
      row := None;
    }

    /** `refresh_session_digest`; `handed` are the batches the generator was called with. */
    method Refresh(exchanges: seq<Source>, tail: nat, f: Fit, generate: Generator)
      returns (handed: seq<seq<Source>>)
      modifies this
      ensures Outcome(row, handed) == Refreshed(old(row), exchanges, tail, FitterOf(f), generate)
    {
      var compactable := Compactable(exchanges, tail);
      handed := [];
      if row.None? && compactable == [] {
        return;
      }
      var digest := if row.Some? then row.value else NewDigest(tail);
      var pending := Pending(compactable, digest.exchangeIds);
      var batches := Chunks(pending, BATCH_SIZE);
      var g, done;
      g, done, handed := Compact(digest, batches, generate);
      ChunksConcat(pending, BATCH_SIZE);
      var fitted := FitTextToBudget(g.text, f);
      row := Some(Digest(
        fitted, g.tier, done,
        Unique(Present(digest.memoryIds) + MemoryIds(pending), []),
        Unique(Present(digest.turnIds) + TurnIds(pending), []),
        |done|, tail, f.count(fitted),
        if compactable != [] then compactable[|compactable| - 1].createdAt else digest.lastCreated));
    }
  }

  lemma {:induction false} IdsConcat(a: seq<Source>, b: seq<Source>)
    ensures Ids(a + b) == Ids(a) + Ids(b)
  {
    if a == [] {
      assert a + b == b;
    } else {
      assert (a + b)[0] == a[0] && (a + b)[1..] == a[1..] + b;
      IdsConcat(a[1..], b);
    }
  }

  lemma {:induction false} ChunksConcat(items: seq<Source>, size: nat)
    requires size > 0
    ensures Concat(Chunks(items, size)) == items
    decreases |items|
  {
    if |items| > size {
      ChunksConcat(items[size..], size);
      assert items == items[..size] + items[size..];
    } else if items != [] {
      assert [items][1..] == [] && items + [] == items;
    }
  }

  // ---- what one refresh keeps ----

  predicate Distinct(ids: seq<string>) { forall i, j :: 0 <= i < j < |ids| ==> ids[i] != ids[j] }

  ghost predicate RowOk(row: Option<Digest>) {
    row.Some? ==> Distinct(row.value.exchangeIds) && row.value.count == |row.value.exchangeIds|
  }

  function StoredIds(row: Option<Digest>): seq<string> { if row.Some? then row.value.exchangeIds else [] }

  lemma {:induction false} IdsMembers(items: seq<Source>)
    ensures |Ids(items)| == |items| && forall i :: 0 <= i < |items| ==> Ids(items)[i] == items[i].id
  {
    if items != [] { IdsMembers(items[1..]); }
  }

  lemma {:induction false} PendingMembers(items: seq<Source>, done: seq<string>)
    ensures forall x :: x in Pending(items, done) <==> x in items && x.id !in done
  {
    if items != [] { PendingMembers(items[1..], done); }
  }

  lemma {:induction false} PendingIdsDistinct(items: seq<Source>, done: seq<string>)
    requires Distinct(Ids(items))
    ensures Distinct(Ids(Pending(items, done)))
    ensures forall id <- Ids(Pending(items, done)) :: id in Ids(items) && id !in done
  {
    if items != [] {
      var all, rest := Ids(items), Ids(items[1..]);
      assert all == [items[0].id] + rest;
      assert Distinct(rest) by { assert forall i :: 0 <= i < |rest| ==> rest[i] == all[i + 1]; }
      PendingIdsDistinct(items[1..], done);
      forall i | 0 <= i < |rest| ensures rest[i] != items[0].id { assert all[0] != all[i + 1]; }
      if items[0].id !in done {
        var p := Pending(items[1..], done);
        assert Pending(items, done) == [items[0]] + p && ([items[0]] + p)[1..] == p;
        DistinctCons(items[0].id, Ids(p));
      } else {
        assert Pending(items, done) == Pending(items[1..], done);
      }
    }
  }

  lemma DistinctCons(id: string, ids: seq<string>)
    requires Distinct(ids) && id !in ids
    ensures Distinct([id] + ids)
  {}

  lemma DistinctAppend(a: seq<string>, b: seq<string>)
    requires Distinct(a) && Distinct(b) && forall id <- b :: id !in a
    ensures Distinct(a + b)
  {
    forall i, j | 0 <= i < j < |a + b| ensures (a + b)[i] != (a + b)[j] {
      if j >= |a| { assert (a + b)[j] == b[j - |a|] && b[j - |a|] in b; }
      if i >= |a| { assert (a + b)[i] == b[i - |a|]; }
    }
  }

  lemma PrefixDistinct(items: seq<Source>, n: nat)
    requires n <= |items| && Distinct(Ids(items))
    ensures Distinct(Ids(items[..n]))
  {
    IdsMembers(items);
    IdsMembers(items[..n]);
    assert forall i :: 0 <= i < n ==> Ids(items[..n])[i] == Ids(items)[i];
  }

  /** The stored ids stay duplicate-free and counted, and grow by exactly the ids of the batches, in order. */
  ghost predicate KeepsRow(row: Option<Digest>, o: Outcome) {
    && RowOk(o.row)
    && StoredIds(o.row) == StoredIds(row) + Ids(Concat(o.batches))
    && (forall b <- o.batches :: 0 < |b| <= BATCH_SIZE)
  }

  /** What is compacted from now on. */
  function Due(row: Option<Digest>, exchanges: seq<Source>, tail: nat): seq<Source> {
    Pending(Compactable(exchanges, tail), StoredIds(row))
  }

  lemma RefreshedShape(row: Option<Digest>, exchanges: seq<Source>, tail: nat, f: Fitter, generate: Generator)
    ensures var o, due := Refreshed(row, exchanges, tail, f, generate), Due(row, exchanges, tail);
      && StoredIds(o.row) == StoredIds(row) + Ids(due)
      && o.batches == Chunks(due, BATCH_SIZE)
      && (o.row.Some? ==> o.row.value.count == |o.row.value.exchangeIds|)
  {
    if row.None? && Compactable(exchanges, tail) == [] {
      assert Ids(Pending([], [])) == [];
    }
  }

  lemma DueIsNew(row: Option<Digest>, exchanges: seq<Source>, tail: nat)
    requires RowOk(row) && Distinct(Ids(exchanges))
    ensures Distinct(StoredIds(row) + Ids(Due(row, exchanges, tail)))
  {
    var compactable, stored := Compactable(exchanges, tail), StoredIds(row);
    PrefixDistinct(exchanges, |compactable|);
    PendingIdsDistinct(compactable, stored);
    DistinctAppend(stored, Ids(Pending(compactable, stored)));
  }

  lemma DueKeepsRow(row: Option<Digest>, exchanges: seq<Source>, tail: nat, o: Outcome)
    requires RowOk(row) && Distinct(Ids(exchanges))
    requires StoredIds(o.row) == StoredIds(row) + Ids(Due(row, exchanges, tail))
    requires o.batches == Chunks(Due(row, exchanges, tail), BATCH_SIZE)
    requires o.row.Some? ==> o.row.value.count == |o.row.value.exchangeIds|
    ensures KeepsRow(row, o)
  {
    DueIsNew(row, exchanges, tail);
    ChunksConcat(Due(row, exchanges, tail), BATCH_SIZE);
    ChunksAreSmall(Due(row, exchanges, tail));
  }

  lemma RefreshKeepsRow(row: Option<Digest>, exchanges: seq<Source>, tail: nat, f: Fitter, generate: Generator)
    requires RowOk(row) && Distinct(Ids(exchanges))
    ensures KeepsRow(row, Refreshed(row, exchanges, tail, f, generate))
  {
    RefreshedShape(row, exchanges, tail, f, generate);
    DueKeepsRow(row, exchanges, tail, Refreshed(row, exchanges, tail, f, generate));
  }

  lemma {:induction false} ChunksAreSmall(items: seq<Source>)
    ensures forall b <- Chunks(items, BATCH_SIZE) :: 0 < |b| <= BATCH_SIZE
    decreases |items|
  {
    if |items| > BATCH_SIZE { ChunksAreSmall(items[BATCH_SIZE..]); }
  }

  lemma CompactableOrTail(exchanges: seq<Source>, tail: nat)
    ensures forall x <- exchanges :: x in Compactable(exchanges, tail) || x in RawTail(exchanges, tail)
  {
    if 0 < tail < |exchanges| {
      assert exchanges == exchanges[..|exchanges| - tail] + exchanges[|exchanges| - tail..];
    }
  }

  lemma {:induction false} PendingIsStored(items: seq<Source>, done: seq<string>)
    ensures forall x <- items :: x.id in done || x.id in Ids(Pending(items, done))
  {
    if items != [] {
      var rest := Pending(items[1..], done);
      PendingIsStored(items[1..], done);
      if items[0].id !in done {
        assert ([items[0]] + rest)[1..] == rest;
        assert Ids(Pending(items, done)) == [items[0].id] + Ids(rest);
      } else {
        assert Pending(items, done) == rest;
      }
      assert forall x <- items :: x == items[0] || x in items[1..];
    }
  }

  /** What was due for compaction is in the digest afterwards. */
  lemma CompactableIsStored(row: Option<Digest>, exchanges: seq<Source>, tail: nat, f: Fitter, generate: Generator)
    ensures var o := Refreshed(row, exchanges, tail, f, generate);
      forall x <- Compactable(exchanges, tail) :: x.id in StoredIds(o.row)
  {
    RefreshedShape(row, exchanges, tail, f, generate);
    PendingIsStored(Compactable(exchanges, tail), StoredIds(row));
  }

  /** After a refresh every loaded exchange is in the digest or in the raw tail. */
  lemma NothingFallsBetween(row: Option<Digest>, exchanges: seq<Source>, tail: nat, f: Fitter, generate: Generator)
    ensures var o := Refreshed(row, exchanges, tail, f, generate);
      forall x <- exchanges :: x.id in StoredIds(o.row) || x in RawTail(exchanges, tail)
  {
    CompactableOrTail(exchanges, tail);
    CompactableIsStored(row, exchanges, tail, f, generate);
  }

  ghost predicate StaysWithin(f: Fitter, budget: nat) { forall t: string :: f.count(f.fit(t)) <= budget }

  /** The service's own fit stays within its budget. */
  lemma FitterStaysWithin(f: Fit)
    requires f.count("") == 0
    ensures StaysWithin(FitterOf(f), f.budget)
  {
    forall t: string ensures f.count(Fitted(t, f)) <= f.budget { FittedIsWithinBudget(t, f); }
  }

  /** The stored text is within its budget, and the stored count is its count. */
  lemma StoredDigestIsWithinBudget(row: Option<Digest>, exchanges: seq<Source>, tail: nat, f: Fitter, budget: nat,
                                   generate: Generator)
    requires StaysWithin(f, budget)
    ensures var o := Refreshed(row, exchanges, tail, f, generate);
      o.row.Some? ==> o.row.value.tokens == f.count(o.row.value.text) <= budget
  {
    if row.Some? || Compactable(exchanges, tail) != [] {
      var previous := if row.Some? then row.value else NewDigest(tail);
      var batches := Chunks(Pending(Compactable(exchanges, tail), previous.exchangeIds), BATCH_SIZE);
      var text := Generated(previous.text, previous.tier, batches, generate).text;
      assert f.count(f.fit(text)) <= budget;
    }
  }

  // ---- any sequence of refreshes ----

  datatype Call = Call(exchanges: seq<Source>, tail: nat, f: Fitter, generate: Generator)

  type Refresher = (Option<Digest>, Call) -> Outcome

  function RefreshOnce(row: Option<Digest>, c: Call): Outcome { Refreshed(row, c.exchanges, c.tail, c.f, c.generate) }

  function RunWith(step: Refresher, row: Option<Digest>, calls: seq<Call>): Outcome
    decreases |calls|
  {
    if calls == [] then Outcome(row, [])
    else
      var o := step(row, calls[0]);
      var rest := RunWith(step, o.row, calls[1..]);
      Outcome(rest.row, o.batches + rest.batches)
  }

  function RunAll(row: Option<Digest>, calls: seq<Call>): Outcome { RunWith(RefreshOnce, row, calls) }

  lemma {:induction false} ConcatConcat(a: seq<seq<Source>>, b: seq<seq<Source>>)
    ensures Concat(a + b) == Concat(a) + Concat(b)
  {
    if a == [] {
      assert a + b == b;
    } else {
      assert (a + b)[0] == a[0] && (a + b)[1..] == a[1..] + b;
      ConcatConcat(a[1..], b);
      assert a[0] + (Concat(a[1..]) + Concat(b)) == (a[0] + Concat(a[1..])) + Concat(b);
    }
  }

  lemma {:induction false} RunKeepsRow(step: Refresher, row: Option<Digest>, calls: seq<Call>)
    requires RowOk(row) && forall r: Option<Digest>, c <- calls :: RowOk(r) ==> KeepsRow(r, step(r, c))
    ensures KeepsRow(row, RunWith(step, row, calls))
    decreases |calls|
  {
    if calls == [] {
      assert StoredIds(row) + [] == StoredIds(row);
    } else {
      assert calls[0] in calls && forall x <- calls[1..] :: x in calls;
      var o := step(row, calls[0]);
      RunKeepsRow(step, o.row, calls[1..]);
      KeepsRowInTurn(row, o, RunWith(step, o.row, calls[1..]));
    }
  }

  lemma KeepsRowInTurn(row: Option<Digest>, o: Outcome, rest: Outcome)
    requires KeepsRow(row, o) && KeepsRow(o.row, rest)
    ensures KeepsRow(row, Outcome(rest.row, o.batches + rest.batches))
  {
    IdsOfBoth(o.batches, rest.batches, StoredIds(row));
  }

  lemma IdsOfBoth(a: seq<seq<Source>>, b: seq<seq<Source>>, ids: seq<string>)
    ensures ids + Ids(Concat(a + b)) == (ids + Ids(Concat(a))) + Ids(Concat(b))
  {
    ConcatConcat(a, b);
    IdsConcat(Concat(a), Concat(b));
  }

  /**
   Exactly-once compaction: over any sequence of refreshes of a new session, the ids that entered the generation
   batches are, in that order, the stored ids; none entered twice, and the stored count is their number.
   */
  lemma EachIdCompactedOnce(calls: seq<Call>)
    requires forall c <- calls :: Distinct(Ids(c.exchanges))
    ensures var o := RunAll(None, calls);
      && StoredIds(o.row) == Ids(Concat(o.batches))
      && Distinct(Ids(Concat(o.batches)))
      && (o.row.Some? ==> o.row.value.count == |Concat(o.batches)|)
      && (forall b <- o.batches :: 0 < |b| <= 3)
  {
    var o := RunAll(None, calls);
    forall r: Option<Digest>, c <- calls | RowOk(r) ensures KeepsRow(r, RefreshOnce(r, c)) {
      RefreshKeepsRow(r, c.exchanges, c.tail, c.f, c.generate);
    }
    RunKeepsRow(RefreshOnce, None, calls);
    assert [] + Ids(Concat(o.batches)) == Ids(Concat(o.batches));
    IdsMembers(Concat(o.batches));
  }

  // ---- what the text is made of ----

  function TextOf(row: Option<Digest>): string { if row.Some? then row.value.text else "" }

  /** Every batch is generated on top of what the batches before it gave. */
  lemma {:induction false} GeneratedOnTop(text: string, tier: string, batches: seq<seq<Source>>, b: seq<Source>, generate: Generator)
    ensures Generated(text, tier, batches + [b], generate) == generate(Generated(text, tier, batches, generate).text, b)
    decreases |batches|
  {
    if batches == [] {
      assert [] + [b] == [b] && [b][1..] == [];
    } else {
      assert (batches + [b])[0] == batches[0] && (batches + [b])[1..] == batches[1..] + [b];
      var g := generate(text, batches[0]);
      GeneratedOnTop(g.text, g.tier, batches[1..], b, generate);
    }
  }

  ghost predicate Extends(generate: Generator) { forall p, b :: p <= generate(p, b).text }

  lemma {:induction false} GeneratedExtends(text: string, tier: string, batches: seq<seq<Source>>, generate: Generator)
    requires Extends(generate)
    ensures text <= Generated(text, tier, batches, generate).text
    decreases |batches|
  {
    if batches != [] {
      var g := generate(text, batches[0]);
      assert text <= g.text;
      GeneratedExtends(g.text, g.tier, batches[1..], generate);
    }
  }

  /** A refresh builds on the stored digest: what the generator keeps, and the fit does not cut, stays. */
  lemma RefreshBuildsOn(row: Option<Digest>, exchanges: seq<Source>, tail: nat, f: Fitter, generate: Generator)
    requires Extends(generate) && forall t :: f.fit(t) == t
    ensures TextOf(row) <= TextOf(Refreshed(row, exchanges, tail, f, generate).row)
  {
    if row.Some? {
      GeneratedExtends(row.value.text, row.value.tier,
                       Chunks(Pending(Compactable(exchanges, tail), row.value.exchangeIds), BATCH_SIZE), generate);
    }
  }

  /** When nothing is due the generator is not asked, and the stored digest is fitted again. */
  lemma NothingDueKeepsText(row: Digest, exchanges: seq<Source>, tail: nat, f: Fitter, generate: Generator)
    requires Due(Some(row), exchanges, tail) == []
    ensures var o := Refreshed(Some(row), exchanges, tail, f, generate);
      && o.batches == [] && o.row.Some? && o.row.value.text == f.fit(row.text) && o.row.value.tier == row.tier
      && o.row.value.exchangeIds == row.exchangeIds
  {
    assert row.exchangeIds + [] == row.exchangeIds;
  }

  type Show = seq<Source> -> string

  function ShownAll(batches: seq<seq<Source>>, show: Show): string {
    if batches == [] then "" else show(batches[0]) + ShownAll(batches[1..], show)
  }

  lemma {:induction false} ShownConcat(a: seq<seq<Source>>, b: seq<seq<Source>>, show: Show)
    ensures ShownAll(a + b, show) == ShownAll(a, show) + ShownAll(b, show)
  {
    if a == [] {
      assert a + b == b;
    } else {
      assert (a + b)[0] == a[0] && (a + b)[1..] == a[1..] + b;
      ShownConcat(a[1..], b, show);
    }
  }

  /** A generator that writes every batch behind the digest it is given, and a fit that cuts nothing. */
  ghost predicate Keeps(c: Call, show: Show) {
    (forall p, b :: c.generate(p, b).text == p + show(b)) && forall t :: c.f.fit(t) == t
  }

  lemma {:induction false} GeneratedShows(text: string, tier: string, batches: seq<seq<Source>>, generate: Generator, show: Show)
    requires forall p, b :: generate(p, b).text == p + show(b)
    ensures Generated(text, tier, batches, generate).text == text + ShownAll(batches, show)
    decreases |batches|
  {
    if batches == [] {
      assert text + "" == text;
    } else {
      var g := generate(text, batches[0]);
      GeneratedShows(g.text, g.tier, batches[1..], generate, show);
      assert (text + show(batches[0])) + ShownAll(batches[1..], show) == text + (show(batches[0]) + ShownAll(batches[1..], show));
    }
  }

  lemma RefreshShows(row: Option<Digest>, c: Call, show: Show)
    requires Keeps(c, show)
    ensures TextOf(RefreshOnce(row, c).row) == TextOf(row) + ShownAll(RefreshOnce(row, c).batches, show)
  {
    if row.Some? || Compactable(c.exchanges, c.tail) != [] {
      var previous := if row.Some? then row.value else NewDigest(c.tail);
      var batches := Chunks(Pending(Compactable(c.exchanges, c.tail), previous.exchangeIds), BATCH_SIZE);
      GeneratedShows(previous.text, previous.tier, batches, c.generate, show);
    }
  }

  /** With such a generator the stored text is, in order, all that every refresh handed to it. */
  lemma {:induction false} DigestCarriesEveryBatch(row: Option<Digest>, calls: seq<Call>, show: Show)
    requires forall c <- calls :: Keeps(c, show)
    ensures TextOf(RunAll(row, calls).row) == TextOf(row) + ShownAll(RunAll(row, calls).batches, show)
    decreases |calls|
  {
    if calls == [] {
      assert TextOf(row) + "" == TextOf(row);
    } else {
      assert calls[0] in calls && forall x <- calls[1..] :: x in calls;
      var o := RefreshOnce(row, calls[0]);
      RefreshShows(row, calls[0], show);
      DigestCarriesEveryBatch(o.row, calls[1..], show);
      ShownInTurn(TextOf(row), o.batches, RunAll(o.row, calls[1..]).batches, show);
      RunAllStep(row, calls);
    }
  }

  lemma RunAllStep(row: Option<Digest>, calls: seq<Call>)
    requires calls != []
    ensures var o := RefreshOnce(row, calls[0]); var rest := RunAll(o.row, calls[1..]);
      RunAll(row, calls) == Outcome(rest.row, o.batches + rest.batches)
  {}

  lemma ShownInTurn(text: string, a: seq<seq<Source>>, b: seq<seq<Source>>, show: Show)
    ensures (text + ShownAll(a, show)) + ShownAll(b, show) == text + ShownAll(a + b, show)
  {
    ShownConcat(a, b, show);
  }

  // ---- the rest of the row ----

  lemma {:induction false} UniqueMembers(values: seq<Option<string>>, seen: seq<string>)
    requires Distinct(seen)
    ensures Distinct(Unique(values, seen)) && seen <= Unique(values, seen)
    ensures forall id :: id in Unique(values, seen) <==> id in seen || (id != "" && Some(id) in values)
    decreases |values|
  {
    if values != [] {
      var next := if values[0].None? || values[0].value == "" || values[0].value in seen then seen else seen + [values[0].value];
      UniqueMembers(values[1..], next);
      assert forall v :: v in values <==> v == values[0] || v in values[1..];
    }
  }

  lemma {:induction false} UniqueOfDistinct(ids: seq<string>, values: seq<Option<string>>, n: nat)
    requires Distinct(ids) && "" !in ids && n <= |ids|
    ensures Unique(Present(ids[n..]) + values, ids[..n]) == Unique(values, ids)
    decreases |ids| - n
  {
    if n == |ids| {
      assert ids[..n] == ids && Present(ids[n..]) + values == values;
    } else {
      var all := Present(ids[n..]) + values;
      assert all[0] == Some(ids[n]) && all[1..] == Present(ids[n + 1..]) + values;
      assert ids[n] !in ids[..n] && ids[..n] + [ids[n]] == ids[..n + 1] && ids[n] in ids;
      UniqueOfDistinct(ids, values, n + 1);
    }
  }

  /** A list of ids with what the exchanges add: each once, the known ones in front, the rest in order of appearance. */
  ghost predicate AddsIds(before: seq<string>, added: seq<Option<string>>, after: seq<string>) {
    && before <= after && Distinct(after)
    && forall id :: id in after <==> id in before || (id != "" && Some(id) in added)
  }

  lemma IdsAreAdded(before: seq<string>, added: seq<Option<string>>)
    requires Distinct(before) && "" !in before
    ensures AddsIds(before, added, Unique(Present(before) + added, []))
  {
    UniqueOfDistinct(before, added, 0);
    assert before[0..] == before && before[..0] == [];
    UniqueMembers(added, before);
  }

  /** The memories and turns behind the digest, its tail and the time it reaches to. */
  lemma RefreshKeepsSources(row: Option<Digest>, exchanges: seq<Source>, tail: nat, f: Fitter, generate: Generator)
    requires row.Some? ==> Distinct(row.value.memoryIds) && "" !in row.value.memoryIds
    requires row.Some? ==> Distinct(row.value.turnIds) && "" !in row.value.turnIds
    ensures var o, due := Refreshed(row, exchanges, tail, f, generate), Due(row, exchanges, tail);
      var compactable := Compactable(exchanges, tail);
      o.row.Some? ==>
        && AddsIds(if row.Some? then row.value.memoryIds else [], MemoryIds(due), o.row.value.memoryIds)
        && AddsIds(if row.Some? then row.value.turnIds else [], TurnIds(due), o.row.value.turnIds)
        && o.row.value.tail == tail
        && o.row.value.lastCreated == (if compactable != [] then compactable[|compactable| - 1].createdAt
                                       else if row.Some? then row.value.lastCreated else None)
  {
    var previous := if row.Some? then row.value else NewDigest(tail);
    IdsAreAdded(previous.memoryIds, MemoryIds(Due(row, exchanges, tail)));
    IdsAreAdded(previous.turnIds, TurnIds(Due(row, exchanges, tail)));
  }

  /** The exchanges are those that may be compacted and then the raw tail, which has the length asked for if there are as many. */
  lemma TailSplits(exchanges: seq<Source>, tail: nat)
    requires tail > 0
    ensures exchanges == Compactable(exchanges, tail) + RawTail(exchanges, tail)
    ensures |RawTail(exchanges, tail)| == if tail < |exchanges| then tail else |exchanges|
  {}

  /** All batches but the last are of three. */
  lemma {:induction false} BatchesAreFull(items: seq<Source>, k: nat)
    requires k + 1 < |Chunks(items, BATCH_SIZE)|
    ensures |Chunks(items, BATCH_SIZE)[k]| == 3
    decreases k
  {
    if k > 0 { BatchesAreFull(items[BATCH_SIZE..], k - 1); }
  }

  // ---- chat sessions: exactly once per turn ----

  /** The exchanges of a chat as digest sources. */
  function SourceOf(e: Exchange): Source
    requires WellShaped(e)
  {
    Source("turn:" + e.Anchor(), e.Content(), None, Some(e.Anchor()), e.Last().created)
  }

  function SourcesOf(exchanges: seq<Exchange>): (s: seq<Source>)
    requires forall e <- exchanges :: WellShaped(e)
    ensures |s| == |exchanges| && forall i :: 0 <= i < |s| ==> WellShaped(exchanges[i]) && s[i] == SourceOf(exchanges[i])
  {
    seq(|exchanges|, i requires 0 <= i < |exchanges| => assert exchanges[i] in exchanges; SourceOf(exchanges[i]))
  }

  function ChatSources(turns: seq<Turn>): seq<Source> {
    PairingConservesTurns(turns);
    SourcesOf(Paired(turns))
  }

  ghost predicate DistinctTurns(turns: seq<Turn>) { DistinctIds(NonBlank(Ordered(turns))) }

  lemma ChatSourcesDistinct(turns: seq<Turn>)
    requires DistinctTurns(turns)
    ensures Distinct(Ids(ChatSources(turns)))
  {
    PairingConservesTurns(turns);
    var e, s := Paired(turns), ChatSources(turns);
    IdsMembers(s);
    forall i, j | 0 <= i < j < |s| ensures Ids(s)[i] != Ids(s)[j] {
      AnchorsDistinct(e, i, j);
      assert ("turn:" + e[i].Anchor())[5..] == e[i].Anchor() && ("turn:" + e[j].Anchor())[5..] == e[j].Anchor();
    }
  }

  /** A conversation that only grows: every snapshot is an earlier one with later turns appended. */
  ghost predicate GrowsTo(snapshot: seq<Turn>, whole: seq<Turn>) {
    exists more: seq<Turn>, k: int :: whole == snapshot + more && KeysUpTo(snapshot, k) && KeysFrom(more, k)
  }

  /** With a raw tail, what a refresh may compact of a snapshot is already final. */
  lemma CompactableIsFinal(snapshot: seq<Turn>, whole: seq<Turn>, tail: nat)
    requires GrowsTo(snapshot, whole) && tail > 0
    ensures forall x <- Compactable(ChatSources(snapshot), tail) :: x in ChatSources(whole)
  {
    var more, k :| whole == snapshot + more && KeysUpTo(snapshot, k) && KeysFrom(more, k);
    PairedGrows(snapshot, more, k);
    var a, b := Paired(snapshot), Paired(whole);
    var compactable := Compactable(ChatSources(snapshot), tail);
    forall x <- compactable ensures x in ChatSources(whole) {
      var i :| 0 <= i < |compactable| && compactable[i] == x;
      assert ChatSources(snapshot)[i] == x && i < |a| - 1;
      assert a[..|a| - 1][i] == b[..|a| - 1][i];
      assert ChatSources(whole)[i] == x;
    }
  }

  ghost predicate AllIn(batches: seq<seq<Source>>, s: seq<Source>) { forall x <- Concat(batches) :: x in s }

  lemma AllInBoth(a: seq<seq<Source>>, b: seq<seq<Source>>, s: seq<Source>)
    requires AllIn(a, s) && AllIn(b, s)
    ensures AllIn(a + b, s)
  {
    ConcatConcat(a, b);
  }

  lemma BatchesAreFinal(row: Option<Digest>, snapshot: seq<Turn>, c: Call, whole: seq<Turn>)
    requires c.tail > 0 && c.exchanges == ChatSources(snapshot) && GrowsTo(snapshot, whole)
    ensures AllIn(RefreshOnce(row, c).batches, ChatSources(whole))
  {
    CompactableIsFinal(snapshot, whole, c.tail);
    PendingMembers(Compactable(c.exchanges, c.tail), StoredIds(row));
    RefreshedShape(row, c.exchanges, c.tail, c.f, c.generate);
    ChunksConcat(Due(row, c.exchanges, c.tail), BATCH_SIZE);
  }

  lemma {:induction false} CompactedAreFinal(step: Refresher, row: Option<Digest>, calls: seq<Call>, sources: seq<Source>)
    requires forall r: Option<Digest>, c <- calls :: AllIn(step(r, c).batches, sources)
    ensures AllIn(RunWith(step, row, calls).batches, sources)
    decreases |calls|
  {
    if calls != [] {
      assert calls[0] in calls && forall x <- calls[1..] :: x in calls;
      var o := step(row, calls[0]);
      CompactedAreFinal(step, o.row, calls[1..], sources);
      AllInBoth(o.batches, RunWith(step, o.row, calls[1..]).batches, sources);
    }
  }

  /** A source that was made of the turn. */
  ghost predicate MadeOf(s: Source, t: Turn, turns: seq<Turn>) {
    exists i :: 0 <= i < |Paired(turns)| && ChatSources(turns)[i] == s && t in Paired(turns)[i].Turns()
  }

  lemma TurnInOneSource(a: Source, b: Source, t: Turn, turns: seq<Turn>)
    requires DistinctTurns(turns) && MadeOf(a, t, turns) && MadeOf(b, t, turns)
    ensures a == b
  {
    var i :| 0 <= i < |Paired(turns)| && ChatSources(turns)[i] == a && t in Paired(turns)[i].Turns();
    var j :| 0 <= j < |Paired(turns)| && ChatSources(turns)[j] == b && t in Paired(turns)[j].Turns();
    PairingConservesTurns(turns);
    if i < j { ExchangesShareNoTurn(Paired(turns), i, j, t); }
    if j < i { ExchangesShareNoTurn(Paired(turns), j, i, t); }
  }

  lemma NotInBoth(a: Source, b: Source, t: Turn, turns: seq<Turn>)
    requires DistinctTurns(turns) && a != b && MadeOf(a, t, turns)
    ensures !MadeOf(b, t, turns)
  {
    if MadeOf(b, t, turns) { TurnInOneSource(a, b, t, turns); }
  }

  lemma SourcesDiffer(all: seq<Source>)
    requires Distinct(Ids(all))
    ensures forall i, j :: 0 <= i < j < |all| ==> all[i] != all[j]
  {
    IdsMembers(all);
    forall i, j | 0 <= i < j < |all| ensures all[i] != all[j] { assert Ids(all)[i] != Ids(all)[j]; }
  }

  lemma NoTurnTwice(all: seq<Source>, turns: seq<Turn>)
    requires DistinctTurns(turns) && Distinct(Ids(all))
    ensures forall t, i, j :: 0 <= i < j < |all| && MadeOf(all[i], t, turns) ==> !MadeOf(all[j], t, turns)
  {
    SourcesDiffer(all);
    forall t, i, j | 0 <= i < j < |all| && MadeOf(all[i], t, turns) ensures !MadeOf(all[j], t, turns) {
      NotInBoth(all[i], all[j], t, turns);
    }
  }

  /**
   Exactly-once per turn: while a chat only grows and every refresh keeps a raw tail, everything that was ever compacted
   is an exchange of the final conversation, no two compactions share an exchange, and no turn is in two of them. So no
   question is compacted once alone and once with its answer.
   */
  lemma EachTurnCompactedOnce(snapshots: seq<seq<Turn>>, calls: seq<Call>, whole: seq<Turn>)
    requires |snapshots| == |calls|
    requires forall i :: 0 <= i < |calls| ==>
               calls[i].tail > 0 && calls[i].exchanges == ChatSources(snapshots[i]) && GrowsTo(snapshots[i], whole)
               && DistinctTurns(snapshots[i])
    ensures var all := Concat(RunAll(None, calls).batches);
      && (forall x <- all :: x in ChatSources(whole)) && Distinct(Ids(all))
      && (DistinctTurns(whole) ==>
            forall t, i, j :: 0 <= i < j < |all| && MadeOf(all[i], t, whole) ==> !MadeOf(all[j], t, whole))
  {
    forall c <- calls ensures Distinct(Ids(c.exchanges)) {
      var i :| 0 <= i < |calls| && calls[i] == c;
      ChatSourcesDistinct(snapshots[i]);
    }
    forall r: Option<Digest>, c <- calls ensures AllIn(RefreshOnce(r, c).batches, ChatSources(whole)) {
      var i :| 0 <= i < |calls| && calls[i] == c;
      BatchesAreFinal(r, snapshots[i], c, whole);
    }
    CompactedAreFinal(RefreshOnce, None, calls, ChatSources(whole));
    EachIdCompactedOnce(calls);
    if DistinctTurns(whole) { NoTurnTwice(Concat(RunAll(None, calls).batches), whole); }
  }

  // ---- without a raw tail ----

  /** A question alone, and the question with its answer. */
  lemma OneExchange(q: Turn, a: Turn)
    requires IsUser(q) && IsAssistant(a) && !Blank(q) && !Blank(a) && Key(q) <= Key(a)
    ensures Paired([q]) == [Exchange(Some(q), None)] && Paired([q, a]) == [Exchange(Some(q), Some(a))]
  {
    assert [q][1..] == [] && [q, a][1..] == [a] && [a][1..] == [];
    assert Spoken([a]) == [a] && Spoken([q, a]) == [q, a] && Spoken([q]) == [q];
    assert Sorted([a]) == [a] && Sorted([q]) == [q];
    assert Sorted([q, a]) == [q, a];
    assert PairFrom(Some(q), []) == [Exchange(Some(q), None)];
    assert PairFrom(None, [q]) == PairFrom(Some(q), []);
    assert PairFrom(None, []) == [];
    assert PairFrom(Some(q), [a]) == [Exchange(Some(q), Some(a))];
    assert PairFrom(None, [q, a]) == PairFrom(Some(q), [a]);
  }

  lemma RefreshOfOne(row: Option<Digest>, c: Call)
    requires c.tail == 0 && |c.exchanges| == 1 && c.exchanges[0].id !in StoredIds(row)
    ensures RefreshOnce(row, c).batches == [c.exchanges]
    ensures StoredIds(RefreshOnce(row, c).row) == StoredIds(row) + [c.exchanges[0].id]
  {
    var x := c.exchanges[0];
    assert c.exchanges == [x] && [x][1..] == [];
    assert Compactable(c.exchanges, 0) == [x];
    assert Pending([x], StoredIds(row)) == [x] && Ids([x]) == [x.id];
    RefreshedShape(row, c.exchanges, 0, c.f, c.generate);
  }

  lemma TwoRefreshes(first: Call, second: Call, x: Source, y: Source)
    requires first.tail == 0 && second.tail == 0 && first.exchanges == [x] && second.exchanges == [y] && x.id != y.id
    ensures Concat(RunAll(None, [first, second]).batches) == [x, y]
  {
    RefreshOfOne(None, first);
    var row := RefreshOnce(None, first).row;
    assert StoredIds(row) == [x.id];
    RefreshOfOne(row, second);
    assert [first, second][1..] == [second] && [second][1..] == [];
    assert RunWith(RefreshOnce, row, [second]).batches == [[y]] + [];
    assert RunAll(None, [first, second]).batches == [[x]] + [[y]];
    ConcatConcat([[x]], [[y]]);
    assert [[x]][1..] == [] && [[y]][1..] == [];
  }

  lemma OneSource(e: Exchange, turns: seq<Turn>, t: Turn)
    requires Paired(turns) == [e] && t in e.Turns()
    ensures |ChatSources(turns)| == 1 && WellShaped(e) && ChatSources(turns)[0].id == "turn:" + e.Anchor()
    ensures MadeOf(ChatSources(turns)[0], t, turns)
  {
    PairingConservesTurns(turns);
    assert ChatSources(turns)[0] == SourceOf(Paired(turns)[0]);
    assert t in Paired(turns)[0].Turns();
  }

  /**
   A refresh without a raw tail, which the public operation never asks for, compacts a question that is still open, and
   the next one compacts it again with its answer: for every question and answer a session starts with.
   */
  lemma ZeroTailCompactsTwice(q: Turn, a: Turn, f: Fitter, generate: Generator)
    requires IsUser(q) && IsAssistant(a) && !Blank(q) && !Blank(a) && Key(q) <= Key(a) && q.id != a.id
    ensures var calls := [Call(ChatSources([q]), 0, f, generate), Call(ChatSources([q, a]), 0, f, generate)];
      var all := Concat(RunAll(None, calls).batches);
      |all| == 2 && MadeOf(all[0], q, [q]) && MadeOf(all[1], q, [q, a]) && MadeOf(all[1], a, [q, a])
  {
    OneExchange(q, a);
    OneSource(Exchange(Some(q), None), [q], q);
    OneSource(Exchange(Some(q), Some(a)), [q, a], q);
    OneSource(Exchange(Some(q), Some(a)), [q, a], a);
    var x, y := ChatSources([q])[0], ChatSources([q, a])[0];
    assert x.id[5..] == q.id && y.id[5..] == a.id;
    TwoRefreshes(Call(ChatSources([q]), 0, f, generate), Call(ChatSources([q, a]), 0, f, generate), x, y);
  }
}
