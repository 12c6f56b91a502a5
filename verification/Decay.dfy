/**
 The daily weight decay (backend/services/consolidation_service.py:49-118) of one namespace: pages of pending memories by
 limit and offset, each row of a page updated at once. The order in which the query returns the rows is that of the table
 and does not change between pages.
 */
module Decay {
  import opened Text

  const MIN_WEIGHT: real := 0.01
  const BATCH_SIZE: nat := 500

  datatype Row = Row(namespace: string, pending: bool, valid: bool, weight: Option<real>)

  /** A missing weight counts as one, and so does zero. */
  function Current(weight: Option<real>): real {
    if weight.Some? && weight.value != 0.0 then weight.value else 1.0
  }

  function Max(a: real, b: real): real { if a < b then b else a }

  function Shrunk(x: real, rate: real): real { x * (1.0 - rate) }

  function Decayed(weight: Option<real>, rate: real): real {
    Max(MIN_WEIGHT, Shrunk(Current(weight), rate))
  }

  predicate Selected(r: Row, namespace: string) { r.namespace == namespace && r.pending && r.valid }

  /** What a run does to the table: each selected row decays once. */
  function DecayedRow(r: Row, namespace: string, rate: real): Row {
    if Selected(r, namespace) then r.(weight := Some(Decayed(r.weight, rate))) else r
  }

  function DecayedTable(rows: seq<Row>, namespace: string, rate: real): seq<Row> {
    seq(|rows|, i requires 0 <= i < |rows| => DecayedRow(rows[i], namespace, rate))
  }

  /** The positions of the selected rows among the first `n`, in order. */
  function Positions(rows: seq<Row>, namespace: string, n: nat): (p: seq<nat>)
    requires n <= |rows|
  {
    if n == 0 then []
    else Positions(rows, namespace, n - 1) + (if Selected(rows[n - 1], namespace) then [n - 1] else [])
  }

  predicate Ascending(p: seq<nat>) { forall k, l :: 0 <= k < l < |p| ==> p[k] < p[l] }

  lemma {:induction false} PositionsAreSelected(rows: seq<Row>, namespace: string, n: nat)
    requires n <= |rows|
    ensures forall i :: i in Positions(rows, namespace, n) <==> 0 <= i < n && Selected(rows[i], namespace)
    ensures Ascending(Positions(rows, namespace, n))
  {
    if n > 0 {
      PositionsAreSelected(rows, namespace, n - 1);
      AddedKeepsAscending(Positions(rows, namespace, n - 1), n - 1);
    }
  }

  lemma AddedKeepsAscending(p: seq<nat>, x: nat)
    requires Ascending(p) && forall i <- p :: i < x
    ensures Ascending(p + [x])
  {
    forall k | 0 <= k < |p| ensures p[k] < x { assert p[k] in p; }
  }

  /** Rows that differ in their weights only are selected alike. */
  lemma {:induction false} WeightsDoNotSelect(a: seq<Row>, b: seq<Row>, namespace: string, n: nat)
    requires n <= |a| == |b| && forall i :: 0 <= i < n ==> b[i] == a[i].(weight := b[i].weight)
    ensures Positions(a, namespace, n) == Positions(b, namespace, n)
  {
    if n > 0 { WeightsDoNotSelect(a, b, namespace, n - 1); }
  }

  /** The table when the first `k` of the positions have been updated. */
  ghost predicate UpdatedTo(was: seq<Row>, now: seq<Row>, p: seq<nat>, k: nat, namespace: string, rate: real)
    requires k <= |p|
  {
    && |now| == |was|
    && (forall i :: 0 <= i < |was| ==> now[i] == if i in p[..k] then DecayedRow(was[i], namespace, rate) else was[i])
  }

  lemma UpdateOne(was: seq<Row>, now: seq<Row>, p: seq<nat>, k: nat, namespace: string, rate: real)
    requires p == Positions(was, namespace, |was|) && k < |p| && UpdatedTo(was, now, p, k, namespace, rate)
    ensures p[k] < |now| && now[p[k]] == was[p[k]] && Selected(was[p[k]], namespace)
    ensures UpdatedTo(was, now[p[k] := now[p[k]].(weight := Some(Decayed(now[p[k]].weight, rate)))], p, k + 1, namespace, rate)
  {
    PositionsAreSelected(was, namespace, |was|);
    assert p[k] in p;
    assert p[..k + 1] == p[..k] + [p[k]];
    forall j | 0 <= j < k ensures p[..k][j] != p[k] { assert p[j] < p[k]; }
    assert p[k] !in p[..k];
  }

  lemma UpdatedToKeepsPositions(was: seq<Row>, now: seq<Row>, p: seq<nat>, k: nat, namespace: string, rate: real)
    requires k <= |p| && UpdatedTo(was, now, p, k, namespace, rate)
    ensures Positions(now, namespace, |now|) == Positions(was, namespace, |was|)
  {
    WeightsDoNotSelect(was, now, namespace, |was|);
  }

  class Memories {
    var rows: seq<Row>

    constructor (rows: seq<Row>)
      ensures this.rows == rows
    {
      this.rows := rows;
    }

    /** The query of a page: positions and weights. */
    method Page(namespace: string, limit: nat, offset: nat) returns (page: seq<(nat, Option<real>)>)
      ensures var p := Positions(rows, namespace, |rows|);
        && |page| == (if offset >= |p| then 0 else if offset + limit <= |p| then limit else |p| - offset)
        && PageOf(page, p, offset, rows)
    {
      var p := Positions(rows, namespace, |rows|);
      PositionsAreSelected(rows, namespace, |rows|);
      page := [];
      if offset >= |p| { return; }
      var end := if offset + limit <= |p| then offset + limit else |p|;
      var k := offset;
      while k < end
        invariant offset <= k <= end && |page| == k - offset
        invariant PageOf(page, p, offset, rows)
      {
        assert p[k] in p;
        page := page + [(p[k], rows[p[k]].weight)];
        k := k + 1;
      }
    }

    /** The updates of one page. */
    method UpdatePage(namespace: string, rate: real, page: seq<(nat, Option<real>)>, offset: nat, ghost was: seq<Row>)
      requires var p := Positions(was, namespace, |was|);
        && offset + |page| <= |p| && PageOf(page, p, offset, was) && UpdatedTo(was, rows, p, offset, namespace, rate)
      modifies this
      ensures UpdatedTo(was, rows, Positions(was, namespace, |was|), offset + |page|, namespace, rate)
    {
      ghost var p := Positions(was, namespace, |was|);
      for i := 0 to |page|
        invariant UpdatedTo(was, rows, p, offset + i, namespace, rate)
      {
        UpdateOne(was, rows, p, offset + i, namespace, rate);
        var id, weight := page[i].0, page[i].1;
        rows := rows[id := rows[id].(weight := Some(Decayed(weight, rate)))];
      }
    }

    /** Every selected row decays exactly once; the result is how many there were. */
    method ApplyWeightDecay(namespace: string, rate: real) returns (updated: nat)
      modifies this
      ensures rows == DecayedTable(old(rows), namespace, rate)
      ensures updated == |Positions(old(rows), namespace, |old(rows)|)|
    {
      ghost var was := rows;
      ghost var p := Positions(was, namespace, |was|);
      PositionsAreSelected(was, namespace, |was|);
      updated := 0;
      var offset := 0;
      while true
        invariant updated == if offset <= |p| then offset else |p|
        invariant UpdatedTo(was, rows, p, updated, namespace, rate)
        decreases |p| + BATCH_SIZE - offset
      {
        UpdatedToKeepsPositions(was, rows, p, updated, namespace, rate);
        var page := Page(namespace, BATCH_SIZE, offset);
        if |page| == 0 { break; }
        RestIsUntouched(was, rows, p, offset, namespace, rate, page);
        UpdatePage(namespace, rate, page, offset, was);
        updated := updated + |page|;
        offset := offset + BATCH_SIZE;
      }
      AllUpdated(was, rows, p, namespace, rate);
    }
  }

  predicate PageOf(page: seq<(nat, Option<real>)>, p: seq<nat>, offset: nat, rows: seq<Row>) {
    page == [] ||
    (offset + |page| <= |p| &&
     forall i :: 0 <= i < |page| ==> page[i].0 == p[offset + i] && page[i].0 < |rows| && page[i].1 == rows[page[i].0].weight)
  }

  /** The weights of a page are read before any of them is touched. */
  lemma RestIsUntouched(was: seq<Row>, now: seq<Row>, p: seq<nat>, k: nat, namespace: string, rate: real,
                        page: seq<(nat, Option<real>)>)
    requires k <= |p| && Ascending(p) && UpdatedTo(was, now, p, k, namespace, rate) && PageOf(page, p, k, now)
    ensures PageOf(page, p, k, was)
  {
    forall i | 0 <= i < |page| ensures page[i].1 == was[page[i].0].weight {
      forall j | 0 <= j < k ensures p[..k][j] != p[k + i] { assert p[j] < p[k + i]; }
      assert page[i].0 !in p[..k];
    }
  }

  lemma AllUpdated(was: seq<Row>, now: seq<Row>, p: seq<nat>, namespace: string, rate: real)
    requires p == Positions(was, namespace, |was|) && UpdatedTo(was, now, p, |p|, namespace, rate)
    ensures now == DecayedTable(was, namespace, rate)
  {
    PositionsAreSelected(was, namespace, |was|);
    assert p[..|p|] == p;
  }

  // ---- runs ----

  function AfterRuns(weight: Option<real>, rate: real, k: nat): Option<real> {
    if k == 0 then weight else Some(Decayed(AfterRuns(weight, rate, k - 1), rate))
  }

  /** Decay without a floor: the weight times (1 - rate) to the power of k. */
  function Geometric(weight: Option<real>, rate: real, k: nat): real {
    if k == 0 then Current(weight) else Shrunk(Geometric(weight, rate, k - 1), rate)
  }

  lemma Scale(x: real, y: real, q: real)
    requires x <= y && q >= 0.0
    ensures x * q <= y * q
  {
    assert (y - x) * q >= 0.0;
  }

  lemma ShrunkIsMonotone(x: real, y: real, rate: real)
    requires x <= y && rate <= 1.0
    ensures Shrunk(x, rate) <= Shrunk(y, rate)
  {
    Scale(x, y, 1.0 - rate);
  }

  lemma ShrunkIsLess(x: real, rate: real)
    requires x >= 0.0 && 0.0 <= rate
    ensures Shrunk(x, rate) <= x
  {
    Scale(0.0, x, rate);
  }

  lemma FloorAbsorbs(g: real, rate: real)
    requires 0.0 <= rate <= 1.0
    ensures Decayed(Some(Max(MIN_WEIGHT, g)), rate) == Max(MIN_WEIGHT, Shrunk(g, rate))
  {
    if g < MIN_WEIGHT {
      ShrunkIsLess(MIN_WEIGHT, rate);
      ShrunkIsMonotone(g, MIN_WEIGHT, rate);
    }
  }

  /** The floor does not add up: after k runs the weight is the plain geometric decay, cut off once. */
  lemma {:induction false} DecayIsGeometric(weight: Option<real>, rate: real, k: nat)
    requires 0.0 <= rate <= 1.0 && k > 0
    ensures AfterRuns(weight, rate, k) == Some(Max(MIN_WEIGHT, Geometric(weight, rate, k)))
  {
    if k == 1 {
      assert AfterRuns(weight, rate, 0) == weight && Geometric(weight, rate, 0) == Current(weight);
    } else {
      DecayIsGeometric(weight, rate, k - 1);
      var g := Geometric(weight, rate, k - 1);
      FloorAbsorbs(g, rate);
    }
  }

  function Pow(x: real, k: nat): real { if k == 0 then 1.0 else x * Pow(x, k - 1) }

  lemma {:induction false} GeometricIsPower(weight: Option<real>, rate: real, k: nat)
    ensures Geometric(weight, rate, k) == (if weight.None? || weight.value == 0.0 then 1.0 else weight.value) * Pow(1.0 - rate, k)
  {
    if k > 0 {
      GeometricIsPower(weight, rate, k - 1);
      var w, p := if weight.None? || weight.value == 0.0 then 1.0 else weight.value, Pow(1.0 - rate, k - 1);
      calc {
        Geometric(weight, rate, k);
        (w * p) * (1.0 - rate);
        w * ((1.0 - rate) * p);
      }
    }
  }

  /** In figures: after k daily runs at a rate, a weight w is w * (1 - rate)^k, and 0.01 when that is less. */
  lemma DecayedWeight(w: real, rate: real, k: nat)
    requires 0.0 <= rate <= 1.0 && k > 0 && w != 0.0
    ensures AfterRuns(Some(w), rate, k) == Some(if w * Pow(1.0 - rate, k) < 0.01 then 0.01 else w * Pow(1.0 - rate, k))
  {
    DecayIsGeometric(Some(w), rate, k);
    GeometricIsPower(Some(w), rate, k);
    var g := Geometric(Some(w), rate, k);
    assert g == w * Pow(1.0 - rate, k);
  }

  /** A stored zero does not stay: it decays as if it were one. */
  lemma ZeroRevives(rate: real, k: nat)
    requires 0.0 <= rate <= 1.0 && k > 0
    ensures AfterRuns(Some(0.0), rate, k) == AfterRuns(None, rate, k)
  {
    DecayIsGeometric(Some(0.0), rate, k);
    DecayIsGeometric(None, rate, k);
  }
}
