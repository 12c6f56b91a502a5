/**
 Fitting a digest to its token budget without cutting a line (backend/services/session_digest_service.py:747-797).
 The token counter and the marker line are parameters: any function that counts nothing in the empty text, any marker
 without blanks at its ends. `MARKER` is the one the service uses.
 */
module DigestBudget {
  import opened Text

  const MARKER := "[" + "additional semantic digest lines omitted to fit token budget" + "]"

  type Counter = string -> nat

  /** The fallback estimate: one token for three characters, rounded up. */
  function CharsPerThree(s: string): nat { (|s| + 2) / 3 }

  datatype Fit = Fit(budget: nat, count: Counter, marker: string)

  predicate Trimmed(s: string) { s != [] && !IsSpace(s[0]) && !IsSpace(s[|s| - 1]) }

  lemma MarkerIsTrimmed()
    ensures Trimmed(MARKER)
  {
    assert MARKER[0] == '[' && MARKER[|MARKER| - 1] == ']';
  }

  /** A selection of lines with the marker behind it, trimmed. */
  function Marked(kept: seq<string>, marker: string): string { Strip(Join("\n", kept + [marker])) }

  /** What a selection of lines costs. */
  type Cost = seq<string> -> nat

  function MarkedCost(f: Fit): Cost { kept => f.count(Marked(kept, f.marker)) }

  /** The greedy pass: what is kept of `lines` behind the lines `kept`. */
  function Greedy(kept: seq<string>, lines: seq<string>, cost: Cost, budget: nat): seq<string>
    decreases |lines|
  {
    if lines == [] then kept
    else Greedy(if cost(kept + [lines[0]]) <= budget then kept + [lines[0]] else kept, lines[1..], cost, budget)
  }

  /** The lines a text that is over the budget keeps. */
  function Kept(t: string, f: Fit): seq<string> { Greedy([], SplitLines(t), MarkedCost(f), f.budget) }

  function Fitted(text: string, f: Fit): string {
    var t := Strip(text);
    if f.count(t) <= f.budget then t
    else if f.count(f.marker) > f.budget then ""
    else if Kept(t, f) == [] then f.marker
    else Marked(Kept(t, f), f.marker)
  }

  /** `fit_text_to_budget` */
  method FitTextToBudget(text: string, f: Fit) returns (fitted: string)
    ensures fitted == Fitted(text, f)
  {
    var t := Strip(text);
    if f.count(t) <= f.budget { return t; }
    if f.count(f.marker) > f.budget { return ""; }
    var kept := KeepLines(SplitLines(t), MarkedCost(f), f.budget);
    return if kept != [] then Marked(kept, f.marker) else f.marker;
  }

  method KeepLines(lines: seq<string>, cost: Cost, budget: nat) returns (kept: seq<string>)
    ensures kept == Greedy([], lines, cost, budget)
  {
    kept := [];
    assert lines[0..] == lines;
    for k := 0 to |lines|
      invariant Greedy(kept, lines[k..], cost, budget) == Greedy([], lines, cost, budget)
    {
      assert lines[k..][1..] == lines[k + 1..];
      if cost(kept + [lines[k]]) <= budget {
        kept := kept + [lines[k]];
      }
    }
  }

  // ---- within the budget, and stable ----

  lemma {:induction false} GreedyStaysWithin(kept: seq<string>, lines: seq<string>, cost: Cost, budget: nat)
    requires kept == [] || cost(kept) <= budget
    ensures var all := Greedy(kept, lines, cost, budget); all == [] || cost(all) <= budget
    decreases |lines|
  {
    if lines != [] {
      GreedyStaysWithin(if cost(kept + [lines[0]]) <= budget then kept + [lines[0]] else kept, lines[1..], cost, budget);
    }
  }

  /** The result never exceeds the budget. */
  lemma FittedIsWithinBudget(text: string, f: Fit)
    requires f.count("") == 0
    ensures f.count(Fitted(text, f)) <= f.budget
  {
    GreedyStaysWithin([], SplitLines(Strip(text)), MarkedCost(f), f.budget);
  }

  lemma StripIsTrimmed(s: string)
    ensures Strip(s) == [] || Trimmed(Strip(s))
  {
    var l := StripLeft(s);
    var t := StripRight(l);
    StripLeftIsEnd(s);
    StripRightIsFront(l);
    if t != [] { assert t[0] == l[0]; }
  }

  lemma TrimmedIsStripped(s: string)
    requires s == [] || Trimmed(s)
    ensures Strip(s) == s
  {}

  lemma FittedForms(text: string, f: Fit)
    ensures var r := Fitted(text, f);
      r == Strip(text) || r == "" || r == f.marker || exists kept :: r == Marked(kept, f.marker)
  {}

  lemma FittedIsTrimmed(text: string, f: Fit)
    requires Trimmed(f.marker)
    ensures Fitted(text, f) == [] || Trimmed(Fitted(text, f))
  {
    var r := Fitted(text, f);
    FittedForms(text, f);
    if r == Strip(text) {
      StripIsTrimmed(text);
    } else if kept :| r == Marked(kept, f.marker) {
      MarkedIsTrimmed(kept, f.marker);
    }
  }

  lemma MarkedIsTrimmed(kept: seq<string>, marker: string)
    ensures Marked(kept, marker) == [] || Trimmed(Marked(kept, marker))
  {
    StripIsTrimmed(Join("\n", kept + [marker]));
  }

  lemma FittingIsIdentity(t: string, f: Fit)
    requires (t == [] || Trimmed(t)) && f.count(t) <= f.budget
    ensures Fitted(t, f) == t
  {
    assert Strip(t) == t by { TrimmedIsStripped(t); }
  }

  /** Fitting twice changes nothing. */
  lemma FittedIsIdempotent(text: string, f: Fit)
    requires f.count("") == 0 && Trimmed(f.marker)
    ensures Fitted(Fitted(text, f), f) == Fitted(text, f)
  {
    FittedIsTrimmed(text, f);
    var t := Fitted(text, f);
    FittedIsWithinBudget(text, f);
    FittingIsIdentity(t, f);
  }

  // ---- the kept lines are lines of the text, in order, and no line that was dropped still fits ----

  /** `sub` is obtained from `s` by leaving elements out. */
  predicate IsSubsequence(sub: seq<string>, s: seq<string>) {
    || sub == []
    || (s != [] && ((sub[0] == s[0] && IsSubsequence(sub[1..], s[1..])) || IsSubsequence(sub, s[1..])))
  }

  lemma {:induction false} GreedyExtends(kept: seq<string>, lines: seq<string>, cost: Cost, budget: nat)
    ensures kept <= Greedy(kept, lines, cost, budget)
    ensures IsSubsequence(Greedy(kept, lines, cost, budget)[|kept|..], lines)
    decreases |lines|
  {
    var all := Greedy(kept, lines, cost, budget);
    if lines == [] {
      assert all[|kept|..] == [];
    } else if cost(kept + [lines[0]]) <= budget {
      GreedyExtends(kept + [lines[0]], lines[1..], cost, budget);
      assert all[|kept|..][0] == lines[0] && all[|kept|..][1..] == all[|kept| + 1..];
    } else {
      GreedyExtends(kept, lines[1..], cost, budget);
    }
  }

  /** When the marker is emitted, the lines in front of it are an ordered part of the lines of the text. */
  lemma KeptIsSubsequence(text: string, f: Fit)
    requires f.count(f.marker) <= f.budget < f.count(Strip(text))
    ensures var t := Strip(text);
      && IsSubsequence(Kept(t, f), SplitLines(t))
      && Fitted(text, f) == if Kept(t, f) == [] then f.marker else Marked(Kept(t, f), f.marker)
  {
    var lines := SplitLines(Strip(text));
    GreedyExtends([], lines, MarkedCost(f), f.budget);
    var kept := Kept(Strip(text), f);
    assert kept[0..] == kept;
  }

  lemma {:induction false} GreedyConcat(kept: seq<string>, a: seq<string>, b: seq<string>, cost: Cost, budget: nat)
    ensures Greedy(kept, a + b, cost, budget) == Greedy(Greedy(kept, a, cost, budget), b, cost, budget)
    decreases |a|
  {
    if a == [] {
      assert a + b == b;
    } else {
      assert (a + b)[0] == a[0] && (a + b)[1..] == a[1..] + b;
      GreedyConcat(if cost(kept + [a[0]]) <= budget then kept + [a[0]] else kept, a[1..], b, cost, budget);
    }
  }

  /** Adding lines to a non-empty selection never makes it cheaper. */
  ghost predicate Grows(cost: Cost) {
    forall a, b :: a != [] ==> cost(a) <= cost(a + b)
  }

  /** When the line `l` between `a` and `b` was dropped, the kept lines with `l` back in its place overflow. */
  lemma DroppedLineOverflows(a: seq<string>, l: string, b: seq<string>, cost: Cost, budget: nat)
    requires Grows(cost) && cost(Greedy([], a, cost, budget) + [l]) > budget
    ensures var front, all := Greedy([], a, cost, budget), Greedy([], a + [l] + b, cost, budget);
      front <= all && cost(front + [l] + all[|front|..]) > budget
  {
    var front := Greedy([], a, cost, budget);
    assert Greedy([], a + [l] + b, cost, budget) == Greedy(front, b, cost, budget) by {
      assert a + [l] + b == a + ([l] + b) && ([l] + b)[1..] == b;
      GreedyConcat([], a, [l] + b, cost, budget);
    }
    GreedyExtends(front, b, cost, budget);
  }

  /** Longer texts never count less. */
  ghost predicate MonotoneInLength(count: Counter) {
    forall a, b :: |a| <= |b| ==> count(a) <= count(b)
  }

  lemma {:induction false} StripLeftConcat(u: string, w: string)
    ensures StripLeft(u) != [] ==> StripLeft(u + w) == StripLeft(u) + w
    ensures StripLeft(u) == [] ==> StripLeft(u + w) == StripLeft(w)
  {
    if u == [] {
      assert u + w == w;
    } else {
      assert (u + w)[1..] == u[1..] + w && (u + w)[0] == u[0];
      StripLeftConcat(u[1..], w);
    }
  }

  /** A text that ends in `tail`, which starts with no blank, still ends in it after trimming the left. */
  lemma {:induction false} StripLeftKeepsTail(v: string, tail: string)
    requires |tail| <= |v| && v[|v| - |tail|..] == tail && tail != [] && !IsSpace(tail[0])
    ensures |StripLeft(v)| >= |tail|
  {
    if |v| == |tail| {
      assert v == tail;
    } else {
      assert v[1..][|v[1..]| - |tail|..] == tail;
      StripLeftKeepsTail(v[1..], tail);
    }
  }

  lemma {:induction false} JoinConcat(a: seq<string>, b: seq<string>)
    requires b != []
    ensures Join("\n", a + b) == if a == [] then Join("\n", b) else Join("\n", a) + "\n" + Join("\n", b)
  {
    if a == [] {
      assert a + b == b;
    } else {
      assert (a + b)[1..] == a[1..] + b && (a + b)[0] == a[0];
      JoinConcat(a[1..], b);
      if a[1..] == [] {
        assert Join("\n", a) == a[0];
      } else {
        var x, y := Join("\n", a[1..]), Join("\n", b);
        assert a[0] + "\n" + (x + "\n" + y) == a[0] + "\n" + x + "\n" + y;
      }
    }
  }

  lemma JoinEndsWith(b: seq<string>, m: string)
    ensures var v := Join("\n", b + [m]); |v| >= |m| && v[|v| - |m|..] == m
  {
    JoinConcat(b, [m]);
  }

  lemma StripOfMarked(v: string, m: string)
    requires Trimmed(m) && |v| >= |m| && v[|v| - |m|..] == m
    ensures Strip(v) == StripLeft(v) && |StripLeft(v)| >= |m|
  {
    StripLeftKeepsTail(v, m);
    var l := StripLeft(v);
    StripLeftIsEnd(v);
    assert l[|l| - 1] == v[|v| - 1] == m[|m| - 1];
  }

  lemma EndKept(u: string, v: string, m: string)
    requires |v| >= |m| && v[|v| - |m|..] == m
    ensures |u + v| >= |m| && (u + v)[|u + v| - |m|..] == m
  {}

  /** A longer end behind the same beginning never makes the trimmed text shorter. */
  lemma LongerEnd(u: string, v: string, m: string)
    requires Trimmed(m) && |v| >= |m| && v[|v| - |m|..] == m
    ensures |Strip(u + m)| <= |Strip(u + v)|
  {
    StripIsLeft(u, m, m);
    StripIsLeft(u, v, m);
    StripLeftConcat(u, m);
    StripLeftConcat(u, v);
  }

  lemma StripIsLeft(u: string, v: string, m: string)
    requires Trimmed(m) && |v| >= |m| && v[|v| - |m|..] == m
    ensures Strip(u + v) == StripLeft(u + v) && |StripLeft(v)| >= |m|
    ensures StripLeft(m) == m
  {
    EndKept(u, v, m);
    StripOfMarked(u + v, m);
    StripOfMarked(v, m);
  }

  /** More lines in front of the marker never make the trimmed text shorter. */
  lemma MoreLinesAreLonger(a: seq<string>, b: seq<string>, marker: string)
    requires a != [] && Trimmed(marker)
    ensures |Marked(a, marker)| <= |Marked(a + b, marker)|
  {
    JoinConcat(a, [marker]);
    assert a + b + [marker] == a + (b + [marker]);
    JoinConcat(a, b + [marker]);
    JoinEndsWith(b, marker);
    LongerEnd(Join("\n", a) + "\n", Join("\n", b + [marker]), marker);
  }

  lemma MarkedCostGrows(f: Fit)
    requires MonotoneInLength(f.count) && Trimmed(f.marker)
    ensures Grows(MarkedCost(f))
  {
    forall a, b | a != [] ensures MarkedCost(f)(a) <= MarkedCost(f)(a + b) {
      MoreLinesAreLonger(a, b, f.marker);
    }
  }

  /** What the pass has kept when it comes to line `k`. */
  function KeptBefore(t: string, k: nat, f: Fit): seq<string>
    requires k <= |SplitLines(t)|
  {
    Greedy([], SplitLines(t)[..k], MarkedCost(f), f.budget)
  }

  /** The pass drops line `k`. */
  predicate Dropped(t: string, k: nat, f: Fit)
    requires k < |SplitLines(t)|
  {
    MarkedCost(f)(KeptBefore(t, k, f) + [SplitLines(t)[k]]) > f.budget
  }

  /** The lines kept, with line `k` back in its place, are over the budget. */
  ghost predicate Overflows(t: string, k: nat, f: Fit)
    requires k < |SplitLines(t)|
  {
    var front, kept := KeptBefore(t, k, f), Kept(t, f);
    front <= kept && MarkedCost(f)(front + [SplitLines(t)[k]] + kept[|front|..]) > f.budget
  }

  lemma DroppedStaysOut(lines: seq<string>, k: nat, cost: Cost, budget: nat)
    requires k < |lines| && Grows(cost) && cost(Greedy([], lines[..k], cost, budget) + [lines[k]]) > budget
    ensures var front, all := Greedy([], lines[..k], cost, budget), Greedy([], lines, cost, budget);
      front <= all && cost(front + [lines[k]] + all[|front|..]) > budget
  {
    DroppedLineOverflows(lines[..k], lines[k], lines[k + 1..], cost, budget);
    assert lines[..k] + [lines[k]] + lines[k + 1..] == lines;
  }

  /** What the lines kept are for. */
  lemma FittedIsMarked(text: string, f: Fit)
    ensures var t := Strip(text);
      f.count(t) > f.budget && f.count(f.marker) <= f.budget && Kept(t, f) != [] ==> Fitted(text, f) == Marked(Kept(t, f), f.marker)
  {}

  lemma KeptIsMaximal(t: string, k: nat, f: Fit)
    requires MonotoneInLength(f.count) && Trimmed(f.marker) && k < |SplitLines(t)| && Dropped(t, k, f)
    ensures Overflows(t, k, f)
  {
    MarkedCostGrows(f);
    DroppedStaysOut(SplitLines(t), k, MarkedCost(f), f.budget);
  }

  /**
   The choice is maximal for every counter that is monotone in length, the fallback estimate among them: no line that was
   dropped could be put back in its place among those that the fitted text has in front of the marker.
   */
  lemma ChoiceIsMaximal(text: string, k: nat, f: Fit)
    requires MonotoneInLength(f.count) && Trimmed(f.marker)
    requires k < |SplitLines(Strip(text))| && Dropped(Strip(text), k, f)
    ensures Overflows(Strip(text), k, f)
    ensures var t := Strip(text);
      f.count(t) > f.budget && f.count(f.marker) <= f.budget && Kept(t, f) != [] ==> Fitted(text, f) == Marked(Kept(t, f), f.marker)
  {
    KeptIsMaximal(Strip(text), k, f);
    FittedIsMarked(text, f);
  }

  lemma FallbackIsMonotone()
    ensures MonotoneInLength(CharsPerThree) && CharsPerThree("") == 0
  {}
}
