/**
 The per-document substitution dictionary of the AAAK dialect (kemory/compression/aaak.py:82-120).

 Encoding and decoding each run a sequence of global replacements over the text. The passes can see each
 other's output: a token `$1` is a prefix of `$10`, a replaced phrase can end up in front of a digit, and a phrase
 can match text that straddles a token. Module AaakSegments proves when they do no harm, module AaakLimits
 when they do.
 */
module AaakSubstitution {
  import opened Text

  const MAX_SUBSTITUTIONS := 20

  /** One global replacement. */
  datatype Rule = Rule(from: string, to: string)

  predicate Usable(rules: seq<Rule>) { forall r <- rules :: r.from != [] }

  /** `$idx` */
  function Token(i: nat): (t: string) { "$" + Decimal(i) }

  // ---- the two passes ----

  function InsertByLength(r: Rule, sorted: seq<Rule>): seq<Rule> {
    if sorted == [] || |sorted[0].from| <= |r.from| then [r] + sorted
    else [sorted[0]] + InsertByLength(r, sorted[1..])
  }

  /** `sorted(keys, key=len, reverse=True)`: longest first, equal lengths in dictionary order. */
  function LongestFirst(rules: seq<Rule>): seq<Rule> {
    if rules == [] then [] else InsertByLength(rules[0], LongestFirst(rules[1..]))
  }

  /** The replacements of `rules`, one after the other. */
  function Rewrite(text: string, rules: seq<Rule>): string
    requires Usable(rules)
    decreases |rules|
  {
    if rules == [] then text else Rewrite(Replace(text, rules[0].from, rules[0].to), rules[1..])
  }

  /** The dictionary `{phrase: "$idx"}` for phrases numbered from 1. */
  function PhraseRules(phrases: seq<string>): (rules: seq<Rule>)
    ensures |rules| == |phrases|
    ensures forall i :: 0 <= i < |phrases| ==> rules[i] == Rule(phrases[i], Token(i + 1))
  {
    seq(|phrases|, i requires 0 <= i < |phrases| => Rule(phrases[i], Token(i + 1)))
  }

  /** Every entry with its sides exchanged. */
  function Flipped(rules: seq<Rule>): (flipped: seq<Rule>)
    ensures |flipped| == |rules|
    ensures forall i :: 0 <= i < |rules| ==> flipped[i] == Rule(rules[i].to, rules[i].from)
  {
    seq(|rules|, i requires 0 <= i < |rules| => Rule(rules[i].to, rules[i].from))
  }

  /** `d[k] = v`: an existing key keeps its place in the dictionary order. */
  function Put(d: seq<Rule>, r: Rule): seq<Rule> {
    if d == [] then [r] else if d[0].from == r.from then [r] + d[1..] else [d[0]] + Put(d[1..], r)
  }

  function PutAll(d: seq<Rule>, rules: seq<Rule>): seq<Rule>
    decreases |rules|
  {
    if rules == [] then d else PutAll(Put(d, rules[0]), rules[1..])
  }

  /** The reversed dictionary `{v: k for k, v in table.items()}`. */
  function Inverted(table: seq<Rule>): seq<Rule> { PutAll([], Flipped(table)) }

  lemma {:induction false} PutKeepsUsable(d: seq<Rule>, r: Rule)
    requires Usable(d) && r.from != []
    ensures Usable(Put(d, r))
  {
    if d != [] && d[0].from != r.from {
      assert Usable(d[1..]) && d[0] in d;
      PutKeepsUsable(d[1..], r);
    }
  }

  lemma {:induction false} PutAllKeepsUsable(d: seq<Rule>, rules: seq<Rule>)
    requires Usable(d) && Usable(rules)
    ensures Usable(PutAll(d, rules))
    decreases |rules|
  {
    if rules != [] {
      assert rules[0] in rules;
      PutKeepsUsable(d, rules[0]);
      PutAllKeepsUsable(Put(d, rules[0]), rules[1..]);
    }
  }

  predicate DistinctKeys(d: seq<Rule>) { forall i, j :: 0 <= i < j < |d| ==> d[i].from != d[j].from }

  lemma {:induction false} PutFresh(d: seq<Rule>, r: Rule)
    requires forall x <- d :: x.from != r.from
    ensures Put(d, r) == d + [r]
  {
    if d != [] {
      assert d[0] in d;
      PutFresh(d[1..], r);
    }
  }

  lemma {:induction false} PutAllDistinct(d: seq<Rule>, rules: seq<Rule>)
    requires DistinctKeys(d + rules)
    ensures PutAll(d, rules) == d + rules
    decreases |rules|
  {
    if rules != [] {
      forall x <- d ensures x.from != rules[0].from {
        var i :| 0 <= i < |d| && d[i] == x;
        assert (d + rules)[i] == x && (d + rules)[|d|] == rules[0];
      }
      PutFresh(d, rules[0]);
      assert d + [rules[0]] + rules[1..] == d + rules;
      PutAllDistinct(d + [rules[0]], rules[1..]);
    }
  }

  lemma {:induction false} InsertKeepsRules(r: Rule, sorted: seq<Rule>)
    ensures forall x :: x in InsertByLength(r, sorted) <==> x == r || x in sorted
  {
    if !(sorted == [] || |sorted[0].from| <= |r.from|) {
      InsertKeepsRules(r, sorted[1..]);
    }
  }

  lemma {:induction false} SortKeepsRules(rules: seq<Rule>)
    ensures forall x :: x in LongestFirst(rules) <==> x in rules
  {
    if rules != [] {
      SortKeepsRules(rules[1..]);
      InsertKeepsRules(rules[0], LongestFirst(rules[1..]));
    }
  }

  predicate Descending(rules: seq<Rule>) {
    forall i, j :: 0 <= i < j < |rules| ==> |rules[i].from| >= |rules[j].from|
  }

  lemma {:induction false} InsertKeepsDescending(r: Rule, sorted: seq<Rule>)
    requires Descending(sorted)
    ensures Descending(InsertByLength(r, sorted))
  {
    if !(sorted == [] || |sorted[0].from| <= |r.from|) {
      var rest := InsertByLength(r, sorted[1..]);
      InsertKeepsDescending(r, sorted[1..]);
      InsertKeepsRules(r, sorted[1..]);
      forall x <- rest ensures |sorted[0].from| >= |x.from| {
        if x != r {
          var k :| 0 <= k < |sorted[1..]| && sorted[1..][k] == x;
          assert x == sorted[k + 1];
        }
      }
      assert forall i :: 0 <= i < |rest| ==> rest[i] in rest;
    }
  }

  lemma {:induction false} SortIsDescending(rules: seq<Rule>)
    ensures Descending(LongestFirst(rules))
  {
    if rules != [] {
      SortIsDescending(rules[1..]);
      InsertKeepsDescending(rules[0], LongestFirst(rules[1..]));
    }
  }

  function Applied(text: string, table: seq<Rule>): string
    requires Usable(table)
  {
    SortKeepsRules(table);
    Rewrite(text, LongestFirst(table))
  }

  function Reversed(text: string, table: seq<Rule>): string
    requires Usable(Flipped(table))
  {
    PutAllKeepsUsable([], Flipped(table));
    SortKeepsRules(Inverted(table));
    Rewrite(text, LongestFirst(Inverted(table)))
  }

  method ApplySubstitutions(text: string, table: seq<Rule>) returns (out: string)
    requires Usable(table)
    ensures out == Applied(text, table)
  {
    SortKeepsRules(table);
    var rules := LongestFirst(table);
    out := text;
    for k := 0 to |rules|
      invariant Rewrite(out, rules[k..]) == Rewrite(text, rules)
    {
      assert rules[k..][1..] == rules[k + 1..];
      out := Replace(out, rules[k].from, rules[k].to);
    }
  }

  method ReverseSubstitutions(text: string, table: seq<Rule>) returns (out: string)
    requires Usable(Flipped(table))
    ensures out == Reversed(text, table)
  {
    PutAllKeepsUsable([], Flipped(table));
    SortKeepsRules(Inverted(table));
    var rules := LongestFirst(Inverted(table));
    out := text;
    for k := 0 to |rules|
      invariant Rewrite(out, rules[k..]) == Rewrite(text, rules)
    {
      assert rules[k..][1..] == rules[k + 1..];
      out := Replace(out, rules[k].from, rules[k].to);
    }
  }

  // ---- what the phrase miner guarantees, and the one thing it does not ----

  /** Phrases are runs of words: never empty, never with `$`; they can start with a digit. */
  predicate Mineable(phrase: string) { phrase != [] && '$' !in phrase }

  predicate GoodTable(phrases: seq<string>) {
    |phrases| <= MAX_SUBSTITUTIONS && forall p <- phrases :: Mineable(p)
  }

  predicate GoodPhrase(phrase: string) { Mineable(phrase) && !IsDigit(phrase[0]) }

  /** No phrase starts with a digit, so none can match into a token. */
  predicate LetterTable(phrases: seq<string>) {
    |phrases| <= MAX_SUBSTITUTIONS && forall p <- phrases :: GoodPhrase(p)
  }

  // ---- tokens and tables ----

  lemma DecimalOfOneDigit(i: nat)
    requires i < 10
    ensures Decimal(i) == [DigitChar(i)]
  {}

  lemma DecimalOfTwoDigits(i: nat)
    requires 10 <= i < 100
    ensures Decimal(i) == [DigitChar(i / 10), DigitChar(i % 10)]
  {
    DecimalOfOneDigit(i / 10);
  }

  lemma TokenLengths(j: nat)
    ensures j < 10 ==> |Token(j)| == 2
    ensures 10 <= j < 100 ==> |Token(j)| == 3
  {
    if j < 10 { DecimalOfOneDigit(j); }
    if 10 <= j < 100 { DecimalOfTwoDigits(j); }
  }

  lemma TokenCharacters(i: nat)
    ensures forall k :: 0 <= k < |Token(i)| ==> Token(i)[k] == '$' || IsDigit(Token(i)[k])
  {
    var d := Decimal(i);
    forall k | 0 < k < |Token(i)| ensures IsDigit(Token(i)[k]) {
      assert Token(i)[k] == d[k - 1] && d[k - 1] in d;
    }
  }

  lemma HeadIsLongest(rules: seq<Rule>, r: Rule)
    requires Descending(rules) && r in rules
    ensures |r.from| <= |rules[0].from|
  {
    var k :| 0 <= k < |rules| && rules[k] == r;
  }

  lemma TokenInjective(i: nat, j: nat)
    requires i < 100 && j < 100 && Token(i) == Token(j)
    ensures i == j
  {
    assert Decimal(i) == Token(i)[1..] == Token(j)[1..] == Decimal(j);
    if i < 10 { DecimalOfOneDigit(i); } else { DecimalOfTwoDigits(i); }
    if j < 10 { DecimalOfOneDigit(j); } else { DecimalOfTwoDigits(j); }
  }

  predicate RulesOf(rules: seq<Rule>, phrases: seq<string>) {
    forall r <- rules :: exists i :: 1 <= i <= |phrases| && r == Rule(phrases[i - 1], Token(i))
  }

  predicate TokenRules(rules: seq<Rule>, phrases: seq<string>) {
    forall r <- rules :: exists i :: 1 <= i <= |phrases| && r == Rule(Token(i), phrases[i - 1])
  }

  lemma FlippedAt(phrases: seq<string>, k: nat)
    requires k < |phrases|
    ensures |Flipped(PhraseRules(phrases))| == |phrases|
    ensures Flipped(PhraseRules(phrases))[k] == Rule(Token(k + 1), phrases[k])
  {}

  lemma FlippedDiffer(phrases: seq<string>, i: nat, j: nat)
    requires i < j < |phrases| <= MAX_SUBSTITUTIONS
    ensures |Flipped(PhraseRules(phrases))| == |phrases|
    ensures Flipped(PhraseRules(phrases))[i].from != Flipped(PhraseRules(phrases))[j].from
  {
    FlippedAt(phrases, i);
    FlippedAt(phrases, j);
    if Token(i + 1) == Token(j + 1) { TokenInjective(i + 1, j + 1); }
  }

  lemma TokensDistinct(phrases: seq<string>)
    requires |phrases| <= MAX_SUBSTITUTIONS
    ensures Inverted(PhraseRules(phrases)) == Flipped(PhraseRules(phrases))
  {
    var flipped := Flipped(PhraseRules(phrases));
    forall i, j | 0 <= i < j < |flipped| ensures flipped[i].from != flipped[j].from { FlippedDiffer(phrases, i, j); }
    assert [] + flipped == flipped;
    PutAllDistinct([], flipped);
  }

  lemma TableUsable(phrases: seq<string>)
    requires GoodTable(phrases)
    ensures Usable(PhraseRules(phrases)) && Usable(Flipped(PhraseRules(phrases)))
  {
    PhraseRulesShape(phrases);
    FlippedRulesShape(phrases);
  }

  lemma PhraseRulesShape(phrases: seq<string>)
    requires GoodTable(phrases)
    ensures Usable(PhraseRules(phrases)) && RulesOf(PhraseRules(phrases), phrases)
  {
    var rules := PhraseRules(phrases);
    forall r <- rules
      ensures r.from != [] && exists i :: 1 <= i <= |phrases| && r == Rule(phrases[i - 1], Token(i))
    {
      var k :| 0 <= k < |rules| && r == rules[k];
      var i := k + 1;
      assert r == Rule(phrases[i - 1], Token(i)) && phrases[k] in phrases;
    }
  }

  lemma FlippedRulesShape(phrases: seq<string>)
    ensures Usable(Flipped(PhraseRules(phrases))) && TokenRules(Flipped(PhraseRules(phrases)), phrases)
    ensures forall i :: 1 <= i <= |phrases| ==>
              Rule(Token(i), phrases[i - 1]) in Flipped(PhraseRules(phrases))
  {
    var flipped := Flipped(PhraseRules(phrases));
    forall r <- flipped
      ensures r.from != [] && exists i :: 1 <= i <= |phrases| && r == Rule(Token(i), phrases[i - 1])
    {
      var k :| 0 <= k < |flipped| && r == flipped[k];
      var i := k + 1;
      assert r == Rule(Token(i), phrases[i - 1]);
    }
    forall i | 1 <= i <= |phrases| ensures Rule(Token(i), phrases[i - 1]) in flipped {
      assert flipped[i - 1] == Rule(Token(i), phrases[i - 1]);
    }
  }

  // ---- what is safe to substitute in ----

  /** The phrase can be found from inside the token `$i` on, when `behind` comes after it. */
  predicate ReachesBack(q: string, i: nat, behind: string) {
    exists k :: 0 < k < |Token(i)| && q <= Token(i)[k..] + behind
  }

  /**
   At the front of `y` nothing can be read as a longer token, or as a token that was never written, and no phrase can be
   found across the token of another.
   */
  predicate FrontSafe(y: string, phrases: seq<string>) {
    && (|y| >= 2 && y[0] == '$' && IsDigit(y[1]) ==> !(1 <= DigitValue(y[1]) <= |phrases|))
    && (forall i :: 0 <= i < |phrases| ==>
          (phrases[i] <= y && |phrases[i]| < |y| && IsDigit(y[|phrases[i]|]) ==>
             10 * (i + 1) + DigitValue(y[|phrases[i]|]) > |phrases|))
    && forall i :: 0 <= i < |phrases| && phrases[i] <= y ==> NoneReachesBack(i + 1, y[|phrases[i]|..], phrases)
  }

  predicate NoneReachesBack(i: nat, behind: string, phrases: seq<string>) {
    forall q <- phrases :: !ReachesBack(q, i, behind)
  }

  /**
   What a caller can check before encoding: the text spells no token of the table, no phrase is followed by a digit that
   would complete a longer token of the table, and none by text with which the end of its token makes a phrase.
   */
  predicate SubstitutionSafe(text: string, phrases: seq<string>) {
    forall k :: 0 <= k < |text| ==> FrontSafe(text[k..], phrases)
  }

  lemma LettersNeverReachBack(q: string, i: nat, behind: string)
    requires GoodPhrase(q)
    ensures !ReachesBack(q, i, behind)
  {
    forall k | 0 < k < |Token(i)| ensures !(q <= Token(i)[k..] + behind) {
      assert (Token(i)[k..] + behind)[0] == Decimal(i)[k - 1] && Decimal(i)[k - 1] in Decimal(i);
    }
  }

  predicate OccursAt(p: string, s: string, k: int) { 0 <= k <= |s| && p <= s[k..] }

  predicate Occurs(p: string, s: string) { exists k | 0 <= k <= |s| :: OccursAt(p, s, k) }

  // ---- replacing ----

  lemma {:induction false} ReplaceSkips(pre: string, rest: string, p: string, r: string)
    requires p != [] && p[0] !in pre
    ensures Replace(pre + rest, p, r) == pre + Replace(rest, p, r)
  {
    if pre == [] {
      assert pre + rest == rest;
    } else {
      assert (pre + rest)[1..] == pre[1..] + rest;
      ReplaceSkips(pre[1..], rest, p, r);
    }
  }
}
