/** Where the AAAK round trip fails, and why each hypothesis of the theorem is there. */
module AaakLimits {
  import opened Text
  import opened AaakSubstitution
  import opened AaakSegments
  import opened AaakTokens
  import opened AaakRecord
  import opened AaakDocument
  import opened AaakHeader
  import opened AaakLineBreaks
  import opened AaakRoundTrip

  function Dollars(s: string): nat {
    if s == [] then 0 else (if s[0] == '$' then 1 else 0) + Dollars(s[1..])
  }

  lemma {:induction false} DollarsConcat(a: string, b: string)
    ensures Dollars(a + b) == Dollars(a) + Dollars(b)
  {
    if a == [] {
      assert a + b == b;
    } else {
      assert (a + b)[1..] == a[1..] + b;
      DollarsConcat(a[1..], b);
    }
  }

  lemma {:induction false} NoDollars(s: string)
    requires '$' !in s
    ensures Dollars(s) == 0
  {
    if s != [] { assert s[0] in s; NoDollars(s[1..]); }
  }

  lemma OccursInTail(p: string, s: string)
    requires s != [] && !(p <= s)
    ensures Occurs(p, s) <==> Occurs(p, s[1..])
  {
    if Occurs(p, s) {
      var k :| 0 <= k <= |s| && OccursAt(p, s, k);
      assert s[0..] == s;
      assert k >= 1 && s[k..] == s[1..][k - 1..];
      assert OccursAt(p, s[1..], k - 1);
    }
    if Occurs(p, s[1..]) {
      var k :| 0 <= k <= |s[1..]| && OccursAt(p, s[1..], k);
      assert s[1..][k..] == s[k + 1..];
      assert OccursAt(p, s, k + 1);
    }
  }

  lemma {:induction false} ReplaceAbsent(s: string, p: string, r: string)
    requires p != [] && !Occurs(p, s)
    ensures Replace(s, p, r) == s
  {
    if s != [] {
      assert s[0..] == s && !OccursAt(p, s, 0);
      OccursInTail(p, s);
      ReplaceAbsent(s[1..], p, r);
    }
  }

  /** Replacing a token by a phrase never adds a `$`, and takes one away where the token occurs. */
  lemma {:induction false} ReplaceTakesDollars(s: string, i: nat, r: string)
    requires '$' !in r
    ensures Dollars(Replace(s, Token(i), r)) <= Dollars(s)
    ensures Occurs(Token(i), s) ==> Dollars(Replace(s, Token(i), r)) < Dollars(s)
    decreases |s|
  {
    var t := Token(i);
    if s == [] {
      assert !Occurs(t, s) by { assert forall k :: 0 <= k <= |s| ==> s[k..] == []; }
    } else if t <= s {
      var rest := s[|t|..];
      ReplaceTakesDollars(rest, i, r);
      DollarsConcat(r, Replace(rest, t, r));
      NoDollars(r);
      assert s == t + rest;
      DollarsConcat(t, rest);
      assert t[0] == '$';
    } else {
      OccursInTail(t, s);
      ReplaceTakesDollars(s[1..], i, r);
      assert Replace(s, t, r)[1..] == Replace(s[1..], t, r);
    }
  }

  lemma {:induction false} TokensAbsentOrDollarsLost(s: string, rules: seq<Rule>, phrases: seq<string>)
    requires GoodTable(phrases) && Usable(rules) && TokenRules(rules, phrases)
    ensures Dollars(Rewrite(s, rules)) <= Dollars(s)
    ensures (exists r <- rules :: Occurs(r.from, s)) ==> Dollars(Rewrite(s, rules)) < Dollars(s)
    ensures !(exists r <- rules :: Occurs(r.from, s)) ==> Rewrite(s, rules) == s
    decreases |rules|
  {
    if rules != [] {
      assert rules[0] in rules;
      var j :| 1 <= j <= |phrases| && rules[0] == Rule(Token(j), phrases[j - 1]);
      assert phrases[j - 1] in phrases;
      assert forall r <- rules[1..] :: r in rules;
      ReplaceTakesDollars(s, j, phrases[j - 1]);
      TokensAbsentOrDollarsLost(Replace(s, Token(j), phrases[j - 1]), rules[1..], phrases);
      if !Occurs(Token(j), s) {
        ReplaceAbsent(s, Token(j), phrases[j - 1]);
        assert forall r <- rules :: r == rules[0] || r in rules[1..];
      }
    }
  }

  lemma {:induction false} PhrasesAbsent(s: string, rules: seq<Rule>)
    requires Usable(rules) && forall r <- rules :: !Occurs(r.from, s)
    ensures Rewrite(s, rules) == s
    decreases |rules|
  {
    if rules != [] {
      assert rules[0] in rules;
      ReplaceAbsent(s, rules[0].from, rules[0].to);
      PhrasesAbsent(s, rules[1..]);
    }
  }

  /** A text without any phrase of the table survives exactly when it spells no token of the table. */
  lemma PhraseFreeTextSurvivesIff(text: string, phrases: seq<string>)
    requires GoodTable(phrases) && forall p <- phrases :: !Occurs(p, text)
    ensures Usable(PhraseRules(phrases)) && Usable(Flipped(PhraseRules(phrases)))
    ensures Reversed(Applied(text, PhraseRules(phrases)), PhraseRules(phrases)) == text
            <==> forall i :: 1 <= i <= |phrases| ==> !Occurs(Token(i), text)
  {
    PhraseRulesShape(phrases);
    FlippedRulesShape(phrases);
    TokensDistinct(phrases);
    var rules := PhraseRules(phrases);
    SortKeepsRules(rules);
    SortKeepsRules(Flipped(rules));
    forall r <- rules ensures !Occurs(r.from, text) {
      var i :| 1 <= i <= |phrases| && r == Rule(phrases[i - 1], Token(i));
      assert phrases[i - 1] in phrases;
    }
    PhrasesAbsent(text, LongestFirst(rules));
    var back := LongestFirst(Flipped(rules));
    TokensAbsentOrDollarsLost(text, back, phrases);
    if i :| 1 <= i <= |phrases| && Occurs(Token(i), text) {
      assert Rule(Token(i), phrases[i - 1]) in back;
    } else {
      forall r <- back ensures !Occurs(r.from, text) {
        var i :| 1 <= i <= |phrases| && r == Rule(Token(i), phrases[i - 1]);
      }
    }
  }

  // ---- a phrase that occurs once ----

  function Around(a: string, p: string, b: string): string { a + (p + b) }

  ghost predicate OnlyAt(p: string, s: string, at: nat) { forall k :: OccursAt(p, s, k) ==> k == at }

  /** In a `$`-free text the phrase number `i` stands between `a` and `b` and nowhere else, and no other phrase occurs. */
  ghost predicate OccursOnce(a: string, i: nat, b: string, phrases: seq<string>) {
    && 1 <= i <= |phrases|
    && '$' !in Around(a, phrases[i - 1], b)
    && OnlyAt(phrases[i - 1], Around(a, phrases[i - 1], b), |a|)
    && (forall j :: 0 <= j < |phrases| && j != i - 1 ==> !Occurs(phrases[j], Around(a, phrases[i - 1], b)))
  }

  lemma OccursInFront(q: string, a: string, rest: string, k: nat)
    requires OccursAt(q, a, k)
    ensures OccursAt(q, a + rest, k)
  {
    assert (a + rest)[k..] == a[k..] + rest;
  }

  lemma OccursBehind(q: string, front: string, b: string, k: nat)
    requires OccursAt(q, b, k)
    ensures OccursAt(q, front + b, |front| + k)
  {
    assert (front + b)[|front| + k..] == b[k..];
  }

  lemma PhraseStandsThere(a: string, i: nat, b: string, phrases: seq<string>)
    requires OccursOnce(a, i, b, phrases)
    ensures OccursAt(phrases[i - 1], Around(a, phrases[i - 1], b), |a|)
    ensures forall j :: 0 <= j < |phrases| && j != i - 1 ==> phrases[j] != phrases[i - 1]
  {
    var p := phrases[i - 1];
    assert Around(a, p, b)[|a|..] == p + b;
    assert OccursAt(p, Around(a, p, b), |a|);
  }

  lemma ReplaceFirstAt(a: string, p: string, b: string, r: string)
    requires p != [] && forall k :: 0 <= k < |a| ==> !(p <= (a + (p + b))[k..])
    ensures Replace(a + (p + b), p, r) == a + (r + Replace(b, p, r))
  {
    forall k | 0 <= k < |a| ensures !(p <= a[k..] + (p + b)) { assert (a + (p + b))[k..] == a[k..] + (p + b); }
    ReplaceSkipsFront(a, p + b, p, r);
    ReplaceHit(p, b, r);
  }

  /** No good phrase reaches into or out of a token. */
  lemma NotAroundToken(q: string, a: string, t: string, b: string)
    requires GoodPhrase(q) && !Occurs(q, a) && !Occurs(q, b)
    requires t != [] && t[0] == '$' && forall k :: 0 <= k < |t| ==> t[k] == '$' || IsDigit(t[k])
    ensures !Occurs(q, a + (t + b))
  {
    var s := a + (t + b);
    forall k | 0 <= k <= |s| ensures !OccursAt(q, s, k) {
      if k + |q| <= |a| {
        assert !OccursAt(q, a, k);
        assert s[k..][..|q|] == a[k..][..|q|];
      } else if k < |a| {
        assert s[k..][|a| - k] == '$' && |a| - k < |q| && q[|a| - k] in q;
      } else if k < |a| + |t| {
        assert s[k..][0] == t[k - |a|] && q[0] in q;
      } else {
        assert !OccursAt(q, b, k - |a| - |t|);
        assert s[k..] == b[k - |a| - |t|..];
      }
    }
  }

  lemma AbsentFromSides(a: string, i: nat, b: string, phrases: seq<string>, j: nat)
    requires LetterTable(phrases) && OccursOnce(a, i, b, phrases) && j < |phrases|
    ensures !Occurs(phrases[j], a) && !Occurs(phrases[j], b)
  {
    var p, q := phrases[i - 1], phrases[j];
    assert q in phrases && p in phrases;
    forall k | 0 <= k <= |a| ensures !OccursAt(q, a, k) {
      if OccursAt(q, a, k) { OccursInFront(q, a, p + b, k); }
    }
    assert (a + p) + b == Around(a, p, b);
    forall k | 0 <= k <= |b| ensures !OccursAt(q, b, k) {
      if OccursAt(q, b, k) { OccursBehind(q, a + p, b, k); }
    }
  }

  lemma AbsentFromEncoded(a: string, i: nat, b: string, phrases: seq<string>, j: nat)
    requires LetterTable(phrases) && OccursOnce(a, i, b, phrases) && j < |phrases|
    ensures !Occurs(phrases[j], Around(a, Token(i), b))
  {
    assert phrases[j] in phrases;
    AbsentFromSides(a, i, b, phrases, j);
    TokenCharacters(i);
    NotAroundToken(phrases[j], a, Token(i), b);
  }

  lemma InTail(r: Rule, rules: seq<Rule>)
    requires rules != [] && rules[0] != r
    ensures r in rules <==> r in rules[1..]
  {
    assert rules == [rules[0]] + rules[1..];
  }

  /** Passes of which one turns the one text into the other, and that do nothing else to either. */
  lemma {:induction false} OneRuleHits(text: string, plain: string, coded: string, target: Rule, rules: seq<Rule>)
    requires Usable(rules) && (text == plain || text == coded)
    requires forall r <- rules ::
               && r.from != []
               && Replace(plain, r.from, r.to) == (if r == target then coded else plain)
               && Replace(coded, r.from, r.to) == coded
    ensures Rewrite(text, rules) == if target in rules then coded else text
    decreases |rules|
  {
    if rules != [] {
      assert rules[0] in rules && forall r <- rules[1..] :: r in rules;
      OneRuleHits(Replace(text, rules[0].from, rules[0].to), plain, coded, target, rules[1..]);
      if rules[0] != target { InTail(target, rules); }
    }
  }

  lemma EncodeOnceRule(r: Rule, a: string, i: nat, b: string, phrases: seq<string>)
    requires LetterTable(phrases) && OccursOnce(a, i, b, phrases) && RulesOf([r], phrases)
    ensures r.from != []
    ensures var plain, coded := Around(a, phrases[i - 1], b), Around(a, Token(i), b);
      && Replace(plain, r.from, r.to) == (if r == Rule(phrases[i - 1], Token(i)) then coded else plain)
      && Replace(coded, r.from, r.to) == coded
  {
    assert r in [r];
    var j :| 1 <= j <= |phrases| && r == Rule(phrases[j - 1], Token(j));
    EncodeOncePass(Around(a, phrases[i - 1], b), a, i, b, j, phrases);
    EncodeOncePass(Around(a, Token(i), b), a, i, b, j, phrases);
    PhraseStandsThere(a, i, b, phrases);
    assert j != i ==> phrases[j - 1] != phrases[i - 1];
  }

  lemma EncodeOncePass(text: string, a: string, i: nat, b: string, j: nat, phrases: seq<string>)
    requires LetterTable(phrases) && OccursOnce(a, i, b, phrases) && 1 <= j <= |phrases|
    requires text == Around(a, phrases[i - 1], b) || text == Around(a, Token(i), b)
    ensures phrases[j - 1] != []
    ensures Replace(text, phrases[j - 1], Token(j)) == if j == i then Around(a, Token(i), b) else text
  {
    var p := phrases[j - 1];
    assert p in phrases;
    if text == Around(a, Token(i), b) {
      AbsentFromEncoded(a, i, b, phrases, j - 1);
      ReplaceAbsent(text, p, Token(j));
    } else if j == i {
      forall k | 0 <= k < |a| ensures !(p <= (a + (p + b))[k..]) { assert !OccursAt(p, Around(a, p, b), k); }
      ReplaceFirstAt(a, p, b, Token(j));
      AbsentFromSides(a, i, b, phrases, j - 1);
      ReplaceAbsent(b, p, Token(j));
    } else {
      ReplaceAbsent(text, p, Token(j));
    }
  }

  lemma AppliedOnce(a: string, i: nat, b: string, phrases: seq<string>)
    requires LetterTable(phrases) && OccursOnce(a, i, b, phrases) && Usable(PhraseRules(phrases))
    ensures Applied(Around(a, phrases[i - 1], b), PhraseRules(phrases)) == Around(a, Token(i), b)
  {
    var rules := PhraseRules(phrases);
    PhraseRulesShape(phrases);
    SortKeepsRules(rules);
    assert rules[i - 1] == Rule(phrases[i - 1], Token(i));
    forall r <- LongestFirst(rules) ensures RulesOf([r], phrases) { assert r in rules; }
    forall r <- LongestFirst(rules)
      ensures r.from != []
      ensures var plain, coded := Around(a, phrases[i - 1], b), Around(a, Token(i), b);
        && Replace(plain, r.from, r.to) == (if r == Rule(phrases[i - 1], Token(i)) then coded else plain)
        && Replace(coded, r.from, r.to) == coded
    {
      EncodeOnceRule(r, a, i, b, phrases);
    }
    OneRuleHits(Around(a, phrases[i - 1], b), Around(a, phrases[i - 1], b), Around(a, Token(i), b),
                Rule(phrases[i - 1], Token(i)), LongestFirst(rules));
  }

  /** The text as one token between characters. */
  lemma AroundToken(a: string, m: nat, b: string, phrases: seq<string>) returns (g: Segs)
    requires 1 <= m <= |phrases| && '$' !in a && '$' !in b && TokenClear(m, b, |phrases|)
    ensures g == Chars(a, Tok(m, Chars(b, End)))
    ensures InTable(g, |phrases|) && Clear(g, phrases)
    ensures Render(g) == Around(a, Token(m), b) && Expand(g, phrases) == Around(a, phrases[m - 1], b)
  {
    TextAsSegments(b, phrases);
    ClearChars(b, End, phrases);
    var mid := Tok(m, Chars(b, End));
    ClearChars(a, mid, phrases);
    CharsRender(a, mid);
    CharsExpand(a, mid, phrases);
    g := Chars(a, mid);
  }

  lemma ReversedOnce(a: string, m: nat, b: string, phrases: seq<string>)
    requires GoodTable(phrases) && 1 <= m <= |phrases| && '$' !in a && '$' !in b && TokenClear(m, b, |phrases|)
    requires Usable(Flipped(PhraseRules(phrases)))
    ensures Reversed(Around(a, Token(m), b), PhraseRules(phrases)) == Around(a, phrases[m - 1], b)
  {
    var g := AroundToken(a, m, b, phrases);
    ClearSegmentsReverse(g, phrases);
  }

  /** The token and the digit behind it spell another token of the table. */
  predicate Misread(i: nat, b: string, n: nat) {
    b != [] && IsDigit(b[0]) && 10 * i + DigitValue(b[0]) <= n
  }

  lemma TokenWithDigit(i: nat, c: char)
    requires 1 <= i < 10 && IsDigit(c)
    ensures Token(i) + [c] == Token(10 * i + DigitValue(c))
  {
    DecimalOfOneDigit(i);
    DecimalOfTwoDigits(10 * i + DigitValue(c));
  }

  /** What a misread token becomes: the other phrase, and the digit is gone. */
  lemma MisreadOnce(a: string, i: nat, b: string, phrases: seq<string>)
    requires LetterTable(phrases) && OccursOnce(a, i, b, phrases) && Misread(i, b, |phrases|)
    ensures Usable(PhraseRules(phrases)) && Usable(Flipped(PhraseRules(phrases)))
    ensures Reversed(Applied(Around(a, phrases[i - 1], b), PhraseRules(phrases)), PhraseRules(phrases))
            == Around(a, phrases[10 * i + DigitValue(b[0]) - 1], b[1..])
  {
    var m := 10 * i + DigitValue(b[0]);
    TableUsable(phrases);
    AppliedOnce(a, i, b, phrases);
    TokenWithDigit(i, b[0]);
    SidesHaveNoDollar(a, i, b, phrases);
    assert Around(a, Token(i), b) == Around(a, Token(m), b[1..]) by { assert b == [b[0]] + b[1..]; }
    ReversedOnce(a, m, b[1..], phrases);
  }

  lemma SidesHaveNoDollar(a: string, i: nat, b: string, phrases: seq<string>)
    requires OccursOnce(a, i, b, phrases)
    ensures '$' !in a && '$' !in b && (b != [] ==> '$' !in b[1..])
  {
    var text := Around(a, phrases[i - 1], b);
    assert forall c <- a :: c in text;
    assert forall c <- b :: c in phrases[i - 1] + b && c in text;
    if b != [] { assert forall c <- b[1..] :: c in b; }
  }

  /** For a phrase that occurs once, safe to substitute in means nothing but: no misreading behind it. */
  lemma SafeOnceIff(a: string, i: nat, b: string, phrases: seq<string>)
    requires LetterTable(phrases) && OccursOnce(a, i, b, phrases)
    ensures SubstitutionSafe(Around(a, phrases[i - 1], b), phrases) <==> !Misread(i, b, |phrases|)
  {
    var p := phrases[i - 1];
    var text := Around(a, p, b);
    assert p in phrases;
    assert text[|a|..] == p + b;
    assert b != [] ==> (p + b)[|p|] == b[0];
    if !Misread(i, b, |phrases|) {
      forall k | 0 <= k < |text| ensures FrontSafe(text[k..], phrases) {
        assert text[k..][0] == text[k];
        forall j | 0 <= j < |phrases| && phrases[j] <= text[k..] ensures j == i - 1 && k == |a| {
          assert OccursAt(phrases[j], text, k);
        }
      }
    } else {
      assert p <= text[|a|..] && !FrontSafe(text[|a|..], phrases);
    }
  }

  /**
   A text in which one phrase occurs once comes back if and only if it is safe to substitute in: here the condition of
   the round trip is necessary as well.
   */
  lemma SingleOccurrenceSurvivesIff(a: string, i: nat, b: string, phrases: seq<string>)
    requires LetterTable(phrases) && OccursOnce(a, i, b, phrases)
    ensures Usable(PhraseRules(phrases)) && Usable(Flipped(PhraseRules(phrases)))
    ensures var text := Around(a, phrases[i - 1], b);
      Reversed(Applied(text, PhraseRules(phrases)), PhraseRules(phrases)) == text <==> SubstitutionSafe(text, phrases)
  {
    var text := Around(a, phrases[i - 1], b);
    TableUsable(phrases);
    SafeOnceIff(a, i, b, phrases);
    if SubstitutionSafe(text, phrases) {
      SafeIsUnmistaken(text, phrases);
      SubstitutionRoundTrip(text, phrases);
    } else {
      MisreadOnce(a, i, b, phrases);
      MisreadDiffers(a, i, b, phrases);
    }
  }

  lemma MisreadDiffers(a: string, i: nat, b: string, phrases: seq<string>)
    requires LetterTable(phrases) && OccursOnce(a, i, b, phrases) && Misread(i, b, |phrases|)
    ensures Around(a, phrases[10 * i + DigitValue(b[0]) - 1], b[1..]) != Around(a, phrases[i - 1], b)
  {
    OccursWhereItStands(a, phrases[10 * i + DigitValue(b[0]) - 1], b[1..]);
  }

  lemma OccursWhereItStands(a: string, q: string, b: string)
    ensures Occurs(q, Around(a, q, b))
  {
    assert Around(a, q, b)[|a|..] == q + b;
    assert OccursAt(q, Around(a, q, b), |a|);
  }

  /** In front of the digit that completes another token of the table a phrase comes back as the other phrase. */
  lemma DigitBehindPhraseIsLost(i: nat, c: char, phrases: seq<string>)
    requires LetterTable(phrases) && 1 <= i < 10 && IsDigit(c) && 10 * i + DigitValue(c) <= |phrases|
    requires forall k :: 0 <= k < |phrases| && k != i - 1 ==> !Occurs(phrases[k], phrases[i - 1] + [c])
    ensures Usable(PhraseRules(phrases)) && Usable(Flipped(PhraseRules(phrases)))
    ensures Reversed(Applied(phrases[i - 1] + [c], PhraseRules(phrases)), PhraseRules(phrases))
            == phrases[10 * i + DigitValue(c) - 1] != phrases[i - 1] + [c]
  {
    OnceBeforeDigit(i, c, phrases);
    MisreadOnce([], i, [c], phrases);
    MisreadDiffers([], i, [c], phrases);
    var q := phrases[10 * i + DigitValue(c) - 1];
    assert Around([], q, [c][1..]) == q && Around([], phrases[i - 1], [c]) == phrases[i - 1] + [c];
  }

  lemma OnceBeforeDigit(i: nat, c: char, phrases: seq<string>)
    requires LetterTable(phrases) && 1 <= i <= |phrases| && IsDigit(c)
    requires forall k :: 0 <= k < |phrases| && k != i - 1 ==> !Occurs(phrases[k], phrases[i - 1] + [c])
    ensures OccursOnce([], i, [c], phrases)
  {
    var p := phrases[i - 1];
    assert p in phrases;
    assert Around([], p, [c]) == p + [c];
    forall k | OccursAt(p, p + [c], k) ensures k == 0 {
      if k == 1 { AllOneDigit(p, c); }
    }
  }

  /** A text that is its own tail with one more character has that character throughout. */
  lemma {:induction false} AllOneDigit(p: string, c: char)
    requires p != [] && p <= (p + [c])[1..]
    ensures p[0] == c
  {
    var s := (p + [c])[1..];
    assert p == s;
    var k := |p| - 1;
    while k > 0
      invariant 0 <= k < |p| && p[k] == c
    {
      assert s[k - 1] == p[k];
      k := k - 1;
    }
  }

  // ---- phrases the header cuts ----

  /** A content in which a phrase that the header cuts occurs once is lost. */
  lemma CutPhraseIsLost(a: string, i: nat, b: string, phrases: seq<string>)
    requires LetterTable(phrases) && OccursOnce(a, i, b, phrases) && !Misread(i, b, |phrases|)
    requires Cut(i, phrases)
    ensures !ContentSurvives(Around(a, phrases[i - 1], b), phrases)
    ensures ReadableTable(phrases) ==>
              && Usable(PhraseRules(phrases)) && Usable(Flipped(BackTable(phrases)))
              && !ReadsBack(Around(a, phrases[i - 1], b), phrases)
  {
    var text := Around(a, phrases[i - 1], b);
    CutPhraseIsUsed(a, i, b, phrases);
    SafeOnceIff(a, i, b, phrases);
    SafeIsUnmistaken(text, phrases);
    if ReadableTable(phrases) {
      TableUsable(phrases);
      BackTableRules(phrases);
      DirectContentIff(text, phrases);
    }
  }

  lemma CutPhraseIsUsed(a: string, i: nat, b: string, phrases: seq<string>)
    requires LetterTable(phrases) && OccursOnce(a, i, b, phrases) && !Misread(i, b, |phrases|)
    requires Cut(i, phrases)
    ensures UsesCut(Around(a, phrases[i - 1], b), phrases)
  {
    TableUsable(phrases);
    AppliedOnce(a, i, b, phrases);
    assert (Token(i) + b)[|Token(i)|..] == b;
    SpelledInside(i, a, Token(i) + b, |phrases|);
  }

  lemma {:induction false} SpelledInside(i: nat, a: string, s: string, n: nat)
    requires StandsAt(i, s, n)
    ensures Spelled(i, a + s, n)
  {
    if a == [] {
      assert a + s == s;
    } else {
      assert (a + s)[1..] == a[1..] + s;
      SpelledInside(i, a[1..], s, n);
    }
  }

  // ---- values that are lost outside the dictionary ----

  /** A leading tilde on an unquoted value is read as `None`: the memory is lost whatever the rest of it is. */
  lemma LeadingTildeIsLost<J(!new)>(mem: Memory<J>, f: Field, codec: JsonCodec<J>)
    requires Sound(codec) && InScope(mem) && f in mem && mem[f].Str?
    requires var s := mem[f].s; s != [] && s[0] == '~' && !NeedsQuoting(s)
    ensures DecodedBlob(Encoded([mem], [], codec), codec) != Memories([mem])
  {
    if f == Content {
      NoPhrasesNoPasses(mem[f].s);
      SafeIsUnmistaken(mem[f].s, []);
    }
    assert !Survives(f, mem[f], [], codec);
    assert mem in [mem];
    RoundTripIff([mem], [], codec);
  }

  lemma NoPhrasesNoPasses(s: string)
    ensures Usable(PhraseRules([])) && Applied(s, PhraseRules([])) == s && SubstitutionSafe(s, [])
  {
    assert PhraseRules([]) == [];
  }

  /** So is a value with a no-break space and nothing that forces quotes. */
  lemma NoBreakSpaceIsLost<J(!new)>(codec: JsonCodec<J>)
    requires Sound(codec)
    ensures var mem: Memory<J> := map[Id := Str("a\U{a0}b")];
      DecodedBlob(Encoded([mem], [], codec), codec) != Memories([mem])
  {
    var mem: Memory<J> := map[Id := Str("a\U{a0}b")];
    assert "a\U{a0}b"[1] == '\U{a0}' && '\U{a0}' in "a\U{a0}b";
    assert forall c <- "a\U{a0}b" :: !IsSpecial(c);
    assert !Survives(Id, mem[Id], [], codec);
    assert mem in [mem];
    RoundTripIff([mem], [], codec);
  }

  /** Quoting does not help against a line break the encoder does not escape. */
  lemma ExoticLineBreakIsLost<J(!new)>(codec: JsonCodec<J>)
    requires Sound(codec)
    ensures var mem: Memory<J> := map[Id := Str("a \U{2028} b")];
      DecodedBlob(Encoded([mem], [], codec), codec) != Memories([mem])
  {
    var mem: Memory<J> := map[Id := Str("a \U{2028} b")];
    assert "a \U{2028} b"[2] == '\U{2028}' && '\U{2028}' in "a \U{2028} b";
    assert !Survives(Id, mem[Id], [], codec);
    assert mem in [mem];
    RoundTripIff([mem], [], codec);
  }
}
