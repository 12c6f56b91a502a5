/**
 Decoding with a dictionary that lacks some of the tokens (kemory/compression/aaak.py:113-120): a token that is not in it
 stays as it is, unless the pass of a token of one digit takes the front of it.
 */
module AaakLostTokens {
  import opened Text
  import opened AaakSubstitution
  import opened AaakSegments

  predicate Has(rules: seq<Rule>, i: nat, phrases: seq<string>)
    requires 1 <= i <= |phrases|
  {
    Rule(Token(i), phrases[i - 1]) in rules
  }

  /** What the decoder makes of a token: its phrase, the phrase of its first digit's token and its second digit, or itself. */
  function ReadAs(i: nat, rules: seq<Rule>, phrases: seq<string>): string
    requires 1 <= i <= |phrases|
  {
    if Has(rules, i, phrases) then phrases[i - 1]
    else if i >= 10 && Has(rules, i / 10, phrases) then phrases[i / 10 - 1] + [DigitChar(i % 10)]
    else Token(i)
  }

  function ReadAll(rules: seq<Rule>, phrases: seq<string>): seq<string> {
    seq(|phrases|, k requires 0 <= k < |phrases| => ReadAs(k + 1, rules, phrases))
  }

  /** The pass of the token `$j` takes the front of the token `$i`. */
  predicate Takes(j: nat, i: nat) { j < 10 <= i && i / 10 == j }

  /** The segments after the pass of `$j`. */
  function Passed(g: Segs, j: nat, phrases: seq<string>): Segs
    requires 1 <= j <= |phrases|
  {
    match g
    case End => End
    case Ch(c, rest) => Ch(c, Passed(rest, j, phrases))
    case Tok(i, rest) =>
      if i == j then Chars(phrases[j - 1], Passed(rest, j, phrases))
      else if Takes(j, i) then Chars(phrases[j - 1] + [DigitChar(i % 10)], Passed(rest, j, phrases))
      else Tok(i, Passed(rest, j, phrases))
  }

  lemma OtherTokenNotRead(i: nat, rest: Segs, j: nat, phrases: seq<string>)
    requires |phrases| <= MAX_SUBSTITUTIONS && InTable(rest, |phrases|)
    requires 1 <= j <= |phrases| && 1 <= i <= |phrases| && i != j && !Takes(j, i)
    requires TokenClear(i, Expand(rest, phrases), |phrases|)
    ensures !(Token(j) <= Token(i) + Render(rest))
  {
    if j < 10 <= i {
      DecimalOfOneDigit(j);
      DecimalOfTwoDigits(i);
      assert (Token(i) + Render(rest))[1] == DigitChar(i / 10) != Token(j)[1];
    } else {
      TokenNotMisread(i, rest, j, phrases);
    }
  }

  lemma TakenToken(i: nat, rest: string, j: nat, p: string)
    requires 1 <= j && i < 100 && Takes(j, i)
    ensures Replace(Token(i) + rest, Token(j), p) == (p + [DigitChar(i % 10)]) + Replace(rest, Token(j), p)
  {
    DecimalOfOneDigit(j);
    DecimalOfTwoDigits(i);
    var d := DigitChar(i % 10);
    assert Token(i) + rest == Token(j) + ([d] + rest);
    ReplaceHit(Token(j), [d] + rest, p);
    assert !(Token(j) <= [d] + rest) by { assert IsDigit(d) && ([d] + rest)[0] == d && Token(j)[0] == '$'; }
    ReplaceMiss(d, rest, Token(j), p);
    assert p + ([d] + Replace(rest, Token(j), p)) == (p + [d]) + Replace(rest, Token(j), p);
  }

  lemma {:induction false} PassReads(g: Segs, j: nat, phrases: seq<string>)
    requires |phrases| <= MAX_SUBSTITUTIONS && InTable(g, |phrases|) && 1 <= j <= |phrases| && Clear(g, phrases)
    ensures Replace(Render(g), Token(j), phrases[j - 1]) == Render(Passed(g, j, phrases))
  {
    match g
    case End =>
    case Ch(c, rest) =>
      PassReads(rest, j, phrases);
      CharNotMisread(c, rest, j, phrases);
      ReplaceMiss(c, Render(rest), Token(j), phrases[j - 1]);
    case Tok(i, rest) =>
      PassReads(rest, j, phrases);
      PassReadsToken(i, rest, j, phrases);
  }

  lemma PassReadsToken(i: nat, rest: Segs, j: nat, phrases: seq<string>)
    requires |phrases| <= MAX_SUBSTITUTIONS && InTable(Tok(i, rest), |phrases|) && 1 <= j <= |phrases|
    requires TokenClear(i, Expand(rest, phrases), |phrases|)
    requires Replace(Render(rest), Token(j), phrases[j - 1]) == Render(Passed(rest, j, phrases))
    ensures var p, passed := phrases[j - 1], Passed(rest, j, phrases);
      Replace(Token(i) + Render(rest), Token(j), p)
      == Render(if i == j then Chars(p, passed) else if Takes(j, i) then Chars(p + [DigitChar(i % 10)], passed) else Tok(i, passed))
  {
    var p, passed := phrases[j - 1], Passed(rest, j, phrases);
    if i == j {
      ReplaceHit(Token(j), Render(rest), p);
      CharsRender(p, passed);
    } else if Takes(j, i) {
      TakenToken(i, Render(rest), j, p);
      CharsRender(p + [DigitChar(i % 10)], passed);
    } else {
      OtherTokenNotRead(i, rest, j, phrases);
      SkipOtherToken(i, Render(rest), j, p);
    }
  }

  /** A digit in front of the one text is in front of the other. */
  predicate DigitsOf(a: string, b: string) { a != [] && IsDigit(a[0]) ==> b != [] && b[0] == a[0] }

  ghost predicate StaysClear(h: Segs, g: Segs, phrases: seq<string>)
    requires InTable(g, |phrases|)
  {
    InTable(h, |phrases|) && Clear(h, phrases) && DigitsOf(Expand(h, phrases), Expand(g, phrases))
  }

  lemma {:induction false} PassedStaysClear(g: Segs, j: nat, phrases: seq<string>)
    requires LetterTable(phrases) && InTable(g, |phrases|) && 1 <= j <= |phrases| && Clear(g, phrases)
    ensures StaysClear(Passed(g, j, phrases), g, phrases)
  {
    match g
    case End =>
    case Ch(c, rest) => PassedStaysClear(rest, j, phrases);
    case Tok(i, rest) =>
      PassedStaysClear(rest, j, phrases);
      TokenStaysClear(i, rest, Passed(rest, j, phrases), j, phrases);
  }

  lemma TokenStaysClear(i: nat, rest: Segs, passed: Segs, j: nat, phrases: seq<string>)
    requires LetterTable(phrases) && 1 <= i <= |phrases| && 1 <= j <= |phrases| && InTable(rest, |phrases|)
    requires StaysClear(passed, rest, phrases) && TokenClear(i, Expand(rest, phrases), |phrases|)
    ensures var h := if i == j then Chars(phrases[j - 1], passed)
                     else if Takes(j, i) then Chars(phrases[j - 1] + [DigitChar(i % 10)], passed)
                     else Tok(i, passed);
      StaysClear(h, Tok(i, rest), phrases)
  {
    var p := phrases[j - 1];
    assert GoodPhrase(p) by { assert p in phrases; }
    if i == j {
      CharsStartWell(p, [], passed, phrases);
    } else if Takes(j, i) {
      CharsStartWell(p, [DigitChar(i % 10)], passed, phrases);
    } else {
      assert GoodPhrase(phrases[i - 1]) by { assert phrases[i - 1] in phrases; }
      assert Expand(Tok(i, passed), phrases)[0] == phrases[i - 1][0];
    }
  }

  lemma CharsStartWell(p: string, d: string, rest: Segs, phrases: seq<string>)
    requires GoodPhrase(p) && '$' !in d && InTable(rest, |phrases|) && Clear(rest, phrases)
    ensures p + [] == p
    ensures var h := Chars(p + d, rest);
      InTable(h, |phrases|) && Clear(h, phrases) && Expand(h, phrases) != [] && !IsDigit(Expand(h, phrases)[0])
  {
    ClearChars(p + d, rest, phrases);
    CharsExpand(p + d, rest, phrases);
  }

  lemma HasInRest(rules: seq<Rule>, i: nat, j: nat, phrases: seq<string>)
    requires |phrases| <= MAX_SUBSTITUTIONS && 1 <= i <= |phrases| && 1 <= j <= |phrases| && i != j
    requires rules != [] && rules[0] == Rule(Token(j), phrases[j - 1])
    ensures Has(rules, i, phrases) <==> Has(rules[1..], i, phrases)
  {
    if Token(i) == Token(j) { TokenInjective(i, j); }
    assert rules == [rules[0]] + rules[1..];
  }

  /** What a pass does to a token is what the token reads as; for the others the passes that are left decide. */
  lemma ReadStep(i: nat, j: nat, rules: seq<Rule>, phrases: seq<string>)
    requires |phrases| <= MAX_SUBSTITUTIONS && 1 <= i <= |phrases| && 1 <= j <= |phrases|
    requires rules != [] && Descending(rules) && rules[0] == Rule(Token(j), phrases[j - 1])
    ensures ReadAs(i, rules, phrases) ==
            if i == j then phrases[j - 1]
            else if Takes(j, i) then phrases[j - 1] + [DigitChar(i % 10)]
            else ReadAs(i, rules[1..], phrases)
  {
    assert Has(rules, j, phrases);
    if Takes(j, i) {
      TokenLengths(i);
      TokenLengths(j);
      if Has(rules, i, phrases) { HeadIsLongest(rules, Rule(Token(i), phrases[i - 1])); }
    } else if i != j {
      HasInRest(rules, i, j, phrases);
      if i >= 10 { HasInRest(rules, i / 10, j, phrases); }
    }
  }

  /** What the pass of `$j` makes of the readings after it. */
  predicate ReadsInto(i: nat, j: nat, before: string, later: string, phrases: seq<string>)
    requires 1 <= j <= |phrases|
  {
    before == if i == j then phrases[j - 1] else if Takes(j, i) then phrases[j - 1] + [DigitChar(i % 10)] else later
  }

  lemma {:induction false} PassedExpands(g: Segs, j: nat, before: seq<string>, later: seq<string>, phrases: seq<string>)
    requires InTable(g, |phrases|) && 1 <= j <= |phrases| == |before| == |later|
    requires forall k :: 0 <= k < |phrases| ==> ReadsInto(k + 1, j, before[k], later[k], phrases)
    ensures InTable(Passed(g, j, phrases), |phrases|)
    ensures Expand(Passed(g, j, phrases), later) == Expand(g, before)
  {
    match g
    case End =>
    case Ch(c, rest) => PassedExpands(rest, j, before, later, phrases);
    case Tok(i, rest) =>
      PassedExpands(rest, j, before, later, phrases);
      assert ReadsInto(i - 1 + 1, j, before[i - 1], later[i - 1], phrases);
      var passed := Passed(rest, j, phrases);
      if i == j {
        CharsExpand(phrases[j - 1], passed, later);
      } else if Takes(j, i) {
        CharsExpand(phrases[j - 1] + [DigitChar(i % 10)], passed, later);
      }
  }

  lemma PassedReadsAlike(g: Segs, j: nat, rules: seq<Rule>, phrases: seq<string>)
    requires |phrases| <= MAX_SUBSTITUTIONS && InTable(g, |phrases|) && 1 <= j <= |phrases|
    requires rules != [] && Descending(rules) && rules[0] == Rule(Token(j), phrases[j - 1])
    ensures InTable(Passed(g, j, phrases), |phrases|)
    ensures Expand(Passed(g, j, phrases), ReadAll(rules[1..], phrases)) == Expand(g, ReadAll(rules, phrases))
  {
    var before, later := ReadAll(rules, phrases), ReadAll(rules[1..], phrases);
    forall k | 0 <= k < |phrases| ensures ReadsInto(k + 1, j, before[k], later[k], phrases) {
      ReadStep(k + 1, j, rules, phrases);
    }
    PassedExpands(g, j, before, later, phrases);
  }

  lemma {:induction false} NothingRead(g: Segs, phrases: seq<string>)
    requires InTable(g, |phrases|)
    ensures Render(g) == Expand(g, ReadAll([], phrases))
  {
    if !g.End? { NothingRead(g.rest, phrases); }
  }

  /** The decoder's passes for any part of the tokens. */
  lemma {:induction false} PartRestores(g: Segs, rules: seq<Rule>, phrases: seq<string>)
    requires LetterTable(phrases) && InTable(g, |phrases|) && Clear(g, phrases)
    requires Descending(rules) && TokenRules(rules, phrases)
    ensures Rewrite(Render(g), rules) == Expand(g, ReadAll(rules, phrases))
    decreases |rules|
  {
    if rules == [] {
      NothingRead(g, phrases);
    } else {
      assert rules[0] in rules && forall r <- rules[1..] :: r in rules;
      var j :| 1 <= j <= |phrases| && rules[0] == Rule(Token(j), phrases[j - 1]);
      PassReads(g, j, phrases);
      PassedStaysClear(g, j, phrases);
      PassedReadsAlike(g, j, rules, phrases);
      PartRestores(Passed(g, j, phrases), rules[1..], phrases);
    }
  }
}
