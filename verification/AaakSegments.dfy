/**
 Why the substitution passes restore texts. The text is followed through all passes as a list of segments, each
 one original character or one token. Encoding passes only ever turn characters into tokens; decoding passes only ever
 turn tokens back into their phrases, as long as no token can be misread.
 */
module AaakSegments {
  import opened Text
  import opened AaakSubstitution

  datatype Segs = End | Ch(c: char, rest: Segs) | Tok(i: nat, rest: Segs)

  predicate InTable(g: Segs, n: nat) {
    match g
    case End => true
    case Ch(_, rest) => InTable(rest, n)
    case Tok(i, rest) => 1 <= i <= n && InTable(rest, n)
  }

  /** The text as it stands, tokens spelled out. */
  function Render(g: Segs): string {
    match g
    case End => []
    case Ch(c, rest) => [c] + Render(rest)
    case Tok(i, rest) => Token(i) + Render(rest)
  }

  /** The text the segments stand for, tokens replaced by their phrases. */
  function Expand(g: Segs, phrases: seq<string>): string
    requires InTable(g, |phrases|)
  {
    match g
    case End => []
    case Ch(c, rest) => [c] + Expand(rest, phrases)
    case Tok(i, rest) => phrases[i - 1] + Expand(rest, phrases)
  }

  /** The characters of `s` in front of `rest`. */
  function Chars(s: string, rest: Segs): Segs {
    if s == [] then rest else Ch(s[0], Chars(s[1..], rest))
  }

  lemma {:induction false} CharsRender(s: string, rest: Segs)
    ensures Render(Chars(s, rest)) == s + Render(rest)
  {
    if s != [] { CharsRender(s[1..], rest); }
  }

  lemma {:induction false} CharsExpand(s: string, rest: Segs, phrases: seq<string>)
    requires InTable(rest, |phrases|)
    ensures InTable(Chars(s, rest), |phrases|)
    ensures Expand(Chars(s, rest), phrases) == s + Expand(rest, phrases)
  {
    if s != [] { CharsExpand(s[1..], rest, phrases); }
  }

  lemma TextAsSegments(s: string, phrases: seq<string>)
    ensures Render(Chars(s, End)) == s
    ensures InTable(Chars(s, End), |phrases|) && Expand(Chars(s, End), phrases) == s
  {
    CharsRender(s, End);
    CharsExpand(s, End, phrases);
  }

  // ---- one replacement on a text split at its first character ----

  lemma ReplaceHit(p: string, rest: string, r: string)
    requires p != []
    ensures Replace(p + rest, p, r) == r + Replace(rest, p, r)
  {
    assert (p + rest)[|p|..] == rest;
  }

  lemma ReplaceMiss(c: char, rest: string, p: string, r: string)
    requires p != [] && !(p <= [c] + rest)
    ensures Replace([c] + rest, p, r) == [c] + Replace(rest, p, r)
  {
    assert ([c] + rest)[1..] == rest;
  }

  // ---- encoding ----

  predicate Starts(g: Segs, p: string) {
    p == [] || (g.Ch? && g.c == p[0] && Starts(g.rest, p[1..]))
  }

  function Length(g: Segs): nat {
    match g case End => 0 case Ch(_, rest) => 1 + Length(rest) case Tok(_, rest) => 1 + Length(rest)
  }

  function Behind(g: Segs, p: string): (r: Segs)
    requires Starts(g, p)
    ensures Length(r) + |p| == Length(g)
  {
    if p == [] then g else Behind(g.rest, p[1..])
  }

  function Replaced(g: Segs, p: string, i: nat): Segs
    requires p != []
    decreases Length(g)
  {
    if Starts(g, p) then Tok(i, Replaced(Behind(g, p), p, i))
    else match g
      case End => End
      case Ch(c, rest) => Ch(c, Replaced(rest, p, i))
      case Tok(j, rest) => Tok(j, Replaced(rest, p, i))
  }

  lemma {:induction false} BehindSplits(g: Segs, p: string)
    requires Starts(g, p)
    ensures g == Chars(p, Behind(g, p))
  {
    if p != [] { BehindSplits(g.rest, p[1..]); }
  }

  lemma PrefixTail(c: char, rest: string, p: string)
    requires p != []
    ensures p <= [c] + rest <==> p[0] == c && p[1..] <= rest
  {
    if p <= [c] + rest { assert ([c] + rest)[..|p|][1..] == rest[..|p| - 1]; }
  }

  lemma {:induction false} StartsIsPrefix(g: Segs, p: string)
    requires '$' !in p
    ensures Starts(g, p) <==> p <= Render(g)
  {
    if p != [] {
      assert p[0] in p;
      match g
      case End =>
      case Ch(c, rest) =>
        StartsIsPrefix(rest, p[1..]);
        PrefixTail(c, Render(rest), p);
      case Tok(i, rest) => assert Render(g)[0] == '$';
    }
  }

  lemma {:induction false} StartsOfMeaning(g: Segs, p: string, phrases: seq<string>)
    requires InTable(g, |phrases|) && Starts(g, p)
    ensures p <= Expand(g, phrases)
  {
    if p != [] {
      StartsOfMeaning(g.rest, p[1..], phrases);
      PrefixTail(g.c, Expand(g.rest, phrases), p);
    }
  }

  /** What can be found across the front of the text as it stands can be found across the front of its meaning. */
  lemma FrontOfMeaning(t: string, g: Segs, p: string, phrases: seq<string>)
    requires InTable(g, |phrases|) && '$' !in p && p <= t + Render(g)
    ensures p <= t + Expand(g, phrases)
  {
    if |p| <= |t| {
      assert (t + Render(g))[..|p|] == t[..|p|] == (t + Expand(g, phrases))[..|p|];
    } else {
      var q := p[|t|..];
      assert q <= Render(g) by { assert (t + Render(g))[|t|..|p|] == Render(g)[..|q|]; }
      assert p == t + q by { assert (t + Render(g))[..|t|] == t; }
      assert '$' !in q;
      StartsIsPrefix(g, q);
      StartsOfMeaning(g, q, phrases);
    }
  }

  /** Nothing is replaced in the front part of a text in which nothing is found. */
  lemma {:induction false} ReplaceSkipsFront(pre: string, rest: string, p: string, r: string)
    requires p != [] && forall k :: 0 <= k < |pre| ==> !(p <= pre[k..] + rest)
    ensures Replace(pre + rest, p, r) == pre + Replace(rest, p, r)
  {
    if pre == [] {
      assert pre + rest == rest;
    } else {
      assert pre[0..] == pre && (pre + rest)[1..] == pre[1..] + rest;
      forall k | 0 <= k < |pre[1..]| ensures !(p <= pre[1..][k..] + rest) { assert pre[1..][k..] == pre[k + 1..]; }
      ReplaceSkipsFront(pre[1..], rest, p, r);
    }
  }

  /** The phrase can be found from inside one of the tokens on. */
  predicate ReachedInto(g: Segs, p: string) {
    match g
    case End => false
    case Ch(_, rest) => ReachedInto(rest, p)
    case Tok(j, rest) => ReachesBack(p, j, Render(rest)) || ReachedInto(rest, p)
  }

  /** The pass over a token finds nothing that starts inside it. */
  lemma SkipToken(j: nat, rest: string, p: string, r: string)
    requires Mineable(p) && !ReachesBack(p, j, rest)
    ensures Replace(Token(j) + rest, p, r) == Token(j) + Replace(rest, p, r)
  {
    var t := Token(j);
    forall k | 0 <= k < |t| ensures !(p <= t[k..] + rest) {
      if k == 0 { assert (t[k..] + rest)[0] == '$' && p[0] in p; }
    }
    ReplaceSkipsFront(t, rest, p, r);
  }

  lemma {:induction false} BehindNotReached(g: Segs, p: string, q: string)
    requires Starts(g, p) && !ReachedInto(g, q)
    ensures !ReachedInto(Behind(g, p), q)
  {
    if p != [] { BehindNotReached(g.rest, p[1..], q); }
  }

  /** A pass over the text is the same pass over the segments when the phrase does not match into a token. */
  lemma {:induction false} EncodingPass(g: Segs, p: string, i: nat)
    requires Mineable(p) && !ReachedInto(g, p)
    ensures Replace(Render(g), p, Token(i)) == Render(Replaced(g, p, i))
    decreases Length(g)
  {
    StartsIsPrefix(g, p);
    if Starts(g, p) {
      var rest := Behind(g, p);
      BehindNotReached(g, p, p);
      EncodingPass(rest, p, i);
      BehindSplits(g, p);
      CharsRender(p, rest);
      ReplaceHit(p, Render(rest), Token(i));
    } else {
      match g
      case End =>
      case Ch(c, rest) =>
        EncodingPass(rest, p, i);
        ReplaceMiss(c, Render(rest), p, Token(i));
      case Tok(j, rest) =>
        EncodingPass(rest, p, i);
        SkipToken(j, Render(rest), p, Token(i));
    }
  }

  lemma {:induction false} EncodingKeepsMeaning(g: Segs, i: nat, phrases: seq<string>)
    requires 1 <= i <= |phrases| && phrases[i - 1] != [] && InTable(g, |phrases|)
    ensures InTable(Replaced(g, phrases[i - 1], i), |phrases|)
    ensures Expand(Replaced(g, phrases[i - 1], i), phrases) == Expand(g, phrases)
    decreases Length(g)
  {
    var p := phrases[i - 1];
    if Starts(g, p) {
      BehindSplits(g, p);
      BehindInTable(g, p, |phrases|);
      EncodingKeepsMeaning(Behind(g, p), i, phrases);
      CharsExpand(p, Behind(g, p), phrases);
    } else if !g.End? {
      EncodingKeepsMeaning(g.rest, i, phrases);
    }
  }

  lemma {:induction false} BehindInTable(g: Segs, p: string, n: nat)
    requires Starts(g, p) && InTable(g, n)
    ensures InTable(Behind(g, p), n)
  {
    if p != [] { BehindInTable(g.rest, p[1..], n); }
  }

  /** The number of a token. */
  function NumberOf(t: string): nat {
    if |t| == 2 && IsDigit(t[1]) then DigitValue(t[1])
    else if |t| == 3 && IsDigit(t[1]) && IsDigit(t[2]) then 10 * DigitValue(t[1]) + DigitValue(t[2])
    else 0
  }

  lemma NumberOfToken(i: nat)
    requires i < 100
    ensures NumberOf(Token(i)) == i
  {
    if i < 10 { DecimalOfOneDigit(i); } else { DecimalOfTwoDigits(i); }
  }

  /** The encoder's passes over the segments. */
  function Tokenized(g: Segs, rules: seq<Rule>): Segs
    requires Usable(rules)
    decreases |rules|
  {
    if rules == [] then g else Tokenized(Replaced(g, rules[0].from, NumberOf(rules[0].to)), rules[1..])
  }

  /** No pass finds its phrase across a token of an earlier one. */
  predicate CleanPasses(g: Segs, rules: seq<Rule>)
    requires Usable(rules)
    decreases |rules|
  {
    rules == [] ||
    (!ReachedInto(g, rules[0].from) && CleanPasses(Replaced(g, rules[0].from, NumberOf(rules[0].to)), rules[1..]))
  }

  lemma RuleOf(r: Rule, phrases: seq<string>) returns (i: nat)
    requires GoodTable(phrases) && RulesOf([r], phrases)
    ensures 1 <= i <= |phrases| && r == Rule(phrases[i - 1], Token(i)) && NumberOf(r.to) == i && Mineable(r.from)
  {
    assert r in [r];
    i :| 1 <= i <= |phrases| && r == Rule(phrases[i - 1], Token(i));
    assert phrases[i - 1] in phrases;
    NumberOfToken(i);
  }

  /** Whatever the order of the passes, they keep what the segments stand for, and the text follows them if they are clean. */
  lemma {:induction false} EncodingYieldsSegments(g: Segs, rules: seq<Rule>, phrases: seq<string>)
    requires GoodTable(phrases) && Usable(rules) && RulesOf(rules, phrases) && InTable(g, |phrases|)
    ensures InTable(Tokenized(g, rules), |phrases|)
    ensures Expand(Tokenized(g, rules), phrases) == Expand(g, phrases)
    ensures CleanPasses(g, rules) ==> Rewrite(Render(g), rules) == Render(Tokenized(g, rules))
    decreases |rules|
  {
    if rules != [] {
      assert rules[0] in rules && forall r <- rules[1..] :: r in rules;
      var i := RuleOf(rules[0], phrases);
      if CleanPasses(g, rules) { EncodingPass(g, phrases[i - 1], i); }
      EncodingKeepsMeaning(g, i, phrases);
      EncodingYieldsSegments(Replaced(g, phrases[i - 1], i), rules[1..], phrases);
    }
  }

  /** Phrases that do not start with a digit never match into a token. */
  lemma {:induction false} LettersReachNoToken(g: Segs, p: string)
    requires GoodPhrase(p)
    ensures !ReachedInto(g, p)
  {
    if !g.End? { LettersReachNoToken(g.rest, p); }
    if g.Tok? { LettersNeverReachBack(p, g.i, Render(g.rest)); }
  }

  lemma {:induction false} LettersAreClean(g: Segs, rules: seq<Rule>)
    requires Usable(rules) && forall r <- rules :: GoodPhrase(r.from)
    ensures CleanPasses(g, rules)
    decreases |rules|
  {
    if rules != [] {
      assert rules[0] in rules && forall r <- rules[1..] :: r in rules;
      LettersReachNoToken(g, rules[0].from);
      LettersAreClean(Replaced(g, rules[0].from, NumberOf(rules[0].to)), rules[1..]);
    }
  }

  // ---- decoding: when no token can be misread ----

  /** The character does not start a token the encoder never wrote. */
  predicate CharClear(c: char, behind: string, n: nat) {
    c == '$' && behind != [] && IsDigit(behind[0]) ==> !(1 <= DigitValue(behind[0]) <= n)
  }

  /** The token does not become another one together with a digit behind it. */
  predicate TokenClear(i: nat, behind: string, n: nat) {
    behind != [] && IsDigit(behind[0]) ==> 10 * i + DigitValue(behind[0]) > n
  }

  predicate Clear(g: Segs, phrases: seq<string>)
    requires InTable(g, |phrases|)
  {
    match g
    case End => true
    case Ch(c, rest) => CharClear(c, Expand(rest, phrases), |phrases|) && Clear(rest, phrases)
    case Tok(i, rest) => TokenClear(i, Expand(rest, phrases), |phrases|) && Clear(rest, phrases)
  }

  predicate TokensBelow(g: Segs, m: nat) {
    match g case End => true case Ch(_, rest) => TokensBelow(rest, m) case Tok(i, rest) => i < m && TokensBelow(rest, m)
  }

  function Restored(g: Segs, j: nat, phrases: seq<string>): Segs
    requires 1 <= j <= |phrases|
  {
    match g
    case End => End
    case Ch(c, rest) => Ch(c, Restored(rest, j, phrases))
    case Tok(i, rest) =>
      if i == j then Chars(phrases[j - 1], Restored(rest, j, phrases)) else Tok(i, Restored(rest, j, phrases))
  }

  /** A digit at the front of the text as it stands is the first character of its meaning. */
  lemma FirstRendered(g: Segs, phrases: seq<string>)
    requires InTable(g, |phrases|)
    ensures Render(g) != [] && IsDigit(Render(g)[0]) ==>
              Expand(g, phrases) != [] && Expand(g, phrases)[0] == Render(g)[0]
  {
    if g.Tok? { assert Render(g)[0] == '$'; }
  }

  lemma FirstDigitOfToken(j: nat)
    requires 1 <= j < 100
    ensures |Token(j)| >= 2 && Token(j)[0] == '$' && IsDigit(Token(j)[1]) && 1 <= DigitValue(Token(j)[1]) <= j
  {
    if j < 10 { DecimalOfOneDigit(j); } else { DecimalOfTwoDigits(j); }
  }

  lemma CharNotMisread(c: char, rest: Segs, j: nat, phrases: seq<string>)
    requires |phrases| <= MAX_SUBSTITUTIONS && InTable(rest, |phrases|) && 1 <= j <= |phrases|
    requires CharClear(c, Expand(rest, phrases), |phrases|)
    ensures !(Token(j) <= [c] + Render(rest))
  {
    FirstRendered(rest, phrases);
    FirstDigitOfToken(j);
    var s := [c] + Render(rest);
    assert Render(rest) != [] ==> s[1] == Render(rest)[0];
    assert s[0] != Token(j)[0] || |s| < 2 || s[1] != Token(j)[1];
  }

  lemma TokenNotMisread(i: nat, rest: Segs, j: nat, phrases: seq<string>)
    requires |phrases| <= MAX_SUBSTITUTIONS && InTable(rest, |phrases|)
    requires 1 <= j <= |phrases| && 1 <= i <= |phrases| && i != j && (j < 10 ==> i < 10)
    requires TokenClear(i, Expand(rest, phrases), |phrases|)
    ensures !(Token(j) <= Token(i) + Render(rest))
  {
    FirstRendered(rest, phrases);
    var s, t := Token(i) + Render(rest), Token(j);
    if i < 10 {
      DecimalOfOneDigit(i);
      assert s[1] == DigitChar(i);
      if j < 10 {
        DecimalOfOneDigit(j);
        assert s[1] != t[1];
      } else {
        DecimalOfTwoDigits(j);
        assert Render(rest) != [] ==> s[2] == Render(rest)[0];
        assert |s| < 3 || s[1] != t[1] || s[2] != t[2];
      }
    } else {
      DecimalOfTwoDigits(i);
      DecimalOfTwoDigits(j);
      assert s[1] == DigitChar(i / 10) && s[2] == DigitChar(i % 10);
      assert s[1] != t[1] || s[2] != t[2];
    }
  }

  lemma SkipOtherToken(i: nat, rest: string, j: nat, r: string)
    requires !(Token(j) <= Token(i) + rest)
    ensures Replace(Token(i) + rest, Token(j), r) == Token(i) + Replace(rest, Token(j), r)
  {
    var d := Decimal(i);
    assert Token(i) + rest == ['$'] + (d + rest);
    ReplaceMiss('$', d + rest, Token(j), r);
    assert Token(j)[0] == '$' && '$' !in d;
    ReplaceSkips(d, rest, Token(j), r);
    assert ['$'] + (d + Replace(rest, Token(j), r)) == (['$'] + d) + Replace(rest, Token(j), r);
  }

  lemma {:induction false} DecodingPass(g: Segs, j: nat, phrases: seq<string>)
    requires |phrases| <= MAX_SUBSTITUTIONS && InTable(g, |phrases|) && 1 <= j <= |phrases|
    requires Clear(g, phrases) && (j < 10 ==> TokensBelow(g, 10))
    ensures Replace(Render(g), Token(j), phrases[j - 1]) == Render(Restored(g, j, phrases))
  {
    match g
    case End =>
    case Ch(c, rest) =>
      DecodingPass(rest, j, phrases);
      CharNotMisread(c, rest, j, phrases);
      ReplaceMiss(c, Render(rest), Token(j), phrases[j - 1]);
    case Tok(i, rest) =>
      DecodingPass(rest, j, phrases);
      if i == j {
        ReplaceHit(Token(j), Render(rest), phrases[j - 1]);
        CharsRender(phrases[j - 1], Restored(rest, j, phrases));
      } else {
        TokenNotMisread(i, rest, j, phrases);
        SkipOtherToken(i, Render(rest), j, phrases[j - 1]);
      }
  }

  lemma {:induction false} ClearChars(s: string, rest: Segs, phrases: seq<string>)
    requires InTable(rest, |phrases|) && Clear(rest, phrases) && '$' !in s
    ensures InTable(Chars(s, rest), |phrases|) && Clear(Chars(s, rest), phrases)
  {
    if s != [] {
      assert s[0] in s;
      ClearChars(s[1..], rest, phrases);
    }
  }

  lemma {:induction false} DecodingKeepsMeaning(g: Segs, j: nat, phrases: seq<string>)
    requires InTable(g, |phrases|) && 1 <= j <= |phrases| && Clear(g, phrases) && '$' !in phrases[j - 1]
    ensures InTable(Restored(g, j, phrases), |phrases|)
    ensures Expand(Restored(g, j, phrases), phrases) == Expand(g, phrases)
    ensures Clear(Restored(g, j, phrases), phrases)
  {
    if !g.End? {
      DecodingKeepsMeaning(g.rest, j, phrases);
      if g == Tok(j, g.rest) {
        var rest := Restored(g.rest, j, phrases);
        CharsExpand(phrases[j - 1], rest, phrases);
        ClearChars(phrases[j - 1], rest, phrases);
      }
    }
  }

  /** Every token left in the text still has its rule among `rules`. */
  predicate Covered(g: Segs, rules: seq<Rule>, phrases: seq<string>)
    requires InTable(g, |phrases|)
  {
    match g
    case End => true
    case Ch(_, rest) => Covered(rest, rules, phrases)
    case Tok(i, rest) => Rule(Token(i), phrases[i - 1]) in rules && Covered(rest, rules, phrases)
  }

  lemma {:induction false} CoveredChars(s: string, rest: Segs, rules: seq<Rule>, phrases: seq<string>)
    requires InTable(rest, |phrases|) && Covered(rest, rules, phrases)
    ensures InTable(Chars(s, rest), |phrases|) && Covered(Chars(s, rest), rules, phrases)
  {
    if s != [] { CoveredChars(s[1..], rest, rules, phrases); }
  }

  lemma {:induction false} RestoredIsCovered(g: Segs, j: nat, rules: seq<Rule>, phrases: seq<string>)
    requires |phrases| <= MAX_SUBSTITUTIONS && InTable(g, |phrases|) && Covered(g, rules, phrases)
    requires 1 <= j <= |phrases| && rules != [] && rules[0] == Rule(Token(j), phrases[j - 1])
    ensures InTable(Restored(g, j, phrases), |phrases|)
    ensures Covered(Restored(g, j, phrases), rules[1..], phrases)
  {
    match g
    case End =>
    case Ch(c, rest) => RestoredIsCovered(rest, j, rules, phrases);
    case Tok(i, rest) =>
      RestoredIsCovered(rest, j, rules, phrases);
      if i == j {
        CoveredChars(phrases[j - 1], Restored(rest, j, phrases), rules[1..], phrases);
      } else {
        if Token(i) == Token(j) { TokenInjective(i, j); }
        assert Rule(Token(i), phrases[i - 1]) in rules[1..];
      }
  }

  lemma {:induction false} OneDigitTokensLeft(g: Segs, j: nat, rules: seq<Rule>, phrases: seq<string>)
    requires |phrases| <= MAX_SUBSTITUTIONS && InTable(g, |phrases|) && Covered(g, rules, phrases)
    requires 1 <= j < 10 && Descending(rules) && rules != [] && rules[0].from == Token(j)
    ensures TokensBelow(g, 10)
  {
    match g
    case End =>
    case Ch(c, rest) => OneDigitTokensLeft(rest, j, rules, phrases);
    case Tok(i, rest) =>
      OneDigitTokensLeft(rest, j, rules, phrases);
      TokenLengths(i);
      TokenLengths(j);
      HeadIsLongest(rules, Rule(Token(i), phrases[i - 1]));
  }

  lemma {:induction false} NothingCovered(g: Segs, phrases: seq<string>)
    requires InTable(g, |phrases|) && Covered(g, [], phrases)
    ensures Render(g) == Expand(g, phrases)
  {
    match g
    case End =>
    case Ch(c, rest) => NothingCovered(rest, phrases);
    case Tok(i, rest) =>
  }

  /** The decoder's passes, two-digit tokens before one-digit ones, restore every token and nothing else. */
  lemma {:induction false} DecodingRestores(g: Segs, rules: seq<Rule>, phrases: seq<string>)
    requires GoodTable(phrases) && InTable(g, |phrases|) && Clear(g, phrases) && Covered(g, rules, phrases)
    requires Descending(rules) && TokenRules(rules, phrases)
    ensures Rewrite(Render(g), rules) == Expand(g, phrases)
    decreases |rules|
  {
    if rules == [] {
      NothingCovered(g, phrases);
    } else {
      assert rules[0] in rules && forall r <- rules[1..] :: r in rules;
      var j :| 1 <= j <= |phrases| && rules[0] == Rule(Token(j), phrases[j - 1]);
      assert phrases[j - 1] in phrases;
      if j < 10 { OneDigitTokensLeft(g, j, rules, phrases); }
      DecodingPass(g, j, phrases);
      DecodingKeepsMeaning(g, j, phrases);
      RestoredIsCovered(g, j, rules, phrases);
      DecodingRestores(Restored(g, j, phrases), rules[1..], phrases);
    }
  }

  lemma {:induction false} FullTableCovers(g: Segs, rules: seq<Rule>, phrases: seq<string>)
    requires InTable(g, |phrases|)
    requires forall i :: 1 <= i <= |phrases| ==> Rule(Token(i), phrases[i - 1]) in rules
    ensures Covered(g, rules, phrases)
  {
    if !g.End? { FullTableCovers(g.rest, rules, phrases); }
  }

  // ---- the round trip ----

  lemma SafeTail(head: string, rest: string, phrases: seq<string>)
    requires SubstitutionSafe(head + rest, phrases)
    ensures SubstitutionSafe(rest, phrases)
    ensures head != [] ==> FrontSafe(head + rest, phrases)
  {
    var y := head + rest;
    forall k | 0 <= k < |rest| ensures FrontSafe(rest[k..], phrases) {
      assert rest[k..] == y[|head| + k..];
    }
    assert y[0..] == y;
  }

  lemma {:induction false} SafeTextIsClear(g: Segs, phrases: seq<string>)
    requires InTable(g, |phrases|) && GoodTable(phrases)
    requires SubstitutionSafe(Expand(g, phrases), phrases)
    ensures Clear(g, phrases)
  {
    match g
    case End =>
    case Ch(c, rest) =>
      SafeTail([c], Expand(rest, phrases), phrases);
      SafeTextIsClear(rest, phrases);
      assert Expand(rest, phrases) != [] ==> Expand(g, phrases)[1] == Expand(rest, phrases)[0];
    case Tok(i, rest) =>
      var p, behind := phrases[i - 1], Expand(rest, phrases);
      assert p in phrases;
      SafeTail(p, behind, phrases);
      SafeTextIsClear(rest, phrases);
      SafeTokenIsClear(i, behind, phrases);
  }

  lemma SafeTokenIsClear(i: nat, behind: string, phrases: seq<string>)
    requires 1 <= i <= |phrases| && FrontSafe(phrases[i - 1] + behind, phrases)
    ensures TokenClear(i, behind, |phrases|)
  {
    var p := phrases[i - 1];
    assert behind != [] ==> (p + behind)[|p|] == behind[0];
    assert p <= p + behind;
  }

  lemma TokenIsSkipped(j: nat, rest: Segs, p: string, phrases: seq<string>)
    requires InTable(Tok(j, rest), |phrases|) && p in phrases && '$' !in p
    requires FrontSafe(Expand(Tok(j, rest), phrases), phrases)
    ensures !ReachesBack(p, j, Render(rest))
  {
    var q, y := phrases[j - 1], Expand(Tok(j, rest), phrases);
    assert q <= y && y[|q|..] == Expand(rest, phrases);
    assert NoneReachesBack(j - 1 + 1, y[|q|..], phrases);
    forall k | 0 < k < |Token(j)| ensures !(p <= Token(j)[k..] + Render(rest)) {
      if p <= Token(j)[k..] + Render(rest) { FrontOfMeaning(Token(j)[k..], rest, p, phrases); }
    }
  }

  lemma {:induction false} SafeIsNotReached(g: Segs, p: string, phrases: seq<string>)
    requires p in phrases && '$' !in p && InTable(g, |phrases|) && SubstitutionSafe(Expand(g, phrases), phrases)
    requires forall q <- phrases :: q != []
    ensures !ReachedInto(g, p)
  {
    match g
    case End =>
    case Ch(c, rest) =>
      SafeTail([c], Expand(rest, phrases), phrases);
      SafeIsNotReached(rest, p, phrases);
    case Tok(j, rest) =>
      assert phrases[j - 1] in phrases;
      SafeTail(phrases[j - 1], Expand(rest, phrases), phrases);
      SafeIsNotReached(rest, p, phrases);
      TokenIsSkipped(j, rest, p, phrases);
  }

  lemma {:induction false} SafeIsClean(g: Segs, rules: seq<Rule>, phrases: seq<string>)
    requires GoodTable(phrases) && Usable(rules) && RulesOf(rules, phrases)
    requires InTable(g, |phrases|) && SubstitutionSafe(Expand(g, phrases), phrases)
    ensures CleanPasses(g, rules)
    decreases |rules|
  {
    if rules != [] {
      assert rules[0] in rules && forall r <- rules[1..] :: r in rules;
      var i := RuleOf(rules[0], phrases);
      SafeIsNotReached(g, phrases[i - 1], phrases) by { assert phrases[i - 1] in phrases; }
      EncodingKeepsMeaning(g, i, phrases);
      SafeIsClean(Replaced(g, phrases[i - 1], i), rules[1..], phrases);
    }
  }

  /** The characters and tokens that the encoder makes of the text. */
  function SegmentsOf(text: string, phrases: seq<string>): Segs
    requires Usable(PhraseRules(phrases))
  {
    SortKeepsRules(PhraseRules(phrases));
    Tokenized(Chars(text, End), LongestFirst(PhraseRules(phrases)))
  }

  predicate CleanText(text: string, phrases: seq<string>)
    requires Usable(PhraseRules(phrases))
  {
    SortKeepsRules(PhraseRules(phrases));
    CleanPasses(Chars(text, End), LongestFirst(PhraseRules(phrases)))
  }

  /**
   What a caller can check by following the encoder's passes: none of them finds a phrase across a token, and in the end
   no token of the table is spelled by the characters, nor by a token and the digit behind it. Only phrases that are
   replaced matter, so this is wider than to be safe to substitute in.
   */
  predicate Unmistaken(text: string, phrases: seq<string>)
    requires GoodTable(phrases)
  {
    TableUsable(phrases);
    var g := SegmentsOf(text, phrases);
    CleanText(text, phrases) && InTable(g, |phrases|) && Clear(g, phrases)
  }

  lemma SegmentsShape(text: string, phrases: seq<string>)
    requires GoodTable(phrases) && Usable(PhraseRules(phrases))
    ensures var g := SegmentsOf(text, phrases);
      && InTable(g, |phrases|) && Expand(g, phrases) == text
      && (CleanText(text, phrases) ==> Render(g) == Applied(text, PhraseRules(phrases)))
  {
    var rules := PhraseRules(phrases);
    PhraseRulesShape(phrases);
    TextAsSegments(text, phrases);
    SortKeepsRules(rules);
    EncodingYieldsSegments(Chars(text, End), LongestFirst(rules), phrases);
  }

  lemma LetterTextIsClean(text: string, phrases: seq<string>)
    requires LetterTable(phrases) && Usable(PhraseRules(phrases))
    ensures CleanText(text, phrases)
  {
    var rules := PhraseRules(phrases);
    SortKeepsRules(rules);
    forall r <- LongestFirst(rules) ensures GoodPhrase(r.from) {
      var k :| 0 <= k < |rules| && rules[k] == r;
      assert phrases[k] in phrases;
    }
    LettersAreClean(Chars(text, End), LongestFirst(rules));
  }

  lemma SafeIsUnmistaken(text: string, phrases: seq<string>)
    requires GoodTable(phrases) && SubstitutionSafe(text, phrases)
    ensures Unmistaken(text, phrases)
  {
    TableUsable(phrases);
    PhraseRulesShape(phrases);
    SegmentsShape(text, phrases);
    SafeTextIsClear(SegmentsOf(text, phrases), phrases);
    TextAsSegments(text, phrases);
    SortKeepsRules(PhraseRules(phrases));
    SafeIsClean(Chars(text, End), LongestFirst(PhraseRules(phrases)), phrases);
  }

  lemma ClearSegmentsReverse(g: Segs, phrases: seq<string>)
    requires GoodTable(phrases) && InTable(g, |phrases|) && Clear(g, phrases)
    requires Usable(Flipped(PhraseRules(phrases)))
    ensures Reversed(Render(g), PhraseRules(phrases)) == Expand(g, phrases)
  {
    var flipped := Flipped(PhraseRules(phrases));
    TokensDistinct(phrases);
    FlippedRulesShape(phrases);
    SortKeepsRules(flipped);
    SortIsDescending(flipped);
    FullTableCovers(g, LongestFirst(flipped), phrases);
    DecodingRestores(g, LongestFirst(flipped), phrases);
  }

  /** Substituting and substituting back is the identity where no token is mistaken. */
  lemma SubstitutionRoundTrip(text: string, phrases: seq<string>)
    requires GoodTable(phrases) && Unmistaken(text, phrases)
    ensures Usable(PhraseRules(phrases)) && Usable(Flipped(PhraseRules(phrases)))
    ensures Reversed(Applied(text, PhraseRules(phrases)), PhraseRules(phrases)) == text
  {
    TableUsable(phrases);
    SegmentsShape(text, phrases);
    ClearSegmentsReverse(SegmentsOf(text, phrases), phrases);
  }

  lemma LettersReachNothing(y: string, phrases: seq<string>)
    requires LetterTable(phrases)
    ensures forall i :: 0 <= i < |phrases| && phrases[i] <= y ==> NoneReachesBack(i + 1, y[|phrases[i]|..], phrases)
  {
    forall i | 0 <= i < |phrases| && phrases[i] <= y ensures NoneReachesBack(i + 1, y[|phrases[i]|..], phrases) {
      forall q <- phrases ensures !ReachesBack(q, i + 1, y[|phrases[i]|..]) {
        LettersNeverReachBack(q, i + 1, y[|phrases[i]|..]);
      }
    }
  }

  /** With at most nine phrases a `$`-free text always survives, whatever digits follow its phrases. */
  lemma NinePhrasesAlwaysRoundTrip(text: string, phrases: seq<string>)
    requires LetterTable(phrases) && |phrases| <= 9 && '$' !in text
    ensures Usable(PhraseRules(phrases)) && Usable(Flipped(PhraseRules(phrases)))
    ensures Reversed(Applied(text, PhraseRules(phrases)), PhraseRules(phrases)) == text
  {
    forall k | 0 <= k < |text| ensures FrontSafe(text[k..], phrases) {
      assert text[k..][0] == text[k];
      LettersReachNothing(text[k..], phrases);
    }
    SafeIsUnmistaken(text, phrases);
    SubstitutionRoundTrip(text, phrases);
  }

  // ---- encoded text cut short ----

  /** A cut in front of a character that belongs to no token falls between two segments. */
  lemma {:induction false} CutFallsBetween(g: Segs, n: nat, phrases: seq<string>) returns (front: Segs)
    requires InTable(g, |phrases|) && Clear(g, phrases)
    requires n < |Render(g)| && Render(g)[n] != '$' && !IsDigit(Render(g)[n])
    ensures InTable(front, |phrases|) && Clear(front, phrases) && Render(front) == Render(g)[..n]
    ensures Expand(front, phrases) <= Expand(g, phrases) && |Expand(front, phrases)| < |Expand(g, phrases)|
    ensures Expand(g, phrases)[|Expand(front, phrases)|] == Render(g)[n]
  {
    var s := Render(g);
    match g
    case Ch(c, rest) =>
      if n == 0 {
        front := End;
      } else {
        assert s[n] == Render(rest)[n - 1] && s[..n] == [c] + Render(rest)[..n - 1];
        var f := CutFallsBetween(rest, n - 1, phrases);
        front := Ch(c, f);
        FrontBehind([c], Expand(f, phrases), Expand(rest, phrases));
      }
    case Tok(i, rest) =>
      CutIsBehindToken(Token(i), Render(rest), n) by { TokenCharacters(i); }
      var f := CutFallsBetween(rest, n - |Token(i)|, phrases);
      front := Tok(i, f);
      FrontBehind(phrases[i - 1], Expand(f, phrases), Expand(rest, phrases));
  }

  lemma CutIsBehindToken(t: string, rest: string, n: nat)
    requires forall k :: 0 <= k < |t| ==> t[k] == '$' || IsDigit(t[k])
    requires n < |t + rest| && (t + rest)[n] != '$' && !IsDigit((t + rest)[n])
    ensures n >= |t| && (t + rest)[n] == rest[n - |t|] && (t + rest)[..n] == t + rest[..n - |t|]
  {
    assert n >= |t| by { assert forall k :: 0 <= k < |t| ==> (t + rest)[k] == t[k]; }
  }

  lemma FrontBehind(p: string, a: string, b: string)
    requires a <= b && |a| < |b|
    ensures p + a <= p + b && |p + a| < |p + b| && (p + b)[|p + a|] == b[|a|]
  {}

  /** Cutting an encoded text in front of such a character always loses something. */
  lemma CutTextDiffers(text: string, n: nat, phrases: seq<string>)
    requires GoodTable(phrases) && Unmistaken(text, phrases)
    requires Usable(PhraseRules(phrases))
    requires var t := Applied(text, PhraseRules(phrases)); n < |t| && t[n] != '$' && !IsDigit(t[n])
    ensures Reversed(Applied(text, PhraseRules(phrases))[..n], PhraseRules(phrases)) != text
  {
    SegmentsShape(text, phrases);
    var front := CutFallsBetween(SegmentsOf(text, phrases), n, phrases);
    ClearSegmentsReverse(front, phrases);
  }
}
