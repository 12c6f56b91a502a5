/**
 Phrases that start with a digit. The miner allows them (kemory/compression/aaak.py:91), and they are what keeps the
 passes of kemory/compression/aaak.py:105-120 from being inverse even where every token was written as intended.
 */
module AaakDigits {
  import opened Text
  import opened AaakSubstitution
  import opened AaakSegments
  import opened AaakLimits

  // ---- the order of the decoder's passes ----

  lemma {:induction false} SortLong(b: seq<Rule>)
    requires forall r <- b :: |r.from| == 3
    ensures LongestFirst(b) == b
  {
    if b != [] {
      assert b[0] in b && (|b| > 1 ==> b[1] in b);
      SortLong(b[1..]);
    }
  }

  lemma {:induction false} InsertShort(r: Rule, b: seq<Rule>, a: seq<Rule>)
    requires |r.from| == 2 && (forall x <- b :: |x.from| == 3) && (forall x <- a :: |x.from| == 2)
    ensures InsertByLength(r, b + a) == b + ([r] + a)
  {
    if b == [] {
      assert b + a == a;
      if a != [] { assert a[0] in a; }
    } else {
      assert b[0] in b && (b + a)[1..] == b[1..] + a;
      InsertShort(r, b[1..], a);
      assert [b[0]] + (b[1..] + ([r] + a)) == b + ([r] + a);
    }
  }

  lemma {:induction false} SortShortThenLong(a: seq<Rule>, b: seq<Rule>)
    requires (forall x <- a :: |x.from| == 2) && (forall x <- b :: |x.from| == 3)
    ensures LongestFirst(a + b) == b + a
  {
    if a == [] {
      assert a + b == b == b + a;
      SortLong(b);
    } else {
      assert a[0] in a && (a + b)[1..] == a[1..] + b;
      SortShortThenLong(a[1..], b);
      InsertShort(a[0], b, a[1..]);
      assert [a[0]] + a[1..] == a;
    }
  }

  function Min(a: nat, b: nat): nat { if a < b then a else b }

  /** The decoder's passes: tokens of two digits by number, then those of one digit by number. */
  function Passes(phrases: seq<string>): seq<Rule> {
    var rules := Flipped(PhraseRules(phrases));
    rules[Min(9, |rules|)..] + rules[..Min(9, |rules|)]
  }

  /** Where the pass of a token is. */
  function PassOf(k: nat, n: nat): int { if k >= 10 then k - 10 else (n - Min(9, n)) + k - 1 }

  lemma PassAt(k: nat, phrases: seq<string>)
    requires 1 <= k <= |phrases|
    ensures 0 <= PassOf(k, |phrases|) < |Passes(phrases)| == |phrases|
    ensures Passes(phrases)[PassOf(k, |phrases|)] == Rule(Token(k), phrases[k - 1])
  {
    var rules := Flipped(PhraseRules(phrases));
    assert rules[k - 1] == Rule(Token(k), phrases[k - 1]);
  }

  /** And which token the pass at a place is for. */
  function TokenAt(x: nat, n: nat): nat { if x < n - Min(9, n) then x + 10 else x - (n - Min(9, n)) + 1 }

  lemma PassIsFor(x: nat, phrases: seq<string>)
    requires x < |phrases|
    ensures |Passes(phrases)| == |phrases| && 1 <= TokenAt(x, |phrases|) <= |phrases|
    ensures Passes(phrases)[x] == Rule(Token(TokenAt(x, |phrases|)), phrases[TokenAt(x, |phrases|) - 1])
    ensures PassOf(TokenAt(x, |phrases|), |phrases|) == x
  {
    PassAt(TokenAt(x, |phrases|), phrases);
  }

  lemma TokenLengthsInTable(phrases: seq<string>)
    requires |phrases| <= MAX_SUBSTITUTIONS
    ensures forall k :: 0 <= k < |phrases| ==> |Flipped(PhraseRules(phrases))[k].from| == if k < 9 then 2 else 3
  {
    forall k | 0 <= k < |phrases| ensures |Flipped(PhraseRules(phrases))[k].from| == if k < 9 then 2 else 3 {
      TokenLengths(k + 1);
    }
  }

  lemma SortSplit(rules: seq<Rule>, k: nat)
    requires k <= |rules|
    requires forall x :: 0 <= x < |rules| ==> |rules[x].from| == if x < k then 2 else 3
    ensures LongestFirst(rules) == rules[k..] + rules[..k]
  {
    var a, b := rules[..k], rules[k..];
    forall x <- a ensures |x.from| == 2 { var y :| 0 <= y < |a| && a[y] == x; }
    forall x <- b ensures |x.from| == 3 { var y :| 0 <= y < |b| && b[y] == x; }
    SortShortThenLong(a, b);
    assert a + b == rules;
  }

  lemma PassesAreSorted(phrases: seq<string>)
    requires |phrases| <= MAX_SUBSTITUTIONS
    ensures LongestFirst(Inverted(PhraseRules(phrases))) == Passes(phrases)
  {
    assert Inverted(PhraseRules(phrases)) == Flipped(PhraseRules(phrases)) by { TokensDistinct(phrases); }
    TokenLengthsInTable(phrases);
    SortSplit(Flipped(PhraseRules(phrases)), Min(9, |phrases|));
  }

  lemma PassesAreUsable(phrases: seq<string>)
    requires |phrases| <= MAX_SUBSTITUTIONS
    ensures Usable(Passes(phrases)) && Usable(Flipped(PhraseRules(phrases)))
  {
    FlippedRulesShape(phrases);
    forall r <- Passes(phrases) ensures r.from != [] {
      var y :| 0 <= y < |Passes(phrases)| && Passes(phrases)[y] == r;
      PassIsFor(y, phrases);
    }
  }

  lemma ReversedIsPasses(t: string, phrases: seq<string>)
    requires |phrases| <= MAX_SUBSTITUTIONS
    ensures Usable(Passes(phrases)) && Usable(Flipped(PhraseRules(phrases)))
    ensures Reversed(t, PhraseRules(phrases)) == Rewrite(t, Passes(phrases))
  {
    PassesAreUsable(phrases);
    PassesAreSorted(phrases);
  }

  // ---- single passes ----

  lemma SuffixUsable(rules: seq<Rule>, x: nat)
    requires Usable(rules) && x <= |rules|
    ensures Usable(rules[x..])
  {
    assert forall r <- rules[x..] :: r in rules;
  }

  lemma OnePass(t: string, rules: seq<Rule>, x: nat)
    requires Usable(rules) && x < |rules|
    ensures rules[x].from != [] && Usable(rules[x..]) && Usable(rules[x + 1..])
    ensures Rewrite(t, rules[x..]) == Rewrite(Replace(t, rules[x].from, rules[x].to), rules[x + 1..])
  {
    SuffixUsable(rules, x);
    SuffixUsable(rules, x + 1);
    assert rules[x] in rules;
    assert rules[x..][1..] == rules[x + 1..];
  }

  /** The passes between two places find nothing. */
  ghost predicate Misses(t: string, rules: seq<Rule>, x: nat, y: nat)
    requires y <= |rules|
  {
    forall z :: x <= z < y ==> !Occurs(rules[z].from, t)
  }

  /** Passes that find nothing can be left out in front of one that does. */
  lemma {:induction false} NextHit(t: string, rules: seq<Rule>, x: nat, y: nat)
    requires Usable(rules) && x <= y < |rules| && Misses(t, rules, x, y)
    ensures rules[y].from != [] && Usable(rules[x..]) && Usable(rules[y + 1..])
    ensures Rewrite(t, rules[x..]) == Rewrite(Replace(t, rules[y].from, rules[y].to), rules[y + 1..])
    decreases y - x
  {
    OnePass(t, rules, x);
    if x < y {
      ReplaceAbsent(t, rules[x].from, rules[x].to);
      NextHit(t, rules, x + 1, y);
    }
  }

  /** In a text whose one `$` is in front, a token occurs in front or not at all. */
  lemma FrontTokenOnly(k: nat, y: string)
    requires '$' !in y
    ensures Occurs(Token(k), "$" + y) <==> Token(k) <= "$" + y
  {
    var s := "$" + y;
    assert s[0..] == s;
    if Token(k) <= s { assert OccursAt(Token(k), s, 0); }
    forall x | 0 < x <= |s| ensures !OccursAt(Token(k), s, x) {
      if x < |s| { assert s[x..][0] == y[x - 1] && y[x - 1] in y; }
    }
  }

  lemma NothingLeft(t: string, rules: seq<Rule>)
    requires Usable(rules) && '$' !in t && forall r <- rules :: exists k :: r.from == Token(k)
    ensures Rewrite(t, rules) == t
  {
    forall r <- rules ensures !Occurs(r.from, t) {
      var k :| r.from == Token(k);
      forall x | 0 <= x <= |t| ensures !OccursAt(r.from, t, x) {
        if x < |t| { assert t[x..][0] == t[x] && t[x] in t; }
      }
    }
    PhrasesAbsent(t, rules);
  }

  lemma RestOfPasses(x: nat, phrases: seq<string>)
    requires x <= |phrases| <= MAX_SUBSTITUTIONS
    ensures |Passes(phrases)| == |phrases| && Usable(Passes(phrases)[x..])
    ensures forall r <- Passes(phrases)[x..] :: exists k :: r.from == Token(k)
  {
    PassesAreUsable(phrases);
    assert forall r <- Passes(phrases)[x..] :: r in Passes(phrases);
    forall r <- Passes(phrases)[x..] ensures exists k :: r.from == Token(k) {
      var y :| 0 <= y < |Passes(phrases)| && Passes(phrases)[y] == r;
      PassIsFor(y, phrases);
    }
  }

  /** No pass between `x` and that of `$k` can read the text in front as its token. */
  ghost predicate Unread(k: nat, rest: string, x: nat, n: nat) {
    forall j :: 1 <= j <= n && x <= PassOf(j, n) < PassOf(k, n) ==> !(Token(j) <= Token(k) + rest)
  }

  /** When one token is in front of a text that starts with another. */
  lemma TokenInFront(j: nat, k: nat, rest: string)
    requires 1 <= j < 100 && 1 <= k < 100
    ensures j >= 10 && k >= 10 && j != k ==> !(Token(j) <= Token(k) + rest)
    ensures j < 10 && k < 10 && j != k ==> !(Token(j) <= Token(k) + rest)
    ensures j >= 10 && k < 10 && (rest == [] || !IsDigit(rest[0]) || j != 10 * k + DigitValue(rest[0])) ==>
              !(Token(j) <= Token(k) + rest)
  {
    var s := Token(k) + rest;
    if j < 10 { DecimalOfOneDigit(j); } else { DecimalOfTwoDigits(j); }
    if k < 10 { DecimalOfOneDigit(k); } else { DecimalOfTwoDigits(k); }
    assert s[1] == Decimal(k)[0];
    if k >= 10 { assert s[2] == Decimal(k)[1]; }
    if k < 10 && rest != [] { assert s[2] == rest[0]; }
  }

  lemma UnreadOfTwoDigits(m: nat, rest: string, x: nat, n: nat)
    requires 10 <= m <= n <= MAX_SUBSTITUTIONS
    ensures Unread(m, rest, x, n)
  {
    forall j | 1 <= j <= n && x <= PassOf(j, n) < PassOf(m, n) ensures !(Token(j) <= Token(m) + rest) {
      TokenInFront(j, m, rest);
    }
  }

  lemma UnreadOfOneDigit(i: nat, rest: string, x: nat, n: nat)
    requires 1 <= i < 10 && i <= n <= MAX_SUBSTITUTIONS
    requires rest == [] || !IsDigit(rest[0]) || 10 * i + DigitValue(rest[0]) < x + 10 || 10 * i + DigitValue(rest[0]) > n
    ensures Unread(i, rest, x, n)
  {
    forall j | 1 <= j <= n && x <= PassOf(j, n) < PassOf(i, n) ensures !(Token(j) <= Token(i) + rest) {
      TokenInFront(j, i, rest);
    }
  }

  lemma UnreadPasses(k: nat, rest: string, x: nat, z: nat, phrases: seq<string>)
    requires |phrases| <= MAX_SUBSTITUTIONS && 1 <= k <= |phrases| && '$' !in rest
    requires Unread(k, rest, x, |phrases|) && x <= z < PassOf(k, |phrases|)
    ensures z < |Passes(phrases)| && !Occurs(Passes(phrases)[z].from, Token(k) + rest)
  {
    PassAt(k, phrases);
    PassIsFor(z, phrases);
    FrontOfToken(TokenAt(z, |phrases|), k, rest);
  }

  lemma FrontOfToken(j: nat, k: nat, rest: string)
    requires '$' !in rest && !(Token(j) <= Token(k) + rest)
    ensures !Occurs(Token(j), Token(k) + rest)
  {
    var y := Decimal(k) + rest;
    assert '$' !in y by { assert forall c <- Decimal(k) :: IsDigit(c); }
    assert Token(k) + rest == "$" + y;
    FrontTokenOnly(j, y);
  }

  lemma ReplaceFrontToken(k: nat, rest: string, r: string)
    requires '$' !in rest
    ensures Replace(Token(k) + rest, Token(k), r) == r + rest
  {
    ReplaceHit(Token(k), rest, r);
    TokenAbsent(rest, k);
    ReplaceAbsent(rest, Token(k), r);
  }

  /**
   The passes from place `x` on over a text that starts with the token `$k` and has no other `$`, when the text in front
   can be read as the token of no pass between: the token is replaced, and that is all.
   */
  lemma FrontTokenRead(k: nat, rest: string, x: nat, phrases: seq<string>)
    requires GoodTable(phrases) && 1 <= k <= |phrases| && '$' !in rest && x <= PassOf(k, |phrases|)
    requires Unread(k, rest, x, |phrases|)
    ensures x <= |Passes(phrases)| && Usable(Passes(phrases)[x..])
    ensures Rewrite(Token(k) + rest, Passes(phrases)[x..]) == phrases[k - 1] + rest
  {
    var y := PassOf(k, |phrases|);
    PassAt(k, phrases);
    FrontMisses(k, rest, x, phrases);
    RestOfPasses(0, phrases);
    RestOfPasses(y + 1, phrases);
    assert '$' !in phrases[k - 1] by { assert phrases[k - 1] in phrases; }
    assert Passes(phrases)[0..] == Passes(phrases);
    OneHit(k, rest, x, y, phrases[k - 1], Passes(phrases));
  }

  lemma OneHit(k: nat, rest: string, x: nat, y: nat, p: string, rules: seq<Rule>)
    requires Usable(rules) && x <= y < |rules| && rules[y] == Rule(Token(k), p) && '$' !in rest && '$' !in p
    requires Misses(Token(k) + rest, rules, x, y) && forall r <- rules[y + 1..] :: exists k :: r.from == Token(k)
    ensures Usable(rules[x..]) && Rewrite(Token(k) + rest, rules[x..]) == p + rest
  {
    NextHit(Token(k) + rest, rules, x, y);
    ReplaceFrontToken(k, rest, p);
    NothingLeft(p + rest, rules[y + 1..]);
  }

  lemma FrontMisses(k: nat, rest: string, x: nat, phrases: seq<string>)
    requires |phrases| <= MAX_SUBSTITUTIONS && 1 <= k <= |phrases| && '$' !in rest && Unread(k, rest, x, |phrases|)
    ensures 0 <= PassOf(k, |phrases|) < |Passes(phrases)| && Misses(Token(k) + rest, Passes(phrases), x, PassOf(k, |phrases|))
  {
    PassAt(k, phrases);
    forall z | x <= z < PassOf(k, |phrases|) ensures !Occurs(Passes(phrases)[z].from, Token(k) + rest) {
      UnreadPasses(k, rest, x, z, phrases);
    }
  }

  lemma TokenAbsent(t: string, k: nat)
    requires '$' !in t
    ensures !Occurs(Token(k), t)
  {
    forall x | 0 <= x <= |t| ensures !OccursAt(Token(k), t, x) {
      if x < |t| { assert t[x..][0] == t[x] && t[x] in t; }
    }
  }

  /** The same when no pass from `x` on can read the text in front: it stays. */
  lemma FrontTokenStays(y: string, x: nat, phrases: seq<string>)
    requires GoodTable(phrases) && '$' !in y && x <= |phrases|
    requires forall j :: 1 <= j <= |phrases| && x <= PassOf(j, |phrases|) ==> !(Token(j) <= "$" + y)
    ensures Usable(Passes(phrases)[x..]) && Rewrite("$" + y, Passes(phrases)[x..]) == "$" + y
  {
    var rules := Passes(phrases)[x..];
    RestOfPasses(x, phrases);
    forall r <- rules ensures !Occurs(r.from, "$" + y) {
      var z :| 0 <= z < |rules| && rules[z] == r;
      FrontNotRead(x + z, y, phrases);
    }
    PhrasesAbsent("$" + y, rules);
  }

  lemma FrontNotRead(z: nat, y: string, phrases: seq<string>)
    requires z < |phrases| && '$' !in y && !(Token(TokenAt(z, |phrases|)) <= "$" + y)
    ensures |Passes(phrases)| == |phrases| && !Occurs(Passes(phrases)[z].from, "$" + y)
  {
    PassIsFor(z, phrases);
    FrontTokenOnly(TokenAt(z, |phrases|), y);
  }

  // ---- two tokens side by side, the second of a phrase that starts with a digit ----

  lemma SecondTokenFirst(i: nat, j: nat, phrases: seq<string>)
    requires GoodTable(phrases) && 1 <= i < 10 <= j <= |phrases|
    ensures Usable(Passes(phrases)) && Usable(Passes(phrases)[j - 9..])
    ensures Rewrite(Token(i) + Token(j), Passes(phrases)) == Rewrite(Token(i) + phrases[j - 1], Passes(phrases)[j - 9..])
  {
    var rules, t := Passes(phrases), Token(i) + Token(j);
    PassesAreUsable(phrases);
    PassAt(j, phrases);
    forall z | 0 <= z < j - 10 ensures !Occurs(rules[z].from, t) {
      PassIsFor(z, phrases);
      TwoTokensRead(i, j, z + 10);
    }
    NextHit(t, rules, 0, j - 10);
    assert rules[0..] == rules;
    TwoTokensRead(i, j, j);
    assert Token(i) + (Token(j) + []) == t;
    forall k | 0 <= k < |Token(i)| ensures !(Token(j) <= (Token(i) + (Token(j) + []))[k..]) {
      assert !(Token(j) <= t[k..]);
    }
    ReplaceFirstAt(Token(i), Token(j), [], phrases[j - 1]);
    assert phrases[j - 1] + [] == phrases[j - 1];
  }

  lemma TwoTokensRead(i: nat, j: nat, k: nat)
    requires 1 <= i < 10 <= j < 100 && 10 <= k < 100
    ensures var t := Token(i) + Token(j);
      (k != j ==> !Occurs(Token(k), t)) && forall x :: 0 <= x < |Token(i)| ==> !(Token(k) <= t[x..])
  {
    var t := Token(i) + Token(j);
    DecimalOfOneDigit(i);
    DecimalOfTwoDigits(j);
    DecimalOfTwoDigits(k);
    assert t[0] == '$' && t[1] == DigitChar(i) && t[2] == '$' && |t| == 5;
    assert t[2..] == Token(j);
    forall x | 0 <= x <= |t| ensures !OccursAt(Token(k), t, x) || (x == 2 && k == j) {
      if x == 0 { assert t[0..][2] == '$'; }
      if x == 1 || x == 3 || x == 4 { assert t[x..][0] == t[x]; }
      if x == 2 && Token(k) <= Token(j) { assert Token(k) == Token(j); TokenInjective(k, j); }
    }
    assert forall x :: 0 <= x < |Token(i)| ==> !OccursAt(Token(k), t, x);
  }

  /**
   The tokens `$i$j`, the phrase number `j` starting with the digit `c`: once `$j` is replaced, `$i` and `c` can be read
   as one token, if its pass is still to come.
   */
  lemma DigitFirstAfterToken(i: nat, j: nat, phrases: seq<string>)
    requires GoodTable(phrases) && 1 <= i < 10 <= j <= |phrases| && phrases[j - 1] != [] && IsDigit(phrases[j - 1][0])
    ensures Usable(Flipped(PhraseRules(phrases)))
    ensures var m := 10 * i + DigitValue(phrases[j - 1][0]);
      Reversed(Token(i) + Token(j), PhraseRules(phrases))
      == if j < m <= |phrases| then phrases[m - 1] + phrases[j - 1][1..] else phrases[i - 1] + phrases[j - 1]
  {
    ReversedIsPasses(Token(i) + Token(j), phrases);
    SecondTokenFirst(i, j, phrases);
    if j < 10 * i + DigitValue(phrases[j - 1][0]) <= |phrases| {
      ReadTogether(i, j, phrases);
    } else {
      ReadApart(i, j, phrases);
    }
  }

  lemma ReadTogether(i: nat, j: nat, phrases: seq<string>)
    requires GoodTable(phrases) && 1 <= i < 10 <= j <= |phrases| && phrases[j - 1] != [] && IsDigit(phrases[j - 1][0])
    requires j < 10 * i + DigitValue(phrases[j - 1][0]) <= |phrases|
    ensures j - 9 <= |Passes(phrases)| && Usable(Passes(phrases)[j - 9..])
    ensures Rewrite(Token(i) + phrases[j - 1], Passes(phrases)[j - 9..])
         == phrases[10 * i + DigitValue(phrases[j - 1][0]) - 1] + phrases[j - 1][1..]
  {
    var q := phrases[j - 1];
    var m := 10 * i + DigitValue(q[0]);
    assert '$' !in q[1..] by { assert q in phrases && forall c <- q[1..] :: c in q; }
    assert Token(i) + q == Token(m) + q[1..] by {
      TokenWithDigit(i, q[0]);
      assert q == [q[0]] + q[1..];
    }
    TwoDigitsRead(m, q[1..], j - 9, phrases);
  }

  lemma TwoDigitsRead(m: nat, rest: string, x: nat, phrases: seq<string>)
    requires GoodTable(phrases) && 10 <= m <= |phrases| && '$' !in rest && x <= PassOf(m, |phrases|)
    ensures x <= |Passes(phrases)| && Usable(Passes(phrases)[x..])
    ensures Rewrite(Token(m) + rest, Passes(phrases)[x..]) == phrases[m - 1] + rest
  {
    UnreadOfTwoDigits(m, rest, x, |phrases|);
    FrontTokenRead(m, rest, x, phrases);
  }

  lemma ReadApart(i: nat, j: nat, phrases: seq<string>)
    requires GoodTable(phrases) && 1 <= i < 10 <= j <= |phrases| && phrases[j - 1] != [] && IsDigit(phrases[j - 1][0])
    requires !(j < 10 * i + DigitValue(phrases[j - 1][0]) <= |phrases|)
    ensures j - 9 <= |Passes(phrases)| && Usable(Passes(phrases)[j - 9..])
    ensures Rewrite(Token(i) + phrases[j - 1], Passes(phrases)[j - 9..]) == phrases[i - 1] + phrases[j - 1]
  {
    var q := phrases[j - 1];
    assert q in phrases;
    UnreadOfOneDigit(i, q, j - 9, |phrases|);
    FrontTokenRead(i, q, j - 9, phrases);
  }

  /**
   Two phrases side by side that were written as `$i$j` come back if and only if `$i` and the first digit of the second
   phrase do not spell a token between `$j` and the end of the table (or, if they do, one of the very same text).
   */
  lemma DigitFirstPhraseIff(text: string, i: nat, j: nat, phrases: seq<string>)
    requires GoodTable(phrases) && 1 <= i < 10 <= j <= |phrases| && phrases[j - 1] != [] && IsDigit(phrases[j - 1][0])
    requires Usable(PhraseRules(phrases)) && Applied(text, PhraseRules(phrases)) == Token(i) + Token(j)
    requires text == phrases[i - 1] + phrases[j - 1]
    ensures Usable(Flipped(PhraseRules(phrases)))
    ensures var c := phrases[j - 1][0]; var m := 10 * i + DigitValue(c);
      Reversed(Applied(text, PhraseRules(phrases)), PhraseRules(phrases)) == text
      <==> !(j < m <= |phrases|) || phrases[m - 1] == phrases[i - 1] + [c]
  {
    FlippedUsable(phrases);
    SidesComeBackIff(i, j, phrases);
  }

  lemma FlippedUsable(phrases: seq<string>)
    requires GoodTable(phrases)
    ensures Usable(Flipped(PhraseRules(phrases)))
  {
    PassesAreUsable(phrases);
  }

  ghost predicate ComesBackAs(encoded: string, text: string, phrases: seq<string>) {
    Usable(Flipped(PhraseRules(phrases))) && Reversed(encoded, PhraseRules(phrases)) == text
  }

  lemma SidesComeBackIff(i: nat, j: nat, phrases: seq<string>)
    requires GoodTable(phrases) && 1 <= i < 10 <= j <= |phrases| && phrases[j - 1] != [] && IsDigit(phrases[j - 1][0])
    ensures var c := phrases[j - 1][0]; var m := 10 * i + DigitValue(c);
      ComesBackAs(Token(i) + Token(j), phrases[i - 1] + phrases[j - 1], phrases)
      <==> !(j < m <= |phrases|) || phrases[m - 1] == phrases[i - 1] + [c]
  {
    var q := phrases[j - 1];
    var m := 10 * i + DigitValue(q[0]);
    assert ComesBackAs(Token(i) + Token(j), if j < m <= |phrases| then phrases[m - 1] + q[1..] else phrases[i - 1] + q, phrases)
    by {
      DigitFirstAfterToken(i, j, phrases);
    }
    if j < m <= |phrases| { SameInFront(phrases[m - 1], phrases[i - 1], q); }
  }

  lemma SameInFront(r: string, p: string, q: string)
    requires q != []
    ensures r + q[1..] == p + q <==> r == p + [q[0]]
  {
    MoveFirst(p, q);
    SameBehind(r, p + [q[0]], q[1..]);
  }

  lemma MoveFirst(p: string, q: string)
    requires q != []
    ensures p + q == (p + [q[0]]) + q[1..]
  {}

  lemma SameBehind(a: string, b: string, rest: string)
    ensures a + rest == b + rest <==> a == b
  {
    if a + rest == b + rest {
      assert |a| == |b|;
      assert a == (a + rest)[..|a|] && b == (b + rest)[..|b|];
    }
  }

  // ---- a phrase that takes the digit of a token ----

  /**
   A phrase that is the digit of a token and more, found across that token, leaves `$$j`: it comes back if and only if
   `$j` is replaced before the token it was taken from.
   */
  lemma StraddleIff(text: string, i: nat, j: nat, tail: string, phrases: seq<string>)
    requires GoodTable(phrases) && 1 <= i < 10 && 1 <= j < 10 && i <= |phrases| && j <= |phrases| && i != j
    requires phrases[j - 1] == [DigitChar(i)] + tail && (tail != [] ==> !IsDigit(tail[0]))
    requires Usable(PhraseRules(phrases)) && Applied(text, PhraseRules(phrases)) == "$" + Token(j)
    requires text == phrases[i - 1] + tail
    ensures Usable(Flipped(PhraseRules(phrases)))
    ensures Reversed(Applied(text, PhraseRules(phrases)), PhraseRules(phrases)) == text <==> j < i
  {
    FlippedUsable(phrases);
    StraddleComesBackIff(i, j, tail, phrases);
  }

  lemma StraddleComesBackIff(i: nat, j: nat, tail: string, phrases: seq<string>)
    requires GoodTable(phrases) && 1 <= i < 10 && 1 <= j < 10 && i <= |phrases| && j <= |phrases| && i != j
    requires phrases[j - 1] == [DigitChar(i)] + tail && (tail != [] ==> !IsDigit(tail[0]))
    ensures ComesBackAs("$" + Token(j), phrases[i - 1] + tail, phrases) <==> j < i
  {
    DollarIsPassed(i, j, tail, phrases);
    if j < i {
      TakenDigitReturns(i, j, tail, phrases);
    } else {
      TakenDigitStays(i, j, tail, phrases);
      assert phrases[i - 1] in phrases;
      DollarInFront(i, phrases[i - 1], tail);
    }
  }

  lemma DollarIsPassed(i: nat, j: nat, tail: string, phrases: seq<string>)
    requires GoodTable(phrases) && 1 <= i < 10 && 1 <= j < 10 && i <= |phrases| && j <= |phrases| && i != j
    requires phrases[j - 1] == [DigitChar(i)] + tail && (tail != [] ==> !IsDigit(tail[0]))
    ensures var x := PassOf(j, |phrases|) + 1;
      && 0 < x <= |Passes(phrases)| && Usable(Passes(phrases)[x..])
      && ComesBackAs("$" + Token(j), Rewrite(Token(i) + tail, Passes(phrases)[x..]), phrases)
  {
    FlippedUsable(phrases);
    ReversedIsPasses("$" + Token(j), phrases);
    DollarThenToken(j, phrases);
    DollarThenDigit(i, tail);
  }

  lemma DollarThenDigit(i: nat, tail: string)
    requires i < 10
    ensures "$" + ([DigitChar(i)] + tail) == Token(i) + tail
  {
    DecimalOfOneDigit(i);
  }

  lemma DollarInFront(i: nat, p: string, tail: string)
    requires Mineable(p)
    ensures Token(i) + tail != p + tail
  {
    assert (Token(i) + tail)[0] == '$' && (p + tail)[0] == p[0] && p[0] in p;
  }

  lemma TakenDigitReturns(i: nat, j: nat, tail: string, phrases: seq<string>)
    requires GoodTable(phrases) && 1 <= j < i < 10 && i <= |phrases|
    requires phrases[j - 1] == [DigitChar(i)] + tail && (tail != [] ==> !IsDigit(tail[0]))
    ensures var x := PassOf(j, |phrases|) + 1;
      0 < x <= |Passes(phrases)| && Usable(Passes(phrases)[x..])
      && Rewrite(Token(i) + tail, Passes(phrases)[x..]) == phrases[i - 1] + tail
  {
    assert phrases[j - 1] in phrases && forall c <- tail :: c in phrases[j - 1];
    var x := PassOf(j, |phrases|) + 1;
    UnreadOfOneDigit(i, tail, x, |phrases|);
    FrontTokenRead(i, tail, x, phrases);
  }

  lemma TakenDigitStays(i: nat, j: nat, tail: string, phrases: seq<string>)
    requires GoodTable(phrases) && 1 <= i < j < 10 && j <= |phrases|
    requires phrases[j - 1] == [DigitChar(i)] + tail && (tail != [] ==> !IsDigit(tail[0]))
    ensures var x := PassOf(j, |phrases|) + 1;
      0 < x <= |Passes(phrases)| && Usable(Passes(phrases)[x..])
      && Rewrite(Token(i) + tail, Passes(phrases)[x..]) == Token(i) + tail
  {
    assert '$' !in phrases[j - 1] by { assert phrases[j - 1] in phrases; }
    PassAt(j, phrases);
    assert Token(i) + tail == "$" + phrases[j - 1] by { DecimalOfOneDigit(i); }
    var x := PassOf(j, |phrases|) + 1;
    forall k | 1 <= k <= |phrases| && x <= PassOf(k, |phrases|) ensures !(Token(k) <= "$" + phrases[j - 1]) {
      TokenInFront(k, i, tail);
    }
    FrontTokenStays(phrases[j - 1], x, phrases);
  }

  lemma DollarThenToken(j: nat, phrases: seq<string>)
    requires GoodTable(phrases) && 1 <= j < 10 && j <= |phrases|
    ensures var x := PassOf(j, |phrases|) + 1;
      0 < x <= |Passes(phrases)| && Usable(Passes(phrases)) && Usable(Passes(phrases)[x..])
      && Rewrite("$" + Token(j), Passes(phrases)) == Rewrite("$" + phrases[j - 1], Passes(phrases)[x..])
  {
    var rules, t, y := Passes(phrases), "$" + Token(j), PassOf(j, |phrases|);
    PassesAreUsable(phrases);
    PassAt(j, phrases);
    forall z | 0 <= z < y ensures !Occurs(rules[z].from, t) {
      PassIsFor(z, phrases);
      DollarTokenRead(j, TokenAt(z, |phrases|));
    }
    NextHit(t, rules, 0, y);
    assert rules[0..] == rules;
    ReplaceSecond(j, phrases[j - 1]);
  }

  lemma ReplaceSecond(j: nat, r: string)
    requires 1 <= j < 10
    ensures Replace("$" + Token(j), Token(j), r) == "$" + r
  {
    assert "$" + (Token(j) + []) == "$" + Token(j);
    forall k | 0 <= k < |"$"| ensures !(Token(j) <= ("$" + (Token(j) + []))[k..]) {
      DollarTokenRead(j, j);
      assert !OccursAt(Token(j), "$" + Token(j), k);
    }
    ReplaceFirstAt("$", Token(j), [], r);
    assert r + [] == r;
  }

  lemma DollarTokenRead(j: nat, k: nat)
    requires 1 <= j < 10 && 1 <= k < 100
    ensures k != j ==> !Occurs(Token(k), "$" + Token(j))
    ensures !OccursAt(Token(k), "$" + Token(j), 0)
  {
    var t := "$" + Token(j);
    DecimalOfOneDigit(j);
    if k < 10 { DecimalOfOneDigit(k); } else { DecimalOfTwoDigits(k); }
    assert t[0] == '$' && t[1] == '$' && t[2] == DigitChar(j) && |t| == 3;
    forall x | 0 <= x <= |t| ensures !OccursAt(Token(k), t, x) || (x == 1 && k == j) {
      if x == 0 { assert t[0..][1] == '$'; }
      if x == 1 { assert t[1..] == Token(j); if Token(k) <= Token(j) { assert Token(k) == Token(j); TokenInjective(k, j); } }
      if x == 2 { assert t[2..][0] == t[2]; }
    }
  }

  // ---- a table in which it happens ----

  lemma NotFoundInShorter(p: string, s: string)
    requires |s| < |p|
    ensures !Occurs(p, s)
  {}

  lemma RewriteTwo(text: string, a: Rule, b: Rule)
    requires a.from != [] && b.from != []
    ensures Rewrite(text, [a, b]) == Replace(Replace(text, a.from, a.to), b.from, b.to)
  {
    var t := Replace(text, a.from, a.to);
    assert [a, b][1..] == [b] && [b][1..] == [];
    assert Rewrite(t, [b]) == Rewrite(Replace(t, b.from, b.to), []);
  }

  lemma SortedTwo(a: Rule, b: Rule)
    requires |a.from| >= |b.from|
    ensures LongestFirst([a, b]) == [a, b]
  {
    assert [a, b][1..] == [b] && [b][1..] == [];
    assert LongestFirst([b]) == [b];
  }

  /** A first match splits the work. */
  lemma ReplaceAt(before: string, p: string, after: string, r: string)
    requires p != [] && p[0] !in before && !Occurs(p, after)
    ensures Replace(before + (p + after), p, r) == before + r + after
  {
    ReplaceSkips(before, p + after, p, r);
    assert (p + after)[|p|..] == after;
    ReplaceAbsent(after, p, r);
    assert before + (r + after) == before + r + after;
  }

  /**
   A phrase that starts with a digit, which the miner allows, can match across the token of an earlier pass: the
   second pass turns `$1 gh ij` into `$$2`.
   */
  lemma DigitFirstPhraseIsLost()
    ensures var phrases := ["ab cd ef", "1 gh ij"]; var text := "ab cd ef gh ij";
      && GoodTable(phrases) && !LetterTable(phrases)
      && Usable(PhraseRules(phrases)) && Usable(Flipped(PhraseRules(phrases)))
      && Reversed(Applied(text, PhraseRules(phrases)), PhraseRules(phrases)) == "$1 gh ij" != text
  {
    var p1, p2, text := "ab cd ef", "1 gh ij", "ab cd ef gh ij";
    DigitFirstTable();
    assert Usable(PhraseRules([p1, p2])) && Applied(text, PhraseRules([p1, p2])) == "$$2" by {
      TwoPhrasesForth(p1, p2, text);
      TwoPassesForth();
    }
    assert Usable(Flipped(PhraseRules([p1, p2]))) && Reversed("$$2", PhraseRules([p1, p2])) == "$1 gh ij" by {
      TwoPhrasesBack(p1, p2, "$$2");
      TwoPassesBack();
    }
    assert "$1 gh ij"[0] != text[0];
  }

  lemma DigitFirstTable()
    ensures GoodTable(["ab cd ef", "1 gh ij"]) && !LetterTable(["ab cd ef", "1 gh ij"])
  {
    assert "1 gh ij" in ["ab cd ef", "1 gh ij"] && !GoodPhrase("1 gh ij");
  }

  lemma TwoPhraseTable(p1: string, p2: string)
    requires |p1| >= |p2| > 0
    ensures PhraseRules([p1, p2]) == [Rule(p1, "$1"), Rule(p2, "$2")]
    ensures Flipped(PhraseRules([p1, p2])) == Inverted(PhraseRules([p1, p2])) == [Rule("$1", p1), Rule("$2", p2)]
  {
    var rules := PhraseRules([p1, p2]);
    DecimalOfOneDigit(1);
    DecimalOfOneDigit(2);
    assert Token(1) == "$1" && Token(2) == "$2";
    assert rules == [rules[0], rules[1]];
    assert Flipped(rules) == [Flipped(rules)[0], Flipped(rules)[1]];
    TokensDistinct([p1, p2]);
  }

  lemma TwoPhrasesForth(p1: string, p2: string, t: string)
    requires |p1| >= |p2| > 0
    ensures Usable(PhraseRules([p1, p2]))
    ensures Applied(t, PhraseRules([p1, p2])) == Replace(Replace(t, p1, "$1"), p2, "$2")
  {
    TwoPhraseTable(p1, p2);
    SortedTwo(Rule(p1, "$1"), Rule(p2, "$2"));
    RewriteTwo(t, Rule(p1, "$1"), Rule(p2, "$2"));
  }

  lemma TwoPhrasesBack(p1: string, p2: string, t: string)
    requires |p1| >= |p2| > 0
    ensures Usable(Flipped(PhraseRules([p1, p2])))
    ensures Reversed(t, PhraseRules([p1, p2])) == Replace(Replace(t, "$1", p1), "$2", p2)
  {
    TwoPhraseTable(p1, p2);
    SortedTwo(Rule("$1", p1), Rule("$2", p2));
    RewriteTwo(t, Rule("$1", p1), Rule("$2", p2));
  }

  lemma TwoPassesForth()
    ensures Replace(Replace("ab cd ef gh ij", "ab cd ef", "$1"), "1 gh ij", "$2") == "$$2"
  {
    assert Replace("ab cd ef gh ij", "ab cd ef", "$1") == "$1 gh ij" by {
      NotFoundInShorter("ab cd ef", " gh ij");
      ReplaceAt("", "ab cd ef", " gh ij", "$1");
      assert "" + ("ab cd ef" + " gh ij") == "ab cd ef gh ij" && "" + "$1" + " gh ij" == "$1 gh ij";
    }
    assert Replace("$1 gh ij", "1 gh ij", "$2") == "$$2" by {
      NotFoundInShorter("1 gh ij", "");
      ReplaceAt("$", "1 gh ij", "", "$2");
      assert "$" + ("1 gh ij" + "") == "$1 gh ij" && "$" + "$2" + "" == "$$2";
    }
  }

  lemma TwoPassesBack()
    ensures Replace(Replace("$$2", "$1", "ab cd ef"), "$2", "1 gh ij") == "$1 gh ij"
  {
    assert "$$2"[1..] == "$2" && "$2"[1..] == "2" && "2"[1..] == "";
    assert Replace("2", "$1", "ab cd ef") == "2";
    assert Replace("$2", "$1", "ab cd ef") == "$2";
    assert Replace("$$2", "$1", "ab cd ef") == "$$2";
    assert "$2"[2..] == "" && Replace("$2", "$2", "1 gh ij") == "1 gh ij";
  }
}
