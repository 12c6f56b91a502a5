/**
 What becomes of the dictionary on its way through the header line (kemory/compression/aaak.py:243-248, 273-285). A
 quoted phrase comes back as it is; an unquoted one, whose blanks are all outside ASCII, is cut at the first of them.
 */
module AaakHeader {
  import opened Text
  import opened AaakSubstitution
  import opened AaakSegments
  import opened AaakLostTokens
  import opened AaakTokens
  import opened AaakRecord
  import opened AaakDocument
  import opened AaakLineBreaks

  /** What the decoder reads of the phrase. */
  function SeenPhrase(p: string): string { if NeedsQuoting(p) then p else p[..NonSpaceLength(p)] }

  function SeenPhrases(phrases: seq<string>): seq<string> {
    seq(|phrases|, i requires 0 <= i < |phrases| => SeenPhrase(phrases[i]))
  }

  /** A phrase is quoted, or has neither a tilde in front nor a blank at its ends; the miner's phrases start and end in a word. */
  predicate Readable(p: string) {
    p != [] && (NeedsQuoting(p) || (p[0] != '~' && !IsSpace(p[0]) && !IsSpace(p[|p| - 1])))
  }

  predicate HasBlank(p: string) { exists c <- p :: IsSpace(c) }

  /**
   A dictionary as the miner makes it: no phrase twice, each of them readable, and those that the header cuts to the same
   word are more than that word. Where the latter happens, none starts with a digit.
   */
  predicate ReadableTable(phrases: seq<string>) {
    && GoodTable(phrases)
    && (forall i, j :: 0 <= i < j < |phrases| ==> phrases[i] != phrases[j])
    && (forall i, j :: 0 <= i < j < |phrases| && SeenPhrase(phrases[i]) == SeenPhrase(phrases[j]) ==>
          HasBlank(phrases[i]) && LetterTable(phrases))
    && forall p <- phrases :: Readable(p)
  }

  predicate BreaklessTable(phrases: seq<string>) { forall p <- phrases :: Breakless(p) }

  /** A dictionary the header carries in full. */
  predicate HeaderTable(phrases: seq<string>) {
    && GoodTable(phrases)
    && (forall i, j :: 0 <= i < j < |phrases| ==> phrases[i] != phrases[j])
    && forall p <- phrases :: Carried(p) && Breakless(p)
  }

  lemma CarriedIsSeen(p: string)
    requires Carried(p) && p != []
    ensures Readable(p) && SeenPhrase(p) == p
  {
    if !NeedsQuoting(p) {
      assert p[0] in p && p[|p| - 1] in p;
      NonSpaceOfWord(p);
    }
  }

  lemma {:induction false} NonSpaceOfWord(p: string)
    requires forall c <- p :: !IsSpace(c)
    ensures NonSpaceLength(p) == |p|
  {
    if p != [] {
      assert p[0] in p;
      NonSpaceOfWord(p[1..]);
    }
  }

  lemma HeaderTableIsReadable(phrases: seq<string>)
    requires HeaderTable(phrases)
    ensures ReadableTable(phrases) && BreaklessTable(phrases) && SeenPhrases(phrases) == phrases
  {
    forall i | 0 <= i < |phrases| ensures SeenPhrase(phrases[i]) == phrases[i] && Readable(phrases[i]) {
      assert phrases[i] in phrases;
      CarriedIsSeen(phrases[i]);
    }
  }

  /** The cut leaves the first word, never nothing. */
  lemma SeenPhraseIsFront(p: string)
    requires Readable(p)
    ensures SeenPhrase(p) <= p && SeenPhrase(p) != [] && SeenPhrase(p)[0] == p[0]
  {}

  lemma SeenTableIsGood(phrases: seq<string>)
    requires ReadableTable(phrases)
    ensures GoodTable(SeenPhrases(phrases))
    ensures forall i :: 0 <= i < |phrases| ==>
      var q := SeenPhrases(phrases)[i]; q <= phrases[i] && q != [] && q[0] == phrases[i][0]
  {
    var seen := SeenPhrases(phrases);
    forall i | 0 <= i < |phrases| ensures seen[i] <= phrases[i] && Mineable(seen[i]) && seen[i][0] == phrases[i][0] {
      assert phrases[i] in phrases;
      SeenPhraseIsFront(phrases[i]);
      assert forall c <- seen[i] :: c in phrases[i];
    }
  }

  // ---- the dictionary line reads back ----

  lemma {:induction false} DigitsLengthIs(d: string, rest: string)
    requires (forall c <- d :: IsDigit(c)) && (rest != [] ==> !IsDigit(rest[0]))
    ensures DigitsLength(d + rest) == |d|
  {
    if d == [] {
      assert d + rest == rest;
    } else {
      assert (d + rest)[1..] == d[1..] + rest;
      assert d[0] in d;
      DigitsLengthIs(d[1..], rest);
    }
  }

  lemma QuotedSubValue(p: string, rest: string)
    ensures SubValueLength(Quoted(p) + rest) == |Quoted(p)|
  {
    assert (Quoted(p) + rest)[1..] == Escaped(p) + "\"" + rest;
    ClosingQuoteOfEscaped(p, rest);
  }

  lemma BareSubValue(p: string, rest: string)
    requires p != [] && p[0] != '"' && AtBorder(rest)
    ensures SubValueLength(p + rest) == NonSpaceLength(p)
  {
    NonSpaceLengthAtBorder(p, rest);
    assert (p + rest)[0] == p[0];
  }

  lemma NumberedAtFront(d: string, w: string, rest: string)
    requires d != [] && (forall c <- d :: IsDigit(c)) && w != [] && SubValueLength(w + rest) == |w|
    ensures SubAtFront(("$" + d) + "=" + (w + rest)) == Some((Pair("$" + d, w), |d| + 2 + |w|))
  {
    var t, tail := "$" + d, w + rest;
    var s := t + "=" + tail;
    assert s[1..] == d + ("=" + tail);
    DigitsLengthIs(d, "=" + tail);
    assert s[|t|] == '=' && s[|t| + 1..] == tail && s[..|t|] == t;
    assert tail[..|w|] == w;
  }

  lemma FindSubsStep(s: string, pair: Pair, n: nat)
    requires SubAtFront(s) == Some((pair, n))
    ensures 0 < n <= |s| && FindSubs(s) == [pair] + FindSubs(s[n..])
  {}

  /** The value the dictionary expression matches for a phrase. */
  function SeenSub(p: string): string { if NeedsQuoting(p) then Quoted(p) else SeenPhrase(p) }

  function SubPairs(phrases: seq<string>, from: nat): seq<Pair>
    requires from <= |phrases|
    decreases |phrases| - from
  {
    if from == |phrases| then []
    else [Pair(Token(from + 1), SeenSub(phrases[from]))] + SubPairs(phrases, from + 1)
  }

  lemma FindSubsSkip(c: char, s: string)
    requires c != '$'
    ensures FindSubs([c] + s) == FindSubs(s)
  {
    assert ([c] + s)[1..] == s;
  }

  lemma SubTokenScan(t: string, w: string, rest: string)
    requires w != [] && SubAtFront(t + "=" + (w + rest)) == Some((Pair(t, w), |t| + 1 + |w|))
    ensures FindSubs(t + "=" + (w + rest)) == [Pair(t, w)] + FindSubs(rest)
  {
    var s := t + "=" + (w + rest);
    FindSubsStep(s, Pair(t, w), |t| + 1 + |w|);
    assert s[|t| + 1 + |w|..] == rest;
  }

  lemma SpacedCons(part: string, parts: seq<string>)
    ensures Spaced([part] + parts) == " " + (part + Spaced(parts))
  {
    assert ([part] + parts)[1..] == parts;
  }

  lemma {:induction false} FindSubsSkipAll(left: string, rest: string)
    requires '$' !in left
    ensures FindSubs(left + rest) == FindSubs(rest)
  {
    if left == [] {
      assert left + rest == rest;
    } else {
      assert left[0] in left;
      assert left + rest == [left[0]] + (left[1..] + rest);
      FindSubsSkip(left[0], left[1..] + rest);
      FindSubsSkipAll(left[1..], rest);
    }
  }

  lemma ValueScan(d: string, w: string, rest: string)
    requires d != [] && (forall c <- d :: IsDigit(c)) && w != [] && SubValueLength(w + rest) == |w|
    ensures FindSubs("$" + d + "=" + (w + rest)) == [Pair("$" + d, w)] + FindSubs(rest)
  {
    NumberedAtFront(d, w, rest);
    SubTokenScan("$" + d, w, rest);
  }

  lemma QuotedScan(d: string, p: string, rest: string)
    requires d != [] && (forall c <- d :: IsDigit(c)) && NeedsQuoting(p) && AtBorder(rest)
    ensures FindSubs("$" + d + "=" + (Quoted(p) + rest)) == [Pair("$" + d, Quoted(p))] + FindSubs(rest)
  {
    QuotedSubValue(p, rest);
    ValueScan(d, Quoted(p), rest);
  }

  lemma CutScan(d: string, w: string, left: string, rest: string)
    requires d != [] && (forall c <- d :: IsDigit(c)) && w != [] && '$' !in left
    requires SubValueLength(w + (left + rest)) == |w|
    ensures FindSubs("$" + d + "=" + (w + (left + rest))) == [Pair("$" + d, w)] + FindSubs(rest)
  {
    ValueScan(d, w, left + rest);
    FindSubsSkipAll(left, rest);
  }

  lemma BareScan(d: string, p: string, rest: string)
    requires d != [] && (forall c <- d :: IsDigit(c)) && Readable(p) && !NeedsQuoting(p) && '$' !in p && AtBorder(rest)
    ensures FindSubs("$" + d + "=" + (p + rest)) == [Pair("$" + d, SeenPhrase(p))] + FindSubs(rest)
  {
    var w, left := SeenPhrase(p), p[NonSpaceLength(p)..];
    SeenPhraseIsFront(p);
    assert SubValueLength(p + rest) == |w| by {
      assert p[0] in p;
      BareSubValue(p, rest);
    }
    SplitInFront(p, NonSpaceLength(p), rest);
    assert '$' !in left by { assert forall c <- left :: c in p; }
    CutScan(d, w, left, rest);
  }

  lemma SplitInFront(p: string, n: nat, rest: string)
    requires n <= |p|
    ensures p + rest == p[..n] + (p[n..] + rest)
  {
    assert p == p[..n] + p[n..];
  }

  lemma NumberedScan(d: string, p: string, rest: string)
    requires d != [] && (forall c <- d :: IsDigit(c)) && Readable(p) && '$' !in p && AtBorder(rest)
    ensures FindSubs("$" + d + "=" + (Written(p) + rest)) == [Pair("$" + d, SeenSub(p))] + FindSubs(rest)
  {
    if NeedsQuoting(p) { QuotedScan(d, p, rest); } else { BareScan(d, p, rest); }
  }

  lemma SubPartScan(i: nat, p: string, parts: seq<string>)
    requires Readable(p) && '$' !in p
    ensures FindSubs(Spaced([Token(i) + "=" + Written(p)] + parts))
            == [Pair(Token(i), SeenSub(p))] + FindSubs(Spaced(parts))
  {
    var part, rest := Token(i) + "=" + Written(p), Spaced(parts);
    assert FindSubs(part + rest) == [Pair(Token(i), SeenSub(p))] + FindSubs(rest) by {
      NumberedScan(Decimal(i), p, rest);
      Regroup(Token(i), Written(p), rest);
    }
    assert Spaced([part] + parts) == [' '] + (part + rest) by { SpacedCons(part, parts); }
    FindSubsSkip(' ', part + rest);
  }

  lemma Regroup(t: string, w: string, rest: string)
    ensures t + "=" + w + rest == t + "=" + (w + rest)
  {}

  lemma {:induction false} SubPartsScan(phrases: seq<string>, from: nat)
    requires ReadableTable(phrases) && from <= |phrases|
    ensures FindSubs(Spaced(SubParts(phrases, from))) == SubPairs(phrases, from)
    decreases |phrases| - from
  {
    if from < |phrases| {
      assert phrases[from] in phrases;
      SubPartsScan(phrases, from + 1);
      SubPartScan(from + 1, phrases[from], SubParts(phrases, from + 1));
    }
  }

  /** The decoder's dictionary: of phrases that are cut to the same text the last one stays. */
  function BackTable(phrases: seq<string>): seq<Rule> { PutAll([], PhraseRules(SeenPhrases(phrases))) }

  lemma {:induction false} AddSubsBuildsTable(table: seq<Rule>, phrases: seq<string>, from: nat)
    requires ReadableTable(phrases) && from <= |phrases|
    ensures AddSubs(table, SubPairs(phrases, from)) == PutAll(table, PhraseRules(SeenPhrases(phrases))[from..])
    decreases |phrases| - from
  {
    var rules := PhraseRules(SeenPhrases(phrases));
    if from < |phrases| {
      SeenSubReadsBack(phrases[from]) by { assert phrases[from] in phrases; }
      var table' := Put(table, rules[from]);
      assert SubPairs(phrases, from)[1..] == SubPairs(phrases, from + 1);
      assert rules[from..][1..] == rules[from + 1..];
      AddSubsBuildsTable(table', phrases, from + 1);
    }
  }

  lemma SeenSubReadsBack(p: string)
    requires Readable(p)
    ensures Unescape(SeenSub(p)) == Some(SeenPhrase(p))
  {
    UnescapeQuoted(p);
    if !NeedsQuoting(p) {
      SeenPhraseIsFront(p);
      assert p[0] in p;
      var w := SeenPhrase(p);
      assert w[0] != '"' && w[0] != '~';
    }
  }

  lemma StripIsIdentity(s: string)
    requires s != [] && !IsSpace(s[0]) && !IsSpace(s[|s| - 1])
    ensures Strip(s) == s
  {}

  lemma {:induction false} SpacedEndsWith(parts: seq<string>)
    requires parts != [] && forall p <- parts :: p != [] && !IsSpace(p[|p| - 1])
    ensures var s := Spaced(parts); s != [] && !IsSpace(s[|s| - 1])
  {
    assert parts[0] in parts;
    if |parts| > 1 { SpacedEndsWith(parts[1..]); }
  }

  lemma PartEndsInWord(t: string, p: string)
    requires Readable(p)
    ensures var part := t + "=" + Written(p); part != [] && !IsSpace(part[|part| - 1])
  {
    var w := Written(p);
    if NeedsQuoting(p) { assert w[|w| - 1] == '"'; }
    assert (t + "=" + w)[|t + "=" + w| - 1] == w[|w| - 1];
  }

  lemma {:induction false} SubPartsEnd(phrases: seq<string>, from: nat)
    requires ReadableTable(phrases) && from <= |phrases|
    ensures forall p <- SubParts(phrases, from) :: p != [] && !IsSpace(p[|p| - 1])
    decreases |phrases| - from
  {
    if from < |phrases| {
      assert phrases[from] in phrases;
      PartEndsInWord(Token(from + 1), phrases[from]);
      SubPartsEnd(phrases, from + 1);
    }
  }

  lemma SubHeaderSkipped(rest: string)
    ensures FindSubs(SUB_HEADER + rest) == FindSubs(rest)
  {
    assert SUB_HEADER + rest == ['@'] + (['s'] + (['u'] + (['b'] + rest)));
    FindSubsSkip('@', ['s'] + (['u'] + (['b'] + rest)));
    FindSubsSkip('s', ['u'] + (['b'] + rest));
    FindSubsSkip('u', ['b'] + rest);
    FindSubsSkip('b', rest);
  }

  lemma SubLineScan(phrases: seq<string>)
    requires ReadableTable(phrases)
    ensures AddSubs([], FindSubs(SubLine(phrases))) == BackTable(phrases)
  {
    SubHeaderSkipped(Spaced(SubParts(phrases, 0)));
    SubPartsScan(phrases, 0);
    AddSubsBuildsTable([], phrases, 0);
    assert PhraseRules(SeenPhrases(phrases))[0..] == PhraseRules(SeenPhrases(phrases));
  }

  lemma SubLineShape(phrases: seq<string>)
    requires ReadableTable(phrases) && phrases != []
    ensures SUB_HEADER <= SubLine(phrases) && Strip(SubLine(phrases)) == SubLine(phrases)
  {
    SubPartsEnd(phrases, 0);
    SpacedEndsWith(SubParts(phrases, 0));
    StripIsIdentity(SubLine(phrases));
  }

  // ---- the decoder's dictionary ----

  lemma {:induction false} PutAllFrom(d: seq<Rule>, rules: seq<Rule>)
    ensures forall x <- PutAll(d, rules) :: x in d || x in rules
    decreases |rules|
  {
    if rules != [] {
      PutFrom(d, rules[0]);
      PutAllFrom(Put(d, rules[0]), rules[1..]);
    }
  }

  lemma {:induction false} PutFrom(d: seq<Rule>, r: Rule)
    ensures forall x <- Put(d, r) :: x in d || x == r
    ensures r in Put(d, r) && forall x <- d :: x.from != r.from ==> x in Put(d, r)
  {
    if d != [] && d[0].from != r.from { PutFrom(d[1..], r); }
  }

  /** An entry stays unless a later one has its key. */
  lemma {:induction false} PutAllKeeps(d: seq<Rule>, rules: seq<Rule>, x: Rule)
    requires x in d && forall r <- rules :: r.from != x.from
    ensures x in PutAll(d, rules)
    decreases |rules|
  {
    if rules != [] {
      assert rules[0] in rules && forall r <- rules[1..] :: r in rules;
      PutFrom(d, rules[0]);
      PutAllKeeps(Put(d, rules[0]), rules[1..], x);
    }
  }

  lemma {:induction false} LastOfKeyStays(d: seq<Rule>, rules: seq<Rule>, k: nat)
    requires k < |rules| && forall j :: k < j < |rules| ==> rules[j].from != rules[k].from
    ensures rules[k] in PutAll(d, rules)
    decreases |rules|
  {
    PutFrom(d, rules[0]);
    if k == 0 {
      PutAllKeeps(Put(d, rules[0]), rules[1..], rules[0]);
    } else {
      forall j | k - 1 < j < |rules[1..]| ensures rules[1..][j].from != rules[1..][k - 1].from {
        assert rules[1..][j] == rules[j + 1];
      }
      LastOfKeyStays(Put(d, rules[0]), rules[1..], k - 1);
    }
  }

  predicate DistinctTos(d: seq<Rule>) { forall i, j :: 0 <= i < j < |d| ==> d[i].to != d[j].to }

  lemma {:induction false} PutKeepsTos(d: seq<Rule>, r: Rule)
    requires DistinctTos(d) && forall x <- d :: x.to != r.to
    ensures DistinctTos(Put(d, r))
  {
    if d != [] && d[0].from != r.from {
      var rest := Put(d[1..], r);
      PutKeepsTos(d[1..], r);
      PutFrom(d[1..], r);
      forall x <- rest ensures x.to != d[0].to {
        if x in d[1..] {
          var k :| 0 <= k < |d[1..]| && d[1..][k] == x;
          assert d[k + 1] == x;
        }
      }
      assert forall i :: 0 <= i < |rest| ==> rest[i] in rest;
    }
  }

  lemma {:induction false} PutAllKeepsTos(d: seq<Rule>, rules: seq<Rule>)
    requires DistinctTos(d) && DistinctTos(rules) && forall x <- d, r <- rules :: x.to != r.to
    ensures DistinctTos(PutAll(d, rules))
    decreases |rules|
  {
    if rules != [] {
      assert rules[0] in rules && forall r <- rules[1..] :: r in rules;
      PutKeepsTos(d, rules[0]);
      PutFrom(d, rules[0]);
      forall x <- Put(d, rules[0]), r <- rules[1..] ensures x.to != r.to {
        var k :| 0 <= k < |rules[1..]| && rules[1..][k] == r;
        assert rules[k + 1] == r;
      }
      PutAllKeepsTos(Put(d, rules[0]), rules[1..]);
    }
  }

  lemma PhraseTosDistinct(phrases: seq<string>)
    requires |phrases| <= MAX_SUBSTITUTIONS
    ensures DistinctTos(PhraseRules(phrases))
  {
    var rules := PhraseRules(phrases);
    forall i, j | 0 <= i < j < |rules| ensures rules[i].to != rules[j].to {
      if Token(i + 1) == Token(j + 1) { TokenInjective(i + 1, j + 1); }
    }
  }

  lemma BackTableFlips(phrases: seq<string>)
    requires |phrases| <= MAX_SUBSTITUTIONS
    ensures Inverted(BackTable(phrases)) == Flipped(BackTable(phrases))
  {
    var back := BackTable(phrases);
    PhraseTosDistinct(SeenPhrases(phrases));
    PutAllKeepsTos([], PhraseRules(SeenPhrases(phrases)));
    assert [] + Flipped(back) == Flipped(back);
    PutAllDistinct([], Flipped(back));
  }

  lemma BackTableRules(phrases: seq<string>)
    ensures Usable(Flipped(BackTable(phrases))) && TokenRules(Flipped(BackTable(phrases)), SeenPhrases(phrases))
  {
    var seen, back, flipped := SeenPhrases(phrases), BackTable(phrases), Flipped(BackTable(phrases));
    PutAllFrom([], PhraseRules(seen));
    forall r <- flipped ensures r.from != [] && exists i :: 1 <= i <= |seen| && r == Rule(Token(i), seen[i - 1]) {
      var k :| 0 <= k < |flipped| && flipped[k] == r;
      assert back[k] in back;
      var m :| 0 <= m < |seen| && PhraseRules(seen)[m] == back[k];
      var i := m + 1;
      assert r == Rule(Token(i), seen[i - 1]);
    }
  }

  /** What the decoder makes of each token. */
  function ReadPhrases(phrases: seq<string>): seq<string> {
    ReadAll(LongestFirst(Flipped(BackTable(phrases))), SeenPhrases(phrases))
  }

  /** A token is in the dictionary unless a later phrase came out of the header as the same word. */
  lemma KeptOrCollides(i: nat, phrases: seq<string>)
    requires 1 <= i <= |phrases|
    ensures Has(LongestFirst(Flipped(BackTable(phrases))), i, SeenPhrases(phrases))
         || exists j :: i - 1 < j < |phrases| && SeenPhrase(phrases[j]) == SeenPhrase(phrases[i - 1])
  {
    var back, rules := BackTable(phrases), PhraseRules(SeenPhrases(phrases));
    if forall j :: i - 1 < j < |phrases| ==> SeenPhrase(phrases[j]) != SeenPhrase(phrases[i - 1]) {
      LastOfKeyStays([], rules, i - 1);
      var k :| 0 <= k < |back| && back[k] == rules[i - 1];
      assert Flipped(back)[k] == Rule(Token(i), SeenPhrases(phrases)[i - 1]);
      SortKeepsRules(Flipped(back));
    }
  }

  // ---- contents under the decoder's dictionary ----

  /** Both dictionaries have the same phrase for every token of the text. */
  predicate SameForTokens(g: Segs, seen: seq<string>, phrases: seq<string>)
    requires InTable(g, |phrases|) && |seen| == |phrases|
  {
    match g
    case End => true
    case Ch(_, rest) => SameForTokens(rest, seen, phrases)
    case Tok(i, rest) => seen[i - 1] == phrases[i - 1] && SameForTokens(rest, seen, phrases)
  }

  /** The token stands at the front of the text, and is not the front of another one of the table. */
  predicate StandsAt(i: nat, s: string, n: nat) { Token(i) <= s && TokenClear(i, s[|Token(i)|..], n) }

  predicate Spelled(i: nat, s: string, n: nat) { s != [] && (StandsAt(i, s, n) || Spelled(i, s[1..], n)) }

  /** The header cuts the phrase of the token. */
  predicate Cut(i: nat, phrases: seq<string>)
    requires 1 <= i <= |phrases|
  {
    SeenPhrase(phrases[i - 1]) != phrases[i - 1]
  }

  /** The encoder replaces in the text a phrase that the header cuts. */
  ghost predicate UsesCut(text: string, phrases: seq<string>)
    requires GoodTable(phrases)
  {
    TableUsable(phrases);
    exists i :: 1 <= i <= |phrases| && Cut(i, phrases) && Spelled(i, Applied(text, PhraseRules(phrases)), |phrases|)
  }

  predicate HasToken(g: Segs, i: nat) {
    match g case End => false case Ch(_, rest) => HasToken(rest, i) case Tok(j, rest) => i == j || HasToken(rest, i)
  }

  lemma {:induction false} SpelledBehind(i: nat, pre: string, rest: string, n: nat)
    requires forall k :: 0 <= k < |pre| ==> !StandsAt(i, pre[k..] + rest, n)
    ensures Spelled(i, pre + rest, n) <==> Spelled(i, rest, n)
  {
    if pre == [] {
      assert pre + rest == rest;
    } else {
      assert pre[0..] == pre && (pre + rest)[1..] == pre[1..] + rest;
      forall k | 0 <= k < |pre[1..]| ensures !StandsAt(i, pre[1..][k..] + rest, n) { assert pre[1..][k..] == pre[k + 1..]; }
      SpelledBehind(i, pre[1..], rest, n);
    }
  }

  /** A token other than `$i` does not have it in front. */
  lemma OtherDoesNotStand(i: nat, j: nat, rest: Segs, phrases: seq<string>)
    requires |phrases| <= MAX_SUBSTITUTIONS && InTable(rest, |phrases|) && i != j
    requires 1 <= i <= |phrases| && 1 <= j <= |phrases| && TokenClear(j, Expand(rest, phrases), |phrases|)
    ensures !StandsAt(i, Token(j) + Render(rest), |phrases|)
  {
    if Takes(i, j) {
      DecimalOfOneDigit(i);
      DecimalOfTwoDigits(j);
      var behind := (Token(j) + Render(rest))[|Token(i)|..];
      assert behind[0] == DigitChar(j % 10);
    } else {
      OtherTokenNotRead(j, rest, i, phrases);
    }
  }

  lemma OwnStands(i: nat, rest: Segs, phrases: seq<string>)
    requires |phrases| <= MAX_SUBSTITUTIONS && InTable(rest, |phrases|) && 1 <= i <= |phrases|
    requires TokenClear(i, Expand(rest, phrases), |phrases|)
    ensures StandsAt(i, Token(i) + Render(rest), |phrases|)
  {
    FirstRendered(rest, phrases);
    assert (Token(i) + Render(rest))[|Token(i)|..] == Render(rest);
  }

  lemma SpelledAtToken(i: nat, j: nat, rest: Segs, phrases: seq<string>)
    requires |phrases| <= MAX_SUBSTITUTIONS && InTable(rest, |phrases|)
    requires 1 <= i <= |phrases| && 1 <= j <= |phrases| && TokenClear(j, Expand(rest, phrases), |phrases|)
    ensures Spelled(i, Token(j) + Render(rest), |phrases|) <==> i == j || Spelled(i, Render(rest), |phrases|)
  {
    if i == j {
      OwnStands(i, rest, phrases);
    } else {
      var t := Token(j);
      forall k | 0 <= k < |t| ensures !StandsAt(i, t[k..] + Render(rest), |phrases|) {
        if k == 0 {
          assert t[0..] == t;
          OtherDoesNotStand(i, j, rest, phrases);
        } else {
          assert (t[k..] + Render(rest))[0] == Decimal(j)[k - 1] && Decimal(j)[k - 1] in Decimal(j);
        }
      }
      SpelledBehind(i, t, Render(rest), |phrases|);
    }
  }

  /** In an encoded text without mistaken tokens a token is spelled exactly where the encoder put it. */
  lemma {:induction false} SpelledIff(i: nat, g: Segs, phrases: seq<string>)
    requires |phrases| <= MAX_SUBSTITUTIONS && 1 <= i <= |phrases| && InTable(g, |phrases|) && Clear(g, phrases)
    ensures Spelled(i, Render(g), |phrases|) <==> HasToken(g, i)
  {
    match g
    case End =>
    case Ch(c, rest) =>
      SpelledIff(i, rest, phrases);
      CharNotMisread(c, rest, i, phrases);
      assert ([c] + Render(rest))[1..] == Render(rest);
    case Tok(j, rest) =>
      SpelledIff(i, rest, phrases);
      SpelledAtToken(i, j, rest, phrases);
  }

  /** The other dictionary has, for every token, a front of the same phrase. */
  predicate Fronts(seen: seq<string>, phrases: seq<string>) {
    |seen| == |phrases|
    && forall i :: 0 <= i < |phrases| ==> seen[i] <= phrases[i] && seen[i] != []
  }

  lemma {:induction false} FrontsStartAlike(g: Segs, seen: seq<string>, phrases: seq<string>)
    requires InTable(g, |phrases|) && Fronts(seen, phrases)
    ensures var a, b := Expand(g, seen), Expand(g, phrases); (a == [] <==> b == []) && (a != [] ==> a[0] == b[0])
  {
    match g
    case End =>
    case Ch(c, rest) =>
    case Tok(i, rest) => assert seen[i - 1][0] == phrases[i - 1][0];
  }

  lemma {:induction false} FrontsStayClear(g: Segs, seen: seq<string>, phrases: seq<string>)
    requires InTable(g, |phrases|) && Fronts(seen, phrases) && Clear(g, phrases)
    ensures Clear(g, seen)
  {
    if !g.End? {
      FrontsStayClear(g.rest, seen, phrases);
      FrontsStartAlike(g.rest, seen, phrases);
    }
  }

  function Blanks(s: string): nat { if s == [] then 0 else (if IsSpace(s[0]) then 1 else 0) + Blanks(s[1..]) }

  lemma {:induction false} BlanksConcat(a: string, b: string)
    ensures Blanks(a + b) == Blanks(a) + Blanks(b)
  {
    if a == [] {
      assert a + b == b;
    } else {
      assert (a + b)[1..] == a[1..] + b;
      BlanksConcat(a[1..], b);
    }
  }

  lemma {:induction false} NoBlanks(s: string)
    ensures Blanks(s) == 0 <==> !HasBlank(s)
  {
    if s != [] {
      NoBlanks(s[1..]);
      assert forall c :: c in s <==> c == s[0] || c in s[1..];
    }
  }

  lemma BlanksOfFront(a: string, b: string)
    requires a <= b && |a| < |b| && IsSpace(b[|a|])
    ensures Blanks(a) < Blanks(b)
  {
    assert b == a + b[|a|..];
    BlanksConcat(a, b[|a|..]);
  }

  lemma SeenIsBare(p: string)
    requires Readable(p) && SeenPhrase(p) != p
    ensures !NeedsQuoting(p) && !HasBlank(SeenPhrase(p)) && HasBlank(p)
  {
    var n := NonSpaceLength(p);
    assert p[..|p|] == p;
    assert p[n] in p;
    forall c <- SeenPhrase(p) ensures !IsSpace(c) {
      var k :| 0 <= k < n && p[k] == c;
    }
  }

  lemma TokenHasNoBlank(i: nat)
    ensures !HasBlank(Token(i))
  {
    assert forall c <- Decimal(i) :: IsDigit(c);
  }

  /** The pass of `$j` left the whole phrase `j` with the second digit of the token behind it. */
  predicate Glued(i: nat, read: seq<string>, phrases: seq<string>)
    requires 1 <= i <= |phrases| == |read|
  {
    i >= 10 && read[i - 1] == phrases[i / 10 - 1] + [DigitChar(i % 10)]
  }

  /** The token is not in the dictionary, and the pass of its first digit's token left the whole of that phrase. */
  predicate Mixed(i: nat, phrases: seq<string>)
    requires 1 <= i <= |phrases|
  {
    !Has(LongestFirst(Flipped(BackTable(phrases))), i, SeenPhrases(phrases)) && Glued(i, ReadPhrases(phrases), phrases)
  }

  lemma ReadCases(i: nat, phrases: seq<string>)
    requires 1 <= i <= |phrases|
    ensures var r, seen := ReadPhrases(phrases)[i - 1], SeenPhrases(phrases);
      if Has(LongestFirst(Flipped(BackTable(phrases))), i, seen) then r == seen[i - 1]
      else r == Token(i) || (i >= 10 && r == SeenPhrase(phrases[i / 10 - 1]) + [DigitChar(i % 10)])
  {}

  /** A token that is not read as its phrase is read with fewer blanks, or mixed with another. */
  lemma ReadIsPoorer(i: nat, phrases: seq<string>)
    requires ReadableTable(phrases) && 1 <= i <= |phrases|
    ensures var r, p := ReadPhrases(phrases)[i - 1], phrases[i - 1];
      r == p || Blanks(r) < Blanks(p) || Mixed(i, phrases)
  {
    var rules, seen, p := LongestFirst(Flipped(BackTable(phrases))), SeenPhrases(phrases), phrases[i - 1];
    assert p in phrases;
    NoBlanks(p);
    ReadCases(i, phrases);
    if Has(rules, i, seen) {
      if seen[i - 1] != p {
        SeenIsBare(p);
        NoBlanks(seen[i - 1]);
      }
    } else {
      KeptOrCollides(i, phrases);
      assert HasBlank(p);
      LostIsPoorer(i, phrases);
    }
  }

  lemma LostIsPoorer(i: nat, phrases: seq<string>)
    requires ReadableTable(phrases) && 1 <= i <= |phrases|
    requires !Has(LongestFirst(Flipped(BackTable(phrases))), i, SeenPhrases(phrases))
    ensures Blanks(ReadPhrases(phrases)[i - 1]) == 0 || Glued(i, ReadPhrases(phrases), phrases)
  {
    TokenHasNoBlank(i);
    NoBlanks(Token(i));
    ReadCases(i, phrases);
    if i >= 10 {
      var q := phrases[i / 10 - 1];
      assert Readable(q) by { assert q in phrases; }
      if SeenPhrase(q) != q { CutHasNoBlank(q, DigitChar(i % 10)); }
    }
  }

  lemma CutHasNoBlank(q: string, d: char)
    requires Readable(q) && SeenPhrase(q) != q && IsDigit(d)
    ensures Blanks(SeenPhrase(q) + [d]) == 0
  {
    SeenIsBare(q);
    assert !HasBlank(SeenPhrase(q) + [d]);
    NoBlanks(SeenPhrase(q) + [d]);
  }

  lemma CutIsNotRead(i: nat, phrases: seq<string>)
    requires ReadableTable(phrases) && 1 <= i <= |phrases| && SeenPhrase(phrases[i - 1]) != phrases[i - 1]
    ensures ReadPhrases(phrases)[i - 1] != phrases[i - 1]
  {
    var p := phrases[i - 1];
    assert Readable(p) by { assert p in phrases; }
    ReadCases(i, phrases);
    assert p != Token(i) by {
      SeenIsBare(p);
      TokenHasNoBlank(i);
    }
    if i >= 10 {
      var q := phrases[i / 10 - 1];
      assert Readable(q) by { assert q in phrases; }
      GluedIsNotCut(p, q, DigitChar(i % 10));
    }
  }

  lemma GluedIsNotCut(p: string, q: string, d: char)
    requires Readable(p) && Readable(q) && SeenPhrase(p) != p && IsDigit(d)
    ensures SeenPhrase(q) + [d] != p
  {
    SeenIsBare(p);
    if q + [d] == p {
      assert forall c <- q :: c in p;
      var b :| b in p && IsSpace(b);
      assert b in q;
      assert SeenPhrase(q) != q by { if SeenPhrase(q) == q { BlankIsCut(q, b); } }
    }
    if SeenPhrase(q) != q {
      SeenIsBare(q);
      assert !HasBlank(SeenPhrase(q) + [d]);
    }
  }

  lemma BlankIsCut(q: string, b: char)
    requires b in q && IsSpace(b) && !NeedsQuoting(q)
    ensures SeenPhrase(q) != q
  {
    var k :| 0 <= k < |q| && q[k] == b;
    assert NonSpaceLength(q) <= k;
  }

  lemma SeenIsReadIff(i: nat, phrases: seq<string>)
    requires ReadableTable(phrases) && 1 <= i <= |phrases|
    ensures ReadPhrases(phrases)[i - 1] == phrases[i - 1] <==> SeenPhrase(phrases[i - 1]) == phrases[i - 1]
  {
    if SeenPhrase(phrases[i - 1]) != phrases[i - 1] {
      CutIsNotRead(i, phrases);
    } else {
      ReadCases(i, phrases);
      KeptOrCollides(i, phrases);
      forall j | i - 1 < j < |phrases| ensures SeenPhrase(phrases[j]) != phrases[i - 1] {
        if SeenPhrase(phrases[j]) == phrases[i - 1] {
          assert HasBlank(phrases[i - 1]) && phrases[j] in phrases;
          SeenIsBare(phrases[j]);
        }
      }
    }
  }

  ghost predicate HasCut(g: Segs, phrases: seq<string>) {
    exists i :: 1 <= i <= |phrases| && Cut(i, phrases) && HasToken(g, i)
  }

  lemma {:induction false} SameForTokensIff(g: Segs, phrases: seq<string>)
    requires ReadableTable(phrases) && InTable(g, |phrases|)
    ensures SameForTokens(g, ReadPhrases(phrases), phrases) <==> !HasCut(g, phrases)
  {
    match g
    case End =>
    case Ch(_, rest) =>
      SameForTokensIff(rest, phrases);
      if i :| 1 <= i <= |phrases| && Cut(i, phrases) && HasToken(rest, i) { assert HasToken(g, i); }
    case Tok(j, rest) =>
      SameForTokensIff(rest, phrases);
      SeenIsReadIff(j, phrases);
      if Cut(j, phrases) { assert HasToken(g, j); }
      if i :| 1 <= i <= |phrases| && Cut(i, phrases) && HasToken(rest, i) { assert HasToken(g, i); }
  }

  lemma UsesCutIff(g: Segs, text: string, phrases: seq<string>)
    requires ReadableTable(phrases) && InTable(g, |phrases|) && Clear(g, phrases) && Usable(PhraseRules(phrases))
    requires Render(g) == Applied(text, PhraseRules(phrases))
    ensures UsesCut(text, phrases) <==> !SameForTokens(g, ReadPhrases(phrases), phrases)
  {
    SameForTokensIff(g, phrases);
    if i :| 1 <= i <= |phrases| && Cut(i, phrases) && Spelled(i, Render(g), |phrases|) {
      SpelledIff(i, g, phrases);
      assert HasCut(g, phrases);
    }
    if i :| 1 <= i <= |phrases| && Cut(i, phrases) && HasToken(g, i) {
      SpelledIff(i, g, phrases);
      assert UsesCut(text, phrases);
    }
  }

  /** The header cuts no two phrases to the same word. */
  predicate DistinctCuts(phrases: seq<string>) {
    forall i, j :: 0 <= i < j < |phrases| ==> SeenPhrase(phrases[i]) != SeenPhrase(phrases[j])
  }

  predicate NoneMixed(g: Segs, phrases: seq<string>)
    requires InTable(g, |phrases|)
  {
    match g
    case End => true
    case Ch(_, rest) => NoneMixed(rest, phrases)
    case Tok(i, rest) => !Mixed(i, phrases) && NoneMixed(rest, phrases)
  }

  lemma {:induction false} DistinctIsNotMixed(g: Segs, phrases: seq<string>)
    requires DistinctCuts(phrases) && InTable(g, |phrases|)
    ensures NoneMixed(g, phrases)
  {
    if !g.End? { DistinctIsNotMixed(g.rest, phrases); }
    if g.Tok? { KeptOrCollides(g.i, phrases); }
  }

  /** A text that is safe to substitute in has no phrase with such a digit behind it. */
  lemma {:induction false} SafeIsNotMixed(g: Segs, read: seq<string>, phrases: seq<string>)
    requires |phrases| <= MAX_SUBSTITUTIONS && read == ReadPhrases(phrases) && InTable(g, |phrases|)
    requires SubstitutionSafe(Expand(g, read), phrases) && forall i :: 0 <= i < |read| ==> read[i] != []
    ensures NoneMixed(g, phrases)
  {
    match g
    case End =>
    case Ch(c, rest) =>
      SafeTail([c], Expand(rest, read), phrases);
      SafeIsNotMixed(rest, read, phrases);
    case Tok(i, rest) =>
      SafeTail(read[i - 1], Expand(rest, read), phrases);
      SafeIsNotMixed(rest, read, phrases);
      SafeTokenIsNotMixed(i, read, Expand(rest, read), phrases);
  }

  lemma SafeTokenIsNotMixed(i: nat, read: seq<string>, rest: string, phrases: seq<string>)
    requires 1 <= i <= |phrases| <= MAX_SUBSTITUTIONS && read == ReadPhrases(phrases)
    requires FrontSafe(read[i - 1] + rest, phrases)
    ensures !Mixed(i, phrases)
  {
    if Glued(i, read, phrases) { GluedIsUnsafe(i, rest, phrases); }
  }

  lemma GluedIsUnsafe(i: nat, rest: string, phrases: seq<string>)
    requires 10 <= i <= |phrases| <= MAX_SUBSTITUTIONS
    ensures !FrontSafe(phrases[i / 10 - 1] + [DigitChar(i % 10)] + rest, phrases)
  {
    var p, d := phrases[i / 10 - 1], DigitChar(i % 10);
    var y := p + [d] + rest;
    assert p <= y && y[|p|] == d;
  }

  /** So it is read as itself exactly when every token is read as its phrase, and never with more blanks. */
  lemma {:induction false} ReadsPoorer(g: Segs, phrases: seq<string>)
    requires ReadableTable(phrases) && InTable(g, |phrases|) && NoneMixed(g, phrases)
    ensures var a, b := Expand(g, ReadPhrases(phrases)), Expand(g, phrases);
      && Blanks(a) <= Blanks(b)
      && (SameForTokens(g, ReadPhrases(phrases), phrases) ==> a == b)
      && (!SameForTokens(g, ReadPhrases(phrases), phrases) ==> Blanks(a) < Blanks(b))
  {
    var read := ReadPhrases(phrases);
    match g
    case End =>
    case Ch(c, rest) =>
      ReadsPoorer(rest, phrases);
      BlanksConcat([c], Expand(rest, read));
      BlanksConcat([c], Expand(rest, phrases));
    case Tok(i, rest) =>
      ReadsPoorer(rest, phrases);
      ReadIsPoorer(i, phrases);
      BlanksConcat(read[i - 1], Expand(rest, read));
      BlanksConcat(phrases[i - 1], Expand(rest, phrases));
  }

  lemma ReadIsSomething(phrases: seq<string>)
    requires ReadableTable(phrases)
    ensures forall i :: 0 <= i < |phrases| ==> ReadPhrases(phrases)[i] != []
  {
    SeenTableIsGood(phrases);
  }

  lemma ReversedBySeen(g: Segs, phrases: seq<string>)
    requires ReadableTable(phrases) && Usable(Flipped(BackTable(phrases)))
    requires InTable(g, |phrases|) && Clear(g, phrases)
    ensures Reversed(Render(g), BackTable(phrases)) == Expand(g, ReadPhrases(phrases))
  {
    var seen, flipped := SeenPhrases(phrases), Flipped(BackTable(phrases));
    SeenTableIsGood(phrases);
    FrontsStayClear(g, seen, phrases);
    BackTableFlips(phrases);
    BackTableRules(phrases);
    SortKeepsRules(flipped);
    SortIsDescending(flipped);
    if i, j :| 0 <= i < j < |phrases| && SeenPhrase(phrases[i]) == SeenPhrase(phrases[j]) {
      SeenLetters(phrases);
      PartRestores(g, LongestFirst(flipped), seen);
    } else {
      AllAreRead(phrases);
      FullTableCovers(g, LongestFirst(flipped), seen);
      DecodingRestores(g, LongestFirst(flipped), seen);
    }
  }

  lemma SeenLetters(phrases: seq<string>)
    requires ReadableTable(phrases) && LetterTable(phrases)
    ensures LetterTable(SeenPhrases(phrases))
  {
    SeenTableIsGood(phrases);
    var seen := SeenPhrases(phrases);
    forall p <- seen ensures GoodPhrase(p) {
      var i :| 0 <= i < |seen| && seen[i] == p;
      assert phrases[i] in phrases;
    }
  }

  /** Without two phrases cut to the same word, the decoder's dictionary has every token. */
  lemma AllAreRead(phrases: seq<string>)
    requires forall i, j :: 0 <= i < j < |phrases| ==> SeenPhrase(phrases[i]) != SeenPhrase(phrases[j])
    ensures var rules, seen := LongestFirst(Flipped(BackTable(phrases))), SeenPhrases(phrases);
      ReadPhrases(phrases) == seen && forall i :: 1 <= i <= |phrases| ==> Rule(Token(i), seen[i - 1]) in rules
  {
    var rules, seen := LongestFirst(Flipped(BackTable(phrases))), SeenPhrases(phrases);
    forall k | 0 <= k < |phrases| ensures Has(rules, k + 1, seen) && ReadPhrases(phrases)[k] == seen[k] {
      KeptOrCollides(k + 1, phrases);
    }
    assert ReadPhrases(phrases) == seen;
    forall i | 1 <= i <= |phrases| ensures Rule(Token(i), seen[i - 1]) in rules {
      var k := i - 1;
      assert Has(rules, k + 1, seen);
    }
  }

  /** What decides directly: no token is mistaken, and where two phrases are cut alike, the text is safe to substitute in. */
  predicate Direct(text: string, phrases: seq<string>)
    requires GoodTable(phrases)
  {
    Unmistaken(text, phrases) && (DistinctCuts(phrases) || SubstitutionSafe(text, phrases))
  }

  /** A text that is read back as such a text has no more blanks than that text, and as many only if all its tokens are read. */
  lemma DirectReadsPoorer(g: Segs, text: string, phrases: seq<string>)
    requires ReadableTable(phrases) && InTable(g, |phrases|)
    requires Direct(text, phrases) && Expand(g, ReadPhrases(phrases)) == text
    ensures Blanks(text) <= Blanks(Expand(g, phrases))
    ensures !SameForTokens(g, ReadPhrases(phrases), phrases) ==> Blanks(text) < Blanks(Expand(g, phrases))
  {
    if DistinctCuts(phrases) { DistinctIsNotMixed(g, phrases); } else { SafeIsNotMixed(g, ReadPhrases(phrases), phrases) by { ReadIsSomething(phrases); } }
    ReadsPoorer(g, phrases);
  }

  /** Such a content comes back through the decoder's own dictionary exactly when it uses no phrase that the header cuts. */
  lemma SeenContentIff(text: string, phrases: seq<string>)
    requires ReadableTable(phrases) && Direct(text, phrases)
    requires Usable(PhraseRules(phrases)) && Usable(Flipped(BackTable(phrases)))
    ensures Reversed(Applied(text, PhraseRules(phrases)), BackTable(phrases)) == text <==> !UsesCut(text, phrases)
  {
    var read, g := ReadPhrases(phrases), SegmentsOf(text, phrases);
    SegmentsShape(text, phrases);
    UsesCutIff(g, text, phrases);
    ReversedBySeen(g, phrases);
    if SameForTokens(g, read, phrases) {
      SameExpandsAlike(g, read, phrases);
    } else if Expand(g, read) == text {
      DirectReadsPoorer(g, text, phrases);
    }
  }

  lemma {:induction false} SameExpandsAlike(g: Segs, read: seq<string>, phrases: seq<string>)
    requires |read| == |phrases| && InTable(g, |phrases|) && SameForTokens(g, read, phrases)
    ensures Expand(g, read) == Expand(g, phrases)
  {
    if !g.End? { SameExpandsAlike(g.rest, read, phrases); }
  }

  /** Cut in front of a blank, the encoded form of such a text never comes back in full. */
  lemma CutTextDiffersSeen(text: string, n: nat, phrases: seq<string>)
    requires ReadableTable(phrases) && Direct(text, phrases)
    requires Usable(PhraseRules(phrases)) && Usable(Flipped(BackTable(phrases)))
    requires var t := Applied(text, PhraseRules(phrases)); n < |t| && IsSpace(t[n])
    ensures Reversed(Applied(text, PhraseRules(phrases))[..n], BackTable(phrases)) != text
  {
    SegmentsShape(text, phrases);
    var front := CutFallsBetween(SegmentsOf(text, phrases), n, phrases);
    ReversedBySeen(front, phrases);
    BlanksOfFront(Expand(front, phrases), text);
    if Expand(front, ReadPhrases(phrases)) == text { DirectReadsPoorer(front, text, phrases); }
  }

  /** A header that carries every phrase cuts no content. */
  lemma NothingIsCut(text: string, phrases: seq<string>)
    requires HeaderTable(phrases)
    ensures !UsesCut(text, phrases)
  {
    HeaderTableIsReadable(phrases);
    forall i | 1 <= i <= |phrases| ensures !Cut(i, phrases) {
      assert SeenPhrases(phrases)[i - 1] == SeenPhrase(phrases[i - 1]);
    }
  }
}
