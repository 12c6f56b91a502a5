/**
 What the decoder's passes read in any text whatever (kemory/compression/aaak.py:113-120), for phrases that do not start
 with a digit: from left to right, a dollar and as many digits as make a token of the table.
 */
module AaakParse {
  import opened Text
  import opened AaakSubstitution
  import opened AaakSegments

  /** The number that a dollar and the digits behind it make, 0 for none of the table. */
  function NumberAtFront(t: string, n: nat): nat {
    if |t| < 2 || t[0] != '$' || !IsDigit(t[1]) || !(1 <= DigitValue(t[1]) <= n) then 0
    else if |t| > 2 && IsDigit(t[2]) && 10 * DigitValue(t[1]) + DigitValue(t[2]) <= n
    then 10 * DigitValue(t[1]) + DigitValue(t[2])
    else DigitValue(t[1])
  }

  lemma NumberIsToken(t: string, n: nat)
    requires n < 100
    ensures var i := NumberAtFront(t, n); i <= n && (i > 0 ==> Token(i) <= t)
  {
    var i := NumberAtFront(t, n);
    if i >= 10 {
      DecimalOfTwoDigits(i);
      assert t[..3] == Token(i);
    } else if i > 0 {
      DecimalOfOneDigit(i);
      assert t[..2] == Token(i);
    }
  }

  function Parse(t: string, n: nat): Segs
    requires n < 100
  {
    if t == [] then End
    else
      var i := NumberAtFront(t, n);
      NumberIsToken(t, n);
      if i > 0 then Tok(i, Parse(t[|Token(i)|..], n)) else Ch(t[0], Parse(t[1..], n))
  }

  lemma {:induction false} ParseRenders(t: string, n: nat)
    requires n < 100
    ensures Render(Parse(t, n)) == t && InTable(Parse(t, n), n)
  {
    if t != [] {
      var i := NumberAtFront(t, n);
      NumberIsToken(t, n);
      ParseRenders(if i > 0 then t[|Token(i)|..] else t[1..], n);
    }
  }

  /** A digit in front of what the parse stands for is in front of the text. */
  lemma ParsedDigit(t: string, phrases: seq<string>)
    requires LetterTable(phrases) && InTable(Parse(t, |phrases|), |phrases|)
    ensures var s := Expand(Parse(t, |phrases|), phrases); s != [] && IsDigit(s[0]) ==> t != [] && t[0] == s[0]
  {
    var g := Parse(t, |phrases|);
    if g.Tok? { assert phrases[g.i - 1] in phrases && Expand(g, phrases)[0] == phrases[g.i - 1][0]; }
  }

  lemma NumberIsLongest(t: string, n: nat)
    requires n <= MAX_SUBSTITUTIONS
    ensures var i := NumberAtFront(t, n);
      if i > 0 then Token(i) <= t && TokenClear(i, t[|Token(i)|..], n) else t != [] ==> CharClear(t[0], t[1..], n)
  {
    var i := NumberAtFront(t, n);
    NumberIsToken(t, n);
    if 0 < i < 10 {
      DecimalOfOneDigit(i);
      assert |t| > 2 ==> t[2..][0] == t[2];
    }
  }

  lemma {:induction false} ParseIsClear(t: string, phrases: seq<string>)
    requires LetterTable(phrases)
    ensures var g := Parse(t, |phrases|); InTable(g, |phrases|) && Clear(g, phrases)
  {
    ParseRenders(t, |phrases|);
    if t != [] {
      var i := NumberAtFront(t, |phrases|);
      NumberIsLongest(t, |phrases|);
      var rest := if i > 0 then t[|Token(i)|..] else t[1..];
      ParseIsClear(rest, phrases);
      ParsedDigit(rest, phrases);
    }
  }

  /** The decoder reads what the parse stands for, in texts the encoder wrote and in all others. */
  lemma DecoderReads(t: string, phrases: seq<string>)
    requires LetterTable(phrases)
    ensures Usable(Flipped(PhraseRules(phrases))) && InTable(Parse(t, |phrases|), |phrases|)
    ensures Reversed(t, PhraseRules(phrases)) == Expand(Parse(t, |phrases|), phrases)
  {
    TableUsable(phrases);
    ParseIsClear(t, phrases);
    ParseRenders(t, |phrases|);
    ClearSegmentsReverse(Parse(t, |phrases|), phrases);
  }

  // ---- exactly when a text comes back ----

  /** No phrase starts with a shorter token's phrase and the digit that makes the longer token, nor the other way round. */
  ghost predicate Distinguishable(phrases: seq<string>) { forall i, d :: Apart(i, d, phrases) }

  predicate Apart(i: nat, d: nat, phrases: seq<string>) {
    1 <= i < 10 && d < 10 && 10 * i + d <= |phrases| ==> Differ(phrases[10 * i + d - 1], phrases[i - 1], d)
  }

  predicate Differ(q: string, p: string, d: nat)
    requires d < 10
  {
    !(q <= p + [DigitChar(d)]) && !(p + [DigitChar(d)] <= q)
  }

  lemma FrontsComparable(a: string, x: string, b: string, y: string)
    requires a + x == b + y
    ensures a <= b || b <= a
  {
    if |a| <= |b| {
      assert a == (a + x)[..|a|] == (b + y)[..|a|] == b[..|a|];
    } else {
      assert b == (b + y)[..|b|] == (a + x)[..|b|] == a[..|b|];
    }
  }

  lemma SameRest(a: string, x: string, y: string)
    requires a + x == a + y
    ensures x == y
  {
    assert x == (a + x)[|a|..] && y == (a + y)[|a|..];
  }

  /** The parse of what was rendered stands for the same text only if it is the same. */
  lemma {:induction false} ParsedAlike(g: Segs, phrases: seq<string>)
    requires LetterTable(phrases) && Distinguishable(phrases) && InTable(g, |phrases|)
    requires InTable(Parse(Render(g), |phrases|), |phrases|)
    requires Expand(Parse(Render(g), |phrases|), phrases) == Expand(g, phrases)
    ensures Parse(Render(g), |phrases|) == g
  {
    var t, n := Render(g), |phrases|;
    match g
    case End =>
    case Ch(c, rest) =>
      CharParsedAlike(c, rest, phrases);
      assert t[1..] == Render(rest);
      SameRest([c], Expand(Parse(Render(rest), n), phrases), Expand(rest, phrases));
      ParsedAlike(rest, phrases);
    case Tok(i, rest) =>
      TokenParsedAlike(i, rest, phrases);
      assert t[|Token(i)|..] == Render(rest);
      SameRest(phrases[i - 1], Expand(Parse(Render(rest), n), phrases), Expand(rest, phrases));
      ParsedAlike(rest, phrases);
  }

  lemma CharParsedAlike(c: char, rest: Segs, phrases: seq<string>)
    requires LetterTable(phrases) && InTable(rest, |phrases|)
    requires InTable(Parse(Render(Ch(c, rest)), |phrases|), |phrases|)
    requires Expand(Parse(Render(Ch(c, rest)), |phrases|), phrases) == Expand(Ch(c, rest), phrases)
    ensures NumberAtFront(Render(Ch(c, rest)), |phrases|) == 0
  {
    var t := [c] + Render(rest);
    if NumberAtFront(t, |phrases|) > 0 { FrontIsNoDollar(t, phrases); }
  }

  lemma FrontIsNoDollar(t: string, phrases: seq<string>)
    requires LetterTable(phrases) && InTable(Parse(t, |phrases|), |phrases|) && NumberAtFront(t, |phrases|) > 0
    ensures t[0] == '$' && var s := Expand(Parse(t, |phrases|), phrases); s != [] && s[0] != '$'
  {
    var m := NumberAtFront(t, |phrases|);
    NumberIsToken(t, |phrases|);
    assert phrases[m - 1] in phrases && phrases[m - 1][0] in phrases[m - 1];
    assert Expand(Parse(t, |phrases|), phrases)[0] == phrases[m - 1][0];
  }

  lemma NumberOfFront(i: nat, rest: string, n: nat)
    requires 1 <= i <= n <= MAX_SUBSTITUTIONS
    ensures NumberAtFront(Token(i) + rest, n) ==
            if i < 10 && rest != [] && IsDigit(rest[0]) && 10 * i + DigitValue(rest[0]) <= n then 10 * i + DigitValue(rest[0]) else i
  {
    var t := Token(i) + rest;
    if i < 10 {
      DecimalOfOneDigit(i);
      assert t[1] == DigitChar(i) && (rest != [] ==> t[2] == rest[0]);
    } else {
      DecimalOfTwoDigits(i);
      assert t[1] == DigitChar(i / 10) && t[2] == DigitChar(i % 10);
    }
  }

  lemma TokenParsedAlike(i: nat, rest: Segs, phrases: seq<string>)
    requires LetterTable(phrases) && Distinguishable(phrases) && InTable(Tok(i, rest), |phrases|)
    requires InTable(Parse(Render(Tok(i, rest)), |phrases|), |phrases|)
    requires Expand(Parse(Render(Tok(i, rest)), |phrases|), phrases) == Expand(Tok(i, rest), phrases)
    ensures NumberAtFront(Render(Tok(i, rest)), |phrases|) == i
  {
    var behind, n := Render(rest), |phrases|;
    NumberOfFront(i, behind, n);
    if i < 10 && behind != [] && IsDigit(behind[0]) && 10 * i + DigitValue(behind[0]) <= n {
      FirstRendered(rest, phrases);
      TakenDigit(i, DigitValue(behind[0]), rest, phrases);
    }
  }

  lemma TakenDigit(i: nat, d: nat, rest: Segs, phrases: seq<string>)
    requires LetterTable(phrases) && InTable(Tok(i, rest), |phrases|) && i < 10 && d < 10 && 10 * i + d <= |phrases|
    requires Render(rest) != [] && Render(rest)[0] == DigitChar(d)
    requires Expand(rest, phrases) != [] && Expand(rest, phrases)[0] == DigitChar(d)
    requires InTable(Parse(Render(Tok(i, rest)), |phrases|), |phrases|)
    requires Expand(Parse(Render(Tok(i, rest)), |phrases|), phrases) == Expand(Tok(i, rest), phrases)
    ensures !Apart(i, d, phrases)
  {
    TakenNumber(i, d, Render(rest), |phrases|);
    TokenComparable(Token(i) + Render(rest), 10 * i + d, phrases[i - 1], Expand(rest, phrases), DigitChar(d), phrases);
  }

  lemma TakenNumber(i: nat, d: nat, behind: string, n: nat)
    requires 1 <= i < 10 && d < 10 && 10 * i + d <= n <= MAX_SUBSTITUTIONS && behind != [] && behind[0] == DigitChar(d)
    ensures NumberAtFront(Token(i) + behind, n) == 10 * i + d
  {
    NumberOfFront(i, behind, n);
  }

  lemma TokenComparable(t: string, m: nat, p: string, meant: string, c: char, phrases: seq<string>)
    requires |phrases| < 100 && t != [] && 0 < m <= |phrases| && NumberAtFront(t, |phrases|) == m
    requires InTable(Parse(t, |phrases|), |phrases|) && Expand(Parse(t, |phrases|), phrases) == p + meant
    requires meant != [] && meant[0] == c
    ensures phrases[m - 1] <= p + [c] || p + [c] <= phrases[m - 1]
  {
    ParsedToken(t, m, phrases);
    DigitMoved(p, meant, c);
    FrontsComparable(phrases[m - 1], Expand(Parse(t[|Token(m)|..], |phrases|), phrases), p + [c], meant[1..]);
  }

  lemma ParsedToken(t: string, m: nat, phrases: seq<string>)
    requires |phrases| < 100 && t != [] && 0 < m == NumberAtFront(t, |phrases|) && InTable(Parse(t, |phrases|), |phrases|)
    ensures Token(m) <= t && InTable(Parse(t[|Token(m)|..], |phrases|), |phrases|)
    ensures Expand(Parse(t, |phrases|), phrases) == phrases[m - 1] + Expand(Parse(t[|Token(m)|..], |phrases|), phrases)
  {
    NumberIsToken(t, |phrases|);
  }

  lemma DigitMoved(p: string, rest: string, c: char)
    requires rest != [] && rest[0] == c
    ensures p + rest == (p + [c]) + rest[1..]
  {}

  /**
   Every text, whatever its phrases, dollars and digits: it comes back exactly when no token is mistaken, for phrases that
   do not start with a digit and can be told apart.
   */
  lemma LetterTextSurvivesIff(text: string, phrases: seq<string>)
    requires LetterTable(phrases) && Distinguishable(phrases)
    ensures Usable(PhraseRules(phrases)) && Usable(Flipped(PhraseRules(phrases)))
    ensures Reversed(Applied(text, PhraseRules(phrases)), PhraseRules(phrases)) == text <==> Unmistaken(text, phrases)
  {
    TableUsable(phrases);
    var g, t := SegmentsOf(text, phrases), Applied(text, PhraseRules(phrases));
    SegmentsShape(text, phrases);
    LetterTextIsClean(text, phrases);
    DecoderReads(t, phrases);
    if Unmistaken(text, phrases) { SubstitutionRoundTrip(text, phrases); }
    if Reversed(t, PhraseRules(phrases)) == text {
      ParsedAlike(g, phrases);
      ParseIsClear(t, phrases);
    }
  }
}
