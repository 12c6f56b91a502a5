/**
 Line breaks other than LF and CR: the encoder does not escape them, `splitlines` cuts at them, and so no string the
 decoder returns outside the metadata contains one, whatever blob it is given.
 */
module AaakLineBreaks {
  import opened Text
  import opened AaakSubstitution
  import opened AaakTokens
  import opened AaakRecord
  import opened AaakDocument

  /** No line break except the two the encoder escapes. */
  predicate Breakless(s: string) { forall c <- s :: IsLineBreak(c) ==> c == '\n' || c == '\r' }

  lemma {:induction false} ReplaceBreakless(s: string, pattern: string, replacement: string)
    requires pattern != [] && Breakless(s) && Breakless(replacement)
    ensures Breakless(Replace(s, pattern, replacement))
    decreases |s|
  {
    if s != [] {
      if pattern <= s {
        ReplaceBreakless(s[|pattern|..], pattern, replacement);
      } else {
        assert s[0] in s;
        ReplaceBreakless(s[1..], pattern, replacement);
      }
    }
  }

  lemma {:induction false} RewriteBreakless(s: string, rules: seq<Rule>)
    requires Usable(rules) && Breakless(s) && forall r <- rules :: Breakless(r.to)
    ensures Breakless(Rewrite(s, rules))
    decreases |rules|
  {
    if rules != [] {
      assert rules[0] in rules;
      assert forall r <- rules[1..] :: r in rules;
      ReplaceBreakless(s, rules[0].from, rules[0].to);
      RewriteBreakless(Replace(s, rules[0].from, rules[0].to), rules[1..]);
    }
  }

  lemma {:induction false} PutMembers(d: seq<Rule>, r: Rule)
    ensures forall x <- Put(d, r) :: x == r || x in d
  {
    if d != [] && d[0].from != r.from { PutMembers(d[1..], r); }
  }

  lemma {:induction false} PutAllMembers(d: seq<Rule>, rules: seq<Rule>)
    ensures forall x <- PutAll(d, rules) :: x in d || x in rules
    decreases |rules|
  {
    if rules != [] {
      PutMembers(d, rules[0]);
      PutAllMembers(Put(d, rules[0]), rules[1..]);
    }
  }

  predicate BreaklessPhrases(table: seq<Rule>) { forall r <- table :: Breakless(r.from) }

  lemma ReversedBreakless(s: string, table: seq<Rule>)
    requires Usable(Flipped(table)) && Breakless(s) && BreaklessPhrases(table)
    ensures Breakless(Reversed(s, table))
  {
    PutAllKeepsUsable([], Flipped(table));
    SortKeepsRules(Inverted(table));
    PutAllMembers([], Flipped(table));
    forall r <- LongestFirst(Inverted(table)) ensures Breakless(r.to) {
      assert r in Flipped(table);
      var i :| 0 <= i < |table| && Flipped(table)[i] == r;
      assert table[i] in table;
    }
    RewriteBreakless(s, LongestFirst(Inverted(table)));
  }

  lemma {:induction false} UnescapedBreakless(inner: string)
    requires Breakless(inner)
    ensures Breakless(Unescaped(inner))
    decreases |inner|
  {
    if inner != [] {
      assert inner[0] in inner;
      if inner[0] == '\\' && |inner| > 1 {
        assert inner[1] in inner;
        UnescapedBreakless(inner[2..]);
      } else {
        UnescapedBreakless(inner[1..]);
      }
    }
  }

  lemma UnescapeBreakless(raw: string)
    requires Breakless(raw)
    ensures Unescape(raw).Some? ==> Breakless(Unescape(raw).value)
  {
    UnescapedBreakless(Inner(raw));
  }

  lemma {:induction false} FindAllBreakless(s: string)
    requires Breakless(s)
    ensures forall p <- FindAll(s) :: Breakless(p.raw)
    decreases |s|
  {
    if s != [] {
      match TokenAtFront(s)
      case Some(hit) => FindAllBreakless(s[hit.1..]);
      case None => FindAllBreakless(s[1..]);
    }
  }

  lemma {:induction false} FindSubsBreakless(s: string)
    requires Breakless(s)
    ensures forall p <- FindSubs(s) :: Breakless(p.raw)
    decreases |s|
  {
    if s != [] {
      match SubAtFront(s)
      case Some(hit) => FindSubsBreakless(s[hit.1..]);
      case None => FindSubsBreakless(s[1..]);
    }
  }

  lemma StripBreakless(s: string)
    requires Breakless(s)
    ensures Breakless(Strip(s))
  {
    var l := StripLeft(s);
    StripLeftIsEnd(s);
    assert forall c <- l :: c in s;
    StripRightIsFront(l);
    assert forall c <- StripRight(l) :: c in l;
  }

  lemma {:induction false} AddSubsBreakless(table: seq<Rule>, subs: seq<Pair>)
    requires BreaklessPhrases(table) && forall p <- subs :: Breakless(p.raw)
    ensures BreaklessPhrases(AddSubs(table, subs))
    decreases |subs|
  {
    if subs != [] {
      assert subs[0] in subs;
      UnescapeBreakless(subs[0].raw);
      match Unescape(subs[0].raw)
      case None => AddSubsBreakless(table, subs[1..]);
      case Some(phrase) =>
        PutMembers(table, Rule(phrase, subs[0].alias));
        AddSubsBreakless(Put(table, Rule(phrase, subs[0].alias)), subs[1..]);
    }
  }

  ghost predicate BreaklessMemory<J>(mem: Memory<J>) {
    forall f <- mem :: f != Metadata && mem[f].Str? ==> Breakless(mem[f].s)
  }

  lemma {:induction false} ReadPairsBreakless<J>(acc: Memory<J>, pairs: seq<Pair>, table: seq<Rule>, codec: JsonCodec<J>)
    requires Usable(Flipped(table)) && BreaklessPhrases(table)
    requires BreaklessMemory(acc) && forall p <- pairs :: Breakless(p.raw)
    ensures BreaklessMemory(ReadPairs(acc, pairs, table, codec))
    decreases |pairs|
  {
    if pairs != [] {
      var raw := pairs[0].raw;
      assert pairs[0] in pairs;
      assert forall p <- pairs[1..] :: p in pairs;
      UnescapeBreakless(raw);
      match FieldOf(pairs[0].alias)
      case None => ReadPairsBreakless(acc, pairs[1..], table, codec);
      case Some(f) =>
        var v := DecodedValue(f, raw, table, codec);
        if Unescape(raw).Some? { ReversedBreakless(Unescape(raw).value, table); }
        assert f != Metadata && v.Str? ==> Breakless(v.s);
        ReadPairsBreakless(acc[f := v], pairs[1..], table, codec);
    }
  }

  ghost predicate BreaklessDecoder<J>(d: Decoder<J>) {
    BreaklessPhrases(d.table) && forall m <- d.memories :: BreaklessMemory(m)
  }

  lemma DictionaryBreakless(line: string, table: seq<Rule>)
    requires BreaklessPhrases(table) && Breakless(line)
    ensures BreaklessPhrases(AddSubs(table, FindSubs(line)))
  {
    FindSubsBreakless(line);
    AddSubsBreakless(table, FindSubs(line));
  }

  lemma RecordBreakless<J>(line: string, table: seq<Rule>, codec: JsonCodec<J>)
    requires Usable(Flipped(table)) && BreaklessPhrases(table) && Breakless(line) && line != []
    ensures BreaklessMemory(ParsedLine(line, table, codec))
  {
    var body := Strip(line[1..]);
    assert forall c <- line[1..] :: c in line;
    StripBreakless(line[1..]);
    FindAllBreakless(body);
    ReadPairsBreakless(map[], FindAll(body), table, codec);
  }

  lemma DecodeLineBreakless<J>(d: Decoder<J>, rawLine: string, codec: JsonCodec<J>)
    requires ValidDecoder(d) && BreaklessDecoder(d) && NoLineBreak(rawLine)
    ensures BreaklessDecoder(DecodeLine(d, rawLine, codec))
  {
    var line := Strip(rawLine);
    StripBreakless(rawLine);
    match KindOf(line)
    case Dictionary => DictionaryBreakless(line, d.table);
    case Record => RecordBreakless(line, d.table, codec);
    case _ =>
  }

  lemma {:induction false} DecodeLinesBreakless<J>(d: Decoder<J>, lines: seq<string>, codec: JsonCodec<J>)
    requires ValidDecoder(d) && BreaklessDecoder(d) && forall l <- lines :: NoLineBreak(l)
    ensures BreaklessDecoder(DecodeLines(d, lines, codec))
    decreases |lines|
  {
    if lines != [] && !d.done {
      assert lines[0] in lines;
      DecodeLineBreakless(d, lines[0], codec);
      DecodeLinesBreakless(DecodeLine(d, lines[0], codec), lines[1..], codec);
    }
  }

  lemma {:induction false} SplitLinesHaveNoBreaks(s: string)
    ensures forall l <- SplitLines(s) :: NoLineBreak(l)
    decreases |s|
  {
    if s != [] {
      var n := LineEnd(s);
      if n == |s| {
        assert s[..n] == s;
      } else {
        var skip := if s[n] == '\r' && n + 1 < |s| && s[n + 1] == '\n' then 2 else 1;
        SplitLinesHaveNoBreaks(s[n + skip..]);
      }
    }
  }

  /** For every blob: no decoded string outside the metadata holds a line break other than LF and CR. */
  lemma DecodedIsBreakless<J>(blob: string, codec: JsonCodec<J>)
    ensures var r := DecodedBlob(blob, codec);
      r.Memories? ==> forall m <- r.memories :: BreaklessMemory(m)
  {
    SplitLinesHaveNoBreaks(blob);
    DecodeLinesBreakless(Start<J>(), SplitLines(blob), codec);
  }
}
