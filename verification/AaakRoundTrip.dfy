/**
 "Every memory dict round-trips exactly" (kemory/compression/aaak.py:10, 232-289): which documents do, and which do
 not.
 */
module AaakRoundTrip {
  import opened Text
  import opened AaakSubstitution
  import opened AaakSegments
  import opened AaakTokens
  import opened AaakRecord
  import opened AaakDocument
  import opened AaakHeader
  import opened AaakLineBreaks

  // ---- the lines of a document have no line break ----

  lemma {:induction false} EscapedHasNoLineBreak(s: string)
    requires Breakless(s)
    ensures NoLineBreak(Escaped(s))
  {
    if s == [] {
      assert Escaped(s) == [];
    } else {
      EscapedCons(s);
      assert s[0] in s;
      assert NoLineBreak(EscapedChar(s[0]));
      EscapedHasNoLineBreak(s[1..]);
    }
  }

  lemma WrittenHasNoLineBreak(s: string)
    requires Breakless(s)
    ensures NoLineBreak(Written(s))
  {
    if NeedsQuoting(s) {
      EscapedHasNoLineBreak(s);
    } else {
      assert forall c <- s :: !IsSpecial(c);
    }
  }

  /** The texts a memory puts on its line hold no line break but LF and CR. */
  ghost predicate CleanMemory<J>(mem: Memory<J>, table: seq<Rule>)
    requires Usable(table)
  {
    forall f <- mem :: !f.Unknown? && mem[f].Str? ==>
      Breakless(if f == Content then Applied(mem[f].s, table) else mem[f].s)
  }

  lemma PartHasNoLineBreak<J(!new)>(mem: Memory<J>, f: Field, table: seq<Rule>, codec: JsonCodec<J>)
    requires Usable(table) && CleanMemory(mem, table) && Sound(codec) && f in mem && !f.Unknown?
    ensures NoLineBreak(Part(f, mem[f], table, codec))
  {
    AliasesAreInvertible(f);
    match mem[f]
    case Null =>
    case Str(s) => WrittenHasNoLineBreak(PlainText(f, mem[f], table, codec));
    case Json(j) =>
      assert Printable(codec.text(j));
      WrittenHasNoLineBreak(PlainText(f, mem[f], table, codec));
  }

  lemma {:induction false} PartsHaveNoLineBreak<J(!new)>(mem: Memory<J>, fields: seq<Field>, table: seq<Rule>,
                                                         codec: JsonCodec<J>)
    requires Usable(table) && CleanMemory(mem, table) && Sound(codec) && forall f <- fields :: !f.Unknown?
    ensures forall p <- Parts(mem, fields, table, codec) :: NoLineBreak(p)
  {
    if fields != [] {
      assert forall g <- fields[1..] :: g in fields;
      assert fields[0] in fields;
      PartsHaveNoLineBreak(mem, fields[1..], table, codec);
      if fields[0] in mem { PartHasNoLineBreak(mem, fields[0], table, codec); }
    }
  }

  lemma {:induction false} SpacedHasNoLineBreak(parts: seq<string>)
    requires forall p <- parts :: NoLineBreak(p)
    ensures NoLineBreak(Spaced(parts))
  {
    if parts != [] {
      assert parts[0] in parts;
      SpacedHasNoLineBreak(parts[1..]);
    }
  }

  lemma SerialisedHasNoLineBreak<J(!new)>(mem: Memory<J>, table: seq<Rule>, codec: JsonCodec<J>)
    requires Usable(table) && CleanMemory(mem, table) && Sound(codec)
    ensures NoLineBreak(Serialised(mem, table, codec))
  {
    PartsHaveNoLineBreak(mem, KNOWN, table, codec) by {
      forall f <- KNOWN ensures !f.Unknown? { KnownIsKnown(f); }
    }
    SpacedHasNoLineBreak(Parts(mem, KNOWN, table, codec));
  }

  lemma {:induction false} MemoryLinesHaveNoLineBreak<J(!new)>(ms: seq<Memory<J>>, table: seq<Rule>, codec: JsonCodec<J>)
    requires Usable(table) && Sound(codec) && forall m <- ms :: CleanMemory(m, table)
    ensures forall l <- MemoryLines(ms, table, codec) :: NoLineBreak(l)
  {
    if ms != [] {
      assert ms[0] in ms;
      SerialisedHasNoLineBreak(ms[0], table, codec);
      MemoryLinesHaveNoLineBreak(ms[1..], table, codec);
    }
  }

  lemma {:induction false} SubPartsHaveNoLineBreak(phrases: seq<string>, from: nat)
    requires BreaklessTable(phrases) && from <= |phrases|
    ensures forall p <- SubParts(phrases, from) :: NoLineBreak(p)
    decreases |phrases| - from
  {
    if from < |phrases| {
      assert phrases[from] in phrases;
      WrittenHasNoLineBreak(phrases[from]);
      assert NoLineBreak(Token(from + 1));
      SubPartsHaveNoLineBreak(phrases, from + 1);
    }
  }

  lemma LinesHaveNoLineBreak<J(!new)>(ms: seq<Memory<J>>, phrases: seq<string>, codec: JsonCodec<J>)
    requires GoodTable(phrases) && BreaklessTable(phrases) && Sound(codec)
    requires Usable(PhraseRules(phrases)) && forall m <- ms :: CleanMemory(m, PhraseRules(phrases))
    ensures forall l <- Lines(ms, phrases, codec) :: NoLineBreak(l)
  {
    SubPartsHaveNoLineBreak(phrases, 0);
    SpacedHasNoLineBreak(SubParts(phrases, 0));
    MemoryLinesHaveNoLineBreak(ms, PhraseRules(phrases), codec);
    assert NoLineBreak(HEADER) && NoLineBreak(FOOTER) && NoLineBreak(SUB_HEADER);
  }

  // ---- the kinds of line ----

  lemma KindOfDictionary(line: string)
    requires SUB_HEADER <= line
    ensures KindOf(line) == Dictionary
  {
    assert line[1] == SUB_HEADER[1] == 's' && HEADER[1] == 'a' && FOOTER[1] == 'e';
  }

  lemma KindOfRecord(line: string)
    requires line != [] && line[0] == 'M' && (|line| > 1 ==> line[1] == ' ')
    ensures KindOf(line) == Record
  {
    assert HEADER[0] == FOOTER[0] == SUB_HEADER[0] == '@';
    if |line| > 1 {
      assert line[..2] == "M ";
    } else {
      assert line == "M";
    }
  }

  lemma HeaderKind()
    ensures KindOf(Strip(HEADER)) == Header
  {
    assert HEADER[0] == '@' && HEADER[|HEADER| - 1] == '1';
    AtLineStays(HEADER);
  }

  lemma AtLineStays(s: string)
    requires s != [] && s[0] == '@' && (s[|s| - 1] == 'd' || s[|s| - 1] == '1')
    ensures Strip(s) == s
  {
    StripIsIdentity(s);
  }

  lemma FooterKind()
    ensures KindOf(Strip(FOOTER)) == Footer
  {
    assert FOOTER[0] == '@' && FOOTER[|FOOTER| - 1] == 'd';
    AtLineStays(FOOTER);
    assert |FOOTER| == 4 && |HEADER| == 9;
  }

  lemma HeaderIsRead<J>(d: Decoder<J>, line: string, codec: JsonCodec<J>)
    requires ValidDecoder(d) && KindOf(Strip(line)) == Header
    ensures DecodeLine(d, line, codec) == d.(sawHeader := true)
  {}

  lemma FooterIsRead<J>(d: Decoder<J>, line: string, codec: JsonCodec<J>)
    requires ValidDecoder(d) && KindOf(Strip(line)) == Footer
    ensures DecodeLine(d, line, codec) == d.(done := true)
  {}

  lemma DictionaryIsRead<J>(d: Decoder<J>, line: string, table: seq<Rule>, codec: JsonCodec<J>)
    requires ValidDecoder(d) && KindOf(Strip(line)) == Dictionary && AddSubs(d.table, FindSubs(Strip(line))) == table
    ensures DecodeLine(d, line, codec) == d.(table := table)
  {}

  lemma RecordIsRead<J>(d: Decoder<J>, line: string, codec: JsonCodec<J>)
    requires ValidDecoder(d) && KindOf(Strip(line)) == Record && Strip(line) != []
    ensures DecodeLine(d, line, codec) == AddRecord(d, Strip(line), codec)
  {}

  lemma RecordAdded<J>(d: Decoder<J>, line: string, mem: Memory<J>, codec: JsonCodec<J>)
    requires ValidDecoder(d) && line != [] && ParsedLine(line, d.table, codec) == mem
    ensures AddRecord(d, line, codec) == d.(memories := d.memories + [mem])
  {}

  // ---- clean documents: what the decoder returns ----

  function SeenMemories<J>(ms: seq<Memory<J>>, table: seq<Rule>, back: seq<Rule>, codec: JsonCodec<J>): seq<Memory<J>>
    requires Usable(table) && Usable(Flipped(back))
  {
    if ms == [] then [] else [SeenFields(ms[0], KNOWN, table, back, codec)] + SeenMemories(ms[1..], table, back, codec)
  }

  lemma DecodeLinesStep<J>(d: Decoder<J>, line: string, d': Decoder<J>, lines: seq<string>, codec: JsonCodec<J>)
    requires ValidDecoder(d) && !d.done && d' == DecodeLine(d, line, codec)
    ensures DecodeLines(d, [line] + lines, codec) == DecodeLines(d', lines, codec)
  {
    assert ([line] + lines)[1..] == lines;
  }

  lemma RecordStep<J>(d: Decoder<J>, line: string, mem: Memory<J>, lines: seq<string>, codec: JsonCodec<J>)
    requires ValidDecoder(d) && !d.done && KindOf(Strip(line)) == Record && Strip(line) != []
    requires ParsedLine(Strip(line), d.table, codec) == mem
    ensures DecodeLines(d, [line] + lines, codec) == DecodeLines(d.(memories := d.memories + [mem]), lines, codec)
  {
    RecordIsRead(d, line, codec);
    RecordAdded(d, Strip(line), mem, codec);
    DecodeLinesStep(d, line, d.(memories := d.memories + [mem]), lines, codec);
  }

  lemma FooterStep<J>(d: Decoder<J>, line: string, codec: JsonCodec<J>)
    requires ValidDecoder(d) && !d.done && KindOf(Strip(line)) == Footer
    ensures DecodeLines(d, [line], codec) == d.(done := true)
  {
    FooterIsRead(d, line, codec);
    DecodeLinesStep(d, line, d.(done := true), [], codec);
    assert [line] + [] == [line];
  }

  lemma HeaderStep<J>(d: Decoder<J>, line: string, lines: seq<string>, codec: JsonCodec<J>)
    requires ValidDecoder(d) && !d.done && KindOf(Strip(line)) == Header
    ensures DecodeLines(d, [line] + lines, codec) == DecodeLines(d.(sawHeader := true), lines, codec)
  {
    HeaderIsRead(d, line, codec);
    DecodeLinesStep(d, line, d.(sawHeader := true), lines, codec);
  }

  lemma DictionaryStep<J>(d: Decoder<J>, line: string, table: seq<Rule>, lines: seq<string>, codec: JsonCodec<J>)
    requires ValidDecoder(d) && !d.done && KindOf(Strip(line)) == Dictionary && Usable(Flipped(table))
    requires AddSubs(d.table, FindSubs(Strip(line))) == table
    ensures DecodeLines(d, [line] + lines, codec) == DecodeLines(d.(table := table), lines, codec)
  {
    DictionaryIsRead(d, line, table, codec);
    DecodeLinesStep(d, line, d.(table := table), lines, codec);
  }

  lemma {:induction false} MemoryLinesAreRead<J>(d: Decoder<J>, ms: seq<Memory<J>>, table: seq<Rule>,
                                                 codec: JsonCodec<J>)
    requires Usable(table) && ValidDecoder(d) && d.sawHeader && !d.done
    ensures DecodeLines(d, MemoryLines(ms, table, codec) + [FOOTER], codec)
            == d.(memories := d.memories + SeenMemories(ms, table, d.table, codec), done := true)
    decreases |ms|
  {
    if ms == [] {
      assert MemoryLines(ms, table, codec) + [FOOTER] == [FOOTER];
      FooterKind();
      FooterStep(d, FOOTER, codec);
    } else {
      var line, seen := Serialised(ms[0], table, codec), SeenFields(ms[0], KNOWN, table, d.table, codec);
      var rest := MemoryLines(ms[1..], table, codec);
      MemoryStep(d, ms[0], rest + [FOOTER], table, codec);
      MemoryLinesAreRead(d.(memories := d.memories + [seen]), ms[1..], table, codec);
      assert MemoryLines(ms, table, codec) + [FOOTER] == [line] + (rest + [FOOTER]) by { ConsThenFooter(line, rest, FOOTER); }
      AppendCons(d.memories, seen, SeenMemories(ms[1..], table, d.table, codec));
    }
  }

  lemma MemoryStep<J>(d: Decoder<J>, m: Memory<J>, lines: seq<string>, table: seq<Rule>, codec: JsonCodec<J>)
    requires ValidDecoder(d) && Usable(table) && !d.done
    ensures DecodeLines(d, [Serialised(m, table, codec)] + lines, codec)
         == DecodeLines(d.(memories := d.memories + [SeenFields(m, KNOWN, table, d.table, codec)]), lines, codec)
  {
    var line := Serialised(m, table, codec);
    LineReadsBack(m, table, d.table, codec);
    KindOfRecord(Strip(line));
    RecordStep(d, line, SeenFields(m, KNOWN, table, d.table, codec), lines, codec);
  }

  lemma ConsThenFooter(line: string, rest: seq<string>, footer: string)
    ensures [line] + rest + [footer] == [line] + (rest + [footer])
  {}

  lemma LinesBehindHeader<J>(ms: seq<Memory<J>>, phrases: seq<string>, codec: JsonCodec<J>)
    requires GoodTable(phrases) && Usable(PhraseRules(phrases))
    ensures var tail := MemoryLines(ms, PhraseRules(phrases), codec) + [FOOTER];
      Lines(ms, phrases, codec) == [HEADER] + if ms != [] && phrases != [] then [SubLine(phrases)] + tail else tail
  {}

  lemma DocumentLinesAreRead<J>(ms: seq<Memory<J>>, phrases: seq<string>, codec: JsonCodec<J>)
    requires ReadableTable(phrases) && Usable(PhraseRules(phrases)) && Usable(Flipped(BackTable(phrases)))
    ensures var end := DecodeLines(Start<J>(), Lines(ms, phrases, codec), codec);
      end.sawHeader && end.memories == SeenMemories(ms, PhraseRules(phrases), BackTable(phrases), codec)
  {
    var table, start := PhraseRules(phrases), Start<J>();
    var d := start.(sawHeader := true);
    var tail := MemoryLines(ms, table, codec) + [FOOTER];
    var afterHeader := if ms != [] && phrases != [] then [SubLine(phrases)] + tail else tail;
    LinesBehindHeader(ms, phrases, codec);
    HeaderKind();
    HeaderStep(start, HEADER, afterHeader, codec);
    TailIsRead(d, ms, phrases, codec);
  }

  lemma TailIsRead<J>(d: Decoder<J>, ms: seq<Memory<J>>, phrases: seq<string>, codec: JsonCodec<J>)
    requires ReadableTable(phrases) && Usable(PhraseRules(phrases)) && Usable(Flipped(BackTable(phrases)))
    requires ValidDecoder(d) && d.table == [] && d.memories == [] && d.sawHeader && !d.done
    ensures var tail := MemoryLines(ms, PhraseRules(phrases), codec) + [FOOTER];
      var end := DecodeLines(d, if ms != [] && phrases != [] then [SubLine(phrases)] + tail else tail, codec);
      end.sawHeader && end.memories == SeenMemories(ms, PhraseRules(phrases), BackTable(phrases), codec)
  {
    var table := PhraseRules(phrases);
    var tail := MemoryLines(ms, table, codec) + [FOOTER];
    if ms == [] {
      assert tail == [FOOTER];
      FooterKind();
      FooterStep(d, FOOTER, codec);
    } else if phrases == [] {
      MemoryLinesAreRead(d, ms, table, codec);
    } else {
      SubLineIsRead(d, phrases, tail, codec);
      MemoryLinesAreRead(d.(table := BackTable(phrases)), ms, table, codec);
    }
  }

  lemma SubLineIsRead<J>(d: Decoder<J>, phrases: seq<string>, lines: seq<string>, codec: JsonCodec<J>)
    requires ReadableTable(phrases) && phrases != [] && Usable(Flipped(BackTable(phrases)))
    requires ValidDecoder(d) && d.table == [] && !d.done
    ensures DecodeLines(d, [SubLine(phrases)] + lines, codec)
            == DecodeLines(d.(table := BackTable(phrases)), lines, codec)
  {
    var line := SubLine(phrases);
    SubLineShape(phrases);
    KindOfDictionary(line);
    SubLineScan(phrases);
    DictionaryStep(d, line, BackTable(phrases), lines, codec);
  }

  lemma CleanDocumentIsRead<J(!new)>(ms: seq<Memory<J>>, phrases: seq<string>, codec: JsonCodec<J>)
    requires ReadableTable(phrases) && BreaklessTable(phrases) && Sound(codec)
    requires Usable(PhraseRules(phrases)) && Usable(Flipped(BackTable(phrases)))
    requires forall m <- ms :: CleanMemory(m, PhraseRules(phrases))
    ensures DecodedBlob(Encoded(ms, phrases, codec), codec)
            == Memories(SeenMemories(ms, PhraseRules(phrases), BackTable(phrases), codec))
  {
    LinesHaveNoLineBreak(ms, phrases, codec);
    SplitLinesOfUnlines(Lines(ms, phrases, codec));
    DocumentLinesAreRead(ms, phrases, codec);
  }

  // ---- which memories survive ----

  /** What the theorem asks: metadata given as text has no line break that the encoder does not escape. */
  ghost predicate InScope<J>(mem: Memory<J>) {
    Metadata in mem && mem[Metadata].Str? ==> Breakless(mem[Metadata].s)
  }

  /** What was written for the content alone is read, unescaped and substituted back to it. */
  predicate ReadsBack(s: string, phrases: seq<string>)
    requires Usable(PhraseRules(phrases)) && Usable(Flipped(BackTable(phrases)))
  {
    var w := Written(Applied(s, PhraseRules(phrases)));
    w != [] && SeenRaw(w).Some? &&
    match Unescape(SeenRaw(w).value)
    case None => false
    case Some(u) => Reversed(u, BackTable(phrases)) == s
  }

  /**
   A content in which no token is mistaken survives when its encoded form is carried by its token and it uses no phrase
   that the header cuts; of any other the passes decide.
   */
  ghost predicate ContentSurvives(s: string, phrases: seq<string>)
    requires GoodTable(phrases)
  {
    TableUsable(phrases);
    BackTableRules(phrases);
    if Direct(s, phrases) then Carried(Applied(s, PhraseRules(phrases))) && !UsesCut(s, phrases)
    else ReadsBack(s, phrases)
  }

  /**
   A value survives when the field is known and its text has no exotic line break and is carried by its token;
   metadata text must moreover not be read as JSON, and only metadata can hold values that are not strings.
   */
  ghost predicate Survives<J>(f: Field, v: Value<J>, phrases: seq<string>, codec: JsonCodec<J>)
    requires GoodTable(phrases)
  {
    !f.Unknown? &&
    match v
    case Null => true
    case Str(s) =>
      && Breakless(s)
      && (if f == Content then ContentSurvives(s, phrases) else Carried(s))
      && (f == Metadata ==> s == [] || codec.loads(s) == None || codec.loads(s) == Some(Str(s)))
    case Json(j) => f == Metadata && Carried(codec.text(j)) && codec.loads(codec.text(j)) == Some(Json(j))
  }

  ghost predicate MemorySurvives<J>(mem: Memory<J>, phrases: seq<string>, codec: JsonCodec<J>)
    requires GoodTable(phrases)
  {
    forall f <- mem :: Survives(f, mem[f], phrases, codec)
  }

  /** Dicts and lists always survive in the metadata field. */
  lemma ContainersSurvive<J(!new)>(j: J, phrases: seq<string>, codec: JsonCodec<J>)
    requires GoodTable(phrases) && Sound(codec) && codec.isContainer(j)
    ensures Survives(Metadata, Json(j), phrases, codec)
  {
    var t := codec.text(j);
    assert Printable(t) && t[0] in t;
    assert forall c <- t :: IsSpace(c) ==> IsSpecial(c);
  }

  /** The direct condition says what the passes do. */
  lemma DirectContentIff(s: string, phrases: seq<string>)
    requires ReadableTable(phrases) && Direct(s, phrases)
    requires Usable(PhraseRules(phrases)) && Usable(Flipped(BackTable(phrases)))
    ensures ReadsBack(s, phrases) <==> Carried(Applied(s, PhraseRules(phrases))) && !UsesCut(s, phrases)
  {
    var t := Applied(s, PhraseRules(phrases));
    CarriedIff(t);
    SeenContentIff(s, phrases);
    if !Carried(t) {
      assert t[0] in t && t[0] != '"';
      var n := NonSpaceLength(t);
      assert forall k :: 0 <= k < |t| ==> t[k] in t;
      if t[0] != '~' && n > 0 {
        assert n < |t|;
        var raw := t[..n];
        assert raw[0] == t[0];
        assert Unescape(raw) == Some(raw);
        CutTextDiffersSeen(s, n, phrases);
      }
    }
  }

  lemma ContentSurvivesIff(s: string, phrases: seq<string>)
    requires ReadableTable(phrases) && Usable(PhraseRules(phrases)) && Usable(Flipped(BackTable(phrases)))
    ensures ContentSurvives(s, phrases) <==> ReadsBack(s, phrases)
  {
    if Direct(s, phrases) { DirectContentIff(s, phrases); }
  }

  lemma ContentValueSurvivesIff<J(!new)>(s: string, phrases: seq<string>, codec: JsonCodec<J>)
    requires ReadableTable(phrases) && Breakless(s)
    requires Usable(PhraseRules(phrases)) && Usable(Flipped(BackTable(phrases)))
    ensures SeenValue(Content, Str(s), PhraseRules(phrases), BackTable(phrases), codec) == Some(Str(s))
            <==> Survives(Content, Str(s), phrases, codec)
  {
    ContentSurvivesIff(s, phrases);
  }

  /** A written text other than content is read back as itself, as less, or not at all. */
  lemma TextSurvivesIff(s: string)
    ensures Written(s) != []
    ensures SeenRaw(Written(s)).Some? && Unescape(SeenRaw(Written(s)).value) == Some(s) <==> Carried(s)
  {
    CarriedIff(s);
  }

  /** A text that is not carried is read as nothing, as `None`, or as a proper prefix without a quote. */
  lemma UncarriedIsCut(s: string)
    requires !Carried(s)
    ensures Written(s) == s != []
    ensures SeenRaw(s).Some? ==>
              || Unescape(SeenRaw(s).value) == None
              || exists n :: 0 < n < |s| && Unescape(SeenRaw(s).value) == Some(s[..n])
    ensures '"' !in s
  {
    assert s[0] in s && s[0] != '"';
    var n := NonSpaceLength(s);
    assert forall k :: 0 <= k < |s| ==> s[k] in s;
    if s[0] != '~' && n > 0 {
      assert s[..n][0] == s[0];
      assert Unescape(s[..n]) == Some(s[..n]);
    }
  }

  lemma MetadataSurvivesIff<J(!new)>(v: Value<J>, phrases: seq<string>, codec: JsonCodec<J>)
    requires ReadableTable(phrases) && Sound(codec) && !v.Null? && (v.Str? ==> Breakless(v.s))
    requires Usable(PhraseRules(phrases)) && Usable(Flipped(BackTable(phrases)))
    ensures SeenValue(Metadata, v, PhraseRules(phrases), BackTable(phrases), codec) == Some(v) <==> Survives(Metadata, v, phrases, codec)
  {
    var t := PlainText(Metadata, v, PhraseRules(phrases), codec);
    TextSurvivesIff(t);
    if v.Json? { assert Printable(codec.text(v.j)); }
    if !Carried(t) {
      UncarriedIsCut(t);
      if v.Json? { assert t[0] != '~' ==> NonSpaceLength(t) == |t| by { PrintableIsBare(t); } }
      if SeenRaw(t).Some? && Unescape(SeenRaw(t).value).Some? {
        var n :| 0 < n < |t| && Unescape(SeenRaw(t).value) == Some(t[..n]);
        assert '"' !in t[..n];
        assert ReadMetadata(t[..n], codec) != Str(t);
      }
    }
  }

  lemma PrintableIsBare(t: string)
    requires Printable(t) && !NeedsQuoting(t)
    ensures NonSpaceLength(t) == |t|
  {
    assert forall k :: 0 <= k < |t| ==> t[k] in t && !IsSpecial(t[k]);
  }

  lemma ValueSurvivesIff<J(!new)>(f: Field, v: Value<J>, phrases: seq<string>, codec: JsonCodec<J>)
    requires ReadableTable(phrases) && Sound(codec) && !f.Unknown?
    requires v.Str? ==> Breakless(v.s)
    requires Usable(PhraseRules(phrases)) && Usable(Flipped(BackTable(phrases)))
    ensures SeenValue(f, v, PhraseRules(phrases), BackTable(phrases), codec) == Some(v) <==> Survives(f, v, phrases, codec)
  {
    if v.Null? {
      assert "~"[0] == '~' && Unescape("~") == None;
    } else if f == Metadata {
      MetadataSurvivesIff(v, phrases, codec);
    } else if v.Str? {
      if f == Content { ContentValueSurvivesIff(v.s, phrases, codec); } else { PlainValueSurvivesIff(f, v.s, phrases, codec); }
    }
  }

  lemma PlainValueSurvivesIff<J(!new)>(f: Field, s: string, phrases: seq<string>, codec: JsonCodec<J>)
    requires GoodTable(phrases) && !f.Unknown? && f != Metadata && f != Content && Breakless(s)
    requires Usable(PhraseRules(phrases)) && Usable(Flipped(BackTable(phrases)))
    ensures SeenValue(f, Str(s), PhraseRules(phrases), BackTable(phrases), codec) == Some(Str(s))
            <==> Survives(f, Str(s), phrases, codec)
  {
    TextSurvivesIff(s);
  }

  // ---- the theorem ----

  lemma MemorySurvivesIff<J(!new)>(mem: Memory<J>, phrases: seq<string>, codec: JsonCodec<J>)
    requires ReadableTable(phrases) && Sound(codec) && InScope(mem)
    requires Usable(PhraseRules(phrases)) && Usable(Flipped(BackTable(phrases)))
    requires forall f <- mem :: !f.Unknown? && mem[f].Str? ==> Breakless(mem[f].s)
    ensures SeenFields(mem, KNOWN, PhraseRules(phrases), BackTable(phrases), codec) == mem <==> MemorySurvives(mem, phrases, codec)
  {
    var seen := SeenFields(mem, KNOWN, PhraseRules(phrases), BackTable(phrases), codec);
    forall f <- mem ensures Agrees(seen, mem, f) <==> Survives(f, mem[f], phrases, codec) {
      FieldSurvivesIff(mem, f, phrases, codec);
    }
    AgreeIff(seen, mem);
  }

  ghost predicate Agrees<K, V>(a: map<K, V>, b: map<K, V>, k: K)
    requires k in b
  {
    k in a && a[k] == b[k]
  }

  lemma AgreeIff<K, V>(a: map<K, V>, b: map<K, V>)
    requires a.Keys <= b.Keys
    ensures a == b <==> forall k <- b :: Agrees(a, b, k)
  {
    if forall k <- b :: Agrees(a, b, k) { assert a.Keys == b.Keys; }
  }

  lemma FieldSurvivesIff<J(!new)>(mem: Memory<J>, f: Field, phrases: seq<string>, codec: JsonCodec<J>)
    requires ReadableTable(phrases) && Sound(codec) && InScope(mem) && f in mem
    requires Usable(PhraseRules(phrases)) && Usable(Flipped(BackTable(phrases)))
    requires !f.Unknown? && mem[f].Str? ==> Breakless(mem[f].s)
    ensures Agrees(SeenFields(mem, KNOWN, PhraseRules(phrases), BackTable(phrases), codec), mem, f)
            <==> Survives(f, mem[f], phrases, codec)
  {
    KnownIsKnown(f);
    if !f.Unknown? { ValueSurvivesIff(f, mem[f], phrases, codec); }
  }

  lemma {:induction false} SeenMemoriesAgreeIff<J(!new)>(ms: seq<Memory<J>>, phrases: seq<string>, codec: JsonCodec<J>)
    requires ReadableTable(phrases) && Sound(codec) && forall m <- ms :: InScope(m)
    requires Usable(PhraseRules(phrases)) && Usable(Flipped(BackTable(phrases)))
    requires forall m <- ms :: forall f <- m :: !f.Unknown? && m[f].Str? ==> Breakless(m[f].s)
    ensures SeenMemories(ms, PhraseRules(phrases), BackTable(phrases), codec) == ms
            <==> forall m <- ms :: MemorySurvives(m, phrases, codec)
  {
    if ms != [] {
      var seen := SeenMemories(ms, PhraseRules(phrases), BackTable(phrases), codec);
      assert ms[0] in ms && forall m <- ms[1..] :: m in ms;
      MemorySurvivesIff(ms[0], phrases, codec);
      SeenMemoriesAgreeIff(ms[1..], phrases, codec);
      assert seen == ms <==> seen[0] == ms[0] && seen[1..] == ms[1..];
      assert forall m :: m in ms <==> m == ms[0] || m in ms[1..];
    }
  }

  lemma TokenBreakless(i: nat)
    ensures Breakless(Token(i))
  {
    TokenCharacters(i);
  }

  lemma AppliedBreakless(s: string, phrases: seq<string>)
    requires Usable(PhraseRules(phrases)) && Breakless(s)
    ensures Breakless(Applied(s, PhraseRules(phrases)))
  {
    var rules := PhraseRules(phrases);
    forall r <- rules ensures Breakless(r.to) {
      var i :| 0 <= i < |rules| && r == rules[i];
      TokenBreakless(i + 1);
    }
    SortKeepsRules(rules);
    RewriteBreakless(s, LongestFirst(rules));
  }

  /**
   Exactly the surviving memories round-trip: for any dictionary the decoder can read, decoding what `encode_aaak` wrote
   gives the memories back if and only if every one survives.
   */
  lemma RoundTripIff<J(!new)>(ms: seq<Memory<J>>, phrases: seq<string>, codec: JsonCodec<J>)
    requires ReadableTable(phrases) && BreaklessTable(phrases)
    requires Sound(codec) && forall m <- ms :: InScope(m)
    ensures DecodedBlob(Encoded(ms, phrases, codec), codec) == Memories(ms)
            <==> forall m <- ms :: MemorySurvives(m, phrases, codec)
  {
    TableUsable(phrases);
    BackTableRules(phrases);
    if m, f :| m in ms && f in m && !f.Unknown? && m[f].Str? && !Breakless(m[f].s) {
      BreaksAreLost(ms, m, f, phrases, codec);
    } else {
      forall m <- ms ensures CleanMemory(m, PhraseRules(phrases)) {
        forall f <- m | !f.Unknown? && m[f].Str? ensures Breakless(Applied(m[f].s, PhraseRules(phrases))) {
          AppliedBreakless(m[f].s, phrases);
        }
      }
      CleanDocumentIsRead(ms, phrases, codec);
      SeenMemoriesAgreeIff(ms, phrases, codec);
    }
  }

  /** A line break that the encoder does not escape is lost, whatever the dictionary. */
  lemma BreaksAreLost<J(!new)>(ms: seq<Memory<J>>, m: Memory<J>, f: Field, phrases: seq<string>, codec: JsonCodec<J>)
    requires GoodTable(phrases) && forall n <- ms :: InScope(n)
    requires m in ms && f in m && !f.Unknown? && m[f].Str? && !Breakless(m[f].s)
    ensures DecodedBlob(Encoded(ms, phrases, codec), codec) != Memories(ms) && !MemorySurvives(m, phrases, codec)
  {
    DecodedIsBreakless(Encoded(ms, phrases, codec), codec);
    assert f != Metadata && !BreaklessMemory(m);
    assert !Survives(f, m[f], phrases, codec);
  }

  predicate UsesPhrase<J>(m: Memory<J>, p: string) {
    Content in m && m[Content].Str? && Occurs(p, m[Content].s)
  }

  /** Every phrase occurs in a content, as the miner's phrases do. */
  ghost predicate MinedFrom<J>(phrases: seq<string>, ms: seq<Memory<J>>) {
    forall p <- phrases :: exists m: Memory<J> :: m in ms && UsesPhrase(m, p)
  }

  /** For phrases that were mined from the contents the theorem needs nothing of their line breaks. */
  lemma MinedRoundTripIff<J(!new)>(ms: seq<Memory<J>>, phrases: seq<string>, codec: JsonCodec<J>)
    requires ReadableTable(phrases) && MinedFrom(phrases, ms)
    requires Sound(codec) && forall m <- ms :: InScope(m)
    ensures DecodedBlob(Encoded(ms, phrases, codec), codec) == Memories(ms)
            <==> forall m <- ms :: MemorySurvives(m, phrases, codec)
  {
    if BreaklessTable(phrases) {
      RoundTripIff(ms, phrases, codec);
    } else {
      var p :| p in phrases && !Breakless(p);
      var m: Memory<J> :| m in ms && UsesPhrase(m, p);
      OccurrenceBreaks(p, m[Content].s);
      BreaksAreLost(ms, m, Content, phrases, codec);
    }
  }

  lemma OccurrenceBreaks(p: string, s: string)
    requires Occurs(p, s) && !Breakless(p)
    ensures !Breakless(s)
  {
    var k :| 0 <= k <= |s| && p <= s[k..];
    var c :| c in p && IsLineBreak(c) && c != '\n' && c != '\r';
    assert c in s[k..];
  }

  /** Schema fields, no blanks but the four the encoder escapes, no leading tilde, metadata a container or `None`. */
  ghost predicate PlainMemory<J>(mem: Memory<J>, phrases: seq<string>, codec: JsonCodec<J>)
    requires GoodTable(phrases)
  {
    forall f <- mem ::
      && !f.Unknown?
      && (mem[f].Str? ==>
           && f != Metadata
           && (mem[f].s != [] ==> mem[f].s[0] != '~')
           && (forall c <- mem[f].s :: IsSpace(c) ==> IsSpecial(c))
           && (f == Content ==> Unmistaken(mem[f].s, phrases)))
      && (mem[f].Json? ==> f == Metadata && codec.isContainer(mem[f].j))
  }

  lemma {:induction false} RewriteKeepsPlain(s: string, rules: seq<Rule>)
    requires Usable(rules) && forall r <- rules :: r.to != [] && forall c <- r.to :: c == '$' || IsDigit(c)
    requires (forall c <- s :: IsSpace(c) ==> IsSpecial(c)) && (s != [] ==> s[0] != '~')
    ensures var t := Rewrite(s, rules);
      (forall c <- t :: IsSpace(c) ==> IsSpecial(c)) && (t != [] ==> t[0] != '~')
    decreases |rules|
  {
    if rules != [] {
      assert rules[0] in rules;
      assert forall r <- rules[1..] :: r in rules;
      ReplaceKeepsPlain(s, rules[0].from, rules[0].to);
      RewriteKeepsPlain(Replace(s, rules[0].from, rules[0].to), rules[1..]);
    }
  }

  lemma {:induction false} ReplaceKeepsPlain(s: string, pattern: string, replacement: string)
    requires pattern != [] && replacement != [] && forall c <- replacement :: c == '$' || IsDigit(c)
    requires forall c <- s :: IsSpace(c) ==> IsSpecial(c)
    ensures var t := Replace(s, pattern, replacement);
      (forall c <- t :: IsSpace(c) ==> IsSpecial(c)) && (s != [] && s[0] != '~' ==> t[0] != '~')
    decreases |s|
  {
    if s != [] {
      if pattern <= s {
        assert replacement[0] in replacement;
        ReplaceKeepsPlain(s[|pattern|..], pattern, replacement);
      } else {
        assert s[0] in s;
        ReplaceKeepsPlain(s[1..], pattern, replacement);
      }
    }
  }

  lemma AppliedKeepsPlain(s: string, phrases: seq<string>)
    requires GoodTable(phrases) && Usable(PhraseRules(phrases))
    requires (forall c <- s :: IsSpace(c) ==> IsSpecial(c)) && (s != [] ==> s[0] != '~')
    ensures Carried(Applied(s, PhraseRules(phrases)))
  {
    var rules := PhraseRules(phrases);
    forall r <- rules ensures r.to != [] && forall c <- r.to :: c == '$' || IsDigit(c) {
      var i :| 0 <= i < |rules| && r == rules[i];
      TokenCharacters(i + 1);
    }
    SortKeepsRules(rules);
    RewriteKeepsPlain(s, LongestFirst(rules));
  }

  lemma PlainContentSurvives(s: string, phrases: seq<string>)
    requires HeaderTable(phrases) && Unmistaken(s, phrases)
    requires (forall c <- s :: IsSpace(c) ==> IsSpecial(c)) && (s != [] ==> s[0] != '~')
    ensures ContentSurvives(s, phrases)
  {
    TableUsable(phrases);
    AppliedKeepsPlain(s, phrases);
    NothingIsCut(s, phrases);
    HeaderTableIsReadable(phrases);
    assert DistinctCuts(phrases) by {
      assert forall i :: 0 <= i < |phrases| ==> SeenPhrases(phrases)[i] == SeenPhrase(phrases[i]);
    }
  }

  lemma PlainTextSurvives<J>(f: Field, s: string, phrases: seq<string>, codec: JsonCodec<J>)
    requires HeaderTable(phrases) && !f.Unknown? && f != Metadata && (f == Content ==> Unmistaken(s, phrases))
    requires (forall c <- s :: IsSpace(c) ==> IsSpecial(c)) && (s != [] ==> s[0] != '~')
    ensures Survives(f, Str(s), phrases, codec)
  {
    assert forall c <- s :: IsLineBreak(c) ==> IsSpace(c);
    if f == Content { PlainContentSurvives(s, phrases); }
  }

  lemma PlainMemorySurvives<J(!new)>(mem: Memory<J>, phrases: seq<string>, codec: JsonCodec<J>)
    requires HeaderTable(phrases) && Sound(codec) && PlainMemory(mem, phrases, codec)
    ensures InScope(mem) && MemorySurvives(mem, phrases, codec)
  {
    forall f <- mem ensures Survives(f, mem[f], phrases, codec) {
      match mem[f]
      case Null =>
      case Str(s) => PlainTextSurvives(f, s, phrases, codec);
      case Json(j) => ContainersSurvive(j, phrases, codec);
    }
  }

  /** The promise on ordinary memories: every document of plain memories round-trips exactly. */
  lemma PlainDocumentsRoundTrip<J(!new)>(ms: seq<Memory<J>>, phrases: seq<string>, codec: JsonCodec<J>)
    requires HeaderTable(phrases) && Sound(codec) && forall m <- ms :: PlainMemory(m, phrases, codec)
    ensures DecodedBlob(Encoded(ms, phrases, codec), codec) == Memories(ms)
  {
    forall m <- ms ensures InScope(m) && MemorySurvives(m, phrases, codec) {
      PlainMemorySurvives(m, phrases, codec);
    }
    HeaderTableIsReadable(phrases);
    RoundTripIff(ms, phrases, codec);
  }
}
