/** AAAK documents: `encode_aaak` and `decode_aaak` (kemory/compression/aaak.py:232-289). */
module AaakDocument {
  import opened Text
  import opened AaakSubstitution
  import opened AaakTokens
  import opened AaakRecord

  const HEADER := "@aaak v=1"
  const SUB_HEADER := "@sub"
  const FOOTER := "@end"

  // ---- encoding ----

  /** `$1="first phrase"`, `$2=...` from index `from` on. */
  function SubParts(phrases: seq<string>, from: nat): seq<string>
    requires from <= |phrases|
    decreases |phrases| - from
  {
    if from == |phrases| then []
    else [Token(from + 1) + "=" + Written(phrases[from])] + SubParts(phrases, from + 1)
  }

  function SubLine(phrases: seq<string>): string { SUB_HEADER + Spaced(SubParts(phrases, 0)) }

  function MemoryLines<J>(ms: seq<Memory<J>>, table: seq<Rule>, codec: JsonCodec<J>): seq<string>
    requires Usable(table)
  {
    if ms == [] then [] else [Serialised(ms[0], table, codec)] + MemoryLines(ms[1..], table, codec)
  }

  /** The lines of a document; a document without memories has no dictionary. */
  function Lines<J>(ms: seq<Memory<J>>, phrases: seq<string>, codec: JsonCodec<J>): seq<string>
    requires GoodTable(phrases)
  {
    TableUsable(phrases);
    [HEADER]
    + (if ms != [] && phrases != [] then [SubLine(phrases)] else [])
    + MemoryLines(ms, PhraseRules(phrases), codec)
    + [FOOTER]
  }

  function Encoded<J>(ms: seq<Memory<J>>, phrases: seq<string>, codec: JsonCodec<J>): string
    requires GoodTable(phrases)
  {
    Unlines(Lines(ms, phrases, codec))
  }

  method WriteSubLine(phrases: seq<string>) returns (line: string)
    ensures line == SubLine(phrases)
  {
    var parts: seq<string> := [];
    for k := 0 to |phrases|
      invariant parts + SubParts(phrases, k) == SubParts(phrases, 0)
    {
      parts := parts + [Token(k + 1) + "=" + Written(phrases[k])];
    }
    assert parts == SubParts(phrases, 0);
    JoinIsSpaced(SUB_HEADER, parts);
    line := Join(" ", [SUB_HEADER] + parts);
  }

  /** `encode_aaak`, with the phrases the miner picked as a parameter. */
  method EncodeAaak<J>(ms: seq<Memory<J>>, phrases: seq<string>, codec: JsonCodec<J>) returns (blob: string)
    requires GoodTable(phrases)
    ensures blob == Encoded(ms, phrases, codec)
  {
    TableUsable(phrases);
    var table := PhraseRules(phrases);
    var lines := [HEADER];
    if ms != [] && phrases != [] {
      var subLine := WriteSubLine(phrases);
      lines := lines + [subLine];
    }
    ghost var front := lines;
    for k := 0 to |ms|
      invariant lines + MemoryLines(ms[k..], table, codec) == front + MemoryLines(ms, table, codec)
    {
      assert ms[k..][1..] == ms[k + 1..];
      var line := SerialiseMemory(ms[k], table, codec);
      lines := lines + [line];
    }
    assert lines == front + MemoryLines(ms, table, codec);
    lines := lines + [FOOTER];
    assert lines == Lines(ms, phrases, codec);
    JoinNewlineIsUnlines(lines);
    blob := Join("\n", lines) + "\n";
  }

  // ---- the document in full ----

  lemma {:induction false} UnlinesConcat(a: seq<string>, b: seq<string>)
    ensures Unlines(a + b) == Unlines(a) + Unlines(b)
  {
    if a == [] {
      assert a + b == b;
    } else {
      assert (a + b)[0] == a[0] && (a + b)[1..] == a[1..] + b;
      UnlinesConcat(a[1..], b);
      assert a[0] + "\n" + (Unlines(a[1..]) + Unlines(b)) == (a[0] + "\n" + Unlines(a[1..])) + Unlines(b);
    }
  }

  /** The lines between the header and the footer. */
  function Body<J>(ms: seq<Memory<J>>, phrases: seq<string>, codec: JsonCodec<J>): seq<string>
    requires GoodTable(phrases)
  {
    TableUsable(phrases);
    (if ms != [] && phrases != [] then [SubLine(phrases)] else []) + MemoryLines(ms, PhraseRules(phrases), codec)
  }

  /** What every reader finds at the two ends of a document, and that there is nothing else in one without memories. */
  lemma DocumentFrame<J>(ms: seq<Memory<J>>, phrases: seq<string>, codec: JsonCodec<J>)
    requires GoodTable(phrases)
    ensures Encoded(ms, phrases, codec) == "@aaak v=1\n" + Unlines(Body(ms, phrases, codec)) + "@end\n"
    ensures ms == [] ==> Encoded(ms, phrases, codec) == "@aaak v=1\n@end\n"
  {
    var body := Body(ms, phrases, codec);
    assert Lines(ms, phrases, codec) == ["@aaak v=1"] + (body + ["@end"]);
    UnlinesFrame("@aaak v=1", body, "@end");
    if ms == [] { assert body == [] && Unlines(body) == ""; }
  }

  lemma UnlinesFrame(first: string, body: seq<string>, last: string)
    ensures Unlines([first] + (body + [last])) == (first + "\n") + Unlines(body) + (last + "\n")
  {
    UnlinesConcat([first], body + [last]);
    UnlinesConcat(body, [last]);
    UnlinesOfOne(first);
    UnlinesOfOne(last);
  }

  lemma UnlinesOfOne(line: string)
    ensures Unlines([line]) == line + "\n"
  {
    assert [line][1..] == [];
  }

  /** The dictionary line starts with its mark and the first phrase under its token. */
  lemma SubLineStarts(phrases: seq<string>)
    requires phrases != []
    ensures "@sub $1=" + Written(phrases[0]) <= SubLine(phrases)
  {
    var part, rest := Token(1) + "=" + Written(phrases[0]), SubParts(phrases, 1);
    assert SubParts(phrases, 0) == [part] + rest && ([part] + rest)[1..] == rest;
    FirstPart(Written(phrases[0]), Spaced(rest));
  }

  lemma FirstPart(w: string, rest: string)
    ensures "@sub $1=" + w <= SUB_HEADER + (" " + (Token(1) + "=" + w) + rest)
  {
    DecimalOfOneDigit(1);
    assert Token(1) == "$1";
    assert SUB_HEADER + (" " + (Token(1) + "=" + w) + rest) == ("@sub $1=" + w) + rest;
  }

  // ---- decoding ----

  /** The token at the front of `s` as the dictionary expression reads it: `(\$\d+)=("..."|\S+)`. */
  function DigitsLength(s: string): (n: nat)
    ensures n <= |s|
  {
    if s == [] || !IsDigit(s[0]) then 0 else 1 + DigitsLength(s[1..])
  }

  function SubValueLength(s: string): (n: nat)
    ensures n <= |s|
  {
    if s != [] && s[0] == '"' && ClosingQuote(s[1..]) != 0 then 1 + ClosingQuote(s[1..]) else NonSpaceLength(s)
  }

  function SubAtFront(s: string): (r: Option<(Pair, nat)>)
    ensures r.Some? ==> 0 < r.value.1 <= |s| && r.value.0.alias != []
  {
    if s == [] || s[0] != '$' then None
    else
      var a := 1 + DigitsLength(s[1..]);
      if a == 1 || a == |s| || s[a] != '=' then None
      else
        var n := SubValueLength(s[a + 1..]);
        if n == 0 then None else Some((Pair(s[..a], s[a + 1..][..n]), a + 1 + n))
  }

  function FindSubs(s: string): (r: seq<Pair>)
    ensures forall p <- r :: p.alias != []
    decreases |s|
  {
    if s == [] then []
    else match SubAtFront(s)
      case Some(hit) => [hit.0] + FindSubs(s[hit.1..])
      case None => FindSubs(s[1..])
  }

  datatype Decoder<+J> = Decoder(table: seq<Rule>, memories: seq<Memory<J>>, sawHeader: bool, done: bool)

  predicate ValidDecoder<J>(d: Decoder<J>) { Usable(Flipped(d.table)) }

  datatype Decoded<+J> = Memories(memories: seq<Memory<J>>) | MissingHeader

  /** `sub_table[phrase] = token` for every entry of a dictionary line. */
  function AddSubs(table: seq<Rule>, subs: seq<Pair>): seq<Rule>
    decreases |subs|
  {
    if subs == [] then table
    else
      var table' := match Unescape(subs[0].raw)
        case Some(phrase) => Put(table, Rule(phrase, subs[0].alias))
        case None => table;
      AddSubs(table', subs[1..])
  }

  lemma {:induction false} PutKeepsFlippedUsable(d: seq<Rule>, r: Rule)
    requires r.to != [] && forall x <- d :: x.to != []
    ensures forall x <- Put(d, r) :: x.to != []
  {
    if d != [] && d[0].from != r.from {
      PutKeepsFlippedUsable(d[1..], r);
    }
  }

  lemma FlippedUsable(d: seq<Rule>)
    ensures Usable(Flipped(d)) <==> forall x <- d :: x.to != []
  {
    assert forall i :: 0 <= i < |d| ==> Flipped(d)[i].from == d[i].to;
    if Usable(Flipped(d)) {
      forall x <- d ensures x.to != [] {
        var i :| 0 <= i < |d| && d[i] == x;
        assert Flipped(d)[i] in Flipped(d);
      }
    }
  }

  lemma {:induction false} AddSubsKeepsUsable(table: seq<Rule>, subs: seq<Pair>)
    requires Usable(Flipped(table)) && forall p <- subs :: p.alias != []
    ensures Usable(Flipped(AddSubs(table, subs)))
    decreases |subs|
  {
    if subs != [] {
      assert subs[0] in subs;
      match Unescape(subs[0].raw)
      case None => AddSubsKeepsUsable(table, subs[1..]);
      case Some(phrase) =>
        var r := Rule(phrase, subs[0].alias);
        FlippedUsable(table);
        PutKeepsFlippedUsable(table, r);
        FlippedUsable(Put(table, r));
        AddSubsKeepsUsable(Put(table, r), subs[1..]);
    }
  }

  datatype LineKind = Blank | Header | Footer | Dictionary | Record | Other

  /** What a stripped line is, in the order the decoder asks. */
  function KindOf(line: string): LineKind {
    if line == [] then Blank
    else if line == HEADER then Header
    else if line == FOOTER then Footer
    else if SUB_HEADER <= line then Dictionary
    else if "M " <= line || line == "M" then Record
    else Other
  }

  /** One line of the blob. */
  function DecodeLine<J>(d: Decoder<J>, rawLine: string, codec: JsonCodec<J>): (d': Decoder<J>)
    requires ValidDecoder(d)
    ensures ValidDecoder(d')
  {
    var line := Strip(rawLine);
    DecodeKind(d, KindOf(line), line, codec)
  }

  function DecodeKind<J>(d: Decoder<J>, kind: LineKind, line: string, codec: JsonCodec<J>): (d': Decoder<J>)
    requires ValidDecoder(d) && (kind == Record ==> line != [])
    ensures ValidDecoder(d')
  {
    match kind
    case Blank => d
    case Header => d.(sawHeader := true)
    case Footer => d.(done := true)
    case Dictionary =>
      AddSubsKeepsUsable(d.table, FindSubs(line));
      d.(table := AddSubs(d.table, FindSubs(line)))
    case Record => AddRecord(d, line, codec)
    case Other => d
  }

  function AddRecord<J>(d: Decoder<J>, line: string, codec: JsonCodec<J>): (d': Decoder<J>)
    requires ValidDecoder(d) && line != []
    ensures ValidDecoder(d')
  {
    d.(memories := d.memories + [ParsedLine(line, d.table, codec)])
  }

  /** The lines up to the footer. */
  function DecodeLines<J>(d: Decoder<J>, lines: seq<string>, codec: JsonCodec<J>): (d': Decoder<J>)
    requires ValidDecoder(d)
    ensures ValidDecoder(d')
    decreases |lines|
  {
    if lines == [] || d.done then d else DecodeLines(DecodeLine(d, lines[0], codec), lines[1..], codec)
  }

  function Start<J>(): Decoder<J> { Decoder([], [], false, false) }

  function DecodedBlob<J>(blob: string, codec: JsonCodec<J>): Decoded<J> {
    var d := DecodeLines(Start(), SplitLines(blob), codec);
    if d.sawHeader then Memories(d.memories) else MissingHeader
  }

  /** `decode_aaak` */
  method DecodeAaak<J>(blob: string, codec: JsonCodec<J>) returns (r: Decoded<J>)
    ensures r == DecodedBlob(blob, codec)
  {
    var lines := SplitLines(blob);
    var table: seq<Rule> := [];
    var memories: seq<Memory<J>> := [];
    var sawHeader := false;
    ghost var total := DecodeLines(Start(), lines, codec);
    var k := 0;
    while k < |lines|
      invariant 0 <= k <= |lines| && Usable(Flipped(table))
      invariant DecodeLines(Decoder(table, memories, sawHeader, false), lines[k..], codec) == total
    {
      assert lines[k..][1..] == lines[k + 1..];
      var line := Strip(lines[k]);
      k := k + 1;
      match KindOf(line) {
        case Blank =>
        case Header => sawHeader := true;
        case Footer => break;
        case Dictionary =>
          AddSubsKeepsUsable(table, FindSubs(line));
          table := AddSubs(table, FindSubs(line));
        case Record =>
          var mem := ParseMemoryLine(line, table, codec);
          memories := memories + [mem.value];
        case Other =>
      }
    }
    return if sawHeader then Memories(memories) else MissingHeader;
  }
}
