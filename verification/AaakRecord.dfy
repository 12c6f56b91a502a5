/** One memory and its M-line (kemory/compression/aaak.py:49-64, 184-226). */
module AaakRecord {
  import opened Text
  import opened AaakSubstitution
  import opened AaakTokens

  /** The fields of the schema, and every other key a memory may carry. */
  datatype Field =
    | Id | Content | ContentType | CreatedAt | InvalidAt | Metadata | Namespace
    | RoundId | SessionId | SourceAgent | Tier | ValidAt | Visibility
    | Unknown(name: string)

  /** A field value: `None`, a string, or any other value, here `J`. */
  datatype Value<+J> = Null | Str(s: string) | Json(j: J)

  type Memory<+J> = map<Field, Value<J>>

  /**
   The host's text form of non-string values (`json.dumps` for dicts and lists, `str` otherwise) and its JSON reader.
   */
  datatype JsonCodec<!J> = JsonCodec(text: J -> string, loads: string -> Option<Value<J>>, isContainer: J -> bool)

  /** Printable ASCII without line breaks, which JSON output and numerals are. */
  predicate Printable(s: string) { s != [] && forall c <- s :: ' ' <= c <= '~' }

  /**
   `loads` inverts `dumps` on dicts and lists, text forms are printable, and only a text with a quote reads as a JSON
   string.
   */
  ghost predicate Sound<J(!new)>(codec: JsonCodec<J>) {
    && (forall j :: Printable(codec.text(j)) &&
         (codec.isContainer(j) ==>
            && codec.loads(codec.text(j)) == Some(Json(j))
            && (codec.text(j)[0] == '{' || codec.text(j)[0] == '[')))
    && forall t :: codec.loads(t).Some? && codec.loads(t).value.Str? ==> '"' in t
  }

  /** The id first, then the field names in alphabetical order. */
  const KNOWN: seq<Field> :=
    [Id, Content, ContentType, CreatedAt, InvalidAt, Metadata, Namespace, RoundId, SessionId, SourceAgent, Tier,
     ValidAt, Visibility]

  function Alias(f: Field): string {
    match f
    case Id => "id"
    case Content => "c"
    case ContentType => "t"
    case CreatedAt => "@"
    case InvalidAt => "!"
    case Metadata => "m"
    case Namespace => "ns"
    case RoundId => "rid"
    case SessionId => "sid"
    case SourceAgent => "s"
    case Tier => "ts"
    case ValidAt => "v"
    case Visibility => "vis"
    case Unknown(_) => ""
  }

  function FieldOf(alias: string): Option<Field> {
    if alias == "id" then Some(Id)
    else if alias == "ns" then Some(Namespace)
    else if alias == "t" then Some(ContentType)
    else if alias == "@" then Some(CreatedAt)
    else if alias == "!" then Some(InvalidAt)
    else if alias == "v" then Some(ValidAt)
    else if alias == "c" then Some(Content)
    else if alias == "m" then Some(Metadata)
    else if alias == "s" then Some(SourceAgent)
    else if alias == "sid" then Some(SessionId)
    else if alias == "rid" then Some(RoundId)
    else if alias == "ts" then Some(Tier)
    else if alias == "vis" then Some(Visibility)
    else None
  }

  lemma AliasesAreInvertible(f: Field)
    requires !f.Unknown?
    ensures IsAlias(Alias(f)) && FieldOf(Alias(f)) == Some(f)
  {}

  lemma KnownIsKnown(f: Field)
    ensures f in KNOWN <==> !f.Unknown?
  {
    match f
    case Id => assert KNOWN[0] == f;
    case Content => assert KNOWN[1] == f;
    case ContentType => assert KNOWN[2] == f;
    case CreatedAt => assert KNOWN[3] == f;
    case InvalidAt => assert KNOWN[4] == f;
    case Metadata => assert KNOWN[5] == f;
    case Namespace => assert KNOWN[6] == f;
    case RoundId => assert KNOWN[7] == f;
    case SessionId => assert KNOWN[8] == f;
    case SourceAgent => assert KNOWN[9] == f;
    case Tier => assert KNOWN[10] == f;
    case ValidAt => assert KNOWN[11] == f;
    case Visibility => assert KNOWN[12] == f;
    case Unknown(_) =>
  }

  // ---- the order of the fields ----

  /** The key of a memory. */
  function Name(f: Field): string {
    match f
    case Id => "id"
    case Content => "content"
    case ContentType => "content_type"
    case CreatedAt => "created_at"
    case InvalidAt => "invalid_at"
    case Metadata => "metadata"
    case Namespace => "namespace"
    case RoundId => "round_id"
    case SessionId => "session_id"
    case SourceAgent => "source_agent"
    case Tier => "tier"
    case ValidAt => "valid_at"
    case Visibility => "visibility"
    case Unknown(name) => name
  }

  /** The id comes first, then the keys in ascending order. */
  predicate Precedes(f: Field, g: Field) { g != Id && (f == Id || TextLess(Name(f), Name(g))) }

  lemma PrecedesTransitive(f: Field, g: Field, h: Field)
    requires Precedes(f, g) && Precedes(g, h)
    ensures Precedes(f, h)
  {
    if f != Id { TextLessTransitive(Name(f), Name(g), Name(h)); }
  }

  lemma LessAt(p: string, x: string, y: string, a: string, b: string)
    requires a == p + x && b == p + y && y != [] && (x == [] || x[0] < y[0])
    ensures TextLess(a, b)
  {
    FirstDifferenceDecides(p, x, y);
  }

  lemma KeysToMetadata()
    ensures Precedes(Id, Content) && Precedes(Content, ContentType) && Precedes(ContentType, CreatedAt)
    ensures Precedes(CreatedAt, InvalidAt) && Precedes(InvalidAt, Metadata)
  {
    LessAt("content", "", "_type", "content", "content_type");
    LessAt("c", "ontent_type", "reated_at", "content_type", "created_at");
    LessAt("", "created_at", "invalid_at", "created_at", "invalid_at");
    LessAt("", "invalid_at", "metadata", "invalid_at", "metadata");
  }

  lemma KeysToSourceAgent()
    ensures Precedes(Metadata, Namespace) && Precedes(Namespace, RoundId)
    ensures Precedes(RoundId, SessionId) && Precedes(SessionId, SourceAgent)
  {
    LessAt("", "metadata", "namespace", "metadata", "namespace");
    LessAt("", "namespace", "round_id", "namespace", "round_id");
    LessAt("", "round_id", "session_id", "round_id", "session_id");
    LessAt("s", "ession_id", "ource_agent", "session_id", "source_agent");
  }

  lemma KeysToVisibility()
    ensures Precedes(SourceAgent, Tier) && Precedes(Tier, ValidAt) && Precedes(ValidAt, Visibility)
  {
    LessAt("", "source_agent", "tier", "source_agent", "tier");
    LessAt("", "tier", "valid_at", "tier", "valid_at");
    LessAt("v", "alid_at", "isibility", "valid_at", "visibility");
  }

  /** The place of a field in the schema. */
  function Place(f: Field): nat {
    match f
    case Id => 0 case Content => 1 case ContentType => 2 case CreatedAt => 3 case InvalidAt => 4 case Metadata => 5
    case Namespace => 6 case RoundId => 7 case SessionId => 8 case SourceAgent => 9 case Tier => 10 case ValidAt => 11
    case Visibility => 12 case Unknown(_) => 13
  }

  lemma PlaceInKnown(k: nat)
    requires k < |KNOWN|
    ensures Place(KNOWN[k]) == k && !KNOWN[k].Unknown?
  {}

  lemma NextPlacePrecedes(f: Field, g: Field)
    requires Place(g) == Place(f) + 1 && !g.Unknown?
    ensures Precedes(f, g)
  {
    if Place(f) < 5 { KeysToMetadata(); } else if Place(f) < 9 { KeysToSourceAgent(); } else { KeysToVisibility(); }
  }

  /** Each field of the schema and the next. */
  lemma NextPrecedes(k: nat)
    requires k + 1 < |KNOWN|
    ensures Precedes(KNOWN[k], KNOWN[k + 1])
  {
    PlaceInKnown(k);
    PlaceInKnown(k + 1);
    NextPlacePrecedes(KNOWN[k], KNOWN[k + 1]);
  }

  lemma {:induction false} KnownIsSorted(i: nat, j: nat)
    requires i < j < |KNOWN|
    ensures Precedes(KNOWN[i], KNOWN[j])
    decreases j
  {
    NextPrecedes(j - 1);
    if i < j - 1 {
      KnownIsSorted(i, j - 1);
      PrecedesTransitive(KNOWN[i], KNOWN[j - 1], KNOWN[j]);
    }
  }

  ghost predicate SortedFields(fields: seq<Field>) {
    (forall f <- fields :: !f.Unknown?) && forall i, j :: 0 <= i < j < |fields| ==> Precedes(fields[i], fields[j])
  }

  /** The pairs of a line are of fields of the schema, in order. */
  ghost predicate InOrder(pairs: seq<Pair>) {
    && (forall p <- pairs :: FieldOf(p.alias).Some?)
    && forall i, j :: 0 <= i < j < |pairs| ==> Ordered(pairs[i], pairs[j])
  }

  predicate Ordered(p: Pair, q: Pair) {
    FieldOf(p.alias).Some? && FieldOf(q.alias).Some? && Precedes(FieldOf(p.alias).value, FieldOf(q.alias).value)
  }

  // ---- encoding ----

  /** The text of a value before quoting; content goes through the dictionary. */
  function PlainText<J>(f: Field, v: Value<J>, table: seq<Rule>, codec: JsonCodec<J>): string
    requires Usable(table) && !v.Null?
  {
    match v
    case Str(s) => if f == Content then Applied(s, table) else s
    case Json(j) => codec.text(j)
  }

  function WrittenValue<J>(f: Field, v: Value<J>, table: seq<Rule>, codec: JsonCodec<J>): string
    requires Usable(table)
  {
    if v.Null? then "~" else Written(PlainText(f, v, table, codec))
  }

  function Part<J>(f: Field, v: Value<J>, table: seq<Rule>, codec: JsonCodec<J>): string
    requires Usable(table)
  {
    Alias(f) + "=" + WrittenValue(f, v, table, codec)
  }

  function Parts<J>(mem: Memory<J>, fields: seq<Field>, table: seq<Rule>, codec: JsonCodec<J>): seq<string>
    requires Usable(table)
  {
    if fields == [] then []
    else
      (if fields[0] in mem then [Part(fields[0], mem[fields[0]], table, codec)] else [])
      + Parts(mem, fields[1..], table, codec)
  }

  /** Every part behind a space. */
  function Spaced(parts: seq<string>): string {
    if parts == [] then [] else " " + parts[0] + Spaced(parts[1..])
  }

  function Serialised<J>(mem: Memory<J>, table: seq<Rule>, codec: JsonCodec<J>): string
    requires Usable(table)
  {
    "M" + Spaced(Parts(mem, KNOWN, table, codec))
  }

  lemma {:induction false} JoinIsSpaced(first: string, parts: seq<string>)
    ensures Join(" ", [first] + parts) == first + Spaced(parts)
    decreases |parts|
  {
    assert ([first] + parts)[1..] == parts;
    if parts != [] {
      JoinIsSpaced(parts[0], parts[1..]);
      assert [parts[0]] + parts[1..] == parts;
      assert first + " " + (parts[0] + Spaced(parts[1..])) == first + (" " + parts[0] + Spaced(parts[1..]));
    }
  }

  method WriteValue<J>(f: Field, v: Value<J>, table: seq<Rule>, codec: JsonCodec<J>) returns (text: string)
    requires Usable(table)
    ensures text == WrittenValue(f, v, table, codec)
  {
    match v {
      case Null => text := "~";
      case Str(s) =>
        var t := s;
        if f == Content { t := ApplySubstitutions(s, table); }
        text := Written(t);
      case Json(j) => text := Written(codec.text(j));
    }
  }

  lemma PartsFrom<J>(mem: Memory<J>, k: nat, fields: seq<Field>, table: seq<Rule>, codec: JsonCodec<J>)
    requires Usable(table) && k < |fields|
    ensures Parts(mem, fields[k..], table, codec) ==
            (if fields[k] in mem then [Part(fields[k], mem[fields[k]], table, codec)] else [])
            + Parts(mem, fields[k + 1..], table, codec)
  {
    assert fields[k..][1..] == fields[k + 1..];
  }

  lemma PutInFront(parts: seq<string>, first: seq<string>, rest: seq<string>)
    ensures parts + (first + rest) == (parts + first) + rest
    ensures first == [] ==> parts + first == parts
  {}

  lemma PartsAt<J>(parts: seq<string>, mem: Memory<J>, k: nat, fields: seq<Field>, table: seq<Rule>, codec: JsonCodec<J>)
    requires Usable(table) && k < |fields|
    ensures parts + Parts(mem, fields[k..], table, codec) ==
            (if fields[k] in mem then parts + [Part(fields[k], mem[fields[k]], table, codec)] else parts)
            + Parts(mem, fields[k + 1..], table, codec)
  {
    PartsFrom(mem, k, fields, table, codec);
    PutInFront(parts, if fields[k] in mem then [Part(fields[k], mem[fields[k]], table, codec)] else [],
               Parts(mem, fields[k + 1..], table, codec));
  }

  method SerialiseMemory<J>(mem: Memory<J>, table: seq<Rule>, codec: JsonCodec<J>) returns (line: string)
    requires Usable(table)
    ensures line == Serialised(mem, table, codec)
  {
    var parts: seq<string>, fields := [], KNOWN;
    assert fields[0..] == fields;
    for k := 0 to |fields|
      invariant parts + Parts(mem, fields[k..], table, codec) == Parts(mem, fields, table, codec)
    {
      PartsAt(parts, mem, k, fields, table, codec);
      if fields[k] in mem {
        var part := WritePart(fields[k], mem[fields[k]], table, codec);
        parts := parts + [part];
      }
    }
    assert fields[|fields|..] == [];
    assert parts == Parts(mem, KNOWN, table, codec);
    JoinIsSpaced("M", parts);
    line := Join(" ", ["M"] + parts);
  }

  method WritePart<J>(f: Field, v: Value<J>, table: seq<Rule>, codec: JsonCodec<J>) returns (part: string)
    requires Usable(table)
    ensures part == Part(f, v, table, codec)
  {
    var text := WriteValue(f, v, table, codec);
    part := Alias(f) + "=" + text;
  }

  // ---- decoding ----

  /** Metadata text is read as JSON when it can be. */
  function ReadMetadata<J>(s: string, codec: JsonCodec<J>): Value<J> {
    if s == [] then Str(s)
    else match codec.loads(s) case Some(v) => v case None => Str(s)
  }

  /** The value of a token: content through the reversed dictionary, metadata as JSON when it can be. */
  function DecodedValue<J>(f: Field, raw: string, table: seq<Rule>, codec: JsonCodec<J>): Value<J>
    requires Usable(Flipped(table))
  {
    match Unescape(raw)
    case None => Null
    case Some(s) =>
      if f == Content then Str(Reversed(s, table))
      else if f == Metadata then ReadMetadata(s, codec)
      else Str(s)
  }

  function ReadPairs<J>(acc: Memory<J>, pairs: seq<Pair>, table: seq<Rule>, codec: JsonCodec<J>): Memory<J>
    requires Usable(Flipped(table))
    decreases |pairs|
  {
    if pairs == [] then acc
    else
      var acc' := match FieldOf(pairs[0].alias)
        case Some(f) => acc[f := DecodedValue(f, pairs[0].raw, table, codec)]
        case None => acc;
      ReadPairs(acc', pairs[1..], table, codec)
  }

  function ParsedLine<J>(line: string, table: seq<Rule>, codec: JsonCodec<J>): Memory<J>
    requires Usable(Flipped(table)) && line != []
  {
    ReadPairs(map[], FindAll(Strip(line[1..])), table, codec)
  }

  /** A line that does not start with `M` is an error. */
  method ParseMemoryLine<J>(line: string, table: seq<Rule>, codec: JsonCodec<J>) returns (r: Option<Memory<J>>)
    requires Usable(Flipped(table))
    ensures r == if "M" <= line then Some(ParsedLine(line, table, codec)) else None
  {
    if !("M" <= line) { return None; }
    var pairs := FindAll(Strip(line[1..]));
    var out: Memory<J> := map[];
    for k := 0 to |pairs|
      invariant ReadPairs(out, pairs[k..], table, codec) == ReadPairs(map[], pairs, table, codec)
    {
      assert pairs[k..][1..] == pairs[k + 1..];
      var raw := pairs[k].raw;
      match FieldOf(pairs[k].alias) {
        case None =>
        case Some(f) =>
          var text := UnescapeValue(raw);
          var value: Value<J> := Null;
          match text {
            case None =>
            case Some(s) =>
              if f == Content {
                var t := ReverseSubstitutions(s, table);
                value := Str(t);
              } else if f == Metadata {
                value := ReadMetadata(s, codec);
              } else {
                value := Str(s);
              }
          }
          out := out[f := value];
      }
    }
    assert pairs[|pairs|..] == [];
    r := Some(out);
  }

  // ---- what a line gives back ----

  /** The value the decoder reads for a field with its own dictionary, `None` when it misses the field. */
  function SeenValue<J>(f: Field, v: Value<J>, table: seq<Rule>, back: seq<Rule>, codec: JsonCodec<J>): Option<Value<J>>
    requires Usable(table) && Usable(Flipped(back))
  {
    var w := WrittenValue(f, v, table, codec);
    if w == [] then None
    else match SeenRaw(w)
      case None => None
      case Some(raw) => Some(DecodedValue(f, raw, back, codec))
  }

  function SeenFields<J>(mem: Memory<J>, fields: seq<Field>, table: seq<Rule>, back: seq<Rule>, codec: JsonCodec<J>): Memory<J>
    requires Usable(table) && Usable(Flipped(back))
  {
    map f | f in fields && f in mem && SeenValue(f, mem[f], table, back, codec).Some? ::
      SeenValue(f, mem[f], table, back, codec).value
  }

  function LinePairs<J>(mem: Memory<J>, fields: seq<Field>, table: seq<Rule>, codec: JsonCodec<J>): seq<Pair>
    requires Usable(table)
  {
    if fields == [] then []
    else
      var f := fields[0];
      (if f in mem && WrittenValue(f, mem[f], table, codec) != [] then
         SeenPairs(Alias(f), WrittenValue(f, mem[f], table, codec)) else [])
      + LinePairs(mem, fields[1..], table, codec)
  }

  lemma WrittenValueIsWritten<J>(f: Field, v: Value<J>, table: seq<Rule>, codec: JsonCodec<J>)
    requires Usable(table)
    ensures IsWritten(WrittenValue(f, v, table, codec))
  {
    if !v.Null? { WrittenIsWritten(PlainText(f, v, table, codec)); }
  }

  lemma SpacedPartScan(part: string, parts: seq<string>)
    ensures FindAll(Spaced([part] + parts)) == FindAll(part + Spaced(parts))
  {
    assert ([part] + parts)[1..] == parts;
    assert Spaced([part] + parts) == " " + (part + Spaced(parts));
    SpaceSkipped(part + Spaced(parts));
  }

  /** The scan of a serialised line reports the written values field by field. */
  lemma {:induction false} LineScan<J>(mem: Memory<J>, fields: seq<Field>, table: seq<Rule>, codec: JsonCodec<J>)
    requires Usable(table) && forall f <- fields :: !f.Unknown?
    ensures FindAll(Spaced(Parts(mem, fields, table, codec))) == LinePairs(mem, fields, table, codec)
  {
    if fields != [] {
      var f, parts := fields[0], Parts(mem, fields[1..], table, codec);
      assert forall g <- fields[1..] :: g in fields;
      LineScan(mem, fields[1..], table, codec);
      if f in mem {
        PartScan(f, mem[f], parts, table, codec);
        assert Parts(mem, fields, table, codec) == [Part(f, mem[f], table, codec)] + parts;
      } else {
        assert Parts(mem, fields, table, codec) == parts;
      }
    }
  }

  lemma PartScan<J>(f: Field, v: Value<J>, parts: seq<string>, table: seq<Rule>, codec: JsonCodec<J>)
    requires Usable(table) && !f.Unknown?
    ensures var w := WrittenValue(f, v, table, codec);
      w != [] && FindAll(Spaced([Part(f, v, table, codec)] + parts)) == SeenPairs(Alias(f), w) + FindAll(Spaced(parts))
  {
    var w := WrittenValue(f, v, table, codec);
    AliasesAreInvertible(f);
    WrittenValueIsWritten(f, v, table, codec);
    WrittenValueSeen(Alias(f), w, Spaced(parts));
    SpacedPartScan(Part(f, v, table, codec), parts);
  }

  lemma SeenFieldsStep<J>(mem: Memory<J>, fields: seq<Field>, table: seq<Rule>, back: seq<Rule>, codec: JsonCodec<J>)
    requires Usable(table) && Usable(Flipped(back)) && fields != []
    ensures var f, rest := fields[0], SeenFields(mem, fields[1..], table, back, codec);
      SeenFields(mem, fields, table, back, codec) ==
        if f in mem && SeenValue(f, mem[f], table, back, codec).Some?
        then map[f := SeenValue(f, mem[f], table, back, codec).value] + rest
        else rest
  {
    var f, rest, all := fields[0], SeenFields(mem, fields[1..], table, back, codec), SeenFields(mem, fields, table, back, codec);
    assert forall g :: g in fields <==> g == f || g in fields[1..];
    if f in mem && SeenValue(f, mem[f], table, back, codec).Some? {
      var first := map[f := SeenValue(f, mem[f], table, back, codec).value];
      assert (first + rest).Keys == all.Keys;
      assert forall g <- all :: all[g] == (first + rest)[g];
    } else {
      assert rest.Keys == all.Keys;
    }
  }

  lemma ReadPairsStep<J>(acc: Memory<J>, f: Field, raw: string, pairs: seq<Pair>,
                         table: seq<Rule>, codec: JsonCodec<J>)
    requires Usable(Flipped(table)) && !f.Unknown?
    ensures ReadPairs(acc, [Pair(Alias(f), raw)] + pairs, table, codec)
            == ReadPairs(acc[f := DecodedValue(f, raw, table, codec)], pairs, table, codec)
  {
    AliasesAreInvertible(f);
    assert ([Pair(Alias(f), raw)] + pairs)[1..] == pairs;
  }

  lemma LinePairsStep<J>(mem: Memory<J>, fields: seq<Field>, table: seq<Rule>, back: seq<Rule>, codec: JsonCodec<J>)
    requires Usable(table) && Usable(Flipped(back)) && fields != []
    ensures var f, rest := fields[0], LinePairs(mem, fields[1..], table, codec);
      LinePairs(mem, fields, table, codec) ==
        if f in mem && SeenValue(f, mem[f], table, back, codec).Some?
        then [Pair(Alias(f), SeenRaw(WrittenValue(f, mem[f], table, codec)).value)] + rest
        else rest
  {}

  lemma MergeShift<K, V>(acc: map<K, V>, k: K, v: V, tail: map<K, V>)
    ensures acc + (map[k := v] + tail) == acc[k := v] + tail
  {}

  lemma {:induction false} PairsGiveSeenFields<J>(acc: Memory<J>, mem: Memory<J>, fields: seq<Field>,
                                                  table: seq<Rule>, back: seq<Rule>, codec: JsonCodec<J>)
    requires Usable(table) && Usable(Flipped(back)) && forall f <- fields :: !f.Unknown?
    ensures ReadPairs(acc, LinePairs(mem, fields, table, codec), back, codec)
            == acc + SeenFields(mem, fields, table, back, codec)
    decreases |fields|
  {
    if fields != [] {
      var f, rest := fields[0], LinePairs(mem, fields[1..], table, codec);
      var tail := SeenFields(mem, fields[1..], table, back, codec);
      assert forall g <- fields[1..] :: g in fields;
      SeenFieldsStep(mem, fields, table, back, codec);
      LinePairsStep(mem, fields, table, back, codec);
      if f in mem && SeenValue(f, mem[f], table, back, codec).Some? {
        var v, raw := SeenValue(f, mem[f], table, back, codec).value, SeenRaw(WrittenValue(f, mem[f], table, codec)).value;
        PairsGiveSeenFields(acc[f := v], mem, fields[1..], table, back, codec);
        ReadPairsStep(acc, f, raw, rest, back, codec);
        MergeShift(acc, f, v, tail);
      } else {
        PairsGiveSeenFields(acc, mem, fields[1..], table, back, codec);
      }
    }
  }

  /** Trimming the line trims its body. */
  lemma {:induction false} StripRightOfCons(c: char, body: string)
    requires !IsSpace(c)
    ensures StripRight([c] + body) == [c] + StripRight(body)
    decreases |body|
  {
    var whole := [c] + body;
    if body == [] {
      assert whole == [c];
    } else {
      assert whole[|whole| - 1] == body[|body| - 1];
      assert whole[..|whole| - 1] == [c] + body[..|body| - 1];
      StripRightOfCons(c, body[..|body| - 1]);
    }
  }

  lemma StripOfCons(c: char, body: string)
    requires !IsSpace(c)
    ensures Strip([c] + body) == [c] + StripRight(body)
  {
    var whole := [c] + body;
    assert whole[0] == c;
    assert StripLeft(whole) == whole;
    StripRightOfCons(c, body);
  }

  lemma StripTwiceScan(body: string)
    ensures FindAll(Strip(StripRight(body))) == FindAll(body)
  {
    var t := StripRight(body);
    FindAllOfStripRight(StripLeft(t));
    FindAllOfStripLeft(t);
    FindAllOfStripRight(body);
  }

  /** Whatever `strip` trims off a line that starts with `M`, the scan of its body is the same. */
  lemma TrimmedLineScan(body: string)
    requires AtBorder(body)
    ensures var line := Strip("M" + body);
      && line != [] && line[0] == 'M' && (|line| > 1 ==> line[1] == ' ')
      && FindAll(Strip(line[1..])) == FindAll(body)
  {
    StripOfCons('M', body);
    var line := Strip(['M'] + body);
    assert line[1..] == StripRight(body);
    StripRightIsFront(body);
    StripTwiceScan(body);
  }

  /** Decoding a serialised line yields the seen fields. */
  lemma LineReadsBack<J>(mem: Memory<J>, table: seq<Rule>, back: seq<Rule>, codec: JsonCodec<J>)
    requires Usable(table) && Usable(Flipped(back))
    ensures var line := Strip(Serialised(mem, table, codec));
      line != [] && line[0] == 'M' && (|line| > 1 ==> line[1] == ' ')
      && ParsedLine(line, back, codec) == SeenFields(mem, KNOWN, table, back, codec)
  {
    KnownLineReadsBack(mem, KNOWN, table, back, codec) by {
      forall f <- KNOWN ensures !f.Unknown? { KnownIsKnown(f); }
    }
  }

  lemma KnownLineReadsBack<J>(mem: Memory<J>, fields: seq<Field>, table: seq<Rule>, back: seq<Rule>, codec: JsonCodec<J>)
    requires Usable(table) && Usable(Flipped(back)) && forall f <- fields :: !f.Unknown?
    ensures var line := Strip("M" + Spaced(Parts(mem, fields, table, codec)));
      line != [] && line[0] == 'M' && (|line| > 1 ==> line[1] == ' ')
      && ParsedLine(line, back, codec) == SeenFields(mem, fields, table, back, codec)
  {
    var body, seen := Spaced(Parts(mem, fields, table, codec)), SeenFields(mem, fields, table, back, codec);
    TrimmedLineScan(body);
    LineScan(mem, fields, table, codec);
    ScanGivesSeenFields(mem, fields, FindAll(body), table, back, codec);
  }

  lemma ScanGivesSeenFields<J>(mem: Memory<J>, fields: seq<Field>, pairs: seq<Pair>,
                               table: seq<Rule>, back: seq<Rule>, codec: JsonCodec<J>)
    requires Usable(table) && Usable(Flipped(back)) && forall f <- fields :: !f.Unknown?
    requires pairs == LinePairs(mem, fields, table, codec)
    ensures ReadPairs(map[], pairs, back, codec) == SeenFields(mem, fields, table, back, codec)
  {
    var seen := SeenFields(mem, fields, table, back, codec);
    PairsGiveSeenFields(map[], mem, fields, table, back, codec);
    assert map[] + seen == seen;
  }

  // ---- the order on the wire ----

  lemma {:induction false} PairsAreOf<J>(mem: Memory<J>, fields: seq<Field>, table: seq<Rule>, codec: JsonCodec<J>, p: Pair)
    requires Usable(table) && (forall f <- fields :: !f.Unknown?) && p in LinePairs(mem, fields, table, codec)
    ensures exists f :: f in fields && FieldOf(p.alias) == Some(f)
  {
    var f, rest := fields[0], LinePairs(mem, fields[1..], table, codec);
    AliasesAreInvertible(f);
    assert forall g <- fields[1..] :: g in fields;
    if p in rest {
      PairsAreOf(mem, fields[1..], table, codec, p);
    } else {
      assert f in mem && WrittenValue(f, mem[f], table, codec) != [];
      assert p in SeenPairs(Alias(f), WrittenValue(f, mem[f], table, codec));
    }
  }

  lemma OrderedCons(p: seq<Pair>, rest: seq<Pair>)
    requires |p| <= 1 && InOrder(rest) && (forall x <- p :: FieldOf(x.alias).Some?)
    requires forall x <- p, q <- rest :: Ordered(x, q)
    ensures InOrder(p + rest)
  {
    if p == [] { assert p + rest == rest; }
    forall i, j | 0 <= i < j < |p + rest| ensures Ordered((p + rest)[i], (p + rest)[j]) {
      assert (p + rest)[j] in rest;
      if i >= |p| { assert (p + rest)[i] == rest[i - |p|]; } else { assert (p + rest)[i] in p; }
    }
  }

  lemma {:induction false} LinePairsInOrder<J>(mem: Memory<J>, fields: seq<Field>, table: seq<Rule>, codec: JsonCodec<J>)
    requires Usable(table) && SortedFields(fields)
    ensures InOrder(LinePairs(mem, fields, table, codec))
  {
    if fields != [] {
      var f, rest := fields[0], LinePairs(mem, fields[1..], table, codec);
      assert forall g <- fields[1..] :: g in fields;
      LinePairsInOrder(mem, fields[1..], table, codec);
      AliasesAreInvertible(f);
      var first := if f in mem && WrittenValue(f, mem[f], table, codec) != []
                   then SeenPairs(Alias(f), WrittenValue(f, mem[f], table, codec)) else [];
      forall x <- first, q <- rest ensures Ordered(x, q) { LaterPair(mem, fields, table, codec, x, q); }
      OrderedCons(first, rest);
    }
  }

  lemma LaterPair<J>(mem: Memory<J>, fields: seq<Field>, table: seq<Rule>, codec: JsonCodec<J>, x: Pair, q: Pair)
    requires Usable(table) && fields != [] && SortedFields(fields) && FieldOf(x.alias) == Some(fields[0])
    requires q in LinePairs(mem, fields[1..], table, codec)
    ensures Ordered(x, q)
  {
    assert forall g <- fields[1..] :: g in fields;
    PairsAreOf(mem, fields[1..], table, codec, q);
    var g :| g in fields[1..] && FieldOf(q.alias) == Some(g);
    var k :| 0 <= k < |fields[1..]| && fields[1..][k] == g;
    assert Precedes(fields[0], fields[k + 1]);
  }

  /** However a memory was built, its line has the id first and then the fields by ascending key. */
  lemma LineIsInOrder<J>(mem: Memory<J>, table: seq<Rule>, codec: JsonCodec<J>)
    requires Usable(table)
    ensures var line := Strip(Serialised(mem, table, codec)); line != [] && InOrder(FindAll(Strip(line[1..])))
  {
    var body, fields := Spaced(Parts(mem, KNOWN, table, codec)), KNOWN;
    assert SortedFields(fields) by {
      forall f <- fields ensures !f.Unknown? { KnownIsKnown(f); }
      forall i, j | 0 <= i < j < |fields| ensures Precedes(fields[i], fields[j]) { KnownIsSorted(i, j); }
    }
    TrimmedLineScan(body);
    LineScan(mem, fields, table, codec);
    LinePairsInOrder(mem, fields, table, codec);
  }

  lemma {:induction false} PartsOfOne<J>(f: Field, v: Value<J>, fields: seq<Field>, table: seq<Rule>, codec: JsonCodec<J>)
    requires Usable(table) && forall i, j :: 0 <= i < j < |fields| ==> fields[i] != fields[j]
    ensures Parts(map[f := v], fields, table, codec) == if f in fields then [Part(f, v, table, codec)] else []
  {
    if fields != [] {
      PartsOfOne(f, v, fields[1..], table, codec);
      assert forall g :: g in fields <==> g == fields[0] || g in fields[1..];
    }
  }

  lemma KnownIsDistinct()
    ensures forall i, j :: 0 <= i < j < |KNOWN| ==> KNOWN[i] != KNOWN[j]
  {
    forall i, j | 0 <= i < j < |KNOWN| ensures KNOWN[i] != KNOWN[j] {
      KnownIsSorted(i, j);
      TextLessTotal(Name(KNOWN[i]), Name(KNOWN[j]));
    }
  }

  lemma WireNameIsAlias(f: Field)
    requires !f.Unknown?
    ensures WireName(f) == Alias(f)
  {}

  lemma SpacedOne(part: string)
    ensures "M" + Spaced([part]) == "M " + part
  {
    assert [part][1..] == [] && Spaced([part]) == " " + part + Spaced([]);
  }

  /** The line of a memory with one field, in full: this is what other readers of the format see. */
  lemma OneFieldLine<J>(f: Field, v: Value<J>, table: seq<Rule>, codec: JsonCodec<J>)
    requires Usable(table) && !f.Unknown?
    ensures Serialised(map[f := v], table, codec) == "M " + (WireName(f) + "=" + WrittenValue(f, v, table, codec))
  {
    var fields := KNOWN;
    KnownIsKnown(f);
    KnownIsDistinct();
    PartsOfOne(f, v, fields, table, codec);
    WireNameIsAlias(f);
    SpacedOne(Part(f, v, table, codec));
  }

  /** The documented aliases, by key. */
  function WireName(f: Field): string {
    var aliases := map[
      "id" := "id", "namespace" := "ns", "content_type" := "t", "created_at" := "@", "invalid_at" := "!",
      "valid_at" := "v", "content" := "c", "metadata" := "m", "source_agent" := "s", "session_id" := "sid",
      "round_id" := "rid", "tier" := "ts", "visibility" := "vis"];
    if Name(f) in aliases then aliases[Name(f)] else ""
  }
}
