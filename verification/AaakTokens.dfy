/**
 Values and tokens of an AAAK line: the quoting of kemory/compression/aaak.py:123-181 and the left-to-right scan of
 the token expression at lines 203-206.
 */
module AaakTokens {
  import opened Text

  // ---- quoting ----

  predicate IsSpecial(c: char) {
    c == ' ' || c == '\t' || c == '\n' || c == '\r' || c == '=' || c == '"' || c == '\\'
  }

  predicate NeedsQuoting(s: string) { s == [] || s[0] == '$' || exists c <- s :: IsSpecial(c) }

  /** The five replacements of the encoder, in its order. */
  function Escaped(s: string): string {
    Replace(Replace(Replace(Replace(Replace(s, "\\", "\\\\"), "\"", "\\\""), "\n", "\\n"), "\r", "\\r"), "\t", "\\t")
  }

  function Quoted(s: string): string { "\"" + Escaped(s) + "\"" }

  /** How a text is written after `alias=`. */
  function Written(s: string): string { if NeedsQuoting(s) then Quoted(s) else s }

  function UnescapedChar(c: char): char {
    if c == 'n' then '\n' else if c == 'r' then '\r' else if c == 't' then '\t' else c
  }

  /** What the decoder's index loop makes of the inside of a quoted token. */
  function Unescaped(inner: string): string
    decreases |inner|
  {
    if inner == [] then []
    else if inner[0] == '\\' && |inner| > 1 then [UnescapedChar(inner[1])] + Unescaped(inner[2..])
    else [inner[0]] + Unescaped(inner[1..])
  }

  lemma UnescapedAt(inner: string, i: nat)
    requires i < |inner|
    ensures Unescaped(inner[i..]) ==
            if inner[i] == '\\' && i + 1 < |inner|
            then [UnescapedChar(inner[i + 1])] + Unescaped(inner[i + 2..])
            else [inner[i]] + Unescaped(inner[i + 1..])
  {
    var s := inner[i..];
    assert s[0] == inner[i] && s[1..] == inner[i + 1..];
    if i + 1 < |inner| {
      assert s[1] == inner[i + 1] && s[2..] == inner[i + 2..];
    }
  }

  method UnescapeInner(inner: string) returns (out: string)
    ensures out == Unescaped(inner)
  {
    out := [];
    var i := 0;
    assert inner[0..] == inner;
    while i < |inner|
      invariant 0 <= i <= |inner|
      invariant out + Unescaped(inner[i..]) == Unescaped(inner)
    {
      UnescapedAt(inner, i);
      if inner[i] == '\\' && i + 1 < |inner| {
        AppendCons(out, UnescapedChar(inner[i + 1]), Unescaped(inner[i + 2..]));
        out := out + [UnescapedChar(inner[i + 1])];
        i := i + 2;
      } else {
        AppendCons(out, inner[i], Unescaped(inner[i + 1..]));
        out := out + [inner[i]];
        i := i + 1;
      }
    }
    assert inner[i..] == [];
  }

  predicate IsQuoted(raw: string) { raw != [] && raw[0] == '"' && raw[|raw| - 1] == '"' }

  /** `s[1:-1]`, empty when the token is a lone quote. */
  function Inner(raw: string): string { if |raw| < 2 then [] else raw[1..|raw| - 1] }

  /** `_unescape_value`: `None` for a tilde, the inside of a quoted token, any other token as it stands. */
  function Unescape(raw: string): Option<string> {
    if raw == "~" then None
    else if IsQuoted(raw) then Some(Unescaped(Inner(raw)))
    else Some(raw)
  }

  method UnescapeValue(raw: string) returns (v: Option<string>)
    ensures v == Unescape(raw)
  {
    if raw == "~" { return None; }
    if IsQuoted(raw) {
      var out := UnescapeInner(Inner(raw));
      return Some(out);
    }
    return Some(raw);
  }

  // ---- quoting character by character ----

  function EscapedChar(c: char): string {
    if c == '\\' then "\\\\"
    else if c == '"' then "\\\""
    else if c == '\n' then "\\n"
    else if c == '\r' then "\\r"
    else if c == '\t' then "\\t"
    else [c]
  }

  lemma ReplaceCharHead(s: string, c: char, r: string)
    requires s != []
    ensures Replace(s, [c], r) == (if s[0] == c then r else [s[0]]) + Replace(s[1..], [c], r)
  {
    assert [c] <= s <==> s[..1] == [c];
    assert s[..1] == [s[0]];
  }

  /** Replacing one character, character by character. */
  function Mapped(s: string, c: char, r: string): string {
    if s == [] then [] else (if s[0] == c then r else [s[0]]) + Mapped(s[1..], c, r)
  }

  lemma {:induction false} MappedConcat(a: string, b: string, c: char, r: string)
    ensures Mapped(a + b, c, r) == Mapped(a, c, r) + Mapped(b, c, r)
  {
    if a == [] {
      assert a + b == b;
    } else {
      MappedConcat(a[1..], b, c, r);
      assert (a + b)[1..] == a[1..] + b && (a + b)[0] == a[0];
      ghost var head := if a[0] == c then r else [a[0]];
      assert head + (Mapped(a[1..], c, r) + Mapped(b, c, r)) == (head + Mapped(a[1..], c, r)) + Mapped(b, c, r);
    }
  }

  lemma {:induction false} ReplaceIsMapped(s: string, c: char, r: string)
    ensures Replace(s, [c], r) == Mapped(s, c, r)
  {
    if s != [] {
      ReplaceCharHead(s, c, r);
      ReplaceIsMapped(s[1..], c, r);
    }
  }

  lemma ReplaceCharConcat(a: string, b: string, c: char, r: string)
    ensures Replace(a + b, [c], r) == Replace(a, [c], r) + Replace(b, [c], r)
  {
    ReplaceIsMapped(a + b, c, r);
    ReplaceIsMapped(a, c, r);
    ReplaceIsMapped(b, c, r);
    MappedConcat(a, b, c, r);
  }

  lemma EscapedConcat(a: string, b: string)
    ensures Escaped(a + b) == Escaped(a) + Escaped(b)
  {
    var a1, b1 := Replace(a, "\\", "\\\\"), Replace(b, "\\", "\\\\");
    ReplaceCharConcat(a, b, '\\', "\\\\");
    var a2, b2 := Replace(a1, "\"", "\\\""), Replace(b1, "\"", "\\\"");
    ReplaceCharConcat(a1, b1, '"', "\\\"");
    var a3, b3 := Replace(a2, "\n", "\\n"), Replace(b2, "\n", "\\n");
    ReplaceCharConcat(a2, b2, '\n', "\\n");
    var a4, b4 := Replace(a3, "\r", "\\r"), Replace(b3, "\r", "\\r");
    ReplaceCharConcat(a3, b3, '\r', "\\r");
    ReplaceCharConcat(a4, b4, '\t', "\\t");
  }

  lemma ReplaceOne(x: char, c: char, r: string)
    ensures Replace([x], [c], r) == if x == c then r else [x]
  {
    ReplaceCharHead([x], c, r);
    assert [x][1..] == [] && Replace([], [c], r) == [];
  }

  lemma ReplaceTwo(x: char, y: char, c: char, r: string)
    requires x != c && y != c
    ensures Replace([x, y], [c], r) == [x, y]
  {
    assert [x, y] == [x] + [y];
    ReplaceCharConcat([x], [y], c, r);
    ReplaceOne(x, c, r);
    ReplaceOne(y, c, r);
  }

  lemma EscapedOne(c: char)
    ensures Escaped([c]) == EscapedChar(c)
  {
    ReplaceOne(c, '\\', "\\\\");
    ReplaceOne(c, '"', "\\\"");
    ReplaceOne(c, '\n', "\\n");
    ReplaceOne(c, '\r', "\\r");
    ReplaceOne(c, '\t', "\\t");
    ReplaceTwo('\\', '\\', '"', "\\\"");
    ReplaceTwo('\\', '\\', '\n', "\\n");
    ReplaceTwo('\\', '\\', '\r', "\\r");
    ReplaceTwo('\\', '\\', '\t', "\\t");
    ReplaceTwo('\\', '"', '\n', "\\n");
    ReplaceTwo('\\', '"', '\r', "\\r");
    ReplaceTwo('\\', '"', '\t', "\\t");
    ReplaceTwo('\\', 'n', '\r', "\\r");
    ReplaceTwo('\\', 'n', '\t', "\\t");
    ReplaceTwo('\\', 'r', '\t', "\\t");
  }

  lemma EscapedCons(s: string)
    requires s != []
    ensures Escaped(s) == EscapedChar(s[0]) + Escaped(s[1..])
  {
    assert s == [s[0]] + s[1..];
    EscapedConcat([s[0]], s[1..]);
    EscapedOne(s[0]);
  }

  /** Quoting loses nothing, for every text. */
  lemma {:induction false} EscapedIsNotShorter(s: string)
    ensures |Escaped(s)| >= |s|
  {
    if s != [] {
      EscapedCons(s);
      EscapedIsNotShorter(s[1..]);
    }
  }

  /** A text is written as it is unless it is empty, starts with a dollar or holds one of seven characters. */
  lemma WrittenAsItIsIff(s: string)
    ensures Written(s) == s <==> s != "" && s[0] != '$' && forall c <- s :: c !in " \t\n\r=\"\\"
    ensures Written(s) != s ==> |Written(s)| >= 2 && Written(s)[0] == '"' == Written(s)[|Written(s)| - 1]
  {
    assert forall c :: IsSpecial(c) <==> c in " \t\n\r=\"\\";
    if NeedsQuoting(s) {
      EscapedIsNotShorter(s);
      assert |Quoted(s)| == |Escaped(s)| + 2;
    }
  }

  /** The escapes on the wire. */
  lemma EscapesAre(c: char)
    ensures Escaped([c]) == if c in "\\\"" then ['\\', c] else if c == '\n' then ['\\', 'n'] else if c == '\r' then ['\\', 'r']
                            else if c == '\t' then ['\\', 't'] else [c]
  {
    EscapedOne(c);
  }

  lemma {:induction false} UnescapedEscaped(s: string)
    ensures Unescaped(Escaped(s)) == s
  {
    if s != [] {
      EscapedCons(s);
      UnescapedEscaped(s[1..]);
      var e, rest := EscapedChar(s[0]), Escaped(s[1..]);
      assert (e + rest)[|e|..] == rest;
    }
  }

  lemma UnescapeQuoted(s: string)
    ensures Unescape(Quoted(s)) == Some(s)
  {
    UnescapedEscaped(s);
    assert Inner(Quoted(s)) == Escaped(s);
  }

  // ---- the token expression ----

  predicate IsAliasChar(c: char) { c == '@' || c == '!' || 'a' <= c <= 'z' }

  function AliasLength(s: string): (n: nat)
    ensures n <= |s|
  {
    if s == [] || !IsAliasChar(s[0]) then 0 else 1 + AliasLength(s[1..])
  }

  /** Length of the shortest prefix that ends with an unescaped quote, 0 if there is none. */
  function ClosingQuote(s: string): (n: nat)
    ensures n <= |s|
    decreases |s|
  {
    if s == [] then 0
    else if s[0] == '"' then 1
    else if s[0] == '\\' then
      if |s| < 2 || s[1] == '\n' then 0
      else
        var n := ClosingQuote(s[2..]);
        if n == 0 then 0 else n + 2
    else
      var n := ClosingQuote(s[1..]);
      if n == 0 then 0 else n + 1
  }

  function NonSpaceLength(s: string): (n: nat)
    ensures n <= |s|
    ensures forall k :: 0 <= k < n ==> !IsSpace(s[k])
    ensures n < |s| ==> IsSpace(s[n])
  {
    if s == [] || IsSpace(s[0]) then 0 else 1 + NonSpaceLength(s[1..])
  }

  /** Length matched by `"(?:[^"\\]|\\.)*"|~|\S+`, 0 for no match. */
  function ValueLength(s: string): (n: nat)
    ensures n <= |s|
  {
    if s == [] then 0
    else if s[0] == '"' && ClosingQuote(s[1..]) != 0 then 1 + ClosingQuote(s[1..])
    else if s[0] == '~' then 1
    else NonSpaceLength(s)
  }

  datatype Pair = Pair(alias: string, raw: string)

  /** The token that starts exactly at the front of `s`, with the length it takes. */
  function TokenAtFront(s: string): (r: Option<(Pair, nat)>)
    ensures r.Some? ==> 0 < r.value.1 <= |s|
  {
    var a := AliasLength(s);
    if a == 0 || a == |s| || s[a] != '=' then None
    else
      var n := ValueLength(s[a + 1..]);
      if n == 0 then None else Some((Pair(s[..a], s[a + 1..][..n]), a + 1 + n))
  }

  /** `_TOKEN_RE.findall` */
  function FindAll(s: string): seq<Pair>
    decreases |s|
  {
    if s == [] then []
    else match TokenAtFront(s)
      case Some(hit) => [hit.0] + FindAll(s[hit.1..])
      case None => FindAll(s[1..])
  }

  // ---- what the scan sees of a written value ----

  predicate IsAlias(a: string) { a != [] && forall c <- a :: IsAliasChar(c) }

  /** End of the line, or the space before the next token. */
  predicate AtBorder(rest: string) { rest == [] || rest[0] == ' ' }

  /** A value as the encoder writes it: quoted, or free of every character that forces quotes. */
  ghost predicate IsWritten(w: string) {
    || (exists s :: w == Quoted(s))
    || (w != [] && forall c <- w :: !IsSpecial(c))
  }

  lemma WrittenIsWritten(s: string)
    ensures IsWritten(Written(s))
  {}

  /** The raw token the scan reports for a written value; nothing when it starts with a blank. */
  function SeenRaw(w: string): Option<string>
    requires w != []
  {
    if w[0] == '"' then Some(w)
    else if w[0] == '~' then Some("~")
    else if NonSpaceLength(w) == 0 then None
    else Some(w[..NonSpaceLength(w)])
  }

  function SeenPairs(alias: string, w: string): seq<Pair>
    requires w != []
  {
    match SeenRaw(w) case Some(raw) => [Pair(alias, raw)] case None => []
  }

  lemma {:induction false} AliasLengthIs(a: string, rest: string)
    requires forall c <- a :: IsAliasChar(c)
    requires rest != [] ==> !IsAliasChar(rest[0])
    ensures AliasLength(a + rest) == |a|
  {
    if a == [] {
      assert a + rest == rest;
    } else {
      assert (a + rest)[1..] == a[1..] + rest;
      assert a[0] in a;
      AliasLengthIs(a[1..], rest);
    }
  }

  lemma ClosingQuoteStep(c: char, tail: string)
    requires ClosingQuote(tail) != 0
    ensures ClosingQuote(EscapedChar(c) + tail) == |EscapedChar(c)| + ClosingQuote(tail)
  {
    var e := EscapedChar(c);
    var s := e + tail;
    assert s[0] == e[0];
    if |e| == 2 {
      assert e[0] == '\\' && e[1] != '\n' && s[1] == e[1];
      assert s[2..] == tail;
    } else {
      assert e[0] == c && c != '\\' && c != '"';
      assert s[1..] == tail;
    }
  }

  lemma {:induction false} ClosingQuoteOfEscaped(s: string, rest: string)
    ensures ClosingQuote(Escaped(s) + "\"" + rest) == |Escaped(s)| + 1
  {
    if s == [] {
      assert Escaped(s) + "\"" + rest == "\"" + rest;
    } else {
      EscapedCons(s);
      ClosingQuoteOfEscaped(s[1..], rest);
      var e, tail := EscapedChar(s[0]), Escaped(s[1..]) + "\"" + rest;
      var whole := Escaped(s) + "\"" + rest;
      assert whole == e + tail;
      ClosingQuoteStep(s[0], tail);
    }
  }

  lemma {:induction false} NonSpaceLengthAtBorder(w: string, rest: string)
    requires AtBorder(rest)
    ensures NonSpaceLength(w + rest) == NonSpaceLength(w)
  {
    if w == [] {
      assert w + rest == rest;
    } else {
      assert (w + rest)[1..] == w[1..] + rest;
      NonSpaceLengthAtBorder(w[1..], rest);
    }
  }

  /** Without an `=` no token starts before the border. */
  lemma {:induction false} NothingSeenWithoutEquals(w: string, rest: string)
    requires '=' !in w && AtBorder(rest)
    ensures FindAll(w + rest) == FindAll(rest)
  {
    if w == [] {
      assert w + rest == rest;
    } else {
      var s := w + rest;
      var a := AliasLength(s);
      AliasStopsAtBorder(w, rest);
      assert s[1..] == w[1..] + rest;
      assert a < |w| ==> s[a] == w[a] && w[a] in w;
      NothingSeenWithoutEquals(w[1..], rest);
    }
  }

  lemma BorderHasNoAlias(rest: string)
    requires AtBorder(rest)
    ensures AliasLength(rest) == 0
  {
    if rest != [] {
      assert rest[0] == ' ';
      assert !IsAliasChar(' ');
    }
  }

  lemma {:induction false} AliasStopsAtBorder(w: string, rest: string)
    requires AtBorder(rest)
    ensures AliasLength(w + rest) <= |w|
  {
    if w == [] {
      assert w + rest == rest;
      BorderHasNoAlias(rest);
    } else {
      assert (w + rest)[1..] == w[1..] + rest;
      AliasStopsAtBorder(w[1..], rest);
    }
  }

  lemma CharSkipped(c: char, s: string)
    requires !IsAliasChar(c)
    ensures FindAll([c] + s) == FindAll(s)
  {
    var t := [c] + s;
    assert t[0] == c && t[1..] == s;
    assert AliasLength(t) == 0 && TokenAtFront(t) == None;
  }

  lemma SpaceSkipped(s: string)
    ensures FindAll(" " + s) == FindAll(s)
  {
    CharSkipped(' ', s);
    assert " " + s == [' '] + s;
  }

  lemma TokenAtAlias(alias: string, tail: string)
    requires IsAlias(alias)
    ensures
      var s, n := alias + "=" + tail, ValueLength(tail);
      TokenAtFront(s) ==
        if n == 0 then None else Some((Pair(alias, tail[..n]), |alias| + 1 + n))
  {
    var s := alias + "=" + tail;
    assert s == alias + ("=" + tail);
    AliasLengthIs(alias, "=" + tail);
    assert s[|alias| + 1..] == tail && s[..|alias|] == alias && s[|alias|] == '=';
  }

  /** An alias whose value cannot be matched yields no token at any of its characters. */
  lemma {:induction false} AliasWithoutValue(alias: string, tail: string)
    requires (forall c <- alias :: IsAliasChar(c)) && ValueLength(tail) == 0
    ensures FindAll(alias + "=" + tail) == FindAll(tail)
  {
    var s := alias + "=" + tail;
    if alias == [] {
      assert s == "=" + tail && s[1..] == tail;
    } else {
      TokenAtAlias(alias, tail);
      assert s[1..] == alias[1..] + "=" + tail;
      AliasWithoutValue(alias[1..], tail);
    }
  }

  lemma QuotedValueLength(s: string, rest: string)
    ensures ValueLength(Quoted(s) + rest) == |Quoted(s)|
  {
    var w := Quoted(s) + rest;
    assert w[1..] == Escaped(s) + "\"" + rest;
    ClosingQuoteOfEscaped(s, rest);
  }

  lemma FindAllStep(s: string, pair: Pair, n: nat)
    requires TokenAtFront(s) == Some((pair, n))
    ensures 0 < n <= |s| && FindAll(s) == [pair] + FindAll(s[n..])
  {}

  lemma FrontOfConcat(alias: string, raw: string, rest: string)
    ensures var s := alias + "=" + (raw + rest); s[|alias| + 1 + |raw|..] == rest
    ensures (raw + rest)[..|raw|] == raw
  {}

  /** One token read, the scan goes on behind it. */
  lemma TokenThenRest(alias: string, raw: string, rest: string)
    requires IsAlias(alias) && raw != [] && ValueLength(raw + rest) == |raw|
    ensures FindAll(alias + "=" + (raw + rest)) == [Pair(alias, raw)] + FindAll(rest)
  {
    TokenAtAlias(alias, raw + rest);
    FrontOfConcat(alias, raw, rest);
    FindAllStep(alias + "=" + (raw + rest), Pair(alias, raw), |alias| + 1 + |raw|);
  }

  /** How much of a bare value the scan takes. */
  function BareLength(w: string): (n: nat)
    requires w != []
    ensures n <= |w|
  {
    if w[0] == '~' then 1 else NonSpaceLength(w)
  }

  lemma BareValueLength(alias: string, w: string, rest: string)
    requires w != [] && (forall c <- w :: !IsSpecial(c)) && AtBorder(rest)
    ensures ValueLength(w + rest) == BareLength(w)
    ensures SeenPairs(alias, w) == if BareLength(w) == 0 then [] else [Pair(alias, w[..BareLength(w)])]
  {
    assert w[0] in w && (w + rest)[0] == w[0];
    NonSpaceLengthAtBorder(w, rest);
    assert w[0] == '~' ==> w[..1] == "~";
  }

  lemma BareValueSeen(alias: string, w: string, rest: string)
    requires IsAlias(alias) && w != [] && (forall c <- w :: !IsSpecial(c)) && AtBorder(rest)
    ensures FindAll(alias + "=" + (w + rest)) == SeenPairs(alias, w) + FindAll(rest)
  {
    if BareLength(w) == 0 { BareValueLost(alias, w, rest); } else { BareValueCut(alias, w, rest); }
  }

  lemma BareValueLost(alias: string, w: string, rest: string)
    requires IsAlias(alias) && w != [] && (forall c <- w :: !IsSpecial(c)) && AtBorder(rest) && BareLength(w) == 0
    ensures FindAll(alias + "=" + (w + rest)) == SeenPairs(alias, w) + FindAll(rest)
  {
    BareValueLength(alias, w, rest);
    AliasWithoutValue(alias, w + rest);
    NothingSeenWithoutEquals(w, rest);
  }

  lemma BareValueCut(alias: string, w: string, rest: string)
    requires IsAlias(alias) && w != [] && (forall c <- w :: !IsSpecial(c)) && AtBorder(rest) && BareLength(w) > 0
    ensures FindAll(alias + "=" + (w + rest)) == SeenPairs(alias, w) + FindAll(rest)
  {
    BareValueLength(alias, w, rest);
    var raw, left := w[..BareLength(w)], w[BareLength(w)..];
    assert w + rest == raw + (left + rest) by { assert w == raw + left; }
    assert forall c <- left :: c in w;
    BareTokenSeen(alias, raw, left, rest);
  }

  lemma BareTokenSeen(alias: string, raw: string, left: string, rest: string)
    requires IsAlias(alias) && raw != [] && (forall c <- left :: !IsSpecial(c)) && AtBorder(rest)
    requires ValueLength(raw + (left + rest)) == |raw|
    ensures FindAll(alias + "=" + (raw + (left + rest))) == [Pair(alias, raw)] + FindAll(rest)
  {
    NothingSeenWithoutEquals(left, rest);
    TokenThenRest(alias, raw, left + rest);
  }

  /** The scan over one written value: exactly `SeenRaw`, and nothing that spills over the border. */
  lemma WrittenValueSeen(alias: string, w: string, rest: string)
    requires IsAlias(alias) && IsWritten(w) && AtBorder(rest)
    ensures w != []
    ensures FindAll(alias + "=" + w + rest) == SeenPairs(alias, w) + FindAll(rest)
  {
    assert alias + "=" + w + rest == alias + "=" + (w + rest);
    if q :| w == Quoted(q) {
      QuotedValueLength(q, rest);
      TokenThenRest(alias, w, rest);
    } else {
      BareValueSeen(alias, w, rest);
    }
  }

  /** A text reaches the decoder unchanged exactly when it is quoted, or bare without a blank or a leading tilde. */
  predicate Carried(s: string) {
    NeedsQuoting(s) || (s[0] != '~' && forall c <- s :: !IsSpace(c))
  }

  lemma CarriedIff(s: string)
    ensures Written(s) != []
    ensures var raw := SeenRaw(Written(s)); Carried(s) <==> raw.Some? && Unescape(raw.value) == Some(s)
  {
    UnescapeQuoted(s);
    if !NeedsQuoting(s) {
      var n := NonSpaceLength(s);
      assert s[0] in s && s[0] != '"';
      assert forall k :: 0 <= k < |s| ==> s[k] in s;
      if n == |s| {
        assert s[..n] == s;
      }
    }
  }

  // ---- blanks around a line ----

  lemma {:induction false} ClosingQuoteIgnoresBlank(s: string, c: char)
    requires IsSpace(c)
    ensures ClosingQuote(s + [c]) == ClosingQuote(s)
    decreases |s|
  {
    var t := s + [c];
    if s == [] {
      assert t[1..] == [];
    } else if s[0] == '\\' && |s| == 1 {
      assert t[2..] == [];
    } else if s[0] == '\\' {
      assert t[2..] == s[2..] + [c];
      ClosingQuoteIgnoresBlank(s[2..], c);
    } else {
      assert t[1..] == s[1..] + [c];
      ClosingQuoteIgnoresBlank(s[1..], c);
    }
  }

  lemma {:induction false} NonSpaceLengthIgnoresBlank(s: string, c: char)
    requires IsSpace(c)
    ensures NonSpaceLength(s + [c]) == NonSpaceLength(s)
  {
    if s != [] {
      assert (s + [c])[1..] == s[1..] + [c];
      NonSpaceLengthIgnoresBlank(s[1..], c);
    }
  }

  lemma ValueLengthIgnoresBlank(s: string, c: char)
    requires IsSpace(c)
    ensures ValueLength(s + [c]) == ValueLength(s)
  {
    NonSpaceLengthIgnoresBlank(s, c);
    if s != [] {
      assert (s + [c])[1..] == s[1..] + [c];
      ClosingQuoteIgnoresBlank(s[1..], c);
    }
  }

  lemma {:induction false} AliasLengthIgnoresBlank(s: string, c: char)
    requires IsSpace(c)
    ensures AliasLength(s + [c]) == AliasLength(s)
  {
    if s != [] {
      assert (s + [c])[1..] == s[1..] + [c];
      AliasLengthIgnoresBlank(s[1..], c);
    }
  }

  lemma FrontIgnoresBlank(s: string, c: char)
    requires IsSpace(c)
    ensures TokenAtFront(s + [c]) == TokenAtFront(s)
  {
    var t, a := s + [c], AliasLength(s);
    AliasLengthIgnoresBlank(s, c);
    if a < |s| && s[a] == '=' {
      var tail := s[a + 1..];
      assert t[a + 1..] == tail + [c] && t[..a] == s[..a];
      ValueLengthIgnoresBlank(tail, c);
      assert (tail + [c])[..ValueLength(tail)] == tail[..ValueLength(tail)];
    }
  }

  lemma {:induction false} FindAllIgnoresBlank(s: string, c: char)
    requires IsSpace(c)
    ensures FindAll(s + [c]) == FindAll(s)
    decreases |s|
  {
    var t := s + [c];
    FrontIgnoresBlank(s, c);
    if s == [] {
      assert t[1..] == [] && FindAll(t) == FindAll(t[1..]);
    } else {
      var n := match TokenAtFront(s) case Some(hit) => hit.1 case None => 1;
      assert t[n..] == s[n..] + [c];
      FindAllIgnoresBlank(s[n..], c);
    }
  }

  lemma {:induction false} FindAllOfStripRight(s: string)
    ensures FindAll(StripRight(s)) == FindAll(s)
  {
    if s != [] && IsSpace(s[|s| - 1]) {
      assert s == s[..|s| - 1] + [s[|s| - 1]];
      FindAllIgnoresBlank(s[..|s| - 1], s[|s| - 1]);
      FindAllOfStripRight(s[..|s| - 1]);
    }
  }

  lemma {:induction false} FindAllOfStripLeft(s: string)
    ensures FindAll(StripLeft(s)) == FindAll(s)
  {
    if s != [] && IsSpace(s[0]) {
      FindAllOfStripLeft(s[1..]);
    }
  }
}
