/** How strings and numbers can be written in JSON, character by character, and that these are all the scanners
    accept. */
module JsonLiterals {
  import opened Layout
  import opened JsonEvents
  import N = JsonNumbers
  import T = JsonStrings
  import R = ReaderSpec
  import S = JsonParserStep
  import G = JsonGrammar

  // ---- Strings

  /** What stands for a character, or for the bytes of a code point: itself, a letter behind a backslash, the number of
      a code unit, or those of two surrogates. */
  datatype Part =
    | Plain(ch: char)
    | Short(letter: char)
    | Unit(figures: seq<Figure>)
    | Pair(high: seq<Figure>, low: seq<Figure>)

  predicate Between(figures: seq<Figure>, from: nat, end: nat) {
    |figures| == 4 && from <= NumberOf(figures, 16) < end
  }

  predicate LegalPart(p: Part) {
    match p
    case Plain(ch) => ch >= ' ' && ch != '"' && ch != '\\'
    case Short(letter) => letter in ['"', '\\', '/', 'b', 'f', 'n', 'r', 't']
    case Unit(figures) => |figures| == 4 && !Between(figures, 0xD800, 0xDC00)
    case Pair(high, low) => Between(high, 0xD800, 0xDC00) && Between(low, 0xDC00, 0xE000)
  }

  predicate LegalParts(parts: seq<Part>) {
    parts == [] || (LegalPart(parts[0]) && LegalParts(parts[1..]))
  }

  /** The text of a part before `rest`. */
  function SpellPart(p: Part, rest: string): string {
    match p
    case Plain(ch) => [ch] + rest
    case Short(letter) => "\\" + ([letter] + rest)
    case Unit(figures) => "\\u" + (SpellFigures(figures) + rest)
    case Pair(high, low) => "\\u" + (SpellFigures(high) + ("\\u" + (SpellFigures(low) + rest)))
  }

  function SpellParts(parts: seq<Part>, rest: string): string {
    if parts == [] then rest else SpellPart(parts[0], SpellParts(parts[1..], rest))
  }

  function PartMeans(p: Part): string {
    match p
    case Plain(ch) => [ch]
    case Short('b') => "\U{0008}"
    case Short('f') => "\U{000C}"
    case Short('n') => "\n"
    case Short('r') => "\r"
    case Short('t') => "\t"
    case Short(letter) => [letter]
    case Unit(figures) => G.Utf8(NumberOf(figures, 16))
    case Pair(high, low) =>
      var (hi, lo) := (NumberOf(high, 16), NumberOf(low, 16));
      if hi >= 0xD800 && lo >= 0xDC00 then G.Utf8(0x10000 + (hi - 0xD800) * 0x400 + (lo - 0xDC00)) else ""
  }

  function PartsMean(parts: seq<Part>): string {
    if parts == [] then "" else PartMeans(parts[0]) + PartsMean(parts[1..])
  }

  // ---- Hexadecimal figures

  lemma FigureReads(f: Figure)
    ensures S.HexChar(SpellFigure(f)) && S.HexValue(SpellFigure(f)) == f.value
  {
    if f.value < 8 {
      assert LOWER[0] == '0' && LOWER[1] == '1' && LOWER[2] == '2' && LOWER[3] == '3';
      assert LOWER[4] == '4' && LOWER[5] == '5' && LOWER[6] == '6' && LOWER[7] == '7';
    }
  }

  lemma FigureFound(ch: char) returns (f: Figure)
    requires S.HexChar(ch)
    ensures SpellFigure(f) == ch
  {
    f := Figure(S.HexValue(ch), 'A' <= ch <= 'F');
  }

  /** Four figures, wherever they stand. */
  lemma UnitReads(figures: seq<Figure>, s: string)
    requires |figures| == 4 && |s| >= 4 && s[..4] == SpellFigures(figures)
    ensures G.FourHex(s) && S.CodeUnit(s[..4]) == NumberOf(figures, 16)
  {
    hide SpellFigure, S.HexValue, S.HexChar;
    FigureReads(figures[0]);
    FigureReads(figures[1]);
    FigureReads(figures[2]);
    FigureReads(figures[3]);
    FourNumber(figures);
    assert s[0] == s[..4][0] && s[1] == s[..4][1] && s[2] == s[..4][2] && s[3] == s[..4][3];
  }

  lemma FourNumber(figures: seq<Figure>)
    requires |figures| == 4
    ensures NumberOf(figures, 16)
         == figures[0].value * 0x1000 + figures[1].value * 0x100 + figures[2].value * 0x10 + figures[3].value
  {
    assert figures[..3][..2] == figures[..2] && figures[..2][..1] == figures[..1] && figures[..1][..0] == [];
    assert NumberOf(figures[..1], 16) == figures[0].value;
    assert NumberOf(figures[..2], 16) == figures[0].value * 0x10 + figures[1].value;
    assert NumberOf(figures[..3], 16) == (figures[0].value * 0x10 + figures[1].value) * 0x10 + figures[2].value;
  }

  lemma UnitFound(s: string) returns (figures: seq<Figure>)
    requires G.FourHex(s)
    ensures |figures| == 4 && s[..4] == SpellFigures(figures) && S.CodeUnit(s[..4]) == NumberOf(figures, 16)
  {
    hide SpellFigure, S.HexValue, S.HexChar, S.CodeUnit;
    var f0 := FigureFound(s[0]);
    var f1 := FigureFound(s[1]);
    var f2 := FigureFound(s[2]);
    var f3 := FigureFound(s[3]);
    figures := [f0, f1, f2, f3];
    assert s[..4] == SpellFigures(figures);
    UnitReads(figures, s);
  }

  // ---- Strings, as the parser of Lua tables reads them

  lemma HeadGone(a: string, b: string)
    ensures (a + b)[..|a|] == a && (a + b)[|a|..] == b
  {
  }

  lemma PairJoined(hi: nat, lo: nat)
    requires 0xD800 <= hi < 0xDC00 <= lo < 0xE000
    ensures S.SurrogatePair(hi, lo) == 0x10000 + (hi - 0xD800) * 0x400 + (lo - 0xDC00)
  {
  }

  /** A code unit that is a low surrogate. */
  predicate LowAlone(p: Part) {
    p.Unit? && Between(p.figures, 0xDC00, 0xE000)
  }

  predicate NoneLowAlone(parts: seq<Part>) {
    forall i :: 0 <= i < |parts| ==> !LowAlone(parts[i])
  }

  lemma UnitText(figures: seq<Figure>, rest: string)
    requires |figures| == 4
    ensures var s := "\\u" + (SpellFigures(figures) + rest);
      && |s| >= 6 && s[0] == '\\' && s[1] == 'u' && s[2..6] == SpellFigures(figures) && s[6..] == rest
      && G.FourHex(s[2..]) && s[2..][..4] == s[2..6] && S.CodeUnit(s[2..6]) == NumberOf(figures, 16)
  {
    hide S.CodeUnit, G.FourHex, NumberOf;
    var s := "\\u" + (SpellFigures(figures) + rest);
    HeadGone("\\u", SpellFigures(figures) + rest);
    HeadGone(SpellFigures(figures), rest);
    assert s[2..][..4] == s[2..6];
    assert s[6..] == s[2..][4..];
    UnitReads(figures, s[2..]);
  }

  lemma GrammarReadsPart(p: Part, rest: string)
    requires LegalPart(p) && !LowAlone(p)
    ensures G.StringBody(SpellPart(p, rest)) == G.Cons(PartMeans(p), G.StringBody(rest))
  {
    hide S.CodeUnit, G.FourHex, NumberOf, SpellFigure, S.SurrogatePair, G.Utf8;
    var s := SpellPart(p, rest);
    match p
    case Plain(ch) => assert s[1..] == rest;
    case Short(letter) => assert s[2..] == rest;
    case Unit(figures) => UnitText(figures, rest);
    case Pair(high, low) =>
      var more := "\\u" + (SpellFigures(low) + rest);
      UnitText(high, more);
      UnitText(low, rest);
      assert s[6..][0] == s[6] && s[6..][1] == s[7] && s[6..][2..] == s[8..] && s[6..][2..6] == s[8..12];
      assert s[6..][6..] == s[12..];
      PairJoined(NumberOf(high, 16), NumberOf(low, 16));
  }

  lemma {:induction false} GrammarReads(parts: seq<Part>, rest: string)
    requires LegalParts(parts) && NoneLowAlone(parts)
    ensures G.StringBody(SpellParts(parts, "\"" + rest)) == G.Found(PartsMean(parts), rest)
    decreases |parts|
  {
    hide SpellPart, PartMeans, LegalPart, LowAlone, G.StringBody;
    if parts == [] {
      ClosingQuote(rest);
    } else {
      GrammarReadsPart(parts[0], SpellParts(parts[1..], "\"" + rest));
      GrammarReads(parts[1..], rest);
    }
  }

  lemma ClosingQuote(rest: string)
    ensures G.StringBody("\"" + rest) == G.Found("", rest)
  {
    assert ("\"" + rest)[1..] == rest;
  }

  /** A part at the front of a string literal, and what follows it. */
  lemma GrammarFindsPart(s: string) returns (p: Part, rest: string)
    requires G.StringBody(s).Found? && s[0] != '"'
    ensures LegalPart(p) && !LowAlone(p) && s == SpellPart(p, rest) && |rest| < |s| && G.StringBody(rest).Found?
  {
    hide S.CodeUnit, S.HexChar, NumberOf, SpellFigure, S.SurrogatePair, G.Utf8, S.Escaped;
    if s[0] != '\\' {
      p, rest := Plain(s[0]), s[1..];
      assert [s[0]] + s[1..] == s;
    } else if G.Simple(s[1]) {
      p, rest := Short(s[1]), s[2..];
      assert "\\" + ([s[1]] + s[2..]) == s;
    } else {
      var figures := UnitFound(s[2..]);
      assert s[2..][..4] == s[2..6];
      rest := s[6..];
      assert s == "\\u" + (s[2..6] + rest);
      if S.HighSurrogate(NumberOf(figures, 16)) {
        var low := UnitFound(s[8..]);
        assert s[8..][..4] == s[8..12];
        assert rest == "\\u" + (s[8..12] + s[12..]);
        p, rest := Pair(figures, low), s[12..];
      } else {
        p := Unit(figures);
      }
    }
  }

  lemma {:induction false} GrammarFinds(s: string) returns (parts: seq<Part>)
    requires G.StringBody(s).Found?
    ensures LegalParts(parts) && NoneLowAlone(parts) && s == SpellParts(parts, "\"" + G.StringBody(s).rest)
    decreases |s|
  {
    hide SpellPart, PartMeans, LegalPart, LowAlone;
    if s[0] == '"' {
      parts := [];
      assert s == "\"" + s[1..];
    } else {
      var p, rest := GrammarFindsPart(s);
      hide G.StringBody;
      GrammarReadsPart(p, rest);
      var others := GrammarFinds(rest);
      parts := [p] + others;
      assert parts[1..] == others;
    }
  }

  /** The content of a string literal, behind its opening quote: it is read if and only if it is made of parts, none a
      low surrogate that follows no high one, up to a quote; and what is read is what they mean. */
  lemma LiteralsAreParts(s: string, content: string, rest: string)
    ensures G.StringBody(s) == G.Found(content, rest) <==>
      exists parts :: LegalParts(parts) && NoneLowAlone(parts) && s == SpellParts(parts, "\"" + rest)
        && content == PartsMean(parts)
  {
    hide G.StringBody, LegalParts, NoneLowAlone, SpellParts, PartsMean;
    if G.StringBody(s) == G.Found(content, rest) {
      var parts := GrammarFinds(s);
      GrammarReads(parts, rest);
    }
    forall parts | LegalParts(parts) && NoneLowAlone(parts) && s == SpellParts(parts, "\"" + rest)
      ensures G.StringBody(s) == G.Found(PartsMean(parts), rest)
    {
      GrammarReads(parts, rest);
    }
  }

  // ---- Strings, as the reader reads them

  lemma Peeks(text: string, p: nat, k: nat)
    requires p <= |text|
    ensures R.Peek(text, p + k) == R.Peek(text[p..], k)
  {
  }

  /** Four figures at a place of a text. */
  lemma FourHexThere(text: string, p: nat)
    requires p <= |text|
    ensures T.FourHexAt(text, p) <==> G.FourHex(text[p..])
    ensures T.FourHexAt(text, p) ==> text[p..p + 4] == text[p..][..4]
  {
    hide S.HexChar;
    NoHex();
    Peeks(text, p, 0);
    Peeks(text, p, 1);
    Peeks(text, p, 2);
    Peeks(text, p, 3);
  }

  lemma NoHex()
    ensures !S.HexChar('\0')
  {
  }

  lemma ReadsUnit(text: string, p: nat, figures: seq<Figure>, rest: string)
    requires |figures| == 4 && p <= |text| && text[p..] == "\\u" + (SpellFigures(figures) + rest)
    ensures p + 6 <= |text| && R.Peek(text, p) == '\\' && R.Peek(text, p + 1) == 'u' && text[p + 6..] == rest
    ensures T.FourHexAt(text, p + 2) && S.CodeUnit(text[p + 2..p + 6]) == NumberOf(figures, 16)
  {
    hide S.CodeUnit, G.FourHex, NumberOf, T.FourHexAt;
    UnitText(figures, rest);
    Peeks(text, p, 0);
    Peeks(text, p, 1);
    assert text[p..][2..] == text[p + 2..] && text[p..][2..6] == text[p + 2..p + 6] && text[p..][6..] == text[p + 6..];
    FourHexThere(text, p + 2);
  }

  lemma EscapeByNumber(text: string, p: nat)
    requires p <= |text| && R.Peek(text, p) == '\\' && R.Peek(text, p + 1) == 'u'
    requires T.UnicodeEscape(text, p + 2).Escape?
    ensures var e := T.UnicodeEscape(text, p + 2);
      T.StringBody(text, p) == T.Prepend(G.Utf8(e.uc), T.StringBody(text, e.next))
  {
    hide T.UnicodeEscape, G.Utf8;
  }

  lemma ReadsPlain(text: string, p: nat, part: Part, rest: string)
    requires LegalPart(part) && (part.Plain? || part.Short?) && p <= |text| && text[p..] == SpellPart(part, rest)
    ensures |rest| < |text| - p && text[|text| - |rest|..] == rest
    ensures T.StringBody(text, p) == T.Prepend(PartMeans(part), T.StringBody(text, |text| - |rest|))
  {
    hide T.UnicodeEscape, G.Utf8;
    Peeks(text, p, 0);
    Peeks(text, p, 1);
    match part
    case Plain(ch) => assert text[p..][1..] == rest == text[p + 1..];
    case Short(letter) => assert text[p..][2..] == rest == text[p + 2..];
  }

  lemma ReadsPair(text: string, p: nat, high: seq<Figure>, low: seq<Figure>, rest: string)
    requires LegalPart(Pair(high, low)) && p <= |text| && text[p..] == SpellPart(Pair(high, low), rest)
    ensures p + 12 <= |text| && text[p + 12..] == rest && R.Peek(text, p) == '\\' && R.Peek(text, p + 1) == 'u'
    ensures T.UnicodeEscape(text, p + 2)
         == T.Escape(0x10000 + (NumberOf(high, 16) - 0xD800) * 0x400 + (NumberOf(low, 16) - 0xDC00), p + 12)
  {
    hide S.CodeUnit, T.FourHexAt, NumberOf, SpellFigures, S.SurrogatePair;
    var more := "\\u" + (SpellFigures(low) + rest);
    ReadsUnit(text, p, high, more);
    ReadsUnit(text, p + 6, low, rest);
    PairJoined(NumberOf(high, 16), NumberOf(low, 16));
  }

  lemma ReadsPart(text: string, p: nat, part: Part, rest: string)
    requires LegalPart(part) && p <= |text| && text[p..] == SpellPart(part, rest)
    ensures |rest| < |text| - p && text[|text| - |rest|..] == rest
    ensures T.StringBody(text, p) == T.Prepend(PartMeans(part), T.StringBody(text, |text| - |rest|))
  {
    hide S.CodeUnit, T.FourHexAt, NumberOf, SpellFigures, G.Utf8, T.StringBody;
    match part
    case Unit(figures) =>
      ReadsUnit(text, p, figures, rest);
      EscapeByNumber(text, p);
    case Pair(high, low) =>
      hide T.UnicodeEscape;
      ReadsPair(text, p, high, low, rest);
      EscapeByNumber(text, p);
    case _ => ReadsPlain(text, p, part, rest);
  }

  lemma {:induction false} ReadsParts(text: string, p: nat, parts: seq<Part>, rest: string)
    requires LegalParts(parts) && p <= |text| && text[p..] == SpellParts(parts, "\"" + rest)
    ensures |rest| < |text| - p && text[|text| - |rest|..] == rest
    ensures T.StringBody(text, p) == T.StringOk(PartsMean(parts), |text| - |rest|)
    decreases |parts|
  {
    hide SpellPart, PartMeans, LegalPart, T.StringBody;
    if parts == [] {
      ReadsQuote(text, p, rest);
    } else {
      var more := SpellParts(parts[1..], "\"" + rest);
      ReadsPart(text, p, parts[0], more);
      ReadsParts(text, |text| - |more|, parts[1..], rest);
    }
  }

  lemma ReadsQuote(text: string, p: nat, rest: string)
    requires p <= |text| && text[p..] == "\"" + rest
    ensures T.StringBody(text, p) == T.StringOk("", p + 1) && p + 1 == |text| - |rest| && text[p + 1..] == rest
  {
    assert text[p] == text[p..][0];
    assert text[p..][1..] == text[p + 1..];
  }

  lemma FindsPart(text: string, p: nat) returns (part: Part, rest: string)
    requires p <= |text| && T.StringBody(text, p).StringOk? && R.Peek(text, p) != '"'
    ensures LegalPart(part) && text[p..] == SpellPart(part, rest) && |rest| < |text| - p
    ensures text[|text| - |rest|..] == rest && T.StringBody(text, |text| - |rest|).StringOk?
  {
    hide S.CodeUnit, T.FourHexAt, NumberOf, SpellFigure, S.SurrogatePair, G.Utf8, S.Escaped;
    if text[p] != '\\' {
      part, rest := Plain(text[p]), text[p + 1..];
      assert [text[p]] + text[p + 1..] == text[p..];
    } else if G.Simple(R.Peek(text, p + 1)) {
      part, rest := Short(text[p + 1]), text[p + 2..];
      assert "\\" + ([text[p + 1]] + text[p + 2..]) == text[p..];
    } else {
      part, rest := FindsUnits(text, p);
    }
  }

  lemma FindsUnits(text: string, p: nat) returns (part: Part, rest: string)
    requires p + 2 <= |text| && text[p] == '\\' && text[p + 1] == 'u' && T.UnicodeEscape(text, p + 2).Escape?
    ensures LegalPart(part) && text[p..] == SpellPart(part, rest) && |rest| < |text| - p
    ensures text[|text| - |rest|..] == rest && |text| - |rest| == T.UnicodeEscape(text, p + 2).next
  {
    hide S.CodeUnit, T.FourHexAt, NumberOf, SpellFigure, S.SurrogatePair, G.FourHex;
    FourHexThere(text, p + 2);
    var figures := UnitFound(text[p + 2..]);
    rest := text[p + 6..];
    assert text[p..] == "\\u" + (text[p + 2..p + 6] + rest);
    if S.HighSurrogate(NumberOf(figures, 16)) {
      FourHexThere(text, p + 8);
      var low := UnitFound(text[p + 8..]);
      assert rest == "\\u" + (text[p + 8..p + 12] + text[p + 12..]);
      part, rest := Pair(figures, low), text[p + 12..];
    } else {
      part := Unit(figures);
    }
  }

  /** Whatever the reader reads as a string is made of parts. */
  lemma {:induction false} FindsParts(text: string, p: nat) returns (parts: seq<Part>)
    requires p <= |text| && T.StringBody(text, p).StringOk?
    ensures LegalParts(parts) && PartsMean(parts) == T.StringBody(text, p).s
    ensures text[p..] == SpellParts(parts, "\"" + text[T.StringBody(text, p).next..])
    decreases |text| - p
  {
    hide SpellPart, PartMeans, LegalPart, T.StringBody;
    if R.Peek(text, p) == '"' {
      parts := [];
      assert text[p..] == "\"" + text[p + 1..];
      ReadsQuote(text, p, text[p + 1..]);
    } else {
      var part, rest := FindsPart(text, p);
      ReadsPart(text, p, part, rest);
      var others := FindsParts(text, |text| - |rest|);
      parts := [part] + others;
      assert parts[1..] == others;
    }
  }

  // ---- Strings the reader refuses

  lemma {:induction false} ReadsFront(text: string, p: nat, parts: seq<Part>, rest: string)
    requires LegalParts(parts) && p <= |text| && text[p..] == SpellParts(parts, rest)
    ensures |rest| <= |text| - p && text[|text| - |rest|..] == rest
    ensures T.StringBody(text, p) == T.Prepend(PartsMean(parts), T.StringBody(text, |text| - |rest|))
    decreases |parts|
  {
    hide SpellPart, PartMeans, LegalPart, T.StringBody;
    if parts == [] {
      T.PrependTwice("", "", T.StringBody(text, p));
    } else {
      var more := SpellParts(parts[1..], rest);
      ReadsPart(text, p, parts[0], more);
      ReadsFront(text, |text| - |more|, parts[1..], rest);
      T.PrependTwice(PartMeans(parts[0]), PartsMean(parts[1..]), T.StringBody(text, |text| - |rest|));
    }
  }

  /** Whether four figures stand at the front of a text, and what unit they spell. */
  ghost predicate UnitThere(s: string, figures: seq<Figure>) {
    |figures| == 4 && |s| >= 4 && s[..4] == SpellFigures(figures)
  }

  /** What a string is refused for, where no part of it begins. */
  datatype Fault =
    | NoQuote
    | Control(ch: char)
    | NoEscape(letter: char)
    | NoFigures
    | NoLow(high: seq<Figure>)
    | NoLowFigures(high: seq<Figure>)

  ghost predicate Faulty(f: Fault, rest: string) {
    match f
    case NoQuote => rest == "" || rest[0] == '\0'
    case Control(ch) => rest != "" && rest[0] == ch && '\0' < ch < ' '
    case NoEscape(letter) =>
      && rest != "" && rest[0] == '\\' && letter == R.Peek(rest, 1)
      && letter !in ['"', '\\', '/', 'b', 'f', 'n', 'r', 't', 'u']
    case NoFigures => "\\u" <= rest && forall figures :: !UnitThere(rest[2..], figures)
    case NoLow(high) =>
      && "\\u" <= rest && UnitThere(rest[2..], high) && Between(high, 0xD800, 0xDC00)
      && (!("\\u" <= rest[6..])
          || (exists low :: |rest| >= 8 && UnitThere(rest[8..], low) && !Between(low, 0xDC00, 0xE000)))
    case NoLowFigures(high) =>
      && "\\u" <= rest && UnitThere(rest[2..], high) && Between(high, 0xD800, 0xDC00)
      && "\\u" <= rest[6..] && forall low :: !UnitThere(rest[8..], low)
  }

  /** The number of the error in the library's enumeration. */
  function CodeOf(f: Fault): nat {
    match f
    case NoQuote => 11
    case Control(_) => 10
    case NoEscape(_) => 10
    case NoFigures => 8
    case NoLow(_) => 9
    case NoLowFigures(_) => 8
  }

  lemma FaultRefused(text: string, p: nat, f: Fault)
    requires p <= |text| && Faulty(f, text[p..])
    ensures T.StringBody(text, p) == T.StringErr(R.ScalarError(CodeOf(f)))
  {
    hide S.CodeUnit, T.FourHexAt, NumberOf, SpellFigure, S.SurrogatePair, G.Utf8, G.FourHex, S.Escaped, SpellFigures;
    var rest := text[p..];
    Peeks(text, p, 0);
    Peeks(text, p, 1);
    match f
    case NoQuote =>
    case Control(_) =>
    case NoEscape(_) =>
    case NoFigures => NoFiguresThere(text, p + 2, rest[2..]);
    case NoLow(high) =>
      HighThere(text, p, high);
      assert rest[6..] == text[p + 6..];
      Peeks(text, p + 6, 0);
      Peeks(text, p + 6, 1);
      if "\\u" <= rest[6..] {
        var low :| |rest| >= 8 && UnitThere(rest[8..], low) && !Between(low, 0xDC00, 0xE000);
        assert rest[8..] == text[p + 8..];
        UnitThereReads(text, p + 8, low);
      }
    case NoLowFigures(high) =>
      HighThere(text, p, high);
      assert rest[6..] == text[p + 6..] && rest[8..] == text[p + 8..];
      Peeks(text, p + 6, 0);
      Peeks(text, p + 6, 1);
      NoFiguresThere(text, p + 8, rest[8..]);
  }

  lemma NoFiguresThere(text: string, p: nat, rest: string)
    requires p <= |text| && rest == text[p..] && forall figures :: !UnitThere(rest, figures)
    ensures !T.FourHexAt(text, p)
  {
    hide T.FourHexAt, G.FourHex, SpellFigures;
    FourHexThere(text, p);
    UnitIsThere(rest);
  }

  lemma UnitIsThere(s: string)
    ensures G.FourHex(s) ==> exists figures :: UnitThere(s, figures)
  {
    if G.FourHex(s) {
      var figures := UnitFound(s);
      assert UnitThere(s, figures);
    }
  }

  lemma UnitThereReads(text: string, p: nat, figures: seq<Figure>)
    requires p <= |text| && UnitThere(text[p..], figures)
    ensures T.FourHexAt(text, p) && p + 4 <= |text| && S.CodeUnit(text[p..p + 4]) == NumberOf(figures, 16)
  {
    hide T.FourHexAt, G.FourHex, SpellFigures, S.CodeUnit, NumberOf;
    FourHexThere(text, p);
    UnitReads(figures, text[p..]);
  }

  lemma HighThere(text: string, p: nat, high: seq<Figure>)
    requires p <= |text| && "\\u" <= text[p..] && UnitThere(text[p..][2..], high)
    ensures p + 6 <= |text| && text[p] == '\\' && text[p + 1] == 'u'
    ensures T.FourHexAt(text, p + 2) && S.CodeUnit(text[p + 2..p + 6]) == NumberOf(high, 16)
  {
    hide T.FourHexAt, SpellFigures, S.CodeUnit, NumberOf;
    assert text[p..][2..] == text[p + 2..];
    UnitThereReads(text, p + 2, high);
  }

  /** A string whose parts are followed by a fault is refused with the code of the fault. */
  lemma StringRefused(text: string, p: nat, parts: seq<Part>, rest: string, f: Fault)
    requires LegalParts(parts) && p <= |text| && text[p..] == SpellParts(parts, rest) && Faulty(f, rest)
    ensures T.StringBody(text, p) == T.StringErr(R.ScalarError(CodeOf(f)))
  {
    hide T.StringBody, Faulty, SpellParts, LegalParts, PartsMean;
    ReadsFront(text, p, parts, rest);
    FaultRefused(text, |text| - |rest|, f);
  }
}
