/** What the writers put out is read back: the same value is built of it. */
module JsonReadBack {
  import opened JsonEvents
  import opened JsonValues
  import opened JsonNumbers
  import opened JsonWriter
  import opened JsonItoa
  import D = JsonDocument
  import P = JsonParsedTree
  import T = JsonStrings
  import R = ReaderSpec
  import RI = ReaderIterative
  import S = JsonParserStep
  import G = JsonGrammar

  /** A text holds a piece of text at a position. */
  predicate At(text: string, p: nat, w: string) {
    p + |w| <= |text| && text[p..p + |w|] == w
  }

  lemma AtConcat(text: string, p: nat, a: string, b: string)
    ensures At(text, p, a + b) <==> At(text, p, a) && At(text, p + |a|, b)
  {
    if p + |a| + |b| <= |text| {
      var w := text[p..p + |a| + |b|];
      assert w[..|a|] == text[p..p + |a|] && w[|a|..] == text[p + |a|..p + |a| + |b|];
      assert (a + b)[..|a|] == a && (a + b)[|a|..] == b;
      assert w == w[..|a|] + w[|a|..];
    }
  }

  lemma AtFirst(text: string, p: nat, w: string)
    requires At(text, p, w) && w != ""
    ensures R.Peek(text, p) == w[0] && p < |text|
  {
    assert text[p..p + |w|][0] == text[p];
  }

  // ---- Integers

  lemma {:induction false} DecimalReads(text: string, s: nat, n: nat)
    requires At(text, s, Decimal(n))
    ensures var q := s + |Decimal(n)|;
      AllDigits(text, s, q) && Magnitude(text, s, q) == n && (n == 0 ==> q == s + 1)
    ensures text[s] == '0' <==> n == 0
    decreases n
  {
    var d := Decimal(n);
    assert text[s..s + |d|][|d| - 1] == text[s + |d| - 1];
    if n >= 10 {
      AtConcat(text, s, Decimal(n / 10), [DigitChar(n % 10)]);
      DecimalReads(text, s, n / 10);
    } else {
      assert Magnitude(text, s, s) == 0;
    }
  }

  /** The characters that can follow a value in a written text. */
  predicate Stop(ch: char) {
    ch == ',' || ch == ']' || ch == '}' || ch == '\0' || R.White(ch)
  }

  function Absolute(i: int): nat {
    if i < 0 then -i else i
  }

  /** Digits in front of what can follow a value are an integer. */
  lemma DigitsRead(text: string, p: nat, s: nat, q: nat, n: nat, big: Overflow)
    requires p <= |text| && s == (if R.Peek(text, p) == '-' then p + 1 else p) && s < q <= |text|
    requires AllDigits(text, s, q) && (n == 0 ==> q == s + 1) && (text[s] == '0' <==> n == 0) && Stop(R.Peek(text, q))
    requires Magnitude(text, s, q) == n <= Limit(R.Peek(text, p) == '-')
    ensures NumberLeaf(text, p, big) == R.LeafOk(IntegerEvent(R.Peek(text, p) == '-', n, text[p..q]), q)
  {
    hide DoubleOverflows, Magnitude;
    if n != 0 { DigitsEndIs(text, s, q); }
    NoOverflowUpTo(text, s, q, R.Peek(text, p) == '-', big);
  }

  /** A written integer is read as itself. */
  lemma IntegerReads(text: string, p: nat, i: Integer, big: Overflow)
    requires At(text, p, IntegerText(i)) && Stop(R.Peek(text, p + |IntegerText(i)|))
    ensures var r := NumberLeaf(text, p, big);
      r.LeafOk? && r.next == p + |IntegerText(i)| && r.ev == IntegerEvent(i < 0, Absolute(i), "")
  {
    hide NumberLeaf, Magnitude, Stop, Decimal;
    assert Representable(i);
    var n := Absolute(i);
    var s := if i < 0 then p + 1 else p;
    if i < 0 { AtConcat(text, p, "-", Decimal(n)); }
    AtFirst(text, p, IntegerText(i));
    DecimalReads(text, s, n);
    DecimalStarts(n);
    DigitsRead(text, p, s, s + |Decimal(n)|, n, big);
  }

  // ---- Strings

  /** A control character is read back from its escape. */
  lemma ControlReads(text: string, p: nat, ch: char)
    requires EscapeLetter(ch) == 'u' && At(text, p, EscapeOf(ch))
    ensures T.UnicodeEscape(text, p + 2) == T.Escape(ch as nat, p + 6) && G.Utf8(ch as nat) == [ch]
  {
    var e := EscapeOf(ch);
    assert forall k :: 0 <= k < 6 ==> text[p..p + 6][k] == text[p + k] == e[k];
    G.HexDigitReads(ch as nat / 16);
    G.HexDigitReads(ch as nat % 16);
    assert text[p + 2] == e[2] && text[p + 3] == e[3] && text[p + 4] == e[4] && text[p + 5] == e[5];
  }

  lemma EscapedReads(text: string, p: nat, ch: char)
    requires At(text, p, EscapeOf(ch))
    ensures T.StringBody(text, p) == T.Prepend([ch], T.StringBody(text, p + |EscapeOf(ch)|))
  {
    hide T.UnicodeEscape, G.Utf8, At;
    var e := EscapeOf(ch);
    AtFirst(text, p, e);
    if |e| > 1 { AtSecond(text, p, e); }
    if EscapeLetter(ch) == 'u' {
      hide S.Escaped;
      ControlReads(text, p, ch);
    } else if EscapeLetter(ch) != '\0' {
      LetterMeans(ch);
      hide EscapeLetter, S.Escaped, G.Simple;
    }
  }

  lemma AtSecond(text: string, p: nat, w: string)
    requires At(text, p, w) && |w| > 1
    ensures p + 1 < |text| && text[p + 1] == w[1]
  {
    assert text[p..p + |w|][1] == text[p + 1];
  }

  lemma LetterMeans(ch: char)
    requires EscapeLetter(ch) != '\0' && EscapeLetter(ch) != 'u'
    ensures EscapeOf(ch) == ['\\', EscapeLetter(ch)]
    ensures T.SimpleEscape(EscapeLetter(ch)) && S.Escaped(EscapeLetter(ch)) == [ch]
  {
  }

  /** A quoted string is read back. */
  lemma {:induction false} BodyReads(text: string, p: nat, s: string)
    requires At(text, p, Body(s)) && R.Peek(text, p + |Body(s)|) == '"'
    ensures T.StringBody(text, p) == T.StringOk(s, p + |Body(s)| + 1)
    decreases |s|
  {
    hide EscapeOf, T.StringBody;
    if s == "" {
      ClosingQuote(text, p);
    } else {
      AtConcat(text, p, EscapeOf(s[0]), Body(s[1..]));
      EscapedReads(text, p, s[0]);
      BodyReads(text, p + |EscapeOf(s[0])|, s[1..]);
      assert [s[0]] + s[1..] == s;
    }
  }

  lemma ClosingQuote(text: string, p: nat)
    requires R.Peek(text, p) == '"'
    ensures p < |text| && T.StringBody(text, p) == T.StringOk("", p + 1)
  {
  }

  lemma QuotedReads(text: string, p: nat, s: string, isKey: bool)
    requires At(text, p, Quoted(s))
    ensures p < |text| && R.Peek(text, p) == '"'
    ensures T.StringLeaf(text, p, isKey) == R.LeafOk(if isKey then Key(s) else Str(s), p + |Quoted(s)|)
  {
    hide T.StringBody, Body;
    AtFirst(text, p, Quoted(s));
    AtConcat(text, p, "\"" + Body(s), "\"");
    AtConcat(text, p, "\"", Body(s));
    AtFirst(text, p + 1 + |Body(s)|, "\"");
    BodyReads(text, p + 1, s);
  }

  // ---- White space between tokens

  predicate AllWhite(w: string) {
    forall i :: 0 <= i < |w| ==> R.White(w[i])
  }

  lemma {:induction false} SkipsWhite(text: string, p: nat, w: string)
    requires At(text, p, w) && AllWhite(w) && !R.White(R.Peek(text, p + |w|))
    ensures R.SkipWhite(text, p) == p + |w|
    decreases |w|
  {
    if w != "" {
      AtFirst(text, p, w);
      AtConcat(text, p, [w[0]], w[1..]);
      assert [w[0]] + w[1..] == w;
      SkipsWhite(text, p + 1, w[1..]);
    }
  }

  lemma Skips(c: R.Config, p: nat, w: string)
    requires At(c.text, p, w) && AllWhite(w)
    requires !R.White(R.Peek(c.text, p + |w|)) && R.Peek(c.text, p + |w|) != '/'
    ensures R.Skip(c, p) == R.At(p + |w|)
  {
    SkipsWhite(c.text, p, w);
  }

  predicate GoodStyle(style: Style) {
    style.Compact? || R.White(style.indentChar)
  }

  lemma LayoutIsWhite(n: nat, style: Style)
    requires GoodStyle(style)
    ensures AllWhite(NewLine(n, style)) && AllWhite(ElementLead(n, style)) && AllWhite(AfterComma(style))
    ensures AllWhite(AfterColon(style)) && AllWhite(AfterComma(style) + ElementLead(n, style))
  {
  }

  // ---- Values

  /** A reader of a text with its own scanner, whatever its flags, whose handler never stops it. */
  ghost predicate Accepting(c: R.Config, big: Overflow) {
    && R.WellBehaved(c)
    && (forall p: nat, isKey: bool :: c.leaf(p, isKey) == T.ScalarLeaf(c.text, big, p, isKey))
    && (forall evs :: c.handler(evs))
  }

  /** Values without doubles, whose printing and rounding are not modelled. */
  predicate NoDouble(v: Json) {
    match v
    case JDouble(_) => false
    case JArray(elements) => forall e :: e in elements ==> NoDouble(e)
    case JObject(members) => forall m :: m in members ==> NoDouble(m.value)
    case _ => true
  }

  ghost predicate ReadsAs(o: R.Outcome, tr: seq<Event>, q: nat, evs: seq<Event>) {
    o.Done? && o.pos == q && P.Normals(o.trace) == P.Normals(tr) + evs
  }

  predicate StartsValue(ch: char) {
    ch == 'n' || ch == 't' || ch == 'f' || ch == '"' || ch == '-' || ch == '[' || ch == '{' || G.DigitChar(ch)
  }

  lemma DecimalStarts(n: nat)
    ensures G.DigitChar(Decimal(n)[0])
  {
  }

  lemma TextStarts(v: Json, n: nat, style: Style)
    requires NoDouble(v)
    ensures Text(v, n, style) != "" && StartsValue(Text(v, n, style)[0])
  {
    hide Body, ElementsText, MembersText, ElementLead, NewLine;
    if v.JInt? { DecimalStarts(Absolute(v.i)); }
  }

  lemma ReadWord(c: R.Config, big: Overflow, p: nat, word: string, ev: Event)
    requires Accepting(c, big) && At(c.text, p, word)
    requires (word == "null" && ev == Null) || (word == "true" && ev == Bool(true))
      || (word == "false" && ev == Bool(false))
    ensures c.leaf(p, false) == R.LeafOk(ev, p + |word|)
  {
    AtFirst(c.text, p, word);
    assert c.text[p..][..|word|] == c.text[p..p + |word|];
  }

  lemma ReadInteger(c: R.Config, big: Overflow, p: nat, i: Integer)
    requires Accepting(c, big) && At(c.text, p, IntegerText(i)) && Stop(R.Peek(c.text, p + |IntegerText(i)|))
    ensures var r := c.leaf(p, false);
      r.LeafOk? && r.next == p + |IntegerText(i)| && P.Normal(r.ev) == IntEvent(i)
  {
    hide NumberLeaf, T.StringLeaf;
    assert Representable(i);
    AtFirst(c.text, p, IntegerText(i));
    DecimalStarts(Absolute(i));
    IntegerReads(c.text, p, i, big);
  }

  lemma ReadQuoted(c: R.Config, big: Overflow, p: nat, s: string, isKey: bool)
    requires Accepting(c, big) && At(c.text, p, Quoted(s))
    ensures c.leaf(p, isKey) == R.LeafOk(if isKey then Key(s) else Str(s), p + |Quoted(s)|)
    ensures R.Peek(c.text, p) == '"'
  {
    hide T.StringLeaf, Quoted;
    QuotedReads(c.text, p, s, isKey);
  }

  lemma ReadScalar(c: R.Config, big: Overflow, p: nat, tr: seq<Event>, v: Json, n: nat, style: Style)
    requires Accepting(c, big) && NoDouble(v) && Scalar(v)
    requires At(c.text, p, Text(v, n, style)) && Stop(R.Peek(c.text, p + |Text(v, n, style)|))
    ensures ReadsAs(R.Value(c, p, tr), tr, p + |Text(v, n, style)|, Events(v))
  {
    hide P.Normals, P.Normal, T.ScalarLeaf, Quoted, IntegerText;
    match v {
      case JNull => ReadWord(c, big, p, "null", Null);
      case JBool(b) => ReadWord(c, big, p, if b then "true" else "false", Bool(b));
      case JInt(i) => ReadInteger(c, big, p, i);
      case JString(s) => ReadQuoted(c, big, p, s, false);
    }
    var r := c.leaf(p, false);
    TextStarts(v, n, style);
    AtFirst(c.text, p, Text(v, n, style));
    NoBracket(v, n, style);
    NormalScalar(v);
    P.NormalsOneMore(tr, r.ev);
  }

  lemma NoBracket(v: Json, n: nat, style: Style)
    requires Scalar(v) && NoDouble(v)
    ensures Text(v, n, style) != "" && Text(v, n, style)[0] != '[' && Text(v, n, style)[0] != '{'
  {
    if v.JInt? { DecimalStarts(Absolute(v.i)); }
  }

  lemma NormalScalar(v: Json)
    requires Scalar(v)
    ensures P.Normal(ScalarEvent(v)) == ScalarEvent(v)
  {
  }

  /** No token but white space before the next one. */
  lemma SkipsNothing(c: R.Config, p: nat)
    requires p <= |c.text| && !R.White(R.Peek(c.text, p)) && R.Peek(c.text, p) != '/'
    ensures R.Skip(c, p) == R.At(p)
  {
    Skips(c, p, "");
  }

  /** White space, then the first character of a value or of a name. */
  lemma SkipsToText(c: R.Config, p: nat, w: string, text: string)
    requires At(c.text, p, w) && AllWhite(w) && At(c.text, p + |w|, text) && text != "" && StartsValue(text[0])
    ensures R.Skip(c, p) == R.At(p + |w|) && StartsValue(R.Peek(c.text, p + |w|))
  {
    AtFirst(c.text, p + |w|, text);
    Skips(c, p, w);
  }

  /** White space, then a closing bracket or a comma, can follow a value. */
  lemma StopsBefore(text: string, p: nat, w: string)
    requires At(text, p, w) && AllWhite(w) && Stop(R.Peek(text, p + |w|))
    ensures Stop(R.Peek(text, p))
  {
    if w != "" { AtFirst(text, p, w); }
  }

  // ---- One turn of the reader

  lemma ThenReads(o: R.Outcome, tr: seq<Event>, q: nat, evs: seq<Event>, o': R.Outcome, q': nat, evs': seq<Event>)
    requires ReadsAs(o, tr, q, evs) && ReadsAs(o', o.trace, q', evs')
    ensures ReadsAs(o', tr, q', evs + evs')
  {
    hide P.Normals;
    P.Regroup(P.Normals(tr), evs, evs', []);
    assert P.Normals(tr) + (evs + evs') == P.Normals(tr) + evs + evs';
  }

  lemma OneRead(c: R.Config, big: Overflow, q: nat, tr: seq<Event>, ev: Event)
    requires Accepting(c, big) && P.Normal(ev) == ev
    ensures R.Emit(c, q, tr, ev) == R.Done(q, tr + [ev]) && ReadsAs(R.Emit(c, q, tr, ev), tr, q, [ev])
  {
    P.NormalsOneMore(tr, ev);
  }

  lemma EmptyArray(c: R.Config, big: Overflow, p: nat, tr: seq<Event>)
    requires Accepting(c, big) && p < |c.text| && R.Peek(c.text, p) == '[' && R.Skip(c, p + 1) == R.At(p + 1)
    requires R.Peek(c.text, p + 1) == ']'
    ensures ReadsAs(R.Value(c, p, tr), tr, p + 2, [StartArray] + [EndArray(0)])
  {
    hide R.Skip, P.Normals, R.Elements;
    OneRead(c, big, p + 1, tr, StartArray);
    OneRead(c, big, p + 2, tr + [StartArray], EndArray(0));
    assert R.Value(c, p, tr) == R.Array(c, p, tr) == R.Emit(c, p + 2, tr + [StartArray], EndArray(0));
    ThenReads(R.Emit(c, p + 1, tr, StartArray), tr, p + 1, [StartArray], R.Value(c, p, tr), p + 2, [EndArray(0)]);
  }

  lemma FullArray(c: R.Config, big: Overflow, p: nat, tr: seq<Event>, p1: nat)
    requires Accepting(c, big) && p < |c.text| && R.Peek(c.text, p) == '[' && R.Skip(c, p + 1) == R.At(p1)
    requires R.Peek(c.text, p1) != ']'
    ensures p1 <= |c.text| && R.Value(c, p, tr) == R.Elements(c, p1, tr + [StartArray], 0)
  {
    hide R.Skip, R.Elements;
  }

  lemma LastElement(c: R.Config, big: Overflow, p: nat, tr: seq<Event>, k: nat, q: nat, e: nat, evs: seq<Event>)
    requires Accepting(c, big) && p <= |c.text| && ReadsAs(R.Value(c, p, tr), tr, q, evs)
    requires q <= |c.text| && R.Skip(c, q) == R.At(e) && R.Peek(c.text, e) == ']'
    ensures ReadsAs(R.Elements(c, p, tr, k), tr, e + 1, evs + [EndArray(k + 1)])
  {
    hide R.Skip, P.Normals, R.Value;
    var v := R.Value(c, p, tr);
    OneRead(c, big, e + 1, v.trace, EndArray(k + 1));
    ThenReads(v, tr, q, evs, R.Elements(c, p, tr, k), e + 1, [EndArray(k + 1)]);
  }

  lemma NextElement(c: R.Config, big: Overflow, p: nat, tr: seq<Event>, k: nat, q: nat, w: nat)
    requires Accepting(c, big) && p <= |c.text| && R.Value(c, p, tr).Done? && R.Value(c, p, tr).pos == q
    requires R.Skip(c, q) == R.At(q) && R.Peek(c.text, q) == ',' && q < |c.text|
    requires R.Skip(c, q + 1) == R.At(w) && R.Peek(c.text, w) != ']'
    ensures w <= |c.text| && R.Elements(c, p, tr, k) == R.Elements(c, w, R.Value(c, p, tr).trace, k + 1)
  {
    hide R.Skip, R.Value;
  }

  /** A written value is read back. */
  lemma {:induction false} ReadValue(c: R.Config, big: Overflow, p: nat, tr: seq<Event>, v: Json, n: nat, style: Style)
    requires Accepting(c, big) && NoDouble(v) && GoodStyle(style)
    requires At(c.text, p, Text(v, n, style)) && Stop(R.Peek(c.text, p + |Text(v, n, style)|))
    ensures ReadsAs(R.Value(c, p, tr), tr, p + |Text(v, n, style)|, Events(v))
    decreases v, 3
  {
    hide Text, Stop, Events, P.Normals, R.Value, ReadsAs, Accepting, NoDouble, GoodStyle, At, R.Peek;
    match v
    case JArray(elements) => ReadArray(c, big, p, tr, elements, n, style);
    case JObject(members) => ReadObject(c, big, p, tr, members, n, style);
    case _ => ReadScalar(c, big, p, tr, v, n, style);
  }

  lemma {:induction false} ReadArray(c: R.Config, big: Overflow, p: nat, tr: seq<Event>, elements: seq<Json>, n: nat,
                                     style: Style)
    requires Accepting(c, big) && NoDouble(JArray(elements)) && GoodStyle(style)
    requires At(c.text, p, Text(JArray(elements), n, style))
    ensures ReadsAs(R.Value(c, p, tr), tr, p + |Text(JArray(elements), n, style)|, Events(JArray(elements)))
    decreases elements, 2
  {
    hide ReadsAs, Accepting, R.Value, R.Elements, ElementsText, ElementLead, Stop, R.Skip, StartsValue;
    AtFirst(c.text, p, Text(JArray(elements), n, style));
    if elements == [] {
      AtConcat(c.text, p, "[", "]");
      AtFirst(c.text, p + 1, "]");
      SkipsNothing(c, p + 1);
      EmptyArray(c, big, p, tr);
      NoElements();
    } else {
      ReadFullArray(c, big, p, tr, elements, n, style);
    }
  }

  /** Where the parts of the text of an array lie. */
  lemma ArrayLayout(text: string, p: nat, elements: seq<Json>, n: nat, style: Style)
    requires elements != [] && At(text, p, Text(JArray(elements), n, style))
    ensures var lead, body, end := ElementLead(n + 1, style), ElementsText(elements, n + 1, style),
      ElementLead(n, style);
      && At(text, p, "[") && At(text, p + 1, lead) && At(text, p + 1 + |lead|, body)
      && At(text, p + 1 + |lead| + |body|, end) && At(text, p + 1 + |lead| + |body| + |end|, "]")
      && |Text(JArray(elements), n, style)| == 1 + |lead| + |body| + |end| + 1
    ensures Events(JArray(elements)) == [StartArray] + (ElementEvents(elements) + [EndArray(|elements|)])
  {
    hide At, ElementLead, ElementsText, ElementEvents;
    AtFive(text, p, "[", ElementLead(n + 1, style), ElementsText(elements, n + 1, style), ElementLead(n, style), "]");
    Rightwards([StartArray], ElementEvents(elements), [EndArray(|elements|)]);
  }

  lemma {:induction false} ReadFullArray(c: R.Config, big: Overflow, p: nat, tr: seq<Event>, elements: seq<Json>,
      n: nat,
                                         style: Style)
    requires Accepting(c, big) && GoodStyle(style) && elements != [] && forall e :: e in elements ==> NoDouble(e)
    requires At(c.text, p, Text(JArray(elements), n, style))
    ensures ReadsAs(R.Value(c, p, tr), tr, p + |Text(JArray(elements), n, style)|, Events(JArray(elements)))
    decreases elements, 1, 1
  {
    hide ReadsAs, R.WellBehaved, T.ScalarLeaf, R.Value, R.Elements, ElementsText, ElementLead, Stop, R.Skip,
      StartsValue,
         NoDouble, At, AllWhite, R.Peek, P.Normals, R.White, GoodStyle, Text, Events;
    var lead, body, end := ElementLead(n + 1, style), ElementsText(elements, n + 1, style), ElementLead(n, style);
    LayoutIsWhite(n + 1, style);
    LayoutIsWhite(n, style);
    ArrayLayout(c.text, p, elements, n, style);
    AtFirst(c.text, p, "[");
    var p1 := p + 1 + |lead|;
    ElementsStart(elements, n + 1, style);
    SkipsToText(c, p + 1, lead, body);
    StartsNoEnd(R.Peek(c.text, p1));
    FullArray(c, big, p, tr, p1);
    AtFirst(c.text, p1 + |body| + |end|, "]");
    OneRead(c, big, p + 1, tr, StartArray);
    ReadElements(c, big, p1, tr + [StartArray], 0, elements, n + 1, end, style);
    ThenReads(R.Emit(c, p + 1, tr, StartArray), tr, p + 1, [StartArray], R.Value(c, p, tr),
              p1 + |body| + |end| + 1, ElementEvents(elements) + [EndArray(0 + |elements|)]);
  }

  lemma NoElements()
    ensures Events(JArray([])) == [StartArray] + [EndArray(0)] && Events(JObject([])) == [StartObject] + [EndObject(0)]
  {
  }

  lemma StartsNoEnd(ch: char)
    ensures StartsValue(ch) ==> ch != ']' && ch != '}' && ch != ','
  {
  }

  lemma AtFive(text: string, p: nat, a: string, b: string, c: string, d: string, e: string)
    requires At(text, p, a + b + c + d + e)
    ensures At(text, p, a) && At(text, p + |a|, b) && At(text, p + |a| + |b|, c)
    ensures At(text, p + |a| + |b| + |c|, d) && At(text, p + |a| + |b| + |c| + |d|, e)
  {
    AtConcat(text, p, a + b + c + d, e);
    AtConcat(text, p, a + b + c, d);
    AtConcat(text, p, a + b, c);
    AtConcat(text, p, a, b);
  }

  lemma ElementsStart(elements: seq<Json>, n: nat, style: Style)
    requires elements != [] && NoDouble(elements[0])
    ensures ElementsText(elements, n, style) != "" && StartsValue(ElementsText(elements, n, style)[0])
  {
    hide Text, StartsValue;
    TextStarts(elements[0], n, style);
  }

  /** The elements of an array, then white space and its closing bracket. */
  lemma {:induction false} ReadElements(c: R.Config, big: Overflow, p: nat, tr: seq<Event>, k: nat, elements: seq<Json>,
                                        n: nat, end: string, style: Style)
    requires Accepting(c, big) && GoodStyle(style) && elements != [] && forall e :: e in elements ==> NoDouble(e)
    requires var text := ElementsText(elements, n, style);
      && At(c.text, p, text) && At(c.text, p + |text|, end) && AllWhite(end)
      && R.Peek(c.text, p + |text| + |end|) == ']'
    ensures ReadsAs(R.Elements(c, p, tr, k), tr, p + |ElementsText(elements, n, style)| + |end| + 1,
                    ElementEvents(elements) + [EndArray(k + |elements|)])
    decreases elements, 1, 0
  {
    hide ReadsAs, R.WellBehaved, T.ScalarLeaf, Text, R.Value, R.Elements, R.Skip, Events, NoDouble, ElementLead,
      AfterComma,
         StartsValue, At, AllWhite, R.Peek, P.Normals;
    var first := Text(elements[0], n, style);
    var q := p + |first|;
    if |elements| == 1 {
      assert first + "" == first;
      StopsBefore(c.text, q, end);
      ReadValue(c, big, p, tr, elements[0], n, style);
      Skips(c, q, end);
      LastElement(c, big, p, tr, k, q, q + |end|, Events(elements[0]));
      assert elements[1..] == [];
      assert ElementEvents(elements) == Events(elements[0]) + [] == Events(elements[0]);
    } else {
      var gap, more := AfterComma(style) + ElementLead(n, style), ElementsText(elements[1..], n, style);
      SeveralElements(c.text, p, elements, n, style);
      hide ElementsText;
      AtFirst(c.text, q, ",");
      ReadValue(c, big, p, tr, elements[0], n, style);
      var v := R.Value(c, p, tr);
      ReadsDone(v, tr, q, Events(elements[0]));
      SkipsNothing(c, q);
      LayoutIsWhite(n, style);
      ElementsStart(elements[1..], n, style);
      SkipsToText(c, q + 1, gap, more);
      var w := q + 1 + |gap|;
      StartsNoEnd(R.Peek(c.text, w));
      NextElement(c, big, p, tr, k, q, w);
      ReadElements(c, big, w, v.trace, k + 1, elements[1..], n, end, style);
      ThenReads(v, tr, q, Events(elements[0]), R.Elements(c, p, tr, k), w + |more| + |end| + 1,
                ElementEvents(elements[1..]) + [EndArray(k + 1 + |elements[1..]|)]);
      Rightwards(Events(elements[0]), ElementEvents(elements[1..]), [EndArray(k + |elements|)]);
    }
  }

  lemma Rightwards<E>(a: seq<E>, b: seq<E>, c: seq<E>)
    ensures a + (b + c) == a + b + c
  {
  }

  lemma SeveralElements(text: string, p: nat, elements: seq<Json>, n: nat, style: Style)
    requires |elements| > 1 && At(text, p, ElementsText(elements, n, style))
    ensures var first, more := Text(elements[0], n, style), ElementsText(elements[1..], n, style);
      var gap := AfterComma(style) + ElementLead(n, style);
      var q := p + |first|;
      && At(text, p, first) && At(text, q, ",") && At(text, q + 1, gap) && At(text, q + 1 + |gap|, more)
      && |ElementsText(elements, n, style)| == |first| + 1 + |gap| + |more|
  {
    hide Text, AfterComma, ElementLead, At;
    var first, more := Text(elements[0], n, style), ElementsText(elements[1..], n, style);
    CommaText(first, AfterComma(style), ElementLead(n, style), more);
    AtFive(text, p, first, ",", AfterComma(style) + ElementLead(n, style), more, "");
  }

  lemma ReadsDone(o: R.Outcome, tr: seq<Event>, q: nat, evs: seq<Event>)
    requires ReadsAs(o, tr, q, evs)
    ensures o.Done? && o.pos == q
  {
  }

  lemma CommaText(first: string, a: string, b: string, more: string)
    ensures first + ("," + a + b + more) == first + "," + (a + b) + more + ""
    ensures |first + ("," + a + b + more)| == |first| + 1 + |a + b| + |more|
  {
  }

  // ---- Objects

  lemma EmptyObject(c: R.Config, big: Overflow, p: nat, tr: seq<Event>)
    requires Accepting(c, big) && p < |c.text| && R.Peek(c.text, p) == '{' && R.Skip(c, p + 1) == R.At(p + 1)
    requires R.Peek(c.text, p + 1) == '}'
    ensures ReadsAs(R.Value(c, p, tr), tr, p + 2, [StartObject] + [EndObject(0)])
  {
    hide R.Skip, P.Normals, R.Members;
    OneRead(c, big, p + 1, tr, StartObject);
    OneRead(c, big, p + 2, tr + [StartObject], EndObject(0));
    assert R.Value(c, p, tr) == R.Object(c, p, tr) == R.Emit(c, p + 2, tr + [StartObject], EndObject(0));
    ThenReads(R.Emit(c, p + 1, tr, StartObject), tr, p + 1, [StartObject], R.Value(c, p, tr), p + 2, [EndObject(0)]);
  }

  lemma FullObject(c: R.Config, big: Overflow, p: nat, tr: seq<Event>, p1: nat)
    requires Accepting(c, big) && p < |c.text| && R.Peek(c.text, p) == '{' && R.Skip(c, p + 1) == R.At(p1)
    requires R.Peek(c.text, p1) != '}'
    ensures p1 <= |c.text| && R.Value(c, p, tr) == R.Members(c, p1, tr + [StartObject], 0)
  {
    hide R.Skip, R.Members;
  }

  /** A name, a colon and the value after it. */
  lemma NamedValue(c: R.Config, big: Overflow, p: nat, tr: seq<Event>, name: string, t: nat)
    requires Accepting(c, big) && p <= |c.text| && At(c.text, p, Quoted(name))
    requires var q := p + |Quoted(name)|;
      && R.Skip(c, q) == R.At(q) && R.Peek(c.text, q) == ':' && q < |c.text|
      && R.Skip(c, q + 1) == R.At(t)
    ensures t <= |c.text| && R.Member(c, p, tr) == R.Value(c, t, tr + [Key(name)])
  {
    hide R.Skip, R.Value, Quoted, At, T.ScalarLeaf;
    ReadQuoted(c, big, p, name, true);
  }

  lemma LastMember(c: R.Config, big: Overflow, p: nat, tr: seq<Event>, k: nat, q: nat, e: nat, evs: seq<Event>)
    requires Accepting(c, big) && p <= |c.text| && ReadsAs(R.Member(c, p, tr), tr, q, evs)
    requires q <= |c.text| && R.Skip(c, q) == R.At(e) && R.Peek(c.text, e) == '}'
    ensures ReadsAs(R.Members(c, p, tr, k), tr, e + 1, evs + [EndObject(k + 1)])
  {
    hide R.Skip, P.Normals, R.Member;
    var v := R.Member(c, p, tr);
    OneRead(c, big, e + 1, v.trace, EndObject(k + 1));
    ThenReads(v, tr, q, evs, R.Members(c, p, tr, k), e + 1, [EndObject(k + 1)]);
  }

  lemma NextMember(c: R.Config, big: Overflow, p: nat, tr: seq<Event>, k: nat, q: nat, w: nat)
    requires Accepting(c, big) && p <= |c.text| && R.Member(c, p, tr).Done? && R.Member(c, p, tr).pos == q
    requires R.Skip(c, q) == R.At(q) && R.Peek(c.text, q) == ',' && q < |c.text|
    requires R.Skip(c, q + 1) == R.At(w) && R.Peek(c.text, w) != '}'
    ensures w <= |c.text| && R.Members(c, p, tr, k) == R.Members(c, w, R.Member(c, p, tr).trace, k + 1)
  {
    hide R.Skip, R.Member;
  }

  lemma {:induction false} ReadObject(c: R.Config, big: Overflow, p: nat, tr: seq<Event>, members: seq<Member>, n: nat,
                                      style: Style)
    requires Accepting(c, big) && NoDouble(JObject(members)) && GoodStyle(style)
    requires At(c.text, p, Text(JObject(members), n, style))
    ensures ReadsAs(R.Value(c, p, tr), tr, p + |Text(JObject(members), n, style)|, Events(JObject(members)))
    decreases members, 2
  {
    hide ReadsAs, Accepting, R.Value, R.Members, MembersText, NewLine, Stop, R.Skip, StartsValue;
    AtFirst(c.text, p, Text(JObject(members), n, style));
    if members == [] {
      AtConcat(c.text, p, "{", "}");
      AtFirst(c.text, p + 1, "}");
      SkipsNothing(c, p + 1);
      EmptyObject(c, big, p, tr);
      NoElements();
    } else {
      ReadFullObject(c, big, p, tr, members, n, style);
    }
  }

  /** Where the parts of the text of an object lie. */
  lemma ObjectLayout(text: string, p: nat, members: seq<Member>, n: nat, style: Style)
    requires members != [] && At(text, p, Text(JObject(members), n, style))
    ensures var lead, body, end := NewLine(n + 1, style), MembersText(members, n + 1, style), NewLine(n, style);
      && At(text, p, "{") && At(text, p + 1, lead) && At(text, p + 1 + |lead|, body)
      && At(text, p + 1 + |lead| + |body|, end) && At(text, p + 1 + |lead| + |body| + |end|, "}")
      && |Text(JObject(members), n, style)| == 1 + |lead| + |body| + |end| + 1
    ensures Events(JObject(members)) == [StartObject] + (MemberEvents(members) + [EndObject(|members|)])
  {
    hide At, NewLine, MembersText, MemberEvents;
    AtFive(text, p, "{", NewLine(n + 1, style), MembersText(members, n + 1, style), NewLine(n, style), "}");
    Rightwards([StartObject], MemberEvents(members), [EndObject(|members|)]);
  }

  lemma {:induction false} ReadFullObject(c: R.Config, big: Overflow, p: nat, tr: seq<Event>, members: seq<Member>,
      n: nat,
                                          style: Style)
    requires Accepting(c, big) && GoodStyle(style) && members != [] && forall m :: m in members ==> NoDouble(m.value)
    requires At(c.text, p, Text(JObject(members), n, style))
    ensures ReadsAs(R.Value(c, p, tr), tr, p + |Text(JObject(members), n, style)|, Events(JObject(members)))
    decreases members, 1, 1
  {
    hide ReadsAs, R.WellBehaved, T.ScalarLeaf, R.Value, R.Members, MembersText, NewLine, Stop, R.Skip, StartsValue,
         NoDouble, At, AllWhite, R.Peek, P.Normals, R.White, GoodStyle, Text, Events;
    var lead, body, end := NewLine(n + 1, style), MembersText(members, n + 1, style), NewLine(n, style);
    LayoutIsWhite(n + 1, style);
    LayoutIsWhite(n, style);
    ObjectLayout(c.text, p, members, n, style);
    AtFirst(c.text, p, "{");
    var p1 := p + 1 + |lead|;
    MembersStart(members, n + 1, style);
    SkipsToText(c, p + 1, lead, body);
    StartsNoEnd(R.Peek(c.text, p1));
    FullObject(c, big, p, tr, p1);
    AtFirst(c.text, p1 + |body| + |end|, "}");
    OneRead(c, big, p + 1, tr, StartObject);
    ReadMembers(c, big, p1, tr + [StartObject], 0, members, n + 1, end, style);
    ThenReads(R.Emit(c, p + 1, tr, StartObject), tr, p + 1, [StartObject], R.Value(c, p, tr),
              p1 + |body| + |end| + 1, MemberEvents(members) + [EndObject(0 + |members|)]);
  }

  lemma QuotedStarts(s: string)
    ensures Quoted(s) != "" && Quoted(s)[0] == '"' && StartsValue('"')
  {
  }

  lemma MembersStart(members: seq<Member>, n: nat, style: Style)
    requires members != []
    ensures MembersText(members, n, style) != "" && StartsValue(MembersText(members, n, style)[0])
  {
    hide Text, Quoted, StartsValue;
    QuotedStarts(members[0].name);
  }

  lemma {:induction false} ReadMember(c: R.Config, big: Overflow, p: nat, tr: seq<Event>, m: Member, n: nat,
      style: Style)
    requires Accepting(c, big) && GoodStyle(style) && NoDouble(m.value)
    requires var colon := p + |Quoted(m.name)|;
      var t := colon + 1 + |AfterColon(style)|;
      && At(c.text, p, Quoted(m.name)) && At(c.text, colon, ":") && At(c.text, colon + 1, AfterColon(style))
      && At(c.text, t, Text(m.value, n, style)) && Stop(R.Peek(c.text, t + |Text(m.value, n, style)|))
    ensures p <= |c.text|
    ensures ReadsAs(R.Member(c, p, tr), tr, p + |Quoted(m.name)| + 1 + |AfterColon(style)| + |Text(m.value, n, style)|,
                    [Key(m.name)] + Events(m.value))
    decreases m, 4
  {
    hide ReadsAs, R.WellBehaved, T.ScalarLeaf, R.Value, R.Member, Text, Quoted, AfterColon, Stop, R.Skip, StartsValue,
         NoDouble, At, AllWhite, R.Peek, P.Normals;
    var colon := p + |Quoted(m.name)|;
    var t := colon + 1 + |AfterColon(style)|;
    QuotedStarts(m.name);
    AtFirst(c.text, p, Quoted(m.name));
    AtFirst(c.text, colon, ":");
    SkipsNothing(c, colon);
    LayoutIsWhite(n, style);
    TextStarts(m.value, n, style);
    SkipsToText(c, colon + 1, AfterColon(style), Text(m.value, n, style));
    NamedValue(c, big, p, tr, m.name, t);
    OneRead(c, big, colon, tr, Key(m.name));
    ReadValue(c, big, t, tr + [Key(m.name)], m.value, n, style);
    ThenReads(R.Emit(c, colon, tr, Key(m.name)), tr, colon, [Key(m.name)], R.Member(c, p, tr),
              t + |Text(m.value, n, style)|, Events(m.value));
  }

  /** The members of an object, then white space and its closing bracket. */
  lemma {:induction false} ReadMembers(c: R.Config, big: Overflow, p: nat, tr: seq<Event>, k: nat, members: seq<Member>,
                                       n: nat, end: string, style: Style)
    requires Accepting(c, big) && GoodStyle(style) && members != [] && forall m :: m in members ==> NoDouble(m.value)
    requires var text := MembersText(members, n, style);
      && At(c.text, p, text) && At(c.text, p + |text|, end) && AllWhite(end)
      && R.Peek(c.text, p + |text| + |end|) == '}'
    ensures ReadsAs(R.Members(c, p, tr, k), tr, p + |MembersText(members, n, style)| + |end| + 1,
                    MemberEvents(members) + [EndObject(k + |members|)])
    decreases members, 1, 0
  {
    hide ReadsAs, R.WellBehaved, T.ScalarLeaf, Text, R.Value, R.Member, R.Members, R.Skip, Events, NoDouble, NewLine,
      AfterColon,
         StartsValue, At, AllWhite, R.Peek, P.Normals, Quoted, MembersText;
    var m := members[0];
    var q := p + |Quoted(m.name)| + 1 + |AfterColon(style)| + |Text(m.value, n, style)|;
    var evs := [Key(m.name)] + Events(m.value);
    FirstLayout(c.text, p, members, n, style);
    if |members| == 1 {
      StopsBefore(c.text, q, end);
      ReadMember(c, big, p, tr, m, n, style);
      Skips(c, q, end);
      LastMember(c, big, p, tr, k, q, q + |end|, evs);
      assert members[1..] == [];
      assert MemberEvents(members) == evs + [] == evs;
    } else {
      var gap, more := NewLine(n, style), MembersText(members[1..], n, style);
      AtFirst(c.text, q, ",");
      ReadMember(c, big, p, tr, m, n, style);
      var v := R.Member(c, p, tr);
      ReadsDone(v, tr, q, evs);
      SkipsNothing(c, q);
      LayoutIsWhite(n, style);
      MembersStart(members[1..], n, style);
      SkipsToText(c, q + 1, gap, more);
      var w := q + 1 + |gap|;
      StartsNoEnd(R.Peek(c.text, w));
      NextMember(c, big, p, tr, k, q, w);
      ReadMembers(c, big, w, v.trace, k + 1, members[1..], n, end, style);
      ThenReads(v, tr, q, evs, R.Members(c, p, tr, k), w + |more| + |end| + 1,
                MemberEvents(members[1..]) + [EndObject(k + 1 + |members[1..]|)]);
      Rightwards(evs, MemberEvents(members[1..]), [EndObject(k + |members|)]);
    }
  }

  /** Where the first member, and what comes after it, lie in the text of members. */
  lemma FirstLayout(text: string, p: nat, members: seq<Member>, n: nat, style: Style)
    requires members != [] && At(text, p, MembersText(members, n, style))
    ensures var m := members[0];
      var colon := p + |Quoted(m.name)|;
      var t := colon + 1 + |AfterColon(style)|;
      && At(text, p, Quoted(m.name)) && At(text, colon, ":") && At(text, colon + 1, AfterColon(style))
      && At(text, t, Text(m.value, n, style))
    ensures var q := p + |Quoted(members[0].name)| + 1 + |AfterColon(style)| + |Text(members[0].value, n, style)|;
      if |members| == 1 then p + |MembersText(members, n, style)| == q
      else
        var gap, more := NewLine(n, style), MembersText(members[1..], n, style);
        && At(text, q, ",") && At(text, q + 1, gap) && At(text, q + 1 + |gap|, more)
        && p + |MembersText(members, n, style)| == q + 1 + |gap| + |more|
  {
    hide Text, AfterColon, NewLine, At, Quoted;
    var m := members[0];
    var name, colon, value := Quoted(m.name), AfterColon(style), Text(m.value, n, style);
    var tail := if |members| == 1 then "" else "," + NewLine(n, style) + MembersText(members[1..], n, style);
    AtFive(text, p, name, ":", colon, value, tail);
    if |members| > 1 {
      var gap, more := NewLine(n, style), MembersText(members[1..], n, style);
      var q := p + |name| + 1 + |colon| + |value|;
      AtConcat(text, q, "," + gap, more);
      AtConcat(text, q, ",", gap);
    }
  }

  // ---- The round trip

  /** A written value, in either style, is read back by a reader with any flags: at its end, having reported that
      value. */
  lemma WrittenIsRead(c: R.Config, big: Overflow, v: Json, style: Style)
    requires Accepting(c, big) && NoDouble(v) && GoodStyle(style) && c.text == Text(v, 0, style)
    ensures R.Recursive(c).Done? && R.Recursive(c).pos == |c.text| && P.Reports(R.Recursive(c).trace, v)
    ensures D.Feed([], R.Recursive(c).trace) == D.Stack([D.Stored(v)])
  {
    hide Text, T.ScalarLeaf, R.Value, D.Feed, D.Stored, P.Normals, Events, R.Skip;
    assert c.text[0..0 + |c.text|] == c.text;
    TextStarts(v, 0, style);
    SkipsToText(c, 0, "", c.text);
    StartsNoEnd(R.Peek(c.text, 0));
    ReadValue(c, big, 0, [], v, 0, style);
    SkipsNothing(c, |c.text|);
    P.NoNormals();
    assert [] + Events(v) == Events(v);
    P.ReportBuilds([], R.Recursive(c).trace, v);
    assert [] + [D.Stored(v)] == [D.Stored(v)];
  }

  predicate NoRawNumber(evs: seq<Event>) {
    forall ev :: ev in evs ==> !ev.RawNumber?
  }

  /** Integers are written alike, whatever type reports them. */
  lemma {:induction false} WritesNormals(w: WriterState, evs: seq<Event>, style: Style)
    requires NoRawNumber(evs)
    ensures WriteAll(w, P.Normals(evs), style) == WriteAll(w, evs, style)
    decreases |evs|
  {
    hide Write, P.Normal;
    if evs != [] {
      WritesNormal(w, evs[0], style);
      assert P.Normals(evs)[1..] == P.Normals(evs[1..]);
      if Write(w, evs[0], style).Went? { WritesNormals(Write(w, evs[0], style).w, evs[1..], style); }
    }
  }

  lemma WritesNormal(w: WriterState, ev: Event, style: Style)
    requires !ev.RawNumber?
    ensures Write(w, P.Normal(ev), style) == Write(w, ev, style)
  {
    hide IntegerText, Quoted, LeadText;
  }

  const FRESH := WriterState([], false, "")

  /** Every trace that reports a value, fed to a fresh writer, fires no assertion and puts out exactly the text of that
      value; the writer is complete then. */
  lemma ReportIsWritten(trace: seq<Event>, v: Json, style: Style)
    requires P.Reports(trace, v) && NoRawNumber(trace)
    ensures WriteAll(FRESH, trace, style) == Went(WriterState([], true, Text(v, 0, style)))
  {
    hide WriteAll, Text, P.Normals;
    WritesNormals(FRESH, trace, style);
    WritesText(FRESH, v, style);
    assert "" + Text(v, 0, style) == Text(v, 0, style);
  }

  /** Writing a value and reading the text back builds an equal value, in either style, with any flags and in both forms
      of the reader. */
  lemma WriteThenRead(v: Json, style: Style, comments: bool, trailingCommas: bool, stopWhenDone: bool, big: Overflow)
    requires NoDouble(v) && GoodStyle(style)
    ensures var written := WriteAll(FRESH, Events(v), style);
      && written.Went? && written.w.levels == []
      && var c := T.ReaderOf(written.w.out, comments, trailingCommas, stopWhenDone, big, (evs: seq<Event>) => true);
      && R.WellBehaved(c)
      && R.Recursive(c).Done? && RI.Iterative(c) == R.Recursive(c)
      && D.Feed([], R.Recursive(c).trace) == D.Stack([D.Stored(v)])
  {
    hide Text, T.ScalarLeaf, D.Feed, D.Stored, P.Normals, Events, R.Recursive, WriteAll, RI.Iterative;
    NormalEvents(v);
    ReportIsWritten(Events(v), v, style);
    var c := T.ReaderOf(Text(v, 0, style), comments, trailingCommas, stopWhenDone, big, (evs: seq<Event>) => true);
    T.LeafIsWellBehaved(c.text, comments, trailingCommas, stopWhenDone, big, (evs: seq<Event>) => true);
    WrittenIsRead(c, big, v, style);
    RI.IterativeEqualsRecursive(c);
  }

  /** The events of a value are in their narrowest form already. */
  lemma {:induction false} NormalEvents(v: Json)
    ensures P.Reports(Events(v), v) && NoRawNumber(Events(v))
    decreases v, 0
  {
    hide P.Normals;
    match v
    case JArray(elements) =>
      NormalElements(elements);
      NormalAround(StartArray, ElementEvents(elements), EndArray(|elements|));
    case JObject(members) =>
      NormalMembers(members);
      NormalAround(StartObject, MemberEvents(members), EndObject(|members|));
    case _ =>
      NormalScalar(v);
      P.NormalsOneMore([], ScalarEvent(v));
      P.NoNormals();
      assert [] + [ScalarEvent(v)] == [ScalarEvent(v)];
  }

  lemma NormalAround(first: Event, evs: seq<Event>, last: Event)
    requires P.Normal(first) == first && P.Normal(last) == last && P.Normals(evs) == evs
    ensures P.Normals([first] + evs + [last]) == [first] + evs + [last]
  {
    hide P.Normals;
    P.NormalsOneMore([first] + evs, last);
    P.NormalsConcat([first], evs);
    P.NormalsOneMore([], first);
    P.NoNormals();
    assert [] + [first] == [first];
  }

  lemma {:induction false} NormalElements(elements: seq<Json>)
    ensures P.Normals(ElementEvents(elements)) == ElementEvents(elements) && NoRawNumber(ElementEvents(elements))
    decreases elements, 1
  {
    if elements != [] {
      NormalEvents(elements[0]);
      NormalElements(elements[1..]);
      P.NormalsConcat(Events(elements[0]), ElementEvents(elements[1..]));
    }
  }

  lemma {:induction false} NormalMembers(members: seq<Member>)
    ensures P.Normals(MemberEvents(members)) == MemberEvents(members) && NoRawNumber(MemberEvents(members))
    decreases members, 1
  {
    if members != [] {
      var m := members[0];
      NormalEvents(m.value);
      NormalMembers(members[1..]);
      P.NormalsConcat([Key(m.name)] + Events(m.value), MemberEvents(members[1..]));
      P.NormalsConcat([Key(m.name)], Events(m.value));
    }
  }
}
