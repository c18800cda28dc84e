/** The pretty text of a value is its compact text with white space between the tokens. */
module JsonPretty {
  import opened JsonEvents
  import opened JsonValues
  import opened JsonWriter
  import opened JsonItoa
  import opened JsonReadBack
  import P = JsonParsedTree
  import R = ReaderSpec
  import G = JsonGrammar

  datatype EraseMode = Outside | Within | AfterBackslash

  /** The text with the white space outside strings erased. */
  function Erase(text: string, mode: EraseMode): string {
    if text == "" then ""
    else
      var ch := text[0];
      match mode
      case Outside =>
        if R.White(ch) then Erase(text[1..], Outside)
        else [ch] + Erase(text[1..], if ch == '"' then Within else Outside)
      case Within =>
        [ch] + Erase(text[1..], if ch == '"' then Outside else if ch == '\\' then AfterBackslash else Within)
      case AfterBackslash => [ch] + Erase(text[1..], Within)
  }

  /** Some text is erased to some other, whatever comes after it. */
  ghost predicate ErasesTo(a: string, b: string) {
    forall rest :: Erase(a + rest, Outside) == b + Erase(rest, Outside)
  }

  lemma ErasesConcat(a: string, a': string, b: string, b': string)
    requires ErasesTo(a, a') && ErasesTo(b, b')
    ensures ErasesTo(a + b, a' + b')
  {
    forall rest ensures Erase(a + b + rest, Outside) == a' + b' + Erase(rest, Outside) {
      assert a + b + rest == a + (b + rest);
      assert a' + (b' + Erase(rest, Outside)) == a' + b' + Erase(rest, Outside);
    }
  }

  lemma {:induction false} WhiteErases(w: string)
    requires AllWhite(w)
    ensures ErasesTo(w, "")
    decreases |w|
  {
    forall rest ensures Erase(w + rest, Outside) == "" + Erase(rest, Outside) {
      if w == "" {
        assert "" + rest == rest;
      } else {
        assert (w + rest)[1..] == w[1..] + rest;
        WhiteErases(w[1..]);
        assert Erase(w[1..] + rest, Outside) == "" + Erase(rest, Outside);
      }
    }
  }

  predicate Solid(w: string) {
    forall i :: 0 <= i < |w| ==> !R.White(w[i]) && w[i] != '"'
  }

  lemma SolidErases(w: string)
    requires Solid(w)
    ensures ErasesTo(w, w)
  {
    forall rest ensures Erase(w + rest, Outside) == w + Erase(rest, Outside) { SolidBefore(w, rest); }
  }

  lemma {:induction false} SolidBefore(w: string, rest: string)
    requires Solid(w)
    ensures Erase(w + rest, Outside) == w + Erase(rest, Outside)
    decreases |w|
  {
    if w == "" {
      assert "" + rest == rest;
    } else {
      assert (w + rest)[1..] == w[1..] + rest;
      SolidBefore(w[1..], rest);
    }
  }

  lemma EscapedErases(ch: char, rest: string)
    ensures Erase(EscapeOf(ch) + rest, Within) == EscapeOf(ch) + Erase(rest, Within)
  {
    var e := EscapeOf(ch);
    if EscapeLetter(ch) == 'u' {
      G.HexDigitReads(ch as nat / 16);
      G.HexDigitReads(ch as nat % 16);
      PlainWithin(e[2..], rest);
      assert (e + rest)[1..][1..] == e[2..] + rest;
      assert e == [e[0]] + ([e[1]] + e[2..]);
    } else if EscapeLetter(ch) != '\0' {
      assert (e + rest)[1..][1..] == rest;
    } else {
      assert (e + rest)[1..] == rest;
    }
  }

  lemma {:induction false} PlainWithin(w: string, rest: string)
    requires forall i :: 0 <= i < |w| ==> w[i] != '"' && w[i] != '\\'
    ensures Erase(w + rest, Within) == w + Erase(rest, Within)
    decreases |w|
  {
    if w == "" {
      assert "" + rest == rest;
    } else {
      assert (w + rest)[1..] == w[1..] + rest;
      PlainWithin(w[1..], rest);
    }
  }

  lemma {:induction false} BodyErases(s: string, rest: string)
    ensures Erase(Body(s) + rest, Within) == Body(s) + Erase(rest, Within)
    decreases |s|
  {
    hide EscapeOf, Erase;
    if s == "" {
      assert "" + rest == rest;
    } else {
      assert Body(s) + rest == EscapeOf(s[0]) + (Body(s[1..]) + rest);
      EscapedErases(s[0], Body(s[1..]) + rest);
      BodyErases(s[1..], rest);
    }
  }

  lemma QuotedErases(s: string)
    ensures ErasesTo(Quoted(s), Quoted(s))
  {
    hide Body;
    forall rest ensures Erase(Quoted(s) + rest, Outside) == Quoted(s) + Erase(rest, Outside) {
      assert (Quoted(s) + rest)[1..] == Body(s) + ("\"" + rest);
      BodyErases(s, "\"" + rest);
      assert ("\"" + rest)[1..] == rest;
      assert Erase("\"" + rest, Within) == "\"" + Erase(rest, Outside);
    }
  }

  lemma {:induction false} DecimalSolid(n: nat)
    ensures Solid(Decimal(n))
    decreases n
  {
    if n >= 10 { DecimalSolid(n / 10); }
  }

  lemma ScalarErases(v: Json, n: nat, style: Style)
    requires Scalar(v) && NoDouble(v)
    ensures ErasesTo(Text(v, n, style), Text(v, n, Compact))
  {
    hide ErasesTo, Quoted;
    match v
    case JNull => SolidErases("null");
    case JBool(b) => SolidErases(if b then "true" else "false");
    case JInt(i) =>
      DecimalSolid(Absolute(i));
      SolidErases(IntegerText(i));
    case JString(s) => QuotedErases(s);
  }

  lemma ErasesFive(a: string, a': string, b: string, b': string, c: string, c': string, d: string, d': string,
                   e: string, e': string)
    requires ErasesTo(a, a') && ErasesTo(b, b') && ErasesTo(c, c') && ErasesTo(d, d') && ErasesTo(e, e')
    ensures ErasesTo(a + b + c + d + e, a' + b' + c' + d' + e')
  {
    hide ErasesTo;
    ErasesConcat(a, a', b, b');
    ErasesConcat(a + b, a' + b', c, c');
    ErasesConcat(a + b + c, a' + b' + c', d, d');
    ErasesConcat(a + b + c + d, a' + b' + c' + d', e, e');
  }

  lemma MarksErase()
    ensures ErasesTo("[", "[") && ErasesTo("]", "]") && ErasesTo("{", "{") && ErasesTo("}", "}")
    ensures ErasesTo(",", ",") && ErasesTo(":", ":") && ErasesTo("", "") && ErasesTo("[]", "[]") && ErasesTo("{}", "{}")
  {
    hide ErasesTo;
    SolidErases("[");
    SolidErases("]");
    SolidErases("{");
    SolidErases("}");
    SolidErases(",");
    SolidErases(":");
    SolidErases("");
    SolidErases("[]");
    SolidErases("{}");
  }

  lemma LayoutErases(n: nat, style: Style)
    requires GoodStyle(style)
    ensures ErasesTo(NewLine(n, style), "") && ErasesTo(ElementLead(n, style), "")
    ensures ErasesTo(AfterComma(style), "") && ErasesTo(AfterColon(style), "")
  {
    hide ErasesTo, AllWhite, NewLine, ElementLead, AfterComma, AfterColon;
    LayoutIsWhite(n, style);
    WhiteErases(NewLine(n, style));
    WhiteErases(ElementLead(n, style));
    WhiteErases(AfterComma(style));
    WhiteErases(AfterColon(style));
  }

  /** Without the white space outside its strings, the pretty text of a value is its compact text. */
  lemma {:induction false} PrettyErases(v: Json, n: nat, style: Style)
    requires GoodStyle(style) && NoDouble(v)
    ensures ErasesTo(Text(v, n, style), Text(v, n, Compact))
    decreases v, 0
  {
    hide ErasesTo, NewLine, ElementLead, ElementsText, MembersText;
    MarksErase();
    LayoutErases(n + 1, style);
    LayoutErases(n, style);
    NoLayout(n);
    NoLayout(n + 1);
    match v
    case JArray(elements) =>
      if elements != [] {
        ElementsErase(elements, n + 1, style);
        ErasesFive("[", "[", ElementLead(n + 1, style), "", ElementsText(elements, n + 1, style),
                   ElementsText(elements, n + 1, Compact), ElementLead(n, style), "", "]", "]");
      }
    case JObject(members) =>
      if members != [] {
        MembersErase(members, n + 1, style);
        ErasesFive("{", "{", NewLine(n + 1, style), "", MembersText(members, n + 1, style),
                   MembersText(members, n + 1, Compact), NewLine(n, style), "", "}", "}");
      }
    case _ => ScalarErases(v, n, style);
  }

  lemma NoLayout(n: nat)
    ensures NewLine(n, Compact) == "" && ElementLead(n, Compact) == "" && AfterComma(Compact) == ""
      && AfterColon(Compact) == ""
  {
  }

  lemma {:induction false} ElementsErase(elements: seq<Json>, n: nat, style: Style)
    requires GoodStyle(style) && elements != [] && forall e :: e in elements ==> NoDouble(e)
    ensures ErasesTo(ElementsText(elements, n, style), ElementsText(elements, n, Compact))
    decreases elements, 1
  {
    hide ErasesTo, NoDouble, Text, NewLine, ElementLead, AfterComma;
    MarksErase();
    LayoutErases(n, style);
    NoLayout(n);
    PrettyErases(elements[0], n, style);
    var first, first' := Text(elements[0], n, style), Text(elements[0], n, Compact);
    if |elements| == 1 {
      ErasesConcat(first, first', "", "");
    } else {
      ElementsErase(elements[1..], n, style);
      var more, more' := ElementsText(elements[1..], n, style), ElementsText(elements[1..], n, Compact);
      ErasesFive("", "", ",", ",", AfterComma(style), "", ElementLead(n, style), "", more, more');
      assert "" + "," + AfterComma(style) + ElementLead(n, style) + more
        == "," + AfterComma(style) + ElementLead(n, style) + more;
      assert "" + "," + "" + "" + more' == "," + "" + "" + more';
      ErasesConcat(first, first', "," + AfterComma(style) + ElementLead(n, style) + more, "," + "" + "" + more');
    }
  }

  lemma {:induction false} MembersErase(members: seq<Member>, n: nat, style: Style)
    requires GoodStyle(style) && members != [] && forall m :: m in members ==> NoDouble(m.value)
    ensures ErasesTo(MembersText(members, n, style), MembersText(members, n, Compact))
    decreases members, 1
  {
    hide ErasesTo, NoDouble, Text, NewLine, AfterColon, Quoted;
    MarksErase();
    LayoutErases(n, style);
    NoLayout(n);
    var m := members[0];
    PrettyErases(m.value, n, style);
    QuotedErases(m.name);
    var tail, tail' := "", "";
    if |members| > 1 {
      MembersErase(members[1..], n, style);
      var more, more' := MembersText(members[1..], n, style), MembersText(members[1..], n, Compact);
      ErasesConcat(",", ",", NewLine(n, style), "");
      ErasesConcat("," + NewLine(n, style), "," + "", more, more');
      tail, tail' := "," + NewLine(n, style) + more, "," + "" + more';
    }
    ErasesFive(Quoted(m.name), Quoted(m.name), ":", ":", AfterColon(style), "", Text(m.value, n, style),
               Text(m.value, n, Compact), tail, tail');
  }

  /** Erasing turns what the pretty writer puts out into what the plain one puts out. */
  lemma PrettyIsCompactErased(v: Json, style: Style)
    requires GoodStyle(style) && NoDouble(v)
    ensures var pretty, compact := WriteAll(FRESH, Events(v), style), WriteAll(FRESH, Events(v), Compact);
      pretty.Went? && compact.Went? && Erase(pretty.w.out, Outside) == compact.w.out
  {
    hide Text, Events, WriteAll, P.Normals;
    NormalEvents(v);
    ReportIsWritten(Events(v), v, style);
    ReportIsWritten(Events(v), v, Compact);
    PrettyErases(v, 0, style);
    var a, b := Text(v, 0, style), Text(v, 0, Compact);
    assert Erase(a + "", Outside) == b + Erase("", Outside);
    assert a + "" == a && b + "" == b;
  }
}
