/** The pretty text of a value is its compact text with line breaks and blanks put in, by its characters alone. */
module JsonFormat {
  import opened JsonEvents
  import opened JsonValues
  import opened JsonWriter
  import opened JsonItoa
  import opened JsonReadBack
  import opened JsonPretty
  import P = JsonParsedTree
  import G = JsonGrammar

  /** A line break and the indentation of `n` levels; nothing in an array that is to stand on one line. */
  function Break(bracket: char, n: nat, style: Style): string
    requires style.Pretty?
  {
    if bracket == '[' && style.singleLineArray then ""
    else ['\n'] + seq(n * style.indentCount, _ => style.indentChar)
  }

  predicate Opens(ch: char) {
    ch == '[' || ch == '{'
  }

  predicate Closes(ch: char) {
    ch == ']' || ch == '}'
  }

  /** A text laid out line by line, where the brackets of `open` are still open. */
  function Format(text: string, mode: EraseMode, open: string, style: Style): string
    requires style.Pretty?
    decreases |text|
  {
    if text == "" then ""
    else
      var ch, more := text[0], text[1..];
      match mode
      case Within =>
        [ch] + Format(more, if ch == '"' then Outside else if ch == '\\' then AfterBackslash else Within, open, style)
      case AfterBackslash => [ch] + Format(more, Within, open, style)
      case Outside =>
        if ch == '"' then [ch] + Format(more, Within, open, style)
        else if Opens(ch) && more != "" && Closes(more[0]) then [ch, more[0]] + Format(more[1..], Outside, open, style)
        else if Opens(ch) then [ch] + Break(ch, |open| + 1, style) + Format(more, Outside, open + [ch], style)
        else if open == "" then [ch] + Format(more, Outside, open, style)
        else
          var inner, n := open[|open| - 1], |open|;
          if Closes(ch) then Break(inner, n - 1, style) + [ch] + Format(more, Outside, open[..n - 1], style)
          else if ch == ':' then ": " + Format(more, Outside, open, style)
          else if ch == ',' && inner == '[' && style.singleLineArray then ", " + Format(more, Outside, open, style)
          else if ch == ',' then "," + Break(inner, n, style) + Format(more, Outside, open, style)
          else [ch] + Format(more, Outside, open, style)
  }

  /** Some text is laid out as some other where some brackets are open, whatever comes after it. */
  ghost predicate FormatsTo(a: string, b: string, open: string, style: Style)
    requires style.Pretty?
  {
    forall rest :: Format(a + rest, Outside, open, style) == b + Format(rest, Outside, open, style)
  }

  lemma FormatsConcat(a: string, a': string, b: string, b': string, open: string, style: Style)
    requires style.Pretty? && FormatsTo(a, a', open, style) && FormatsTo(b, b', open, style)
    ensures FormatsTo(a + b, a' + b', open, style)
  {
    hide Format;
    forall rest ensures Format(a + b + rest, Outside, open, style) == a' + b' + Format(rest, Outside, open, style) {
      assert a + b + rest == a + (b + rest);
      assert a' + (b' + Format(rest, Outside, open, style)) == a' + b' + Format(rest, Outside, open, style);
    }
  }

  // ---- Scalars

  predicate Ordinary(ch: char) {
    ch != '"' && ch != ',' && ch != ':' && !Opens(ch) && !Closes(ch)
  }

  lemma {:induction false} OrdinaryBefore(w: string, rest: string, open: string, style: Style)
    requires style.Pretty? && forall i :: 0 <= i < |w| ==> Ordinary(w[i])
    ensures Format(w + rest, Outside, open, style) == w + Format(rest, Outside, open, style)
    decreases |w|
  {
    hide Break;
    if w == "" {
      assert "" + rest == rest;
    } else {
      assert (w + rest)[1..] == w[1..] + rest;
      OrdinaryBefore(w[1..], rest, open, style);
    }
  }

  lemma OrdinaryFormats(w: string, open: string, style: Style)
    requires style.Pretty? && forall i :: 0 <= i < |w| ==> Ordinary(w[i])
    ensures FormatsTo(w, w, open, style)
  {
    hide Ordinary, Format;
    forall rest ensures Format(w + rest, Outside, open, style) == w + Format(rest, Outside, open, style) {
      OrdinaryBefore(w, rest, open, style);
    }
  }

  lemma {:induction false} PlainFormats(w: string, rest: string, open: string, style: Style)
    requires style.Pretty? && forall i :: 0 <= i < |w| ==> w[i] != '"' && w[i] != '\\'
    ensures Format(w + rest, Within, open, style) == w + Format(rest, Within, open, style)
    decreases |w|
  {
    hide Break;
    if w == "" {
      assert "" + rest == rest;
    } else {
      assert (w + rest)[1..] == w[1..] + rest;
      PlainFormats(w[1..], rest, open, style);
    }
  }

  lemma BackslashFormats(ch: char, rest: string, open: string, style: Style)
    requires style.Pretty?
    ensures Format("\\" + ([ch] + rest), Within, open, style) == "\\" + ([ch] + Format(rest, Within, open, style))
  {
    hide Break;
    var s := "\\" + ([ch] + rest);
    assert s[1..] == [ch] + rest && ([ch] + rest)[1..] == rest;
  }

  lemma EscapedFormats(ch: char, rest: string, open: string, style: Style)
    requires style.Pretty?
    ensures Format(EscapeOf(ch) + rest, Within, open, style) == EscapeOf(ch) + Format(rest, Within, open, style)
  {
    hide Format;
    var e := EscapeOf(ch);
    if EscapeLetter(ch) == '\0' {
      PlainFormats(e, rest, open, style);
    } else {
      if EscapeLetter(ch) == 'u' {
        G.HexDigitReads(ch as nat / 16);
        G.HexDigitReads(ch as nat % 16);
      }
      PlainFormats(e[2..], rest, open, style);
      BackslashFormats(e[1], e[2..] + rest, open, style);
      assert e + rest == "\\" + ([e[1]] + (e[2..] + rest));
      assert e == "\\" + ([e[1]] + e[2..]);
    }
  }

  lemma {:induction false} BodyFormats(s: string, rest: string, open: string, style: Style)
    requires style.Pretty?
    ensures Format(Body(s) + rest, Within, open, style) == Body(s) + Format(rest, Within, open, style)
    decreases |s|
  {
    hide EscapeOf, Format;
    if s == "" {
      assert "" + rest == rest;
    } else {
      assert Body(s) + rest == EscapeOf(s[0]) + (Body(s[1..]) + rest);
      EscapedFormats(s[0], Body(s[1..]) + rest, open, style);
      BodyFormats(s[1..], rest, open, style);
    }
  }

  lemma QuoteFormats(rest: string, open: string, style: Style)
    requires style.Pretty?
    ensures Format("\"" + rest, Within, open, style) == "\"" + Format(rest, Outside, open, style)
    ensures Format("\"" + rest, Outside, open, style) == "\"" + Format(rest, Within, open, style)
  {
    assert ("\"" + rest)[1..] == rest;
  }

  lemma QuotedFormats(s: string, open: string, style: Style)
    requires style.Pretty?
    ensures FormatsTo(Quoted(s), Quoted(s), open, style)
  {
    hide Body, Format;
    forall rest
      ensures Format(Quoted(s) + rest, Outside, open, style) == Quoted(s) + Format(rest, Outside, open, style)
    {
      assert Quoted(s) + rest == "\"" + (Body(s) + ("\"" + rest));
      QuoteFormats(Body(s) + ("\"" + rest), open, style);
      BodyFormats(s, "\"" + rest, open, style);
      QuoteFormats(rest, open, style);
    }
  }

  lemma {:induction false} DecimalIsOrdinary(n: nat)
    ensures forall i :: 0 <= i < |Decimal(n)| ==> Ordinary(Decimal(n)[i])
    decreases n
  {
    if n >= 10 { DecimalIsOrdinary(n / 10); }
  }

  lemma ScalarFormats(v: Json, n: nat, open: string, style: Style)
    requires style.Pretty? && Scalar(v) && NoDouble(v)
    ensures FormatsTo(Text(v, n, Compact), Text(v, n, style), open, style)
  {
    hide FormatsTo, Quoted;
    match v
    case JNull => OrdinaryFormats("null", open, style);
    case JBool(b) => OrdinaryFormats(if b then "true" else "false", open, style);
    case JInt(i) =>
      DecimalIsOrdinary(Absolute(i));
      OrdinaryFormats(IntegerText(i), open, style);
    case JString(s) => QuotedFormats(s, open, style);
  }

  // ---- Marks

  /** The first character of a value, after which no bracket is closed at once. */
  lemma StartsOpen(ch: char)
    requires StartsValue(ch)
    ensures !Closes(ch)
  {
  }

  /** What a container is laid out as, by what its contents are laid out as. */
  lemma ContainerFormats(bracket: char, inside: string, inside': string, open: string, style: Style)
    requires style.Pretty? && Opens(bracket) && inside != "" && !Closes(inside[0])
    requires FormatsTo(inside, inside', open + [bracket], style)
    ensures var close := if bracket == '[' then "]" else "}";
      var first, last := Break(bracket, |open| + 1, style), Break(bracket, |open|, style);
      FormatsTo([bracket] + inside + close, [bracket] + first + inside' + last + close, open, style)
  {
    hide Break;
    var close := if bracket == '[' then "]" else "}";
    var inner := open + [bracket];
    var first, last := Break(bracket, |open| + 1, style), Break(bracket, |open|, style);
    forall rest
      ensures Format([bracket] + inside + close + rest, Outside, open, style)
           == [bracket] + first + inside' + last + close + Format(rest, Outside, open, style)
    {
      var s := [bracket] + inside + close + rest;
      assert s[1..] == inside + (close + rest);
      assert (close + rest)[1..] == rest && inner[..|open|] == open;
      assert Format(close + rest, Outside, inner, style) == last + close + Format(rest, Outside, open, style);
      hide Format;
      assert Format(inside + (close + rest), Outside, inner, style)
          == inside' + Format(close + rest, Outside, inner, style);
    }
  }

  lemma EmptyFormats(open: string, style: Style)
    requires style.Pretty?
    ensures FormatsTo("[]", "[]", open, style) && FormatsTo("{}", "{}", open, style)
  {
    forall rest, w | w == "[]" || w == "{}"
      ensures Format(w + rest, Outside, open, style) == w + Format(rest, Outside, open, style)
    {
      assert (w + rest)[1..][0] == w[1] && (w + rest)[1..][1..] == rest;
    }
  }

  /** A comma or a colon inside a bracket. */
  lemma MarkFormats(open: string, bracket: char, style: Style)
    requires style.Pretty? && Opens(bracket)
    ensures var inner := open + [bracket];
      && FormatsTo(":", ": ", inner, style)
      && FormatsTo(",", if bracket == '[' && style.singleLineArray then ", " else "," + Break(bracket, |inner|, style),
                   inner, style)
  {
    hide Break;
    var inner := open + [bracket];
    forall rest
      ensures Format(":" + rest, Outside, inner, style) == ": " + Format(rest, Outside, inner, style)
      ensures Format("," + rest, Outside, inner, style)
           == (if bracket == '[' && style.singleLineArray then ", " else "," + Break(bracket, |inner|, style))
              + Format(rest, Outside, inner, style)
    {
      assert (":" + rest)[1..] == rest && ("," + rest)[1..] == rest;
    }
  }

  // ---- Values

  /** The breaks of the writer. */
  lemma BreaksAre(n: nat, style: Style)
    requires style.Pretty?
    ensures ElementLead(n, style) == Break('[', n, style) && NewLine(n, style) == Break('{', n, style)
    ensures AfterComma(style) + ElementLead(n, style) == if style.singleLineArray then " " else Break('[', n, style)
    ensures AfterColon(style) == " "
  {
  }

  lemma {:induction false} ValueFormats(v: Json, n: nat, open: string, style: Style)
    requires style.Pretty? && NoDouble(v) && |open| == n
    ensures FormatsTo(Text(v, n, Compact), Text(v, n, style), open, style)
    decreases v, 0
  {
    hide FormatsTo, NewLine, ElementLead, ElementsText, MembersText, Break;
    EmptyFormats(open, style);
    NoLayout(n);
    NoLayout(n + 1);
    BreaksAre(n, style);
    BreaksAre(n + 1, style);
    match v
    case JArray(elements) =>
      if elements != [] {
        var inside := ElementsText(elements, n + 1, Compact);
        ElementsFormat(elements, n + 1, open, style);
        FirstOfElements(elements, n + 1);
        ContainerFormats('[', inside, ElementsText(elements, n + 1, style), open, style);
        assert "[" + "" + inside + "" + "]" == "[" + inside + "]";
      }
    case JObject(members) =>
      if members != [] {
        var inside := MembersText(members, n + 1, Compact);
        MembersFormat(members, n + 1, open, style);
        MembersStart(members, n + 1, Compact);
        StartsOpen(inside[0]);
        ContainerFormats('{', inside, MembersText(members, n + 1, style), open, style);
        assert "{" + "" + inside + "" + "}" == "{" + inside + "}";
      }
    case _ => ScalarFormats(v, n, open, style);
  }

  lemma FirstOfElements(elements: seq<Json>, n: nat)
    requires elements != [] && forall e :: e in elements ==> NoDouble(e)
    ensures ElementsText(elements, n, Compact) != "" && !Closes(ElementsText(elements, n, Compact)[0])
  {
    hide Text, NoDouble;
    TextStarts(elements[0], n, Compact);
    StartsOpen(Text(elements[0], n, Compact)[0]);
  }

  lemma {:induction false} ElementsFormat(elements: seq<Json>, n: nat, open: string, style: Style)
    requires style.Pretty? && elements != [] && (forall e :: e in elements ==> NoDouble(e)) && |open| + 1 == n
    ensures FormatsTo(ElementsText(elements, n, Compact), ElementsText(elements, n, style), open + ['['], style)
    decreases elements, 1
  {
    hide FormatsTo, NoDouble, Text, NewLine, ElementLead, AfterComma, Break;
    var inner := open + ['['];
    NoLayout(n);
    BreaksAre(n, style);
    ValueFormats(elements[0], n, inner, style);
    var first, first' := Text(elements[0], n, Compact), Text(elements[0], n, style);
    if |elements| == 1 {
      assert first + "" == first && first' + "" == first';
    } else {
      ElementsFormat(elements[1..], n, open, style);
      var more, more' := ElementsText(elements[1..], n, Compact), ElementsText(elements[1..], n, style);
      MarkFormats(open, '[', style);
      var comma := "," + AfterComma(style) + ElementLead(n, style);
      assert comma == "," + (AfterComma(style) + ElementLead(n, style)) && "," + " " == ", ";
      FormatsConcat(",", comma, more, more', inner, style);
      FormatsConcat(first, first', "," + more, comma + more', inner, style);
      assert "," + "" + "" + more == "," + more;
    }
  }

  lemma {:induction false} MembersFormat(members: seq<Member>, n: nat, open: string, style: Style)
    requires style.Pretty? && members != [] && (forall m :: m in members ==> NoDouble(m.value)) && |open| + 1 == n
    ensures FormatsTo(MembersText(members, n, Compact), MembersText(members, n, style), open + ['{'], style)
    decreases members, 1
  {
    hide FormatsTo, NoDouble, Text, NewLine, AfterColon, Break, Quoted;
    var inner := open + ['{'];
    var m := members[0];
    NoLayout(n);
    BreaksAre(n, style);
    MarkFormats(open, '{', style);
    QuotedFormats(m.name, inner, style);
    ValueFormats(m.value, n, inner, style);
    var name, value, value' := Quoted(m.name), Text(m.value, n, Compact), Text(m.value, n, style);
    FormatsConcat(name, name, ":", ": ", inner, style);
    FormatsConcat(name + ":", name + ": ", value, value', inner, style);
    assert name + ":" + "" + value == name + ":" + value && name + ":" + " " + value' == name + ": " + value';
    if |members| == 1 {
      assert name + ":" + value + "" == name + ":" + value && name + ": " + value' + "" == name + ": " + value';
    } else {
      MembersFormat(members[1..], n, open, style);
      var more, more' := MembersText(members[1..], n, Compact), MembersText(members[1..], n, style);
      var comma := "," + NewLine(n, style);
      FormatsConcat(",", comma, more, more', inner, style);
      FormatsConcat(name + ":" + value, name + ": " + value', "," + more, comma + more', inner, style);
      assert "," + "" + more == "," + more;
    }
  }

  /** What the pretty writer puts out is what the plain one puts out, laid out line by line. */
  lemma PrettyIsCompactFormatted(v: Json, style: Style)
    requires style.Pretty? && NoDouble(v)
    ensures var pretty, compact := WriteAll(FRESH, Events(v), style), WriteAll(FRESH, Events(v), Compact);
      pretty.Went? && compact.Went? && pretty.w.out == Format(compact.w.out, Outside, "", style)
  {
    hide Text, Events, WriteAll, P.Normals;
    NormalEvents(v);
    ReportIsWritten(Events(v), v, style);
    ReportIsWritten(Events(v), v, Compact);
    ValueFormats(v, 0, "", style);
    var a, b := Text(v, 0, Compact), Text(v, 0, style);
    assert Format(a + "", Outside, "", style) == b + Format("", Outside, "", style);
    assert a + "" == a && b + "" == b;
  }
}
