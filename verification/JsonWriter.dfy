/** Writing JSON: the text of a value in the compact and the pretty style, and the writer that puts it out event by
    event. */
module JsonWriter {
  import opened JsonEvents
  import opened JsonValues
  import opened JsonItoa
  import G = JsonGrammar

  /** How a writer lays out its text. */
  datatype Style = Compact | Pretty(indentChar: char, indentCount: nat, singleLineArray: bool)

  // ---- Scalars

  /** The letter that stands for a character after a backslash; a zero if the character is not escaped. */
  function EscapeLetter(ch: char): char {
    match ch
    case '\U{0008}' => 'b'
    case '\t' => 't'
    case '\n' => 'n'
    case '\U{000C}' => 'f'
    case '\r' => 'r'
    case '"' => '"'
    case '\\' => '\\'
    case _ => if ch < ' ' then 'u' else '\0'
  }

  function EscapeOf(ch: char): (e: string)
    ensures e != ""
  {
    var e := EscapeLetter(ch);
    if e == '\0' then [ch]
    else if e == 'u' && ch as nat < 0x100
      then ['\\', 'u', '0', '0', G.HEX_DIGITS[ch as nat / 16], G.HEX_DIGITS[ch as nat % 16]]
    else ['\\', e]
  }

  function Body(s: string): string {
    if s == "" then "" else EscapeOf(s[0]) + Body(s[1..])
  }

  function Quoted(s: string): string {
    "\"" + Body(s) + "\""
  }

  // ---- The text of a value

  function Indent(n: nat, style: Style): string
    requires style.Pretty?
  {
    seq(n * style.indentCount, _ => style.indentChar)
  }

  function NewLine(n: nat, style: Style): string {
    if style.Compact? then "" else "\n" + Indent(n, style)
  }

  /** What comes before an element, and before the end of an array. */
  function ElementLead(n: nat, style: Style): string {
    if style.Compact? || style.singleLineArray then "" else NewLine(n, style)
  }

  function AfterComma(style: Style): string {
    if style.Pretty? && style.singleLineArray then " " else ""
  }

  function AfterColon(style: Style): string {
    if style.Pretty? then " " else ""
  }

  /** The text of a value inside `n` containers. */
  function Text(v: Json, n: nat, style: Style): string
    decreases v, 0
  {
    match v
    case JNull => "null"
    case JBool(b) => if b then "true" else "false"
    case JInt(i) => IntegerText(i)
    case JDouble(literal) => literal
    case JString(s) => Quoted(s)
    case JArray(elements) =>
      if elements == [] then "[]"
      else "[" + ElementLead(n + 1, style) + ElementsText(elements, n + 1, style) + ElementLead(n, style) + "]"
    case JObject(members) =>
      if members == [] then "{}"
      else "{" + NewLine(n + 1, style) + MembersText(members, n + 1, style) + NewLine(n, style) + "}"
  }

  function ElementsText(elements: seq<Json>, n: nat, style: Style): string
    requires elements != []
    decreases elements, 1
  {
    Text(elements[0], n, style)
    + if |elements| == 1 then ""
      else "," + AfterComma(style) + ElementLead(n, style) + ElementsText(elements[1..], n, style)
  }

  function MembersText(members: seq<Member>, n: nat, style: Style): string
    requires members != []
    decreases members, 1
  {
    Quoted(members[0].name) + ":" + AfterColon(style) + Text(members[0].value, n, style)
    + if |members| == 1 then "" else "," + NewLine(n, style) + MembersText(members[1..], n, style)
  }

  // ---- The writer, event by event

  datatype Level = Level(valueCount: nat, inArray: bool)

  datatype WriterState = WriterState(levels: seq<Level>, hasRoot: bool, out: string)

  /** What a writer does with an event: it goes on, or an assertion of the code fires. */
  datatype Wrote = Went(w: WriterState) | Fired

  /** What is put out before a value, by its place in its container. */
  function LeadText(level: Level, n: nat, style: Style): string {
    if level.inArray then
      (if level.valueCount > 0 then "," + AfterComma(style) else "") + ElementLead(n, style)
    else if level.valueCount % 2 == 1 then ":" + AfterColon(style)
    else (if level.valueCount > 0 then "," else "") + NewLine(n, style)
  }

  /** `Prefix` and `PrettyPrefix`. */
  function Prefix(w: WriterState, isString: bool, style: Style): Wrote {
    if w.levels == [] then
      if w.hasRoot then Fired else Went(w.(hasRoot := true))
    else
      var n := |w.levels|;
      var level := w.levels[n - 1];
      if !level.inArray && level.valueCount % 2 == 0 && !isString then Fired
      else Went(WriterState(w.levels[..n - 1] + [level.(valueCount := level.valueCount + 1)], w.hasRoot,
                            w.out + LeadText(level, n, style)))
  }

  function PutText(r: Wrote, text: string): Wrote {
    match r
    case Fired => Fired
    case Went(w) => Went(w.(out := w.out + text))
  }

  function Open(r: Wrote, inArray: bool): Wrote {
    match r
    case Fired => Fired
    case Went(w) => Went(WriterState(w.levels + [Level(0, inArray)], w.hasRoot, w.out + if inArray then "[" else "{"))
  }

  function Close(w: WriterState, inArray: bool, style: Style): Wrote {
    var n := |w.levels|;
    if n == 0 || w.levels[n - 1].inArray != inArray then Fired
    else
      var lead :=
        if w.levels[n - 1].valueCount == 0 then ""
        else if inArray then ElementLead(n - 1, style) else NewLine(n - 1, style);
      Went(WriterState(w.levels[..n - 1], w.hasRoot, w.out + lead + if inArray then "]" else "}"))
  }

  function Write(w: WriterState, ev: Event, style: Style): Wrote {
    match ev
    case Null => PutText(Prefix(w, false, style), "null")
    case Bool(b) => PutText(Prefix(w, false, style), if b then "true" else "false")
    case Int(i) => PutText(Prefix(w, false, style), IntegerText(i))
    case Uint(u) => PutText(Prefix(w, false, style), IntegerText(u))
    case Int64(i) => PutText(Prefix(w, false, style), IntegerText(i))
    case Uint64(u) => PutText(Prefix(w, false, style), IntegerText(u))
    case Double(literal) => PutText(Prefix(w, false, style), literal)
    case RawNumber(digits) => PutText(Prefix(w, false, style), Quoted(digits))
    case Str(s) => PutText(Prefix(w, true, style), Quoted(s))
    case Key(k) => PutText(Prefix(w, true, style), Quoted(k))
    case StartObject => Open(Prefix(w, false, style), false)
    case StartArray => Open(Prefix(w, false, style), true)
    case EndObject(_) => Close(w, false, style)
    case EndArray(_) => Close(w, true, style)
  }

  function WriteAll(w: WriterState, evs: seq<Event>, style: Style): Wrote
    decreases |evs|
  {
    if evs == [] then Went(w)
    else match Write(w, evs[0], style)
      case Fired => Fired
      case Went(w') => WriteAll(w', evs[1..], style)
  }

  lemma {:induction false} WriteConcat(w: WriterState, a: seq<Event>, b: seq<Event>, style: Style)
    ensures WriteAll(w, a + b, style)
            == match WriteAll(w, a, style) case Fired => Fired case Went(w') => WriteAll(w', b, style)
    decreases |a|
  {
    hide Write;
    if a == [] {
      assert [] + b == b;
    } else {
      assert (a + b)[1..] == a[1..] + b;
      if Write(w, a[0], style).Went? { WriteConcat(Write(w, a[0], style).w, a[1..], b, style); }
    }
  }

  lemma WriteOne(w: WriterState, ev: Event, style: Style)
    ensures WriteAll(w, [ev], style) == Write(w, ev, style)
  {
    hide Write;
    if Write(w, ev, style).Went? { assert [ev][1..] == []; }
  }

  /** Whether a value that is no name may come next. */
  predicate TakesValue(w: WriterState) {
    if w.levels == [] then !w.hasRoot
    else var level := w.levels[|w.levels| - 1]; level.inArray || level.valueCount % 2 == 1
  }

  /** The writer when what comes before a value has been put out. */
  function Led(w: WriterState, style: Style): WriterState
    requires TakesValue(w)
  {
    Prefix(w, false, style).w
  }

  /** The writer after a value with a given text. */
  function After(w: WriterState, text: string, style: Style): WriterState
    requires TakesValue(w)
  {
    var w' := Led(w, style);
    w'.(out := w'.out + text)
  }

  /** The events of a value put out exactly its text, after what its place asks for. */
  lemma {:induction false} WritesText(w: WriterState, v: Json, style: Style)
    requires TakesValue(w)
    ensures WriteAll(w, Events(v), style) == Went(After(w, Text(v, |w.levels|, style), style))
    decreases v, 0
  {
    hide Write, IntegerText, Quoted, ElementLead, NewLine, AfterComma, AfterColon, LeadText;
    match v
    case JArray(elements) => WritesArray(w, elements, style);
    case JObject(members) => WritesObject(w, members, style);
    case _ =>
      WriteOne(w, ScalarEvent(v), style);
      WritesScalar(w, v, style);
  }

  lemma WritesScalar(w: WriterState, v: Json, style: Style)
    requires TakesValue(w) && Scalar(v)
    ensures Write(w, ScalarEvent(v), style) == Went(After(w, Text(v, |w.levels|, style), style))
  {
    hide IntegerText, Quoted, LeadText;
  }

  lemma Around(w: WriterState, first: Event, w1: WriterState, evs: seq<Event>, w2: WriterState, last: Event,
      style: Style)
    requires Write(w, first, style) == Went(w1) && WriteAll(w1, evs, style) == Went(w2)
    ensures WriteAll(w, [first] + evs + [last], style) == Write(w2, last, style)
  {
    hide Write;
    WriteConcat(w, [first] + evs, [last], style);
    WriteConcat(w, [first], evs, style);
    WriteOne(w, first, style);
    WriteOne(w2, last, style);
  }

  /** The writer inside a container in which some values have been written. */
  function Inside(w: WriterState, inArray: bool, count: nat, out: string): WriterState {
    WriterState(w.levels + [Level(count, inArray)], w.hasRoot, out)
  }

  lemma {:induction false} WritesArray(w: WriterState, elements: seq<Json>, style: Style)
    requires TakesValue(w)
    ensures WriteAll(w, Events(JArray(elements)), style)
            == Went(After(w, Text(JArray(elements), |w.levels|, style), style))
    decreases elements, 2
  {
    hide WriteAll, Write, Prefix, Led, ElementLead, AfterComma, LeadText, ElementsText;
    var p := Led(w, style);
    var n := |w.levels|;
    var begun := Inside(p, true, 0, p.out + "[");
    Opens(w, style);
    if elements == [] {
      NothingWritten(begun, style);
      Around(w, StartArray, begun, [], begun, EndArray(0), style);
      Closed(p, true, 0, p.out + "[", 0, style);
      assert p.out + "[" + "" + "]" == p.out + "[]";
    } else {
      var out := begun.out + (ElementLead(n + 1, style) + ElementsText(elements, n + 1, style));
      WritesElements(p, elements, 0, begun.out, style);
      FirstElement(n + 1, style);
      Around(w, StartArray, begun, ElementEvents(elements), Inside(p, true, |elements|, out), EndArray(|elements|),
        style);
      Closed(p, true, |elements|, out, |elements|, style);
      Regroup(p.out, "[", ElementLead(n + 1, style), ElementsText(elements, n + 1, style), ElementLead(n, style), "]");
    }
  }

  lemma Opens(w: WriterState, style: Style)
    requires TakesValue(w)
    ensures var p := Led(w, style);
      && Write(w, StartArray, style) == Went(Inside(p, true, 0, p.out + "["))
      && Write(w, StartObject, style) == Went(Inside(p, false, 0, p.out + "{"))
      && |p.levels| == |w.levels|
  {
    hide LeadText;
  }

  lemma NothingWritten(w: WriterState, style: Style)
    ensures WriteAll(w, [], style) == Went(w)
    ensures ElementEvents([]) == [] && MemberEvents([]) == []
  {
  }

  lemma Closed(p: WriterState, inArray: bool, count: nat, out: string, k: nat, style: Style)
    ensures var n := |p.levels|;
      Write(Inside(p, inArray, count, out), if inArray then EndArray(k) else EndObject(k), style)
      == Went(p.(out := out + (if count == 0 then "" else if inArray then ElementLead(n, style) else NewLine(n, style))
                        + if inArray then "]" else "}"))
  {
    hide ElementLead, NewLine;
    var w := Inside(p, inArray, count, out);
    assert w.levels[..|w.levels| - 1] == p.levels;
  }

  lemma Regroup(a: string, b: string, c: string, d: string, e: string, f: string)
    ensures a + b + (c + d) + e + f == a + (b + c + d + e + f)
  {
  }

  lemma {:induction false} WritesElements(p: WriterState, elements: seq<Json>, count: nat, out: string, style: Style)
    requires elements != []
    ensures var n := |p.levels| + 1;
      WriteAll(Inside(p, true, count, out), ElementEvents(elements), style)
      == Went(Inside(p, true, count + |elements|, out
              + (LeadText(Level(count, true), n, style) + ElementsText(elements, n, style))))
    decreases elements, 1
  {
    hide WriteAll, Write, ElementLead, AfterComma, LeadText, Text;
    var n := |p.levels| + 1;
    var w := Inside(p, true, count, out);
    var lead := LeadText(Level(count, true), n, style);
    WritesText(w, elements[0], style);
    var out' := out + lead + Text(elements[0], n, style);
    InsideAfter(p, true, count, out, Text(elements[0], n, style), style);
    WriteConcat(w, Events(elements[0]), ElementEvents(elements[1..]), style);
    if |elements| == 1 {
      assert elements[1..] == [];
      NothingWritten(Inside(p, true, count + 1, out'), style);
      assert Text(elements[0], n, style) + "" == Text(elements[0], n, style);
      assert out' == out + (lead + Text(elements[0], n, style));
    } else {
      WritesElements(p, elements[1..], count + 1, out', style);
      LaterElement(count + 1, n, style);
      Chain(out, lead, Text(elements[0], n, style), "," + AfterComma(style) + ElementLead(n, style),
            ElementsText(elements[1..], n, style));
    }
  }

  lemma FirstElement(n: nat, style: Style)
    ensures LeadText(Level(0, true), n, style) == ElementLead(n, style)
  {
    assert "" + ElementLead(n, style) == ElementLead(n, style);
  }

  lemma LaterElement(count: nat, n: nat, style: Style)
    requires count > 0
    ensures LeadText(Level(count, true), n, style) == "," + AfterComma(style) + ElementLead(n, style)
  {
  }

  lemma Chain(a: string, b: string, c: string, d: string, e: string)
    ensures a + b + c + (d + e) == a + (b + (c + (d + e)))
  {
  }

  lemma InsideAfter(p: WriterState, inArray: bool, count: nat, out: string, text: string, style: Style)
    requires inArray || count % 2 == 1
    ensures var lead := LeadText(Level(count, inArray), |p.levels| + 1, style);
      After(Inside(p, inArray, count, out), text, style) == Inside(p, inArray, count + 1, out + lead + text)
  {
    hide LeadText;
    var w := Inside(p, inArray, count, out);
    assert w.levels[..|w.levels| - 1] == p.levels;
  }

  lemma {:induction false} WritesObject(w: WriterState, members: seq<Member>, style: Style)
    requires TakesValue(w)
    ensures WriteAll(w, Events(JObject(members)), style)
            == Went(After(w, Text(JObject(members), |w.levels|, style), style))
    decreases members, 2
  {
    hide WriteAll, Write, Prefix, Led, NewLine, LeadText, MembersText;
    var p := Led(w, style);
    var n := |w.levels|;
    var begun := Inside(p, false, 0, p.out + "{");
    Opens(w, style);
    if members == [] {
      NothingWritten(begun, style);
      Around(w, StartObject, begun, [], begun, EndObject(0), style);
      Closed(p, false, 0, p.out + "{", 0, style);
      assert p.out + "{" + "" + "}" == p.out + "{}";
    } else {
      var out := begun.out + (NewLine(n + 1, style) + MembersText(members, n + 1, style));
      WritesMembers(p, members, 0, begun.out, style);
      FirstMember(n + 1, style);
      Around(w, StartObject, begun, MemberEvents(members), Inside(p, false, 2 * |members|, out), EndObject(|members|),
        style);
      Closed(p, false, 2 * |members|, out, |members|, style);
      Regroup(p.out, "{", NewLine(n + 1, style), MembersText(members, n + 1, style), NewLine(n, style), "}");
    }
  }

  lemma FirstMember(n: nat, style: Style)
    ensures LeadText(Level(0, false), n, style) == NewLine(n, style)
  {
    assert "" + NewLine(n, style) == NewLine(n, style);
  }

  lemma LaterMember(count: nat, n: nat, style: Style)
    requires count > 0 && count % 2 == 0
    ensures LeadText(Level(count, false), n, style) == "," + NewLine(n, style)
  {
  }

  /** A name and its value, written where a name may come. */
  lemma {:induction false} WritesMember(p: WriterState, m: Member, count: nat, out: string, style: Style)
    requires count % 2 == 0
    ensures var n := |p.levels| + 1;
      WriteAll(Inside(p, false, count, out), [Key(m.name)] + Events(m.value), style)
      == Went(Inside(p, false, count + 2, out + LeadText(Level(count, false), n, style) + Quoted(m.name)
                                          + (":" + AfterColon(style)) + Text(m.value, n, style)))
    decreases m, 3
  {
    hide WriteAll, NewLine, AfterColon, Text, Quoted;
    var n := |p.levels| + 1;
    var w := Inside(p, false, count, out);
    var named := Inside(p, false, count + 1, out + LeadText(Level(count, false), n, style) + Quoted(m.name));
    assert w.levels[..|w.levels| - 1] == p.levels;
    assert Write(w, Key(m.name), style) == Went(named);
    WriteOne(w, Key(m.name), style);
    WriteConcat(w, [Key(m.name)], Events(m.value), style);
    WritesText(named, m.value, style);
    InsideAfter(p, false, count + 1, named.out, Text(m.value, n, style), style);
  }

  lemma {:induction false} WritesMembers(p: WriterState, members: seq<Member>, count: nat, out: string, style: Style)
    requires members != [] && count % 2 == 0
    ensures var n := |p.levels| + 1;
      WriteAll(Inside(p, false, count, out), MemberEvents(members), style)
      == Went(Inside(p, false, count + 2 * |members|, out
              + (LeadText(Level(count, false), n, style) + MembersText(members, n, style))))
    decreases members, 1
  {
    hide WriteAll, Write, NewLine, AfterColon, LeadText, Text, Quoted;
    var n := |p.levels| + 1;
    var m := members[0];
    var lead := LeadText(Level(count, false), n, style);
    WritesMember(p, m, count, out, style);
    var out' := out + lead + Quoted(m.name) + (":" + AfterColon(style)) + Text(m.value, n, style);
    WriteConcat(Inside(p, false, count, out), [Key(m.name)] + Events(m.value), MemberEvents(members[1..]), style);
    if |members| == 1 {
      assert members[1..] == [];
      NothingWritten(Inside(p, false, count + 2, out'), style);
      MemberText(out, lead, Quoted(m.name), AfterColon(style), Text(m.value, n, style), "", "");
      assert out' + ("" + "") == out';
    } else {
      WritesMembers(p, members[1..], count + 2, out', style);
      LaterMember(count + 2, n, style);
      MemberText(out, lead, Quoted(m.name), AfterColon(style), Text(m.value, n, style), "," + NewLine(n, style),
                 MembersText(members[1..], n, style));
    }
  }

  lemma MemberText(a: string, lead: string, name: string, colon: string, value: string, gap: string, more: string)
    ensures a + lead + name + (":" + colon) + value + (gap + more)
      == a + (lead + (name + ":" + colon + value + (gap + more)))
  {
  }

  // ---- The writer as an object

  predicate InType(ev: Event) {
    match ev
    case Int(i) => -0x8000_0000 <= i < 0x8000_0000
    case Uint(u) => u < 0x1_0000_0000
    case Int64(i) => -0x8000_0000_0000_0000 <= i < 0x8000_0000_0000_0000
    case Uint64(u) => u < 0x1_0000_0000_0000_0000
    case _ => true
  }

  /** `Writer` for the compact style, `PrettyWriter` for a pretty one. */
  class Writer {
    const style: Style
    var levels: seq<Level>
    var hasRoot: bool
    var out: string

    constructor (style: Style)
      ensures this.style == style && State() == WriterState([], false, "")
    {
      this.style := style;
      levels, hasRoot, out := [], false, "";
    }

    function State(): WriterState
      reads this
    {
      WriterState(levels, hasRoot, out)
    }

    method Put(ch: char)
      modifies this`out
      ensures out == old(out) + [ch]
    {
      out := out + [ch];
    }

    /** As many indentation characters as the open levels ask for. */
    method WriteIndent()
      requires style.Pretty?
      modifies this`out
      ensures out == old(out) + Indent(|levels|, style)
    {
      var count := |levels| * style.indentCount;
      var k := 0;
      while k < count
        invariant k <= count && out == old(out) + seq(k, _ => style.indentChar)
      {
        Put(style.indentChar);
        k := k + 1;
      }
    }

    /** A line feed and the indentation. */
    method WriteNewLine()
      requires style.Pretty?
      modifies this`out
      ensures out == old(out) + NewLine(|levels|, style)
    {
      Put('\n');
      WriteIndent();
      assert old(out) + ['\n'] + Indent(|levels|, style) == old(out) + NewLine(|levels|, style);
    }

    /** The separator of the pretty writer before a value of a container. */
    method WritePrettyLead(level: Level)
      requires style.Pretty?
      modifies this`out
      ensures out == old(out) + LeadText(level, |levels|, style)
    {
      hide NewLine;
      if level.inArray {
        if level.valueCount > 0 {
          Put(',');
          if style.singleLineArray { Put(' '); }
        }
        if !style.singleLineArray { WriteNewLine(); }
      } else if level.valueCount % 2 == 1 {
        Put(':');
        Put(' ');
      } else {
        if level.valueCount > 0 { Put(','); }
        WriteNewLine();
      }
    }

    /** `Prefix` and `PrettyPrefix`. */
    method WritePrefix(isString: bool)
      requires Prefix(State(), isString, style).Went?
      modifies this
      ensures State() == Prefix(old(State()), isString, style).w
    {
      hide NewLine;
      if |levels| != 0 {
        var level := levels[|levels| - 1];
        if style.Pretty? {
          WritePrettyLead(level);
        } else if level.valueCount > 0 {
          if level.inArray {
            Put(',');
          } else {
            Put(if level.valueCount % 2 == 0 then ',' else ':');
          }
        }
        assert out == old(out) + LeadText(level, |levels|, style) by { CompactLead(level, |levels|); }
        levels := levels[..|levels| - 1] + [level.(valueCount := level.valueCount + 1)];
      } else {
        hasRoot := true;
      }
    }

    /** `WriteString`: the loop puts out the quoted string. */
    method WriteString(s: string)
      modifies this`out
      ensures out == old(out) + Quoted(s)
    {
      hide EscapeOf;
      Put('"');
      ghost var begun := out;
      var k := 0;
      while k < |s|
        invariant k <= |s| && begun + Body(s) == out + Body(s[k..])
      {
        out := out + EscapeOf(s[k]);
        assert s[k..][1..] == s[k + 1..];
        k := k + 1;
      }
      assert s[k..] == "" && out + "" == out;
      assert out == begun + Body(s);
      Put('"');
      assert begun + Body(s) + ['"'] == old(out) + ("\"" + Body(s) + "\"");
    }

    /** The digits of an integer, from a buffer on the stack. */
    method WriteDigits(buffer: array<char>, end: nat)
      requires end <= buffer.Length
      modifies this`out
      ensures out == old(out) + buffer[..end]
    {
      var k := 0;
      while k < end
        invariant k <= end && out == old(out) + buffer[..k]
      {
        Put(buffer[k]);
        k := k + 1;
      }
    }

    method WriteInt(i: int)
      requires -0x8000_0000 <= i < 0x8000_0000
      modifies this`out
      ensures out == old(out) + IntegerText(i)
    {
      hide IntegerText;
      var buffer := new char[11];
      var end := I32ToA(i, buffer, 0);
      WriteDigits(buffer, end);
      assert buffer[..end] == IntegerText(i);
    }

    method WriteUint(u: nat)
      requires u < 0x1_0000_0000
      modifies this`out
      ensures out == old(out) + IntegerText(u)
    {
      hide Decimal;
      var buffer := new char[10];
      var end := U32ToA(u, buffer, 0);
      WriteDigits(buffer, end);
      assert buffer[..end] == Decimal(u);
    }

    method WriteInt64(i: int)
      requires -0x8000_0000_0000_0000 <= i < 0x8000_0000_0000_0000
      modifies this`out
      ensures out == old(out) + IntegerText(i)
    {
      hide IntegerText;
      var buffer := new char[21];
      var end := I64ToA(i, buffer, 0);
      WriteDigits(buffer, end);
      assert buffer[..end] == IntegerText(i);
    }

    method WriteUint64(u: nat)
      requires u < 0x1_0000_0000_0000_0000
      modifies this`out
      ensures out == old(out) + IntegerText(u)
    {
      hide Decimal;
      var buffer := new char[20];
      var end := U64ToA(u, buffer, 0);
      WriteDigits(buffer, end);
      assert buffer[..end] == Decimal(u);
    }

    method CloseLevel(inArray: bool)
      requires Close(State(), inArray, style).Went?
      modifies this
      ensures State() == Close(old(State()), inArray, style).w
    {
      hide NewLine;
      var empty := levels[|levels| - 1].valueCount == 0;
      levels := levels[..|levels| - 1];
      if style.Pretty? && !empty && !(inArray && style.singleLineArray) { WriteNewLine(); }
      Put(if inArray then ']' else '}');
      CompactLines(|levels|);
    }

    /** The handler methods; an integer is one of its type. */
    method On(ev: Event)
      requires Write(State(), ev, style).Went? && InType(ev)
      modifies this
      ensures State() == Write(old(State()), ev, style).w
    {
      hide Prefix, Close, Quoted, IntegerText;
      match ev {
        case Null =>
          WritePrefix(false);
          out := out + "null";
        case Bool(b) =>
          WritePrefix(false);
          out := out + if b then "true" else "false";
        case Int(i) =>
          WritePrefix(false);
          WriteInt(i);
        case Uint(u) =>
          WritePrefix(false);
          WriteUint(u);
        case Int64(i) =>
          WritePrefix(false);
          WriteInt64(i);
        case Uint64(u) =>
          WritePrefix(false);
          WriteUint64(u);
        case Double(literal) =>
          WritePrefix(false);
          out := out + literal;
        case RawNumber(digits) =>
          WritePrefix(false);
          WriteString(digits);
        case Str(s) =>
          WritePrefix(true);
          WriteString(s);
        case Key(k) =>
          WritePrefix(true);
          WriteString(k);
        case StartObject =>
          WritePrefix(false);
          levels := levels + [Level(0, false)];
          Put('{');
        case StartArray =>
          WritePrefix(false);
          levels := levels + [Level(0, true)];
          Put('[');
        case EndObject(_) => CloseLevel(false);
        case EndArray(_) => CloseLevel(true);
      }
    }
  }

  lemma CompactLead(level: Level, n: nat)
    ensures LeadText(level, n, Compact)
            == if level.valueCount == 0 then "" else if !level.inArray && level.valueCount % 2 == 1 then ":" else ","
  {
  }

  lemma CompactLines(n: nat)
    ensures NewLine(n, Compact) == "" && ElementLead(n, Compact) == ""
  {
  }
}
