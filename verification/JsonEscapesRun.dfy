/** The output of the escaper, run through the push-down parser. */
module JsonEscapesRun {
  import opened JsonParserStep
  import opened JsonGrammar
  import opened JsonEscapes
  import JsonParserProof

  /** What `create_json_escapes` appends for a string. */
  function EscapedText(s: string): string
    requires WellFormed(s)
  {
    DefinedIffWellFormed(s);
    "\"" + EscapeBody(s).text + "\""
  }

  /** A quoted string is a token of the grammar: its content, or something else if it leaves the basic plane. */
  lemma EscapedTextReads(s: string, rest: string)
    requires WellFormed(s)
    ensures StartsWith(EscapedText(s) + rest, '"')
    ensures var r := StringBody((EscapedText(s) + rest)[1..]);
      && (BasicPlane(s) ==> r == Found(UpToZero(s), rest))
      && (!BasicPlane(s) && r.Found? ==> r.value != UpToZero(s))
  {
    hide StringBody, EscapeBody, UpToZero, BasicPlane, WellFormed;
    DefinedIffWellFormed(s);
    ReadBackIffBasicPlane(s, rest);
    assert (EscapedText(s) + rest)[1..] == EscapeBody(s).text + "\"" + rest;
  }

  lemma NoBlanks(s: string)
    requires s != "" && !BlankChar(s[0])
    ensures SkipBlanks(s) == s
  {
  }

  /** As the only element of an array, the escaped string is delivered as the string if and only if that is within the
      Basic Multilingual Plane. */
  lemma ValueIsDelivered(s: string, depth: int)
    requires WellFormed(s) && Room(Initial(depth).depth, 1)
    ensures RunFrom(Initial(depth), "[" + EscapedText(s) + "]")
            == Accepted([ArrayStart, StringText(UpToZero(s)), ArrayStop])
       <==> BasicPlane(s)
  {
    hide StringBody, EscapedText, UpToZero, BasicPlane, WellFormed, RunFrom;
    var d := Initial(depth).depth;
    var text, a := "[" + EscapedText(s) + "]", EscapedText(s) + "]";
    EscapedTextReads(s, "]");
    JsonParserProof.AcceptsExactlyTheGrammar(depth, text);
    NoBlanks(text);
    NoBlanks(a);
    assert text[1..] == a;
    var r := StringBody(a[1..]);
    hide TreeEvents;
    assert Value(text, d, 1) == match Elements(a, d, 2, true)
      case NotFound => NotFound
      case Found(es, rest) => Found(ArrayTree(es), rest);
    if r.Found? {
      assert Value(a, d, 2) == Found(StringTree(r.value), r.rest);
      hide Elements, Value;
      if BasicPlane(s) { ArrayEnds(a, d, StringTree(r.value)); }
      FirstElement(a, d, StringTree(r.value));
    }
  }

  lemma ArrayEnds(a: string, d: int, t: Tree)
    requires StartsWith(a, '"') && Value(a, d, 2) == Found(t, "]")
    ensures Elements(a, d, 2, true) == Found([t], "")
  {
    hide Value;
    NoBlanks(a);
    NoBlanks("]");
    assert "]"[1..] == "";
  }

  /** Whatever follows the first element, its event is the first after the opening bracket. */
  lemma FirstElement(a: string, d: int, t: Tree)
    requires StartsWith(a, '"') && Value(a, d, 2).Found? && Value(a, d, 2).value == t && t.StringTree?
    ensures var r := Elements(a, d, 2, true);
      r.Found? ==> SecondEvent(ArrayTree(r.value), StringText(t.s))
    ensures TreeEvents(ArrayTree([t])) == [ArrayStart, StringText(t.s), ArrayStop]
  {
    hide Value, TreeEvents;
    NoBlanks(a);
    var r := Elements(a, d, 2, true);
    if r.Found? {
      assert r.value != [] && r.value[0] == t;
      FirstEvent(r.value);
    }
    OneEvent(t);
  }

  lemma FirstEvent(es: seq<Tree>)
    requires es != [] && es[0].StringTree?
    ensures SecondEvent(ArrayTree(es), StringText(es[0].s))
  {
    assert ElementsEvents(es) == [StringText(es[0].s)] + ElementsEvents(es[1..]);
  }

  lemma OneEvent(t: Tree)
    requires t.StringTree?
    ensures TreeEvents(ArrayTree([t])) == [ArrayStart, StringText(t.s), ArrayStop]
  {
    assert [t][1..] == [];
    assert ElementsEvents([t]) == [StringText(t.s)] + [];
  }

  /** As the only name of an object, the escaped string is delivered as the key if and only if that is within the
      plane. */
  lemma KeyIsDelivered(s: string, depth: int)
    requires WellFormed(s) && Room(Initial(depth).depth, 1)
    ensures RunFrom(Initial(depth), "{" + EscapedText(s) + ":null}")
            == Accepted([ObjectStart, KeyText(UpToZero(s)), NullEvent, ObjectStop])
       <==> BasicPlane(s)
  {
    hide StringBody, EscapedText, UpToZero, BasicPlane, WellFormed, RunFrom;
    var d := Initial(depth).depth;
    var text, a := "{" + EscapedText(s) + ":null}", EscapedText(s) + ":null}";
    EscapedTextReads(s, ":null}");
    JsonParserProof.AcceptsExactlyTheGrammar(depth, text);
    NoBlanks(text);
    NoBlanks(a);
    assert text[1..] == a;
    if BasicPlane(s) {
      ObjectEnds(a, d, UpToZero(s));
    } else {
      FirstKey(a, d);
    }
  }

  lemma ObjectEnds(a: string, d: int, name: string)
    requires StartsWith(a, '"') && StringBody(a[1..]) == Found(name, ":null}")
    ensures Members(a, d, 2, true) == Found([TreeMember(name, NullTree)], "")
    ensures TreeEvents(ObjectTree([TreeMember(name, NullTree)])) == [ObjectStart, KeyText(name), NullEvent, ObjectStop]
  {
    hide StringBody;
    NoBlanks(a);
    NoBlanks(":null}");
    assert ":null}"[1..] == "null}" && "null}"[4..] == "}" && "}"[1..] == "";
    NoBlanks("null}");
    NoBlanks("}");
    var m := TreeMember(name, NullTree);
    assert [m][1..] == [];
    assert MembersEvents([m]) == [KeyText(name)] + [NullEvent] + [];
  }

  /** Whatever follows the first name, its event is the first after the opening bracket. */
  lemma FirstKey(a: string, d: int)
    requires StartsWith(a, '"')
    ensures var r, name := Members(a, d, 2, true), StringBody(a[1..]);
      r.Found? ==> name.Found? && SecondEvent(ObjectTree(r.value), KeyText(name.value))
  {
    hide StringBody, Value, TreeEvents, MoreMembers, SkipBlanks;
    NoBlanks(a);
    var r, name := Members(a, d, 2, true), StringBody(a[1..]);
    if r.Found? {
      var b := SkipBlanks(name.rest);
      var v := Value(SkipBlanks(b[1..]), d, 2);
      MoreKeepsFirst(TreeMember(name.value, v.value), SkipBlanks(v.rest), d);
      FirstName(r.value);
    }
  }

  predicate SecondEvent(t: Tree, ev: ParseEvent) {
    var evs := TreeEvents(t);
    |evs| > 1 && evs[1] == ev
  }

  lemma MoreKeepsFirst(m: TreeMember, s: string, d: int)
    ensures var r := MoreMembers(m, s, d, 2); r.Found? ==> r.value != [] && r.value[0] == m
  {
    hide Members;
  }

  lemma FirstName(ms: seq<TreeMember>)
    requires ms != []
    ensures SecondEvent(ObjectTree(ms), KeyText(ms[0].name))
  {
    assert MembersEvents(ms) == [KeyText(ms[0].name)] + TreeEvents(ms[0].value) + MembersEvents(ms[1..]);
  }
}
