/** The destructive XML parser: it expands references and writes terminators in the text it parses, and its nodes
    are slices of that text.  When it is done they spell the tree the parser as a function gives. */
module XmlParser {
  import opened XmlExpand
  import opened XmlText

  /** A string of a node: where it begins in the buffer and its size; none if it was never set. */
  datatype Slice = Slice(start: nat, size: nat) | NoSlice

  datatype RawAttribute = RawAttribute(name: Slice, value: Slice)

  datatype RawNode =
    | RawElement(name: Slice, value: Slice, attributes: seq<RawAttribute>, children: seq<RawNode>)
    | RawData(value: Slice)
    | RawCData(value: Slice)

  // ---- What the slices spell

  /** The slice spells the string, with a zero after it, inside a region of the buffer. */
  predicate Spells(b: string, sl: Slice, s: string, lo: nat, hi: nat) {
    match sl
    case NoSlice => s == ""
    case Slice(start, size) =>
      && lo <= start && size == |s| && start + size < hi <= |b|
      && b[start..start + size] == s && b[start + size] == '\0'
  }

  predicate SpellsAttributes(b: string, raws: seq<RawAttribute>, attributes: seq<Attribute>, lo: nat, hi: nat) {
    && |raws| == |attributes|
    && forall i :: 0 <= i < |raws| ==>
      Spells(b, raws[i].name, attributes[i].name, lo, hi) && Spells(b, raws[i].value, attributes[i].value, lo, hi)
  }

  predicate SpellsNode(b: string, raw: RawNode, n: Node, lo: nat, hi: nat)
    decreases raw, 0
  {
    match raw
    case RawData(value) => n.Data? && Spells(b, value, n.text, lo, hi)
    case RawCData(value) => n.CData? && Spells(b, value, n.text, lo, hi)
    case RawElement(name, value, attributes, children) =>
      && n.Element?
      && Spells(b, name, n.name, lo, hi)
      && Spells(b, value, n.value, lo, hi)
      && SpellsAttributes(b, attributes, n.attributes, lo, hi)
      && SpellsNodes(b, children, n.children, lo, hi)
  }

  predicate SpellsNodes(b: string, raws: seq<RawNode>, nodes: seq<Node>, lo: nat, hi: nat)
    decreases raws, 1
  {
    |raws| == |nodes| && forall i :: 0 <= i < |raws| ==> SpellsNode(b, raws[i], nodes[i], lo, hi)
  }

  /** Two buffers agree on a region. */
  predicate Agree(b: string, b': string, lo: nat, hi: nat) {
    |b| == |b'| && forall i :: lo <= i < hi && i < |b| ==> b[i] == b'[i]
  }

  lemma KeepsSlice(b: string, b': string, sl: Slice, s: string, lo: nat, hi: nat, lo': nat, hi': nat)
    requires Spells(b, sl, s, lo, hi) && Agree(b, b', lo, hi) && lo' <= lo && hi <= hi' <= |b|
    ensures Spells(b', sl, s, lo', hi')
  {
    if sl.Slice? { assert b'[sl.start..sl.start + sl.size] == b[sl.start..sl.start + sl.size]; }
  }

  lemma KeepsAttributes(b: string, b': string, raws: seq<RawAttribute>, attributes: seq<Attribute>, lo: nat, hi: nat,
      lo': nat, hi': nat)
    requires SpellsAttributes(b, raws, attributes, lo, hi) && Agree(b, b', lo, hi) && lo' <= lo && hi <= hi' <= |b|
    ensures SpellsAttributes(b', raws, attributes, lo', hi')
  {
    hide Spells, Agree;
    forall i | 0 <= i < |raws|
      ensures Spells(b', raws[i].name, attributes[i].name, lo', hi')
        && Spells(b', raws[i].value, attributes[i].value, lo', hi')
    {
      KeepsSlice(b, b', raws[i].name, attributes[i].name, lo, hi, lo', hi');
      KeepsSlice(b, b', raws[i].value, attributes[i].value, lo, hi, lo', hi');
    }
  }

  /** What is written outside the region of a node does not change what it spells. */
  lemma {:induction false} KeepsNode(b: string, b': string, raw: RawNode, n: Node, lo: nat, hi: nat, lo': nat, hi': nat)
    requires SpellsNode(b, raw, n, lo, hi) && Agree(b, b', lo, hi) && lo' <= lo && hi <= hi' <= |b|
    ensures SpellsNode(b', raw, n, lo', hi')
    decreases raw, 0
  {
    hide Spells, Agree, SpellsAttributes;
    match raw
    case RawData(value) => KeepsSlice(b, b', value, n.text, lo, hi, lo', hi');
    case RawCData(value) => KeepsSlice(b, b', value, n.text, lo, hi, lo', hi');
    case RawElement(name, value, attributes, children) =>
      KeepsSlice(b, b', name, n.name, lo, hi, lo', hi');
      KeepsSlice(b, b', value, n.value, lo, hi, lo', hi');
      KeepsAttributes(b, b', attributes, n.attributes, lo, hi, lo', hi');
      KeepsNodes(b, b', children, n.children, lo, hi, lo', hi');
  }

  lemma {:induction false} KeepsNodes(b: string, b': string, raws: seq<RawNode>, nodes: seq<Node>, lo: nat, hi: nat,
      lo': nat, hi': nat)
    requires SpellsNodes(b, raws, nodes, lo, hi) && Agree(b, b', lo, hi) && lo' <= lo && hi <= hi' <= |b|
    ensures SpellsNodes(b', raws, nodes, lo', hi')
    decreases raws, 1
  {
    hide Agree;
    forall i | 0 <= i < |raws| ensures SpellsNode(b', raws[i], nodes[i], lo', hi') {
      KeepsNode(b, b', raws[i], nodes[i], lo, hi, lo', hi');
    }
  }

  // ---- Reading

  datatype Status = Ok | Threw | MetLeftOut

  /** `skip`: past the characters of a class. */
  method SkipClass(a: array<char>, text: nat, c: Class, ghost z: nat) returns (text': nat)
    requires text <= z < a.Length && a[z] == '\0'
    ensures text' == text + Span(a[text..], c) && text' <= z && !In(a[text'], c)
    ensures a[text'..] == Skip(a[text..], c)
  {
    hide Span, In;
    ghost var s := a[text..];
    text' := text;
    assert s[0..] == s;
    NoneIn();
    while In(a[text'], c)
      invariant text <= text' <= z && Span(s, c) == text' - text + Span(s[text' - text..], c)
      decreases z - text'
    {
      SpanStep(s, text' - text, c);
      text' := text' + 1;
    }
    SpanStep(s, text' - text, c);
    assert a[text'..] == s[text' - text..];
  }

  lemma NoneIn()
    ensures forall c: Class :: !In('\0', c)
  {
  }

  lemma SpanStep(s: string, k: nat, c: Class)
    requires k < |s|
    ensures Span(s[k..], c) == if In(s[k], c) then 1 + Span(s[k + 1..], c) else 0
  {
    assert s[k..][1..] == s[k + 1..];
  }

  /** What a call of the parser leaves in the buffer: nothing before the place it began at has changed, and nothing from
      the place it stopped at on. */
  twostate predicate Left(a: array<char>, text: nat, text': nat, z: nat)
    reads a
  {
    && text <= text' <= z < a.Length && a[z] == '\0'
    && forall i :: 0 <= i < a.Length && !(text <= i < text') ==> a[i] == old(a[i])
  }

  lemma SpellsInArray(a: array<char>, start: nat, end: nat, v: string, lo: nat, hi: nat)
    requires lo <= start <= end < hi <= a.Length && a[start..end] == v && a[end] == '\0'
    ensures Spells(a[..], Slice(start, end - start), v, lo, hi)
  {
    assert a[..][start..end] == a[start..end];
  }

  // ---- Attributes

  /** A value is terminated, its closing quote and the blanks after it are skipped. */
  method EndValue(a: array<char>, start: nat, end: nat, close: nat, ghost z: nat) returns (text': nat)
    requires start <= end <= close < z < a.Length && a[z] == '\0'
    modifies a
    ensures close < text' && Left(a, start, text', z)
    ensures a[text'..] == Skip(old(a[close + 1..]), WhiteClass)
    ensures Spells(a[..], Slice(start, end - start), old(a[start..end]), start, text')
  {
    hide Spells, Span;
    ghost var v, after := a[start..end], a[close + 1..];
    a[end] := '\0';
    assert a[close + 1..] == after;
    text' := SkipClass(a, close + 1, WhiteClass, z);
    assert a[start..end] == v;
    SpellsInArray(a, start, end, v, start, text');
  }

  /** A quoted value, expanded in place and terminated, and the blanks after it. */
  method ReadValue(a: array<char>, text: nat, ghost z: nat) returns (ok: bool, text': nat, value: Slice)
    requires text <= z < a.Length && a[z] == '\0'
    modifies a
    ensures match ParseValue(old(a[text..]))
      case Got(v, rest) =>
        ok && text < text' && Left(a, text, text', z) && rest == a[text'..] && Spells(a[..], value, v, text, text')
      case _ => !ok
  {
    hide Span, Expand, Spells, Skip;
    ghost var s := a[text..];
    ok, text', value := false, text, NoSlice;
    var quote := a[text];
    if quote != '\'' && quote != '"' { return; }
    var start := text + 1;
    assert s[1..] == a[start..];
    var expanded, end;
    expanded, text', end := SkipAndExpand(a, start, quote, z);
    if !expanded { return; }
    ghost var k := text' - start;
    assert s[1 + k..] == a[text'..];
    if a[text'] != quote { return; }
    assert s[1 + k..][1..] == a[text' + 1..];
    value := Slice(start, end - start);
    ghost var v := a[start..end];
    text' := EndValue(a, start, end, text', z);
    KeepsSlice(a[..], a[..], value, v, start, text', text, text');
    ok := true;
  }

  /** What follows the name of an attribute, which is terminated where it ends. */
  method ReadAfterName(a: array<char>, nameEnd: nat, ghost z: nat) returns (ok: bool, text': nat, value: Slice)
    requires nameEnd <= z < a.Length && a[z] == '\0'
    modifies a
    ensures match AfterName(old(a[nameEnd..]))
      case Got(v, rest) =>
        && ok && nameEnd < text' && Left(a, nameEnd, text', z) && rest == a[text'..] && a[nameEnd] == '\0'
        && Spells(a[..], value, v, nameEnd, text')
      case _ => !ok
  {
    hide Span, In, ParseValue, Spells, Skip;
    ok, value := false, NoSlice;
    text' := SkipClass(a, nameEnd, WhiteClass, z);
    ghost var b := a[text'..];
    if a[text'] != '=' { return; }
    text' := text' + 1;
    assert b[1..] == a[text'..];
    a[nameEnd] := '\0';
    assert b[1..] == a[text'..];
    text' := SkipClass(a, text', WhiteClass, z);
    ghost var start := text';
    ok, text', value := ReadValue(a, text', z);
    if !ok { return; }
    KeepsSlice(a[..], a[..], value, ParseValue(Skip(b[1..], WhiteClass)).value, start, text', nameEnd, text');
  }

  /** One attribute, from its name on, with the blanks after it. */
  method ReadAttribute(a: array<char>, text: nat, ghost z: nat) returns (ok: bool, text': nat, raw: RawAttribute)
    requires text <= z < a.Length && a[z] == '\0' && In(a[text], AttributeNameClass)
    modifies a
    ensures var s := old(a[text..]);
      var n := Span(s, AttributeNameClass);
      match AfterName(s[n..])
      case Got(v, rest) =>
        && ok && text < text' && Left(a, text, text', z) && rest == a[text'..]
        && Spells(a[..], raw.name, s[..n], text, text') && Spells(a[..], raw.value, v, text, text')
      case _ => !ok
  {
    hide Span, In, AfterName, Spells, Skip;
    ghost var s := a[text..];
    raw := RawAttribute(NoSlice, NoSlice);
    var nameEnd := SkipClass(a, text, AttributeNameClass, z);
    ghost var n := nameEnd - text;
    assert s[n..] == a[nameEnd..];
    ghost var name := a[text..nameEnd];
    assert name == s[..n];
    var value;
    ok, text', value := ReadAfterName(a, nameEnd, z);
    if !ok { return; }
    raw := RawAttribute(Slice(text, nameEnd - text), value);
    assert a[text..nameEnd] == name;
    SpellsInArray(a, text, nameEnd, name, text, text');
    KeepsSlice(a[..], a[..], value, AfterName(s[n..]).value, nameEnd, text', text, text');
  }

  function AfterAttributes(done: seq<Attribute>, r: Result<seq<Attribute>>): Result<seq<Attribute>> {
    match r
    case Got(more, rest) => Got(done + more, rest)
    case other => other
  }

  lemma OneMoreAttribute(s: string, done: seq<Attribute>)
    requires s != "" && In(s[0], AttributeNameClass)
    ensures AfterAttributes(done, ParseAttributes(s))
         == match AfterName(s[Span(s, AttributeNameClass)..])
            case Got(v, a) =>
              AfterAttributes(done + [Attribute(s[..Span(s, AttributeNameClass)], v)], ParseAttributes(a))
            case Throws => Throws
            case LeftOut => LeftOut
  {
    hide AfterName;
    match AfterName(s[Span(s, AttributeNameClass)..])
    case Got(v, a) =>
      var at := Attribute(s[..Span(s, AttributeNameClass)], v);
      if ParseAttributes(a).Got? {
        assert done + ([at] + ParseAttributes(a).value) == done + [at] + ParseAttributes(a).value;
      }
    case _ =>
  }

  lemma NoMoreAttributes(s: string, done: seq<Attribute>)
    requires !In(At(s, 0), AttributeNameClass)
    ensures AfterAttributes(done, ParseAttributes(s)) == Got(done, s)
  {
    assert done + [] == done;
  }

  lemma AttributesFromNone(r: Result<seq<Attribute>>)
    ensures AfterAttributes([], r) == r
  {
    if r.Got? { assert [] + r.value == r.value; }
  }

  /** `parse_node_attributes`. */
  method ReadAttributes(a: array<char>, text: nat, ghost z: nat) returns (ok: bool, text': nat, raws: seq<RawAttribute>)
    requires text <= z < a.Length && a[z] == '\0'
    modifies a
    ensures match ParseAttributes(old(a[text..]))
      case Got(ats, rest) =>
        ok && Left(a, text, text', z) && rest == a[text'..] && SpellsAttributes(a[..], raws, ats, text, text')
      case _ => !ok
  {
    hide In, ParseAttributes, AfterName, SpellsAttributes, Spells, Span, AfterAttributes;
    ghost var s := a[text..];
    ghost var done: seq<Attribute> := [];
    text', raws := text, [];
    NothingSpelled(a[..], text, text);
    AttributesFromNone(ParseAttributes(s));
    while In(a[text'], AttributeNameClass)
      invariant Left(a, text, text', z)
      invariant SpellsAttributes(a[..], raws, done, text, text')
      invariant ParseAttributes(s) == AfterAttributes(done, ParseAttributes(a[text'..]))
      decreases z - text'
    {
      ghost var rest, before, from := a[text'..], a[..], text';
      NotZero();
      OneMoreAttribute(rest, done);
      var raw;
      ok, text', raw := ReadAttribute(a, text', z);
      if !ok { ThrowsFor(rest); return; }
      ghost var at := Attribute(rest[..Span(rest, AttributeNameClass)],
        AfterName(rest[Span(rest, AttributeNameClass)..]).value);
      KeepsAttributes(before, a[..], raws, done, text, from, text, text');
      OneMoreSpelled(a[..], raws, done, raw, at, text, from, text');
      raws, done := raws + [raw], done + [at];
    }
    NoMoreAttributes(a[text'..], done);
    ok := true;
  }

  lemma NotZero()
    ensures !In('\0', AttributeNameClass)
  {
  }

  lemma ThrowsFor(s: string)
    requires s != "" && !AfterName(s[Span(s, AttributeNameClass)..]).Got?
    ensures AfterName(s[Span(s, AttributeNameClass)..]) == Throws
  {
  }

  lemma NothingSpelled(b: string, lo: nat, hi: nat)
    ensures SpellsAttributes(b, [], [], lo, hi) && SpellsNodes(b, [], [], lo, hi) && Spells(b, NoSlice, "", lo, hi)
  {
  }

  lemma OneMoreSpelled(b: string, raws: seq<RawAttribute>, done: seq<Attribute>, raw: RawAttribute, at: Attribute,
                       lo: nat, from: nat, hi: nat)
    requires SpellsAttributes(b, raws, done, lo, hi) && lo <= from <= hi <= |b|
    requires Spells(b, raw.name, at.name, from, hi) && Spells(b, raw.value, at.value, from, hi)
    ensures SpellsAttributes(b, raws + [raw], done + [at], lo, hi)
  {
    KeepsSlice(b, b, raw.name, at.name, from, hi, lo, hi);
    KeepsSlice(b, b, raw.value, at.value, from, hi, lo, hi);
  }

  // ---- CDATA, nodes that are not recognised, closing tags and data

  lemma CDataStep(s: string, k: nat)
    requires k <= |s| && !Begins(s[k..], "]]>") && At(s[k..], 0) != '\0'
    ensures k < |s|
    ensures CDataEnd(s[k..]) == if CDataEnd(s[k + 1..]) == -1 then -1 else CDataEnd(s[k + 1..]) + 1
  {
    assert s[k..][1..] == s[k + 1..];
  }

  /** As far as the end mark of a CDATA section. */
  method FindCDataEnd(a: array<char>, text: nat, ghost z: nat) returns (ok: bool, end: nat)
    requires text <= z < a.Length && a[z] == '\0'
    ensures ok <==> CDataEnd(a[text..]) != -1
    ensures ok ==> end == text + CDataEnd(a[text..]) && end + 3 <= z
  {
    hide CDataEnd;
    ghost var s := a[text..];
    end := text;
    assert s[0..] == s;
    while !(a[end] == ']' && a[end + 1] == ']' && a[end + 2] == '>')
      invariant text <= end <= z
      invariant CDataEnd(s) == if CDataEnd(s[end - text..]) == -1 then -1 else CDataEnd(s[end - text..]) + (end - text)
      decreases z - end
    {
      assert s[end - text..] == a[end..];
      NoCDataEnd(a, end);
      if a[end] == '\0' { CDataStops(a[end..]); return false, end; }
      CDataStep(s, end - text);
      end := end + 1;
    }
    assert s[end - text..] == a[end..];
    assert a[end..][..3] == "]]>";
    CDataFound(a[end..]);
    ok := true;
  }

  /** `parse_cdata`. */
  method ReadCData(a: array<char>, text: nat, ghost z: nat) returns (ok: bool, text': nat, raw: RawNode)
    requires text <= z < a.Length && a[z] == '\0'
    modifies a
    ensures match ParseCData(old(a[text..]))
      case Got(ns, rest) =>
        && ok && text < text' && Left(a, text, text', z) && rest == a[text'..]
        && |ns| == 1 && SpellsNode(a[..], raw, ns[0], text, text')
      case _ => !ok
  {
    hide Spells, CDataEnd;
    ghost var s := a[text..];
    ok, text', raw := false, text, RawCData(NoSlice);
    var end;
    ok, end := FindCDataEnd(a, text, z);
    if !ok { return; }
    ghost var v := a[text..end];
    assert v == s[..end - text];
    raw := RawCData(Slice(text, end - text));
    a[end] := '\0';
    text' := end + 3;
    assert a[text..end] == v;
    assert a[text'..] == s[text' - text..];
    SpellsInArray(a, text, end, v, text, text');
  }

  lemma CDataFound(s: string)
    requires Begins(s, "]]>")
    ensures CDataEnd(s) == 0
  {
  }

  lemma CDataStops(s: string)
    requires At(s, 0) == '\0' && !Begins(s, "]]>")
    ensures CDataEnd(s) == -1
  {
  }

  lemma NoCDataEnd(a: array<char>, text: nat)
    requires text < a.Length
    requires a[text] == ']' && text + 1 < a.Length && a[text + 1] == ']' && text + 2 < a.Length ==> a[text + 2] != '>'
    ensures !Begins(a[text..], "]]>")
  {
  }

  lemma UnknownStep(s: string, k: nat)
    requires k < |s|
    ensures UnknownEnd(s[k..])
         == if s[k] == '>' then 0 else if s[k] == '\0' then -1
            else if UnknownEnd(s[k + 1..]) == -1 then -1 else UnknownEnd(s[k + 1..]) + 1
  {
    assert s[k..][1..] == s[k + 1..];
  }

  /** Past the end of a node that is not recognised. */
  method SkipUnknown(a: array<char>, text: nat, ghost z: nat) returns (ok: bool, text': nat)
    requires text <= z < a.Length && a[z] == '\0'
    ensures ok <==> UnknownEnd(a[text..]) != -1
    ensures ok ==> text' == text + UnknownEnd(a[text..]) + 1 <= z
  {
    hide UnknownEnd;
    ghost var s := a[text..];
    text' := text;
    assert s[0..] == s;
    while a[text'] != '>'
      invariant text <= text' <= z
      invariant UnknownEnd(s) == if UnknownEnd(s[text' - text..]) == -1 then -1
        else UnknownEnd(s[text' - text..]) + (text' - text)
      decreases z - text'
    {
      UnknownStep(s, text' - text);
      if a[text'] == '\0' { return false, text'; }
      text' := text' + 1;
    }
    UnknownStep(s, text' - text);
    ok, text' := true, text' + 1;
  }

  /** The rest of a closing tag. */
  method ReadClosing(a: array<char>, text: nat, ghost z: nat) returns (ok: bool, text': nat)
    requires text <= z < a.Length && a[z] == '\0'
    ensures match ParseClosing(a[text..])
      case Got(ns, rest) => ok && text < text' <= z && rest == a[text'..] && ns == []
      case _ => !ok
  {
    hide Span, In;
    text' := SkipClass(a, text, NodeNameClass, z);
    text' := SkipClass(a, text', WhiteClass, z);
    ghost var s := a[text'..];
    ok := a[text'] == '>';
    if ok {
      text' := text' + 1;
      assert s[1..] == a[text'..];
    }
  }

  /** `parse_and_append_data`: the character that ended the data is returned, as its place may be overwritten. */
  method ReadData(a: array<char>, text: nat, ghost z: nat) returns (ok: bool, text': nat, value: Slice, next: char)
    requires text <= z < a.Length && a[z] == '\0'
    modifies a
    ensures match Expand(old(a[text..]), '<')
      case Malformed => !ok
      case Expanded(v, k) =>
        && ok && text' == text + k <= z && next == old(a[text + k]) && Spells(a[..], value, v, text, text' + 1)
        && !Inside(next, '<')
    ensures ok ==> a[z] == '\0' && forall i :: 0 <= i < a.Length && !(text <= i <= text') ==> a[i] == old(a[i])
  {
    hide Expand, Spells;
    value, next := NoSlice, '\0';
    var end;
    ok, text', end := SkipAndExpand(a, text, '<', z);
    if !ok { return; }
    assert a[text'] == a[text'..][0];
    ghost var v := a[text..end];
    next := a[text'];
    a[end] := '\0';
    assert a[text..end] == v;
    SpellsInArray(a, text, end, v, text, text' + 1);
    value := Slice(text, end - text);
  }

  // ---- Elements and their contents

  /** What the contents still come to: after data the bracket that follows is known already. */
  function Continue(s: string, afterData: bool): Result<seq<Node>> {
    if !afterData then ParseContents(s) else if At(s, 0) == '<' then ParseTag(s) else Throws
  }

  lemma NodesFromNone(r: Result<seq<Node>>)
    ensures AfterNodes([], r) == r
  {
    if r.Got? { assert [] + r.value == r.value; }
  }

  lemma AfterTwice(a: seq<Node>, b: seq<Node>, r: Result<seq<Node>>)
    ensures AfterNodes(a, AfterNodes(b, r)) == AfterNodes(a + b, r)
  {
    if r.Got? { assert a + (b + r.value) == a + b + r.value; }
  }

  lemma OneMoreValue(done: seq<Node>, n: Node)
    ensures ElementValue(done + [n])
         == if n.Data? && At(ElementValue(done), 0) == '\0' then n.text else ElementValue(done)
  {
    assert (done + [n])[..|done|] == done;
  }

  lemma OneMoreNode(b: string, raws: seq<RawNode>, done: seq<Node>, raw: RawNode, n: Node, lo: nat, from: nat, hi: nat)
    requires SpellsNodes(b, raws, done, lo, hi) && lo <= from <= hi <= |b| && SpellsNode(b, raw, n, from, hi)
    ensures SpellsNodes(b, raws + [raw], done + [n], lo, hi)
  {
    KeepsNode(b, b, raw, n, from, hi, lo, hi);
  }

  /** The state of the loop over the contents: what has been read of `whole` is spelled, and what is left of it still
      stands in the buffer, but for its first character after data. */
  ghost predicate InContents(a: array<char>, start: nat, text: nat, z: nat, afterData: bool, next: char,
                             raws: seq<RawNode>, value: Slice, done: seq<Node>, s: string, whole: string)
    reads a
  {
    var hi := if afterData then text + 1 else text;
    && start <= text <= z < a.Length && a[z] == '\0' && |s| == a.Length - text
    && (if afterData then next == s[0] && !Inside(next, '<') && (next != '\0' ==> text < z) && a[text + 1..] == s[1..]
      else a[text..] == s)
    && ParseContents(whole) == AfterNodes(done, Continue(s, afterData))
    && SpellsNodes(a[..], raws, done, start, hi) && Spells(a[..], value, ElementValue(done), start, hi)
  }

  /** The first character of the value so far: zero if there is none. */
  method FirstOf(a: array<char>, value: Slice, ghost v: string, ghost lo: nat, ghost hi: nat) returns (ch: char)
    requires Spells(a[..], value, v, lo, hi)
    ensures ch == At(v, 0)
  {
    match value
    case NoSlice => ch := '\0';
    case Slice(start, size) =>
      ch := a[start];
      assert v != "" ==> a[..][start..start + size][0] == v[0];
  }

  /** Data in the contents is appended, and becomes the value of the element if it has none. */
  method AppendData(a: array<char>, start: nat, text: nat, ghost z: nat, raws: seq<RawNode>, value: Slice,
                    ghost done: seq<Node>, ghost whole: string)
    returns (ok: bool, text': nat, next: char, raws': seq<RawNode>, value': Slice, ghost done': seq<Node>,
      ghost s': string)
    requires text <= a.Length && InContents(a, start, text, z, false, '\0', raws, value, done, a[text..], whole)
    requires var b := Skip(a[text..], WhiteClass); At(b, 0) != '<' && At(b, 0) != '\0'
    modifies a
    ensures !ok ==> ParseContents(whole) == Throws
    ensures ok ==> text < text' && InContents(a, start, text', z, true, next, raws', value', done', s', whole)
    ensures ok ==> forall i :: 0 <= i < a.Length && !(start <= i <= text') ==> a[i] == old(a[i])
  {
    hide Expand, Spells, ParseContents, ParseTag, ElementValue, SpellsNodes, Span, Skip;
    ghost var s, before := a[text..], a[..];
    raws', value', done', s' := raws, value, done, s;
    var slice;
    DataTakes(s);
    ContentsOfData(s);
    ok, text', slice, next := ReadData(a, text, z);
    if !ok { return; }
    ghost var v, k := Expand(s, '<').text, Expand(s, '<').taken;
    s' := s[k..];
    DataContents(s, done, v, s');
    assert a[text' + 1..] == s'[1..];
    KeepsNodes(before, a[..], raws, done, start, text, start, text' + 1);
    KeepsSlice(before, a[..], value, ElementValue(done), start, text, start, text' + 1);
    DataSpelled(a[..], slice, v, text, text' + 1);
    OneMoreNode(a[..], raws, done, RawData(slice), Data(v), start, text, text' + 1);
    raws', done' := raws + [RawData(slice)], done + [Data(v)];
    OneMoreValue(done, Data(v));
    var first := FirstOf(a, value, ElementValue(done), start, text' + 1);
    if first == '\0' {
      KeepsSlice(a[..], a[..], slice, v, text, text' + 1, start, text' + 1);
      value' := slice;
    }
  }

  lemma DataSpelled(b: string, slice: Slice, v: string, lo: nat, hi: nat)
    requires Spells(b, slice, v, lo, hi)
    ensures SpellsNode(b, RawData(slice), Data(v), lo, hi)
  {
  }

  /** What data at the front of the contents comes to, when `rest` follows it. */
  lemma DataContents(s: string, done: seq<Node>, v: string, rest: string)
    requires ParseContents(s) == if At(rest, 0) != '<' then Throws else AfterNodes([Data(v)], ParseTag(rest))
    ensures AfterNodes(done, ParseContents(s)) == AfterNodes(done + [Data(v)], Continue(rest, true))
  {
    hide ParseTag, ParseContents;
    if At(rest, 0) == '<' { AfterTwice(done, [Data(v)], ParseTag(rest)); }
  }

  lemma ContentsOfData(s: string)
    requires var b := Skip(s, WhiteClass); At(b, 0) != '<' && At(b, 0) != '\0'
    ensures var r := Expand(s, '<');
      ParseContents(s) == if r.Malformed? || r.taken == 0 || At(s[r.taken..], 0) != '<' then Throws
                          else AfterNodes([Data(r.text)], ParseTag(s[r.taken..]))
  {
    hide Expand, ParseTag, AfterNodes, Skip;
  }

  lemma NothingAfterThrow(done: seq<Node>)
    ensures AfterNodes(done, Throws) == Throws && AfterNodes(done, LeftOut) == LeftOut
  {
  }

  lemma DataTakes(s: string)
    requires var b := Skip(s, WhiteClass); At(b, 0) != '<' && At(b, 0) != '\0'
    ensures Expand(s, '<').Expanded? ==> Expand(s, '<').taken > 0
  {
    hide FrontReference;
    assert s != "" && Inside(s[0], '<');
  }

  /** A child that has been read is appended; nothing is, for a node that is not recognised. */
  lemma ChildAppended(a: array<char>, before: string, start: nat, from: nat, tag: nat, text: nat, z: nat,
                      raws: seq<RawNode>, child: seq<RawNode>, value: Slice, done: seq<Node>, n: seq<Node>, s: string,
                        whole: string)
    requires start <= from <= tag <= text <= z < a.Length && a[z] == '\0' && |before| == a.Length
    requires Agree(before, a[..], start, from)
    requires SpellsNodes(before, raws, done, start, from) && Spells(before, value, ElementValue(done), start, from)
    requires |child| == |n| <= 1 && (n != [] ==> !n[0].Data?) && SpellsNodes(a[..], child, n, tag, text)
    requires ParseContents(whole) == AfterNodes(done, AfterNodes(n, ParseContents(s))) && a[text..] == s
    ensures InContents(a, start, text, z, false, '\0', raws + child, value, done + n, s, whole)
  {
    hide Spells, ParseContents, AfterNodes, ElementValue, Agree, SpellsNode;
    KeepsNodes(before, a[..], raws, done, start, from, start, text);
    KeepsSlice(before, a[..], value, ElementValue(done), start, from, start, text);
    AfterTwice(done, n, ParseContents(s));
    if n == [] {
      assert done + n == done && raws + child == raws;
    } else {
      assert done + n == done + [n[0]] && raws + child == raws + [child[0]];
      OneMoreNode(a[..], raws, done, child[0], n[0], start, tag, text);
      OneMoreValue(done, n[0]);
    }
  }

  lemma NotData(s: string)
    ensures match ParseNode(s)
      case Got(ns, _) => |ns| <= 1 && (ns != [] ==> !ns[0].Data?)
      case _ => true
  {
    hide ParseContents, ParseAttributes, CDataEnd, UnknownEnd, Span;
  }

  datatype Kind = ElementKind | LeftOutKind | CDataKind | UnknownKind

  /** Which kind of node stands after an opening bracket. */
  function KindOf(s: string): Kind {
    if At(s, 0) == '?' then LeftOutKind
    else if At(s, 0) != '!' then ElementKind
    else if Begins(s, "!--") then LeftOutKind
    else if Begins(s, "![CDATA[") then CDataKind
    else if Begins(s, "!DOCTYPE") && White(At(s, 8)) then LeftOutKind
    else UnknownKind
  }

  lemma NodeByKind(s: string)
    ensures KindOf(s).LeftOutKind? ==> ParseNode(s) == LeftOut
    ensures KindOf(s).ElementKind? ==> ParseNode(s) == ParseElement(s)
    ensures KindOf(s).CDataKind? ==> Begins(s, "![CDATA[") && |s| >= 8 && ParseNode(s) == ParseCData(s[8..])
    ensures KindOf(s).UnknownKind? ==> s != ""
    ensures KindOf(s).UnknownKind? ==>
      ParseNode(s) == if UnknownEnd(s[1..]) == -1 then Throws else Got([], s[UnknownEnd(s[1..]) + 2..])
  {
    hide ParseElement, ParseCData, UnknownEnd;
  }

  /** The tests for a word, one character after the other. */
  method Matches(a: array<char>, text: nat, word: string, ghost z: nat) returns (ok: bool)
    requires text <= z < a.Length && a[z] == '\0' && forall i :: 0 <= i < |word| ==> word[i] != '\0'
    ensures ok <==> Begins(a[text..], word)
    ensures ok ==> text + |word| <= z
  {
    ghost var s := a[text..];
    var i := 0;
    while i < |word| && a[text + i] == word[i]
      invariant i <= |word| && text + i <= z && forall j :: 0 <= j < i ==> s[j] == word[j]
    {
      i := i + 1;
    }
    ok := i == |word|;
    if ok { assert s[..|word|] == word; }
  }

  method Recognise(a: array<char>, text: nat, ghost z: nat) returns (kind: Kind)
    requires text <= z < a.Length && a[z] == '\0'
    ensures kind == KindOf(a[text..])
    ensures kind.CDataKind? ==> text + 8 <= z
    ensures kind.UnknownKind? ==> text + 1 <= z
  {
    ghost var s := a[text..];
    if a[text] == '?' { return LeftOutKind; }
    if a[text] != '!' { return ElementKind; }
    var word := Matches(a, text, "!--", z);
    if word { return LeftOutKind; }
    word := Matches(a, text, "![CDATA[", z);
    if word { return CDataKind; }
    word := Matches(a, text, "!DOCTYPE", z);
    if word {
      assert At(s, 8) == a[text + 8];
      if White(a[text + 8]) { return LeftOutKind; }
    }
    kind := UnknownKind;
  }

  /** `parse_node`: an element, a CDATA section or nothing. */
  method ReadNode(a: array<char>, text: nat, ghost z: nat) returns (r: Status, text': nat, raws: seq<RawNode>)
    requires text <= z < a.Length && a[z] == '\0'
    modifies a
    ensures match ParseNode(old(a[text..]))
      case Got(ns, rest) =>
        r == Ok && text < text' && Left(a, text, text', z) && rest == a[text'..]
          && SpellsNodes(a[..], raws, ns, text, text')
      case Throws => r == Threw
      case LeftOut => r == MetLeftOut
    decreases z - text, 6
  {
    hide ParseNode, ParseElement, ParseCData, UnknownEnd, SpellsNode, KindOf, Begins;
    ghost var s := a[text..];
    NodeByKind(s);
    var kind := Recognise(a, text, z);
    r, text', raws := Threw, text, [];
    match kind
    case LeftOutKind => r := MetLeftOut;
    case ElementKind =>
      var raw;
      r, text', raw := ReadElement(a, text, z);
      raws := [raw];
    case CDataKind =>
      assert s[8..] == a[text + 8..];
      var ok, raw;
      CDataNotLeftOut(s[8..]);
      ok, text', raw := ReadCData(a, text + 8, z);
      if ok {
        KeepsNode(a[..], a[..], raw, ParseCData(s[8..]).value[0], text + 8, text', text, text');
        r, raws := Ok, [raw];
      }
    case UnknownKind =>
      assert s[1..] == a[text + 1..];
      var ok;
      ok, text' := SkipUnknown(a, text + 1, z);
      if ok {
        assert s[text' - text..] == a[text'..];
        r := Ok;
      }
  }

  lemma CDataNotLeftOut(s: string)
    ensures ParseCData(s) != LeftOut
  {
  }

  /** A bracket has been reached in the contents. */
  lemma TagReached(a: array<char>, start: nat, text: nat, at: nat, z: nat, raws: seq<RawNode>, value: Slice,
                   done: seq<Node>, s: string, whole: string)
    requires InContents(a, start, text, z, false, '\0', raws, value, done, s, whole)
    requires at == text + Span(s, WhiteClass) <= z && a[at] == '<'
    ensures InContents(a, start, at, z, true, '<', raws, value, done, s[at - text..], whole)
  {
    hide ParseTag, Span, AfterNodes, Spells, SpellsNodes, ElementValue, ParseContents;
    assert s[at - text..] == a[at..];
    BlanksBeforeTag(s);
    KeepsNodes(a[..], a[..], raws, done, start, text, start, at + 1);
    KeepsSlice(a[..], a[..], value, ElementValue(done), start, text, start, at + 1);
    assert s[at - text..][1..] == a[at + 1..];
  }

  lemma BlanksBeforeTag(s: string)
    requires At(Skip(s, WhiteClass), 0) == '<'
    ensures ParseContents(s) == ParseTag(Skip(s, WhiteClass))
  {
  }

  lemma EndReached(s: string)
    requires At(Skip(s, WhiteClass), 0) == '\0'
    ensures ParseContents(s) == Throws
  {
  }

  /** What a bracket in the contents comes to. */
  lemma TagContents(s: string, done: seq<Node>)
    requires At(s, 0) == '<'
    ensures At(s, 1) == '/' ==> AfterNodes(done, ParseTag(s)) == match ParseClosing(s[2..])
      case Got(_, rest) => Got(done, rest)
      case _ => Throws
    ensures At(s, 1) != '/' ==> AfterNodes(done, ParseTag(s)) == match ParseNode(s[1..])
      case Got(ns, rest) => AfterNodes(done, AfterNodes(ns, ParseContents(rest)))
      case Throws => Throws
      case LeftOut => LeftOut
  {
    hide ParseContents, ParseNode, Span;
    assert done + [] == done;
  }

  /** As far as the next bracket in the contents, past blanks and data; the character found there is returned, for
      its place may have been overwritten. */
  method NextTag(a: array<char>, start: nat, text: nat, ghost z: nat, raws: seq<RawNode>, value: Slice,
                 ghost done: seq<Node>, ghost s: string, ghost whole: string)
    returns (ok: bool, at: nat, next: char, raws': seq<RawNode>, value': Slice, ghost done': seq<Node>,
      ghost s': string)
    requires InContents(a, start, text, z, false, '\0', raws, value, done, s, whole)
    modifies a
    ensures !ok ==> ParseContents(whole) == Throws
    ensures ok ==> text <= at && InContents(a, start, at, z, true, next, raws', value', done', s', whole)
    ensures ok ==> forall i :: 0 <= i < a.Length && !(start <= i <= at) ==> a[i] == old(a[i])
  {
    hide Spells, SpellsNodes, ParseContents, ParseTag, ElementValue, Span, Skip, AfterNodes;
    ok, raws', value', done', s' := false, raws, value, done, s;
    NothingAfterThrow(done);
    at := SkipClass(a, text, WhiteClass, z);
    SkipIs(s);
    next := a[at];
    if next == '\0' {
      EndReached(s);
    } else if next == '<' {
      TagReached(a, start, text, at, z, raws, value, done, s, whole);
      s' := s[at - text..];
      ok := true;
    } else {
      ok, at, next, raws', value', done', s' := AppendData(a, start, text, z, raws, value, done, whole);
    }
  }

  /** The closing tag of the element. */
  method CloseContents(a: array<char>, start: nat, at: nat, ghost z: nat, raws: seq<RawNode>, value: Slice,
                       ghost done: seq<Node>, ghost s: string, ghost whole: string)
    returns (r: Status, text: nat)
    requires InContents(a, start, at, z, true, '<', raws, value, done, s, whole) && a[at + 1] == '/'
    ensures !ParseContents(whole).LeftOut? && (r == Ok <==> ParseContents(whole).Got?)
      && (r == Threw <==> ParseContents(whole).Throws?)
    ensures r == Ok ==>
      && at < text <= z && ParseContents(whole).rest == a[text..]
      && SpellsNodes(a[..], raws, ParseContents(whole).value, start, text)
      && Spells(a[..], value, ElementValue(ParseContents(whole).value), start, text)
  {
    hide Spells, SpellsNodes, ParseContents, ParseTag, ElementValue, AfterNodes, ParseNode, ParseClosing;
    TagContents(s, done);
    assert a[at + 2..] == s[2..];
    var ok;
    r := Threw;
    ok, text := ReadClosing(a, at + 2, z);
    if ok {
      KeepsNodes(a[..], a[..], raws, done, start, at + 1, start, text);
      KeepsSlice(a[..], a[..], value, ElementValue(done), start, at + 1, start, text);
      r := Ok;
    }
  }

  /** A child of the element. */
  method ReadChild(a: array<char>, start: nat, at: nat, ghost z: nat, raws: seq<RawNode>, value: Slice,
                   ghost done: seq<Node>, ghost s: string, ghost whole: string)
    returns (r: Status, text: nat, raws': seq<RawNode>, ghost done': seq<Node>, ghost s': string)
    requires InContents(a, start, at, z, true, '<', raws, value, done, s, whole) && a[at + 1] != '/'
    modifies a
    ensures r == Threw ==> ParseContents(whole) == Throws
    ensures r == MetLeftOut ==> ParseContents(whole) == LeftOut
    ensures r == Ok ==>
      && at + 1 < text && InContents(a, start, text, z, false, '\0', raws', value, done', s', whole)
      && Left(a, at + 1, text, z)
    decreases z - at, 0
  {
    hide Spells, SpellsNode, ParseContents, ParseTag, ElementValue, AfterNodes, ParseNode, ParseClosing;
    TagContents(s, done);
    NotData(s[1..]);
    raws', done', s' := raws, done, s;
    ghost var before := a[..];
    var child;
    r, text, child := ReadNode(a, at + 1, z);
    if r == Ok {
      ghost var n := ParseNode(s[1..]).value;
      s' := ParseNode(s[1..]).rest;
      ChildAppended(a, before, start, at + 1, at + 1, text, z, raws, child, value, done, n, s', whole);
      raws', done' := raws + child, done + n;
    }
  }

  /** `parse_node_contents`: children and data up to the closing tag, and the value of the element. */
  method ReadContents(a: array<char>, start: nat, ghost z: nat)
    returns (r: Status, text: nat, raws: seq<RawNode>, value: Slice)
    requires start <= z < a.Length && a[z] == '\0'
    modifies a
    ensures match ParseContents(old(a[start..]))
      case Got(ns, rest) =>
        && r == Ok && start < text && Left(a, start, text, z) && rest == a[text..]
        && SpellsNodes(a[..], raws, ns, start, text) && Spells(a[..], value, ElementValue(ns), start, text)
      case Throws => r == Threw
      case LeftOut => r == MetLeftOut
    decreases z - start, 3
  {
    hide Spells, SpellsNodes, ParseContents, ParseTag, ElementValue, Span, Skip, AfterNodes, ParseNode, ParseClosing;
    ghost var whole := a[start..];
    ghost var s, done := whole, [];
    r, text, raws, value := Threw, start, [], NoSlice;
    NothingSpelled(a[..], start, start);
    NodesFromNone(ParseContents(whole));
    NoElementValue();
    while true
      invariant 0 <= text && InContents(a, start, text, z, false, '\0', raws, value, done, s, whole)
      invariant forall i :: 0 <= i < a.Length && !(start <= i < text) ==> a[i] == old(a[i])
      decreases z - text
    {
      NothingAfterThrow(done);
      var ok, at, next;
      ghost var s';
      ok, at, next, raws, value, done, s' := NextTag(a, start, text, z, raws, value, done, s, whole);
      if !ok { return Threw, text, raws, value; }
      NothingAfterThrow(done);
      if next == '\0' { return Threw, text, raws, value; }
      if a[at + 1] == '/' {
        r, text := CloseContents(a, start, at, z, raws, value, done, s', whole);
        return;
      }
      r, text, raws, done, s := ReadChild(a, start, at, z, raws, value, done, s', whole);
      if r != Ok { return; }
    }
  }

  lemma NoElementValue()
    ensures ElementValue([]) == ""
  {
  }

  lemma SkipIs(s: string)
    ensures Skip(s, WhiteClass) == s[Span(s, WhiteClass)..]
  {
  }

  lemma {:induction false} AttributesNotLeftOut(s: string)
    ensures ParseAttributes(s) != LeftOut
    decreases |s|
  {
    hide AfterName;
    if In(At(s, 0), AttributeNameClass) {
      var r := AfterName(s[Span(s, AttributeNameClass)..]);
      if r.Got? { AttributesNotLeftOut(r.rest); }
    }
  }

  /** The name of an element is terminated last, when what followed it has been read. */
  method EndElement(a: array<char>, text: nat, nameEnd: nat, from: nat, inside: nat, text': nat,
                    attributes: seq<RawAttribute>, children: seq<RawNode>, value: Slice, ghost n: Node)
    returns (raw: RawNode)
    requires text <= nameEnd <= from <= inside <= text' <= a.Length && nameEnd < inside && n.Element?
    requires a[text..nameEnd] == n.name && (from == nameEnd ==> attributes == [])
    requires SpellsAttributes(a[..], attributes, n.attributes, from, inside)
    requires SpellsNodes(a[..], children, n.children, inside, text') && Spells(a[..], value, n.value, inside, text')
    modifies a
    ensures forall i :: 0 <= i < a.Length && i != nameEnd ==> a[i] == old(a[i])
    ensures SpellsNode(a[..], raw, n, text, text')
  {
    hide Spells, SpellsAttributes, SpellsNodes;
    ghost var b := a[..];
    a[nameEnd] := '\0';
    assert a[text..nameEnd] == b[text..nameEnd];
    SpellsInArray(a, text, nameEnd, n.name, text, text');
    if attributes == [] {
      NoAttributes(b, n.attributes, from, inside);
      NothingSpelled(a[..], text, text');
    } else {
      KeepsAttributes(b, a[..], attributes, n.attributes, from, inside, text, text');
    }
    KeepsNodes(b, a[..], children, n.children, inside, text', text, text');
    KeepsSlice(b, a[..], value, n.value, inside, text', text, text');
    raw := RawElement(Slice(text, nameEnd - text), value, attributes, children);
  }

  lemma NoAttributes(b: string, attributes: seq<Attribute>, lo: nat, hi: nat)
    requires SpellsAttributes(b, [], attributes, lo, hi)
    ensures attributes == []
  {
  }

  /** An attribute cannot begin where the name ended. */
  lemma NoAttributeAtOnce(s: string)
    requires s != "" && !In(s[0], NodeNameClass) && !White(s[0])
    ensures ParseAttributes(s) == Got([], s)
  {
  }

  /** The start tag of an element: its name and attributes. */
  method ReadStart(a: array<char>, text: nat, ghost z: nat)
    returns (ok: bool, nameEnd: nat, from: nat, end: nat, attributes: seq<RawAttribute>)
    requires text <= z < a.Length && a[z] == '\0'
    modifies a
    ensures var s := old(a[text..]);
      var n := Span(s, NodeNameClass);
      match ParseAttributes(Skip(s[n..], WhiteClass))
      case Got(ats, rest) =>
        if n == 0 then !ok
        else
          && ok && nameEnd == text + n <= from <= end && Left(a, from, end, z) && rest == a[end..]
          && a[text..nameEnd] == s[..n]
          && (from == nameEnd ==> attributes == []) && SpellsAttributes(a[..], attributes, ats, from, end)
      case _ => !ok
  {
    hide Spells, SpellsAttributes, ParseAttributes, Span, Skip, In;
    ghost var s := a[text..];
    ok, from, end, attributes := false, text, text, [];
    nameEnd := SkipClass(a, text, NodeNameClass, z);
    if nameEnd == text { return; }
    assert s[nameEnd - text..] == a[nameEnd..];
    from := SkipClass(a, nameEnd, WhiteClass, z);
    ghost var rest := a[from..];
    if from == nameEnd { NotWhite(a[from]); NoAttributeAtOnce(rest); }
    ok, end, attributes := ReadAttributes(a, from, z);
    if ok {
      assert a[text..nameEnd] == s[..nameEnd - text];
      if from == nameEnd { NoneSpelled(a[..], attributes, from, end); }
    }
  }

  lemma NotWhite(ch: char)
    ensures !In(ch, WhiteClass) <==> !White(ch)
  {
  }

  lemma NoneSpelled(b: string, raws: seq<RawAttribute>, lo: nat, hi: nat)
    requires SpellsAttributes(b, raws, [], lo, hi)
    ensures raws == []
  {
  }

  /** What follows a start tag: the contents, or nothing. */
  method ReadAfterStart(a: array<char>, end: nat, ghost z: nat)
    returns (r: Status, text': nat, children: seq<RawNode>, value: Slice)
    requires end <= z < a.Length && a[z] == '\0'
    modifies a
    ensures match ParseAfterStart(old(a[end..]))
      case Got(ns, rest) =>
        && r == Ok && end < text' && Left(a, end + 1, text', z) && rest == a[text'..]
        && SpellsNodes(a[..], children, ns, end + 1, text') && Spells(a[..], value, ElementValue(ns), end + 1, text')
      case Throws => r == Threw
      case LeftOut => r == MetLeftOut
    decreases z - end, 4
  {
    hide Spells, SpellsNodes, ParseContents, ElementValue;
    ghost var rest := a[end..];
    r, text', children, value := Threw, end, [], NoSlice;
    if a[end] == '>' {
      assert rest[1..] == a[end + 1..];
      r, text', children, value := ReadContents(a, end + 1, z);
    } else if a[end] == '/' {
      if a[end + 1] == '>' {
        text' := end + 2;
        assert rest[2..] == a[text'..];
        NothingSpelled(a[..], end + 1, text');
        NoElementValue();
        r := Ok;
      }
    }
  }

  /** `parse_element`. */
  method ReadElement(a: array<char>, text: nat, ghost z: nat) returns (r: Status, text': nat, raw: RawNode)
    requires text <= z < a.Length && a[z] == '\0'
    modifies a
    ensures match ParseElement(old(a[text..]))
      case Got(ns, rest) =>
        && r == Ok && text < text' && Left(a, text, text', z) && rest == a[text'..]
        && |ns| == 1 && SpellsNode(a[..], raw, ns[0], text, text')
      case Throws => r == Threw
      case LeftOut => r == MetLeftOut
    decreases z - text, 5
  {
    hide Spells, SpellsNode, SpellsNodes, SpellsAttributes, ParseAfterStart, ParseAttributes, ElementValue, Span,
      Skip, In;
    ghost var s := a[text..];
    ghost var n := Span(s, NodeNameClass);
    AttributesNotLeftOut(Skip(s[n..], WhiteClass));
    r, text', raw := Threw, text, RawData(NoSlice);
    var ok, nameEnd, from, end, attributes;
    ok, nameEnd, from, end, attributes := ReadStart(a, text, z);
    if !ok { return; }
    ghost var ats, before := ParseAttributes(Skip(s[n..], WhiteClass)).value, a[..];
    ghost var rest := a[end..];
    var children, value;
    r, text', children, value := ReadAfterStart(a, end, z);
    if r != Ok { return; }
    ghost var ns, after := ParseAfterStart(rest).value, a[text'..];
    KeepsAttributes(before, a[..], attributes, ats, from, end, from, end + 1);
    assert a[text..nameEnd] == before[text..nameEnd] == s[..n];
    raw := EndElement(a, text, nameEnd, from, end + 1, text', attributes, children, value,
                      Element(s[..n], ElementValue(ns), ats, ns));
    assert a[text'..] == after;
  }

  // ---- The document

  /** A node at the top has been read. */
  lemma TopAppended(a: array<char>, before: string, at: nat, text: nat, z: nat, raws: seq<RawNode>, child: seq<RawNode>,
                    done: seq<Node>, n: seq<Node>)
    requires at <= text <= z < a.Length && |before| == a.Length && Agree(before, a[..], 0, at)
    requires SpellsNodes(before, raws, done, 0, at) && SpellsNodes(a[..], child, n, at, text)
    ensures SpellsNodes(a[..], raws + child, done + n, 0, text)
  {
    hide SpellsNode;
    KeepsNodes(before, a[..], raws, done, 0, at, 0, text);
    KeepsNodes(a[..], a[..], child, n, at, text, 0, text);
  }

  /** What the next node at the top comes to. */
  lemma TopStep(s: string, done: seq<Node>)
    ensures var a := Skip(s, WhiteClass);
      AfterNodes(done, ParseNodes(s))
      == if At(a, 0) == '\0' then Got(done, a)
         else if At(a, 0) != '<' then Throws
         else match ParseNode(a[1..])
           case Got(ns, rest) => AfterNodes(done + ns, ParseNodes(rest))
           case Throws => Throws
           case LeftOut => LeftOut
  {
    hide ParseNode, Span, Skip;
    assert done + [] == done;
    var a := Skip(s, WhiteClass);
    if At(a, 0) == '<' && ParseNode(a[1..]).Got? {
      AfterTwice(done, ParseNode(a[1..]).value, ParseNodes(ParseNode(a[1..]).rest));
    }
  }

  /** The nodes at the top of a document. */
  method ReadNodes(a: array<char>, start: nat, ghost z: nat) returns (r: Status, text: nat, raws: seq<RawNode>)
    requires start <= z < a.Length && a[z] == '\0'
    modifies a
    ensures match ParseNodes(old(a[start..]))
      case Got(ns, rest) => r == Ok && text <= z && rest == a[text..] && a[z] == '\0'
        && SpellsNodes(a[..], raws, ns, 0, text)
      case Throws => r == Threw
      case LeftOut => r == MetLeftOut
  {
    hide SpellsNodes, ParseNodes, ParseNode, AfterNodes, Skip, Span;
    ghost var whole := a[start..];
    ghost var done: seq<Node> := [];
    r, text, raws := Threw, start, [];
    NothingSpelled(a[..], 0, start);
    NodesFromNone(ParseNodes(whole));
    while true
      invariant start <= text <= z < a.Length && a[z] == '\0' && SpellsNodes(a[..], raws, done, 0, text)
      invariant ParseNodes(whole) == AfterNodes(done, ParseNodes(a[text..]))
      decreases z - text
    {
      TopStep(a[text..], done);
      ghost var from := text;
      text := SkipClass(a, text, WhiteClass, z);
      ghost var b, before := a[text..], a[..];
      KeepsNodes(before, before, raws, done, 0, from, 0, text);
      if a[text] == '\0' { return Ok, text, raws; }
      if a[text] != '<' { return Threw, text, raws; }
      assert b[1..] == a[text + 1..];
      KeepsNodes(before, before, raws, done, 0, text, 0, text + 1);
      ghost var at := text + 1;
      var child;
      r, text, child := ReadNode(a, text + 1, z);
      if r != Ok { return; }
      TopAppended(a, before, at, text, z, raws, child, done, ParseNode(b[1..]).value);
      raws, done := raws + child, done + ParseNode(b[1..]).value;
    }
  }

  /** `parse` with the default flags, on a text that ends with a zero: what the nodes point at in the end spells the
      tree. */
  method Parse(a: array<char>, ghost z: nat) returns (r: Status, text: nat, raws: seq<RawNode>)
    requires z < a.Length && a[z] == '\0'
    modifies a
    ensures match ParseDocument(old(a[..]))
      case Got(ns, rest) => r == Ok && text < a.Length && rest == a[text..] && SpellsNodes(a[..], raws, ns, 0, text)
      case Throws => r == Threw
      case LeftOut => r == MetLeftOut
  {
    hide SpellsNodes, ParseNodes;
    var start := 0;
    ghost var bom := [0xEF as char, 0xBB as char, 0xBF as char];
    if a[0] == 0xEF as char {
      if a[1] == 0xBB as char {
        if a[2] == 0xBF as char {
          assert a[..][..3] == bom;
          start := 3;
        }
      }
    }
    assert SkipBom(a[..]) == a[start..] by {
      if Begins(a[..], bom) {
        assert a[..][..3] == bom && a[0] == a[..][..3][0] && a[1] == a[..][..3][1] && a[2] == a[..][..3][2];
      }
    }
    r, text, raws := ReadNodes(a, start, z);
  }

  /** A printed document, parsed in place: the slices of the overwritten text spell the tree that was printed. */
  method ParsePrinted(a: array<char>, ghost nodes: seq<Node>) returns (r: Status, raws: seq<RawNode>)
    requires NormalDocument(nodes) && a[..] == PrintNodes(nodes) + "\0"
    modifies a
    ensures r == Ok && SpellsNodes(a[..], raws, nodes, 0, a.Length)
  {
    hide SpellsNodes, ParseDocument, NormalDocument, PrintNodes;
    PrintThenParse(nodes, "\0");
    assert a[|PrintNodes(nodes)|] == a[..][|PrintNodes(nodes)|];
    var text;
    r, text, raws := Parse(a, |PrintNodes(nodes)|);
    KeepsNodes(a[..], a[..], raws, nodes, 0, text, 0, a.Length);
  }
}
