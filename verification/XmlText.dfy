/** XML trees of elements, attributes, data and CDATA, their text without indentation, and the parser of such text
    as a function. */
module XmlText {
  import opened XmlExpand

  datatype Attribute = Attribute(name: string, value: string)

  datatype Node =
    | Element(name: string, value: string, attributes: seq<Attribute>, children: seq<Node>)
    | Data(text: string)
    | CData(text: string)

  // ---- Characters

  datatype Class = WhiteClass | NodeNameClass | AttributeNameClass

  predicate White(ch: char) {
    ch == ' ' || ch == '\n' || ch == '\r' || ch == '\t'
  }

  predicate In(ch: char, c: Class) {
    match c
    case WhiteClass => White(ch)
    case NodeNameClass => !White(ch) && ch != '/' && ch != '>' && ch != '?' && ch != '\0'
    case AttributeNameClass =>
      !White(ch) && ch != '/' && ch != '<' && ch != '>' && ch != '=' && ch != '?' && ch != '!' && ch != '\0'
  }

  /** The number of characters of a class at the front. */
  function Span(s: string, c: Class): (n: nat)
    ensures n <= |s| && (n < |s| ==> !In(s[n], c))
    ensures forall i :: 0 <= i < n ==> In(s[i], c)
  {
    if s != "" && In(s[0], c) then 1 + Span(s[1..], c) else 0
  }

  function Skip(s: string, c: Class): (r: string)
    ensures |r| <= |s|
  {
    s[Span(s, c)..]
  }

  // ---- Printing

  function EscapeChar(ch: char, noexpand: char): string {
    if ch == noexpand then [ch]
    else match ch
      case '<' => "&lt;"
      case '>' => "&gt;"
      case '\'' => "&apos;"
      case '"' => "&quot;"
      case '&' => "&amp;"
      case _ => [ch]
  }

  function Escape(s: string, noexpand: char): string {
    if s == "" then "" else EscapeChar(s[0], noexpand) + Escape(s[1..], noexpand)
  }

  function Quote(value: string): char {
    if '"' in value then '\'' else '"'
  }

  function PrintAttribute(a: Attribute): string {
    var q := Quote(a.value);
    " " + a.name + "=" + [q] + Escape(a.value, if q == '\'' then '"' else '\'') + [q]
  }

  function PrintAttributes(attributes: seq<Attribute>): string {
    if attributes == [] then "" else PrintAttribute(attributes[0]) + PrintAttributes(attributes[1..])
  }

  function PrintNode(n: Node): string
    decreases n, 0
  {
    match n
    case Element(name, value, attributes, children) =>
      "<" + name + PrintAttributes(attributes)
      + if value == "" && children == [] then "/>"
        else ">" + PrintInside(value, children) + "</" + name + ">"
    case Data(text) => Escape(text, '\0')
    case CData(text) => "<![CDATA[" + text + "]]>"
  }

  /** What stands between the tags: the value of a childless element, or the children. */
  function PrintInside(value: string, children: seq<Node>): string
    decreases children, 2
  {
    if children == [] then Escape(value, '\0')
    else if |children| == 1 && children[0].Data? then Escape(children[0].text, '\0')
    else PrintNodes(children)
  }

  function PrintNodes(nodes: seq<Node>): string
    decreases nodes, 1
  {
    if nodes == [] then "" else PrintNode(nodes[0]) + PrintNodes(nodes[1..])
  }

  // ---- Parsing

  /** A parse gives a value and the text left, throws, or meets a node of a kind that is left out here: a comment, a
      declaration, a processing instruction or a document type. */
  datatype Result<+T> = Got(value: T, rest: string) | Throws | LeftOut

  /** A quoted value, from its opening quote on, and the blanks after it. */
  function ParseValue(s: string): (r: Result<string>)
    ensures r.Got? ==> |r.rest| < |s|
    ensures r != LeftOut
  {
    var q := At(s, 0);
    if q != '\'' && q != '"' then Throws
    else match Expand(s[1..], q)
      case Malformed => Throws
      case Expanded(value, k) =>
        if At(s[1 + k..], 0) != q then Throws else Got(value, Skip(s[1 + k..][1..], WhiteClass))
  }

  /** What follows the name of an attribute: the equals sign and the value. */
  function AfterName(s: string): (r: Result<string>)
    ensures r.Got? ==> |r.rest| < |s|
    ensures r != LeftOut
  {
    var a := Skip(s, WhiteClass);
    if At(a, 0) != '=' then Throws else ParseValue(Skip(a[1..], WhiteClass))
  }

  function ParseAttributes(s: string): (r: Result<seq<Attribute>>)
    ensures r.Got? ==> |r.rest| <= |s|
    decreases |s|
  {
    if !In(At(s, 0), AttributeNameClass) then Got([], s)
    else
      var n := Span(s, AttributeNameClass);
      match AfterName(s[n..])
      case Throws => Throws
      case LeftOut => LeftOut
      case Got(value, a) =>
        match ParseAttributes(a)
        case Got(more, rest) => Got([Attribute(s[..n], value)] + more, rest)
        case other => other
  }

  /** The value of an element: its first data that does not begin with zero. */
  function ElementValue(children: seq<Node>): string {
    if children == [] then ""
    else
      var before := ElementValue(children[..|children| - 1]);
      var last := children[|children| - 1];
      if last.Data? && At(before, 0) == '\0' then last.text else before
  }

  /** The nodes read so far, before what else is read. */
  function AfterNodes(done: seq<Node>, r: Result<seq<Node>>): Result<seq<Node>> {
    match r
    case Got(more, rest) => Got(done + more, rest)
    case other => other
  }

  function ParseElement(s: string): (r: Result<seq<Node>>)
    ensures r.Got? ==> |r.rest| < |s|
    decreases |s|, 5
  {
    var n := Span(s, NodeNameClass);
    if n == 0 then Throws
    else match ParseAttributes(Skip(s[n..], WhiteClass))
      case Throws => Throws
      case LeftOut => LeftOut
      case Got(attributes, a) =>
        match ParseAfterStart(a)
        case Got(children, rest) => Got([Element(s[..n], ElementValue(children), attributes, children)], rest)
        case other => other
  }

  /** What ends a start tag: the contents, or nothing if the tag is the whole element. */
  function ParseAfterStart(s: string): (r: Result<seq<Node>>)
    ensures r.Got? ==> |r.rest| < |s|
    decreases |s|, 4
  {
    if At(s, 0) == '>' then ParseContents(s[1..])
    else if At(s, 0) == '/' && At(s, 1) == '>' then Got([], s[2..])
    else Throws
  }

  /** The position of the end of a CDATA section; -1 if zero or the end of the text comes first. */
  function CDataEnd(s: string): (k: int)
    ensures k == -1 || 0 <= k <= |s| - 3
  {
    if Begins(s, "]]>") then 0
    else if At(s, 0) == '\0' then -1
    else var k := CDataEnd(s[1..]); if k == -1 then -1 else k + 1
  }

  function ParseCData(s: string): (r: Result<seq<Node>>)
    ensures r.Got? ==> |r.rest| < |s|
  {
    var k := CDataEnd(s);
    if k == -1 then Throws else Got([CData(s[..k])], s[k + 3..])
  }

  /** The position of the end of a node that is not recognised; -1 if zero or the end of the text comes first. */
  function UnknownEnd(s: string): (k: int)
    ensures k == -1 || 0 <= k < |s|
  {
    if At(s, 0) == '>' then 0
    else if At(s, 0) == '\0' then -1
    else var k := UnknownEnd(s[1..]); if k == -1 then -1 else k + 1
  }

  /** A node after its opening bracket: none, if it is not recognised. */
  function ParseNode(s: string): (r: Result<seq<Node>>)
    ensures r.Got? ==> |r.rest| < |s|
    decreases |s|, 6
  {
    if At(s, 0) == '?' then LeftOut
    else if At(s, 0) == '!' then
      if Begins(s, "!--") then LeftOut
      else if Begins(s, "![CDATA[") then ParseCData(s[8..])
      else if Begins(s, "!DOCTYPE") && White(At(s, 8)) then LeftOut
      else var k := UnknownEnd(s[1..]); if k == -1 then Throws else Got([], s[k + 2..])
    else ParseElement(s)
  }

  /** The contents of an element and its closing tag, whose name is not compared. */
  function ParseContents(s: string): (r: Result<seq<Node>>)
    ensures r.Got? ==> |r.rest| < |s|
    decreases |s|, 3
  {
    var a := Skip(s, WhiteClass);
    if At(a, 0) == '<' then ParseTag(a)
    else if At(a, 0) == '\0' then Throws
    else match Expand(s, '<')
      case Malformed => Throws
      case Expanded(text, k) =>
        if k == 0 || At(s[k..], 0) != '<' then Throws
        else AfterNodes([Data(text)], ParseTag(s[k..]))
  }

  /** The rest of a closing tag, from its name on. */
  function ParseClosing(s: string): (r: Result<seq<Node>>)
    ensures r.Got? ==> |r.rest| < |s|
    ensures r != LeftOut
  {
    var a := Skip(Skip(s, NodeNameClass), WhiteClass);
    if At(a, 0) == '>' then Got([], a[1..]) else Throws
  }

  /** What an opening bracket in the contents begins. */
  function ParseTag(s: string): (r: Result<seq<Node>>)
    requires At(s, 0) == '<'
    ensures r.Got? ==> |r.rest| < |s|
    decreases |s|, 2
  {
    if At(s, 1) == '/' then ParseClosing(s[2..])
    else match ParseNode(s[1..])
      case Throws => Throws
      case LeftOut => LeftOut
      case Got(nodes, rest) => AfterNodes(nodes, ParseContents(rest))
  }

  /** A document: nodes with nothing but blanks around them, up to zero. */
  function ParseNodes(s: string): Result<seq<Node>>
    decreases |s|
  {
    var a := Skip(s, WhiteClass);
    if At(a, 0) == '\0' then Got([], a)
    else if At(a, 0) != '<' then Throws
    else match ParseNode(a[1..])
      case Throws => Throws
      case LeftOut => LeftOut
      case Got(nodes, rest) => AfterNodes(nodes, ParseNodes(rest))
  }

  function SkipBom(s: string): string {
    if Begins(s, [0xEF as char, 0xBB as char, 0xBF as char]) then s[3..] else s
  }

  function ParseDocument(s: string): Result<seq<Node>> {
    ParseNodes(SkipBom(s))
  }

  // ---- Trees in normal form

  predicate NoZero(s: string) {
    forall i :: 0 <= i < |s| ==> s[i] != '\0'
  }

  predicate LegalName(s: string, c: Class) {
    s != "" && s[0] != '!' && forall i :: 0 <= i < |s| ==> In(s[i], c)
  }

  predicate LegalAttributes(attributes: seq<Attribute>) {
    forall i :: 0 <= i < |attributes| ==>
      LegalName(attributes[i].name, AttributeNameClass) && NoZero(attributes[i].value)
  }

  predicate AllWhite(s: string) {
    forall i :: 0 <= i < |s| ==> White(s[i])
  }

  /** Whether "]]>" begins somewhere in the string. */
  predicate HasCDataEnd(s: string) {
    s != "" && (Begins(s, "]]>") || HasCDataEnd(s[1..]))
  }

  predicate Normal(n: Node)
    decreases n, 0
  {
    match n
    case Data(text) => NoZero(text) && !AllWhite(text)
    case CData(text) => NoZero(text) && !HasCDataEnd(text)
    case Element(name, value, attributes, children) =>
      LegalName(name, NodeNameClass) && LegalAttributes(attributes) && NormalNodes(children)
        && value == ElementValue(children)
  }

  /** No two data nodes stand side by side. */
  predicate NormalNodes(nodes: seq<Node>)
    decreases nodes, 1
  {
    nodes == [] || (Normal(nodes[0]) && NormalNodes(nodes[1..]) && !(|nodes| > 1 && nodes[0].Data? && nodes[1].Data?))
  }

  // ---- Reading back what was printed

  lemma {:induction false} SpanExact(name: string, rest: string, c: Class)
    requires (forall i :: 0 <= i < |name| ==> In(name[i], c)) && !In(At(rest, 0), c)
    ensures Span(name + rest, c) == |name|
  {
    var s := name + rest;
    assert forall i :: 0 <= i < |name| ==> s[i] == name[i];
    assert |s| > |name| ==> s[|name|] == rest[0];
  }

  lemma NothingToSkip(s: string, c: Class)
    requires !In(At(s, 0), c)
    ensures Skip(s, c) == s
  {
  }

  lemma EscapedFront(ch: char, noexpand: char, stop: char, rest: string)
    requires ch != '\0' && noexpand != '&' && noexpand != stop && (stop == '<' || stop == '"' || stop == '\'')
    ensures var e := EscapeChar(ch, noexpand);
      && e != "" && Inside(e[0], stop)
      && (FrontReference(e + rest) == Replaces([ch], |e|) || (FrontReference(e + rest) == Copied && e == [ch]))
  {
    hide Numeric;
    var e := EscapeChar(ch, noexpand);
    assert (e + rest)[..|e|] == e;
    if e == [ch] { CopiedUnlessAmpersand(e + rest); }
    if e == "&gt;" { assert (e + rest)[1] == 'g'; }
    if e == "&lt;" { assert (e + rest)[1] == 'l'; }
    if e == "&quot;" { assert (e + rest)[1] == 'q'; }
    if e == "&apos;" { assert (e + rest)[2] == 'p'; }
  }

  /** Expanding undoes escaping, up to the character that ends the text. */
  lemma {:induction false} ExpandEscaped(s: string, noexpand: char, stop: char, rest: string)
    requires NoZero(s) && noexpand != '&' && noexpand != stop && (stop == '<' || stop == '"' || stop == '\'')
    requires At(rest, 0) == stop
    ensures Expand(Escape(s, noexpand) + rest, stop) == Expanded(s, |Escape(s, noexpand)|)
    decreases |s|
  {
    hide FrontReference, EscapeChar;
    if s == "" {
      assert "" + rest == rest;
    } else {
      var e, more := EscapeChar(s[0], noexpand), Escape(s[1..], noexpand);
      var whole := Escape(s, noexpand) + rest;
      assert whole == e + (more + rest);
      EscapedFront(s[0], noexpand, stop, more + rest);
      ExpandEscaped(s[1..], noexpand, stop, rest);
      assert whole[|e|..] == more + rest;
      assert [s[0]] + s[1..] == s;
    }
  }

  /** A printed value, from its opening quote on, is read back. */
  lemma ValueReadsBack(value: string, more: string)
    requires NoZero(value)
    ensures var q := Quote(value);
      var e := Escape(value, if q == '\'' then '"' else '\'');
      ParseValue([q] + (e + ([q] + more))) == Got(value, Skip(more, WhiteClass))
  {
    hide Escape, Expand, Skip;
    var q := Quote(value);
    var noexpand := if q == '\'' then '"' else '\'';
    var e := Escape(value, noexpand);
    var b := [q] + (e + ([q] + more));
    assert b[1..] == e + ([q] + more);
    ExpandEscaped(value, noexpand, q, [q] + more);
    assert b[1 + |e|..] == [q] + more;
    assert ([q] + more)[1..] == more;
  }

  /** What follows the name of a printed attribute is read back. */
  lemma AfterNameReadsBack(value: string, more: string)
    requires NoZero(value)
    ensures var q := Quote(value);
      var b := [q] + (Escape(value, if q == '\'' then '"' else '\'') + ([q] + more));
      AfterName("=" + b) == Got(value, Skip(more, WhiteClass))
  {
    hide Escape, ParseValue, Span, Skip;
    var q := Quote(value);
    var b := [q] + (Escape(value, if q == '\'' then '"' else '\'') + ([q] + more));
    NothingToSkip("=" + b, WhiteClass);
    assert ("=" + b)[1..] == b;
    NothingToSkip(b, WhiteClass);
    ValueReadsBack(value, more);
  }

  lemma AttributeReadsBack(a: Attribute, more: string)
    requires LegalName(a.name, AttributeNameClass) && NoZero(a.value)
    ensures ParseAttributes(Skip(PrintAttribute(a) + more, WhiteClass))
         == match ParseAttributes(Skip(more, WhiteClass))
            case Got(rest, after) => Got([a] + rest, after)
            case other => other
  {
    hide Escape, AfterName, Span, Skip, PrintAttributes;
    var q := Quote(a.value);
    var e := Escape(a.value, if q == '\'' then '"' else '\'');
    var afterName := "=" + ([q] + (e + ([q] + more)));
    var s := a.name + afterName;
    assert PrintAttribute(a) + more == " " + s;
    BlankThenName(a.name, afterName);
    SpanExact(a.name, afterName, AttributeNameClass);
    assert s[..|a.name|] == a.name && s[|a.name|..] == afterName;
    AfterNameReadsBack(a.value, more);
    assert In(At(s, 0), AttributeNameClass);
  }

  /** The attributes of a start tag, before what ends it. */
  lemma {:induction false} AttributesReadBack(attributes: seq<Attribute>, rest: string)
    requires LegalAttributes(attributes) && !In(At(rest, 0), AttributeNameClass) && !White(At(rest, 0))
    ensures ParseAttributes(Skip(PrintAttributes(attributes) + rest, WhiteClass)) == Got(attributes, rest)
    decreases |attributes|
  {
    hide PrintAttribute, Skip, AfterName;
    if attributes == [] {
      assert "" + rest == rest;
      NothingToSkip(rest, WhiteClass);
    } else {
      var more := PrintAttributes(attributes[1..]) + rest;
      assert PrintAttributes(attributes) + rest == PrintAttribute(attributes[0]) + more;
      AttributeReadsBack(attributes[0], more);
      AttributesReadBack(attributes[1..], rest);
      assert [attributes[0]] + attributes[1..] == attributes;
    }
  }

  lemma BlankThenName(name: string, rest: string)
    requires LegalName(name, AttributeNameClass)
    ensures Skip(" " + (name + rest), WhiteClass) == name + rest
  {
    var s := name + rest;
    assert !In(s[0], WhiteClass);
    SpanExact(" ", s, WhiteClass);
    assert (" " + s)[1..] == s;
  }

  lemma NoEarlyEnd(text: string, rest: string)
    requires text != "" && !Begins(text, "]]>")
    ensures !Begins(text + ("]]>" + rest), "]]>")
  {
    var s := text + ("]]>" + rest);
    if |text| >= 3 { assert s[..3] == text[..3]; } else { assert s[2] == ']' && "]]>"[2] == '>'; }
  }

  /** The end of a CDATA section is found where it was put. */
  lemma {:induction false} CDataEndFound(text: string, rest: string)
    requires NoZero(text) && !HasCDataEnd(text)
    ensures CDataEnd(text + ("]]>" + rest)) == |text|
    decreases |text|
  {
    var s := text + ("]]>" + rest);
    if text == "" {
      assert s == "]]>" + rest;
      assert s[..3] == "]]>";
    } else {
      assert s[1..] == text[1..] + ("]]>" + rest);
      CDataEndFound(text[1..], rest);
      NoEarlyEnd(text, rest);
    }
  }

  lemma CDataBranch(s: string)
    requires Begins(s, "![CDATA[")
    ensures ParseNode(s) == ParseCData(s[8..])
  {
    hide ParseCData, ParseElement, UnknownEnd;
    assert s[..8] == "![CDATA[";
    assert s[1] == '[';
  }

  lemma Parts(a: string, b: string)
    ensures (a + b)[..|a|] == a && (a + b)[|a|..] == b && a <= a + b
  {
  }

  lemma CDataText(text: string, rest: string)
    ensures var tail := text + ("]]>" + rest);
      var s := PrintNode(CData(text)) + rest;
      && At(s, 0) == '<' && At(s, 1) == '!' && s != ""
      && Begins(s[1..], "![CDATA[") && |s[1..]| >= 8 && s[1..][8..] == tail
      && |text| + 3 <= |tail| && tail[..|text|] == text && tail[|text| + 3..] == rest
  {
    var tail := text + ("]]>" + rest);
    var s := "<" + ("![CDATA[" + tail);
    assert PrintNode(CData(text)) + rest == s by {
      assert "<![CDATA[" == "<" + "![CDATA[";
    }
    Parts("<", "![CDATA[" + tail);
    Parts("![CDATA[", tail);
    Parts(text, "]]>" + rest);
    Parts("]]>", rest);
    assert tail[|text| + 3..] == tail[|text|..][3..];
  }

  lemma CDataReadsBack(text: string, rest: string)
    requires NoZero(text) && !HasCDataEnd(text)
    ensures var s := PrintNode(CData(text)) + rest;
      At(s, 0) == '<' && At(s, 1) != '/' && ParseNode(s[1..]) == Got([CData(text)], rest)
  {
    hide ParseNode, CDataEnd, HasCDataEnd, PrintNode;
    CDataText(text, rest);
    CDataBranch((PrintNode(CData(text)) + rest)[1..]);
    CDataEndFound(text, rest);
  }

  /** What follows the attributes of a printed element. */
  function PrintEnd(name: string, value: string, children: seq<Node>): string {
    if value == "" && children == [] then "/>" else ">" + PrintInside(value, children) + "</" + name + ">"
  }

  lemma InsideIsNodes(children: seq<Node>)
    requires children != []
    ensures PrintInside(ElementValue(children), children) == PrintNodes(children)
  {
    if |children| == 1 {
      assert PrintNodes(children[1..]) == "";
      assert PrintNode(children[0]) + "" == PrintNode(children[0]);
    }
  }

  lemma NoValueOfNothing()
    ensures ElementValue([]) == ""
  {
  }

  /** A start tag is read as far as what follows the attributes. */
  lemma StartReadsBack(name: string, attributes: seq<Attribute>, rest: string)
    requires LegalName(name, NodeNameClass) && LegalAttributes(attributes)
    requires At(rest, 0) == '/' || At(rest, 0) == '>'
    ensures var s := name + (PrintAttributes(attributes) + rest);
      && Span(s, NodeNameClass) == |name| && s[..|name|] == name
      && ParseAttributes(Skip(s[|name|..], WhiteClass)) == Got(attributes, rest)
  {
    hide Span, ParseAttributes, PrintAttribute;
    var after := PrintAttributes(attributes) + rest;
    var s := name + after;
    assert At(after, 0) == ' ' || after == rest by {
      if attributes != [] { BlankFirst(attributes[0]); }
    }
    SpanExact(name, after, NodeNameClass);
    assert s[..|name|] == name && s[|name|..] == after;
    AttributesReadBack(attributes, rest);
  }

  lemma BlankFirst(a: Attribute)
    ensures PrintAttribute(a) != "" && PrintAttribute(a)[0] == ' '
  {
  }

  lemma Regroup(a: string, b: string, c: string, d: string, e: string)
    ensures a + b + c + d + e == a + (b + (c + (d + e)))
  {
  }

  lemma PrintedElement(n: Node, rest: string)
    requires n.Element?
    ensures PrintNode(n) + rest
         == "<" + (n.name + (PrintAttributes(n.attributes) + (PrintEnd(n.name, n.value, n.children) + rest)))
  {
    hide PrintAttributes, PrintInside;
    var end := PrintEnd(n.name, n.value, n.children);
    assert PrintNode(n) == "<" + n.name + PrintAttributes(n.attributes) + end;
    Regroup("<", n.name, PrintAttributes(n.attributes), end, rest);
  }

  /** What follows the attributes of a printed element is read back. */
  lemma {:induction false} EndReadsBack(n: Node, rest: string)
    requires n.Element? && Normal(n)
    ensures var s := PrintEnd(n.name, n.value, n.children) + rest;
      (At(s, 0) == '/' || At(s, 0) == '>') && ParseAfterStart(s) == Got(n.children, rest)
    decreases n, -1
  {
    hide PrintInside, ParseContents, PrintNodes, ElementValue;
    var end := PrintEnd(n.name, n.value, n.children);
    NoValueOfNothing();
    if n.children == [] {
      Parts("/>", rest);
      assert (end + rest)[1] == '>';
    } else {
      InsideIsNodes(n.children);
      var inside := PrintNodes(n.children) + ("</" + n.name + ">" + rest);
      assert end + rest == ">" + inside;
      Parts(">", inside);
      ContentsReadBack(n.children, n.name, rest, n);
    }
  }

  /** A printed element, from its name on, is read back. */
  lemma {:induction false} ElementReadsBack(n: Node, rest: string)
    requires n.Element? && Normal(n)
    ensures (PrintNode(n) + rest)[0] == '<'
    ensures ParseElement((PrintNode(n) + rest)[1..]) == Got([n], rest)
    decreases n, 0
  {
    hide Span, ParseAttributes, PrintAttributes, PrintEnd, PrintNode, ParseAfterStart, ElementValue, Skip;
    var end := PrintEnd(n.name, n.value, n.children) + rest;
    var s := n.name + (PrintAttributes(n.attributes) + end);
    PrintedElement(n, rest);
    Parts("<", s);
    EndReadsBack(n, rest);
    StartReadsBack(n.name, n.attributes, end);
  }

  /** A closing tag ends the contents. */
  lemma ClosingReadsBack(name: string, rest: string)
    requires LegalName(name, NodeNameClass)
    ensures var s := "</" + name + ">" + rest;
      s[0] == '<' && ParseTag(s) == Got([], rest) && ParseContents(s) == Got([], rest)
  {
    hide Span;
    var s := "</" + name + ">" + rest;
    assert s == "</" + (name + (">" + rest));
    assert s[2..] == name + (">" + rest) && s[1] == '/';
    SpanExact(name, ">" + rest, NodeNameClass);
    assert (name + (">" + rest))[|name|..] == ">" + rest;
    NothingToSkip(">" + rest, WhiteClass);
    assert (">" + rest)[1..] == rest;
    NothingToSkip(s, WhiteClass);
  }

  lemma TagFirst(s: string)
    requires At(s, 0) == '<'
    ensures ParseContents(s) == ParseTag(s)
  {
    hide Span, ParseTag;
    NothingToSkip(s, WhiteClass);
  }

  lemma ElementBranch(s: string)
    requires At(s, 0) != '?' && At(s, 0) != '!'
    ensures ParseNode(s) == ParseElement(s)
  {
    hide ParseElement;
  }

  lemma ElementStart(n: Node, rest: string)
    requires n.Element? && LegalName(n.name, NodeNameClass)
    ensures var s := PrintNode(n) + rest;
      At(s, 0) == '<' && At(s, 1) == n.name[0] && At(s[1..], 0) == n.name[0] && In(n.name[0], NodeNameClass)
  {
    hide PrintAttributes, PrintInside;
    assert PrintNode(n)[1] == n.name[0];
  }

  /** A printed node that is not data begins with a bracket, and its text is read as that node. */
  lemma {:induction false} NodeReadsBack(n: Node, rest: string)
    requires Normal(n) && !n.Data?
    ensures var s := PrintNode(n) + rest;
      At(s, 0) == '<' && At(s, 1) != '/' && ParseNode(s[1..]) == Got([n], rest)
    decreases n, 1
  {
    hide ParseNode, PrintNode;
    match n
    case CData(text) => CDataReadsBack(text, rest);
    case Element(name, value, attributes, children) =>
      ElementReadsBack(n, rest);
      ElementStart(n, rest);
      ElementBranch((PrintNode(n) + rest)[1..]);
  }

  lemma NodeThenContents(n: Node, rest: string)
    requires Normal(n) && !n.Data?
    ensures var s := PrintNode(n) + rest;
      At(s, 0) == '<' && ParseContents(s) == AfterNodes([n], ParseContents(rest))
    decreases n, 2
  {
    hide ParseNode, ParseContents;
    var s := PrintNode(n) + rest;
    NodeReadsBack(n, rest);
    TagFirst(s);
  }

  /** Printed data before a bracket is read as that data. */
  lemma DataThenContents(text: string, rest: string)
    requires Normal(Data(text)) && At(rest, 0) == '<'
    ensures var s := PrintNode(Data(text)) + rest;
      ParseContents(s) == AfterNodes([Data(text)], ParseContents(rest))
  {
    hide Expand, ParseTag, Escape;
    var e := Escape(text, '\0');
    var s := e + rest;
    ExpandEscaped(text, '\0', '<', rest);
    assert s[|e|..] == rest;
    TagFirst(rest);
    EscapedIsText(text, rest);
    var k := Span(s, WhiteClass);
    assert k < |e| && !White(e[k]) && s[k] == e[k];
  }

  lemma EscapedCharIsText(ch: char)
    requires ch != '\0'
    ensures var c := EscapeChar(ch, '\0');
      c != "" && (forall i :: 0 <= i < |c| ==> c[i] != '<' && c[i] != '\0') && (White(ch) ==> c == [ch])
        && (!White(ch) ==> !White(c[0]))
  {
  }

  /** Escaped text has no bracket and no zero in it, and is not all blank if the text was not. */
  lemma {:induction false} EscapedIsText(text: string, rest: string)
    requires NoZero(text)
    ensures var e := Escape(text, '\0');
      && (forall i :: 0 <= i < |e| ==> e[i] != '<' && e[i] != '\0')
      && (!AllWhite(text) ==> Span(e + rest, WhiteClass) < |e|)
  {
    hide EscapeChar;
    if text != "" {
      EscapedIsText(text[1..], rest);
      EscapedCharIsText(text[0]);
      var c := EscapeChar(text[0], '\0');
      var more := Escape(text[1..], '\0');
      var whole := c + more + rest;
      assert whole[0] == c[0];
      if White(text[0]) { assert whole[1..] == more + rest; }
    }
  }

  /** The contents of an element are read back, up to its closing tag. */
  lemma {:induction false} ContentsReadBack(nodes: seq<Node>, name: string, rest: string, parent: Node)
    requires NormalNodes(nodes) && LegalName(name, NodeNameClass) && (parent decreases to nodes)
    ensures ParseContents(PrintNodes(nodes) + ("</" + name + ">" + rest)) == Got(nodes, rest)
    decreases parent, -2, |nodes|
  {
    hide ParseContents, PrintNode, Normal;
    var closing := "</" + name + ">" + rest;
    if nodes == [] {
      assert "" + closing == closing;
      ClosingReadsBack(name, rest);
    } else {
      var more := PrintNodes(nodes[1..]) + closing;
      assert PrintNodes(nodes) + closing == PrintNode(nodes[0]) + more;
      ContentsReadBack(nodes[1..], name, rest, parent);
      assert [nodes[0]] + nodes[1..] == nodes;
      if nodes[0].Data? {
        if |nodes| == 1 {
          assert more == closing by { assert nodes[1..] == []; }
        } else {
          SecondIsTag(nodes[1..], closing);
        }
        DataThenContents(nodes[0].text, more);
      } else {
        NodeThenContents(nodes[0], more);
      }
    }
  }

  lemma SecondIsTag(nodes: seq<Node>, closing: string)
    requires nodes != [] && !nodes[0].Data?
    ensures At(PrintNodes(nodes) + closing, 0) == '<'
  {
    assert PrintNode(nodes[0])[0] == '<';
  }

  /** A document has no data of its own. */
  predicate NormalDocument(nodes: seq<Node>) {
    NormalNodes(nodes) && forall i :: 0 <= i < |nodes| ==> !nodes[i].Data?
  }

  /** Nodes at the top, up to a zero or the end. */
  lemma {:induction false} NodesReadBack(nodes: seq<Node>, tail: string)
    requires NormalDocument(nodes) && At(tail, 0) == '\0'
    ensures ParseNodes(PrintNodes(nodes) + tail) == Got(nodes, tail)
    decreases |nodes|
  {
    hide ParseNode, PrintNode, Normal, Span;
    if nodes == [] {
      assert "" + tail == tail;
      NothingToSkip(tail, WhiteClass);
    } else {
      var more := PrintNodes(nodes[1..]) + tail;
      var s := PrintNode(nodes[0]) + more;
      assert PrintNodes(nodes) + tail == s;
      NodeReadsBack(nodes[0], more);
      NothingToSkip(s, WhiteClass);
      NodesReadBack(nodes[1..], tail);
      assert [nodes[0]] + nodes[1..] == nodes;
    }
  }

  /** Printing without indentation and parsing with the default flags gives the tree back. */
  lemma PrintThenParse(nodes: seq<Node>, tail: string)
    requires NormalDocument(nodes) && At(tail, 0) == '\0'
    ensures ParseDocument(PrintNodes(nodes) + tail) == Got(nodes, tail)
  {
    hide ParseNodes, Normal;
    NodesReadBack(nodes, tail);
    if nodes == [] { assert "" + tail == tail; } else { SecondIsTag(nodes, tail); }
  }
}
