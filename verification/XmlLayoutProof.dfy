/** Every layout of a document is parsed as what it stands for, and nothing but layouts is accepted. */
module XmlLayoutProof {
  import opened Layout
  import opened XmlExpand
  import opened XmlText
  import opened XmlLayout
  import opened XmlPieces

  // ---- The value of an element

  lemma {:induction false} FirstTextOneMore(texts: seq<string>, text: string)
    ensures FirstText(texts + [text]) == if At(FirstText(texts), 0) == '\0' then text else FirstText(texts)
    decreases |texts|
  {
    var all := texts + [text];
    if texts != [] {
      assert all[1..] == texts[1..] + [text];
      FirstTextOneMore(texts[1..], text);
      if |texts| == 1 { assert all[1..] == [text]; }
    }
  }

  /** The texts among nodes. */
  function DataTexts(nodes: seq<Node>): seq<string> {
    if nodes == [] then []
    else
      var last := nodes[|nodes| - 1];
      DataTexts(nodes[..|nodes| - 1]) + if last.Data? then [last.text] else []
  }

  lemma {:induction false} ValueIsFirstText(nodes: seq<Node>)
    ensures ElementValue(nodes) == FirstText(DataTexts(nodes))
    decreases |nodes|
  {
    hide FirstText;
    if nodes == [] {
      NoTexts();
    } else {
      var front, last := nodes[..|nodes| - 1], nodes[|nodes| - 1];
      ValueIsFirstText(front);
      if last.Data? { FirstTextOneMore(DataTexts(front), last.text); }
      else { assert DataTexts(front) + [] == DataTexts(front); }
    }
  }

  lemma NoTexts()
    ensures FirstText([]) == ""
  {
  }

  lemma {:induction false} TextsConcat(a: seq<Node>, b: seq<Node>)
    ensures DataTexts(a + b) == DataTexts(a) + DataTexts(b)
    decreases |b|
  {
    if b == [] {
      assert a + b == a;
      assert DataTexts(a) + [] == DataTexts(a);
    } else {
      var front := b[..|b| - 1];
      TextsConcat(a, front);
      assert (a + b)[..|a + b| - 1] == a + front;
    }
  }

  lemma {:induction false} TextsArePlain(items: seq<Placed>)
    ensures DataTexts(Plain(items)) == Texts(items)
    decreases |items|
  {
    hide Means, PlainAttributes;
    if items != [] {
      TextsArePlain(items[1..]);
      TextsConcat(PlainNode(items[0].node), Plain(items[1..]));
      TextsOfOne(items[0].node);
    }
  }

  lemma TextsOfOne(n: Laid)
    ensures DataTexts(PlainNode(n)) == if n.Text? then [Means(n.pieces)] else []
  {
    hide Means, PlainAttributes, FirstText, Texts;
    var nodes := PlainNode(n);
    if nodes != [] { assert nodes[..0] == []; }
  }

  lemma PlainValue(items: seq<Placed>)
    ensures ElementValue(Plain(items)) == FirstText(Texts(items))
  {
    ValueIsFirstText(Plain(items));
    TextsArePlain(items);
  }

  // ---- Nodes that are not elements

  lemma {:induction false} NoEndIsNoCDataEnd(text: string)
    ensures NoEnd(text) <==> !HasCDataEnd(text)
    decreases |text|
  {
    if text != "" { NoEndIsNoCDataEnd(text[1..]); }
  }

  lemma SectionRead(text: string, rest: string)
    requires LegalNode(Section(text))
    ensures var s := SpellNode(Section(text), rest);
      At(s, 0) == '<' && At(s, 1) == '!' && s != "" && ParseNode(s[1..]) == Got([CData(text)], rest)
  {
    hide NoEnd, ParseNode;
    NoEndIsNoCDataEnd(text);
    NoZeroIs(text);
    CDataReadsBack(text, rest);
    CDataText(text, rest);
    assert SpellNode(Section(text), rest) == PrintNode(CData(text)) + rest;
  }

  lemma NoZeroIs(text: string)
    ensures NoneOf(text, "\0") <==> NoZero(text)
  {
  }

  /** The end of a CDATA section: before it there is neither zero nor another one. */
  lemma {:induction false} EndFound(s: string)
    requires CDataEnd(s) != -1
    ensures var k := CDataEnd(s);
      NoneOf(s[..k], "\0") && NoEnd(s[..k]) && s == s[..k] + ("]]>" + s[k + 3..])
    decreases |s|
  {
    var k := CDataEnd(s);
    if k == 0 {
      assert s[..3] == "]]>";
    } else {
      EndFound(s[1..]);
      OneMoreInFront(s, k);
      PrefixOfPrefix("]]>", s, k);
    }
  }

  lemma OneMoreInFront(s: string, k: nat)
    requires 0 < k && k + 3 <= |s| && s[1..] == s[1..][..k - 1] + ("]]>" + s[1..][k - 1 + 3..])
    ensures s == s[..k] + ("]]>" + s[k + 3..]) && s[..k][1..] == s[1..][..k - 1] && s[..k][0] == s[0]
  {
    assert s[1..][..k - 1] == s[1..k] && s[1..][k - 1 + 3..] == s[k + 3..];
    assert s == [s[0]] + s[1..] && s[..k] == [s[0]] + s[1..k];
  }

  lemma PrefixOfPrefix(w: string, s: string, k: nat)
    requires k <= |s| && !(w <= s)
    ensures !(w <= s[..k])
  {
  }

  lemma SectionFound(s: string) returns (n: Laid)
    requires Begins(s, "![CDATA[") && ParseNode(s).Got?
    ensures LegalNode(n) && n.Section? && "<" + s == SpellNode(n, ParseNode(s).rest)
    ensures ParseNode(s).value == PlainNode(n)
  {
    hide ParseNode, CDataEnd, NoEnd;
    CDataBranch(s);
    var t := s[8..];
    EndFound(t);
    n := Section(t[..CDataEnd(t)]);
    assert s == "![CDATA[" + t;
    assert "<" + ("![CDATA[" + t) == "<![CDATA[" + t;
  }

  lemma {:induction false} UnknownEndRead(text: string, rest: string)
    requires NoneOf(text, ">\0")
    ensures UnknownEnd(text + (">" + rest)) == |text|
    decreases |text|
  {
    var s := text + (">" + rest);
    if text != "" {
      assert ">\0" == ['>', '\0'];
      assert s[1..] == text[1..] + (">" + rest);
      UnknownEndRead(text[1..], rest);
    }
  }

  lemma NoneOfNothing()
    ensures NoneOf("", ">\0")
  {
  }

  lemma {:induction false} UnknownEndFound(s: string)
    requires UnknownEnd(s) != -1
    ensures var k := UnknownEnd(s);
      NoneOf(s[..k], ">\0") && s == s[..k] + (">" + s[k + 1..])
    decreases |s|
  {
    hide NoneOf;
    var k := UnknownEnd(s);
    NoneOfNothing();
    if k == 0 {
      assert s == "" + (">" + s[1..]);
    } else {
      assert ">\0" == ['>', '\0'];
      UnknownEndFound(s[1..]);
      OneBeforeBracket(s, k);
    }
  }

  lemma OneBeforeBracket(s: string, k: nat)
    requires 0 < k < |s| && s[1..] == s[1..][..k - 1] + (">" + s[1..][k..])
    requires NoneOf(s[1..][..k - 1], ">\0") && s[0] !in ">\0"
    ensures s == s[..k] + (">" + s[k + 1..]) && NoneOf(s[..k], ">\0")
  {
    assert s[1..][..k - 1] == s[1..k] && s[1..][k..] == s[k + 1..];
    assert s == [s[0]] + s[1..] && s[..k] == [s[0]] + s[1..k];
  }

  /** What the words after an exclamation mark are, said of the text between it and the bracket. */
  lemma WordsAfterMark(text: string, rest: string)
    requires NoneOf(text, ">\0")
    ensures var s := "!" + (text + (">" + rest));
      && (Begins(s, "!--") <==> "--" <= text) && (Begins(s, "![CDATA[") <==> "[CDATA[" <= text)
      && (Begins(s, "!DOCTYPE") && White(At(s, 8)) <==> "DOCTYPE" <= text && |text| > 7 && Blank(text[7]))
  {
    var t := text + (">" + rest);
    var s := "!" + t;
    MarkBehind("!--", "--", t);
    MarkBehind("![CDATA[", "[CDATA[", t);
    MarkBehind("!DOCTYPE", "DOCTYPE", t);
    PrefixStays("--", text, ">" + rest);
    PrefixStays("[CDATA[", text, ">" + rest);
    PrefixStays("DOCTYPE", text, ">" + rest);
    assert |text| > 7 ==> s[8] == text[7];
    assert |text| == 7 ==> s[8] == '>';
  }

  lemma MarkBehind(w: string, w': string, more: string)
    requires w == "!" + w'
    ensures Begins("!" + more, w) <==> w' <= more
  {
    if Begins("!" + more, w) { assert w[1..] == w' && ("!" + more)[1..] == more; }
    if w' <= more { assert "!" + more == "!" + (w' + more[|w'|..]) == w + more[|w'|..]; }
  }

  lemma IgnoredParsed(text: string, rest: string)
    requires NoneOf(text, ">\0") && !("--" <= text) && !("[CDATA[" <= text)
    requires !("DOCTYPE" <= text && |text| > 7 && Blank(text[7]))
    ensures ParseNode("!" + (text + (">" + rest))) == Got([], rest)
  {
    hide UnknownEnd, ParseNode, NoneOf, Begins, White, Blank;
    var t := text + (">" + rest);
    var s := "!" + t;
    WordsAfterMark(text, rest);
    UnknownEndRead(text, rest);
    Parts("!", t);
    UnknownBranch(s);
    Parts("!" + text, ">" + rest);
    Parts(">", rest);
    assert s == "!" + text + (">" + rest);
    assert s[|text| + 2..] == s[|text| + 1..][1..] == rest;
  }

  lemma IgnoredRead(text: string, rest: string)
    requires LegalNode(Ignored(text))
    ensures var s := SpellNode(Ignored(text), rest);
      At(s, 0) == '<' && At(s, 1) == '!' && s != "" && ParseNode(s[1..]) == Got([], rest)
  {
    hide ParseNode, NoneOf;
    IgnoredParsed(text, rest);
    var s := "!" + (text + (">" + rest));
    assert SpellNode(Ignored(text), rest) == "<" + s;
    Parts("<", s);
  }

  /** What is neither a comment, a CDATA section nor a document type is skipped up to its bracket. */
  lemma UnknownBranch(s: string)
    requires At(s, 0) == '!' && !Begins(s, "!--") && !Begins(s, "![CDATA[")
    requires !(Begins(s, "!DOCTYPE") && White(At(s, 8)))
    ensures s != ""
    ensures var k := UnknownEnd(s[1..]);
      ParseNode(s) == if k == -1 then Throws else Got([], s[k + 2..])
  {
    hide UnknownEnd, ParseElement, ParseCData, Begins, White;
  }

  lemma IgnoredFound(s: string) returns (n: Laid)
    requires At(s, 0) == '!' && !Begins(s, "![CDATA[") && ParseNode(s).Got?
    ensures LegalNode(n) && n.Ignored? && "<" + s == SpellNode(n, ParseNode(s).rest)
    ensures ParseNode(s).value == PlainNode(n)
  {
    hide UnknownEnd, ParseElement, ParseCData, NoneOf;
    var k := UnknownEnd(s[1..]);
    UnknownEndFound(s[1..]);
    var text, rest := s[1..][..k], s[1..][k + 1..];
    assert s[k + 2..] == rest;
    assert s == "!" + (text + (">" + rest));
    WordsAfterMark(text, rest);
    n := Ignored(text);
    assert "<" + ("!" + (text + (">" + rest))) == "<!" + (text + (">" + rest));
  }

  // ---- Elements

  lemma ClosingRead(closing: string, closingTail: string, rest: string)
    requires NoneOf(closing, NO_NODE_NAME) && Blanks(closingTail)
    ensures var s := "</" + (closing + (closingTail + (">" + rest)));
      At(s, 0) == '<' && ParseTag(s) == Got([], rest)
  {
    hide Skip, NO_NODE_NAME;
    var after := closingTail + (">" + rest);
    var s := "</" + (closing + after);
    assert s[2..] == closing + after && s[1] == '/';
    if closingTail != "" { BlankEnds(closingTail[0]); } else { BracketsEnd(); }
    SpansNode(closing, after);
    SkipsBlanks(closingTail, ">" + rest);
    assert (">" + rest)[1..] == rest;
  }

  lemma BracketsEnd()
    ensures '>' in NO_NODE_NAME && '/' in NO_NODE_NAME && '?' in NO_NODE_NAME
  {
    assert NO_NODE_NAME[5] == '>' && NO_NODE_NAME[4] == '/' && NO_NODE_NAME[6] == '?';
  }

  lemma ClosingFound(s: string) returns (closing: string, closingTail: string)
    requires At(s, 0) == '<' && At(s, 1) == '/' && ParseTag(s).Got?
    ensures NoneOf(closing, NO_NODE_NAME) && Blanks(closingTail)
    ensures s == "</" + (closing + (closingTail + (">" + ParseTag(s).rest))) && ParseTag(s).value == []
  {
    hide Skip, NO_NODE_NAME;
    closing := NodeNameFound(s[2..]);
    var after := Skip(s[2..], NodeNameClass);
    closingTail := BlanksFound(after);
    var a := Skip(after, WhiteClass);
    assert a == ">" + a[1..];
    assert s == "</" + s[2..];
  }

  /** What ends the name of a tag: a blank or the end of the tag. */
  lemma AfterTagName(attributes: seq<LaidAttribute>, tail: string, rest: string)
    requires AllLegal(attributes) && (attributes != [] ==> attributes[0].lead != "")
    requires Blanks(tail) && (At(rest, 0) == '/' || At(rest, 0) == '>')
    ensures At(SpellAttributes(attributes, tail + rest), 0) in NO_NODE_NAME
  {
    hide NO_NODE_NAME, NO_ATTRIBUTE_NAME, SpellPieces;
    BracketsEnd();
    if attributes != [] { BlankEnds(attributes[0].lead[0]); }
    else if tail != "" { BlankEnds(tail[0]); }
  }

  lemma BodyBegins(body: Body, rest: string)
    ensures At(SpellBody(body, rest), 0) == '/' || At(SpellBody(body, rest), 0) == '>'
  {
  }

  function PlainBody(body: Body): seq<Node> {
    match body
    case Alone => []
    case Holds(items, _, _, _) => Plain(items)
  }

  lemma PlainTag(n: Laid)
    requires n.Tag?
    ensures var children := PlainBody(n.body);
      PlainNode(n) == [Element(n.name, ElementValue(children), PlainAttributes(n.attributes), children)]
  {
    hide Plain, Texts, FirstText, PlainAttributes;
    match n.body
    case Alone => NoValueOfNothing();
    case Holds(items, _, _, _) => PlainValue(items);
  }

  lemma NotNamed(ch: char)
    requires ch !in NO_NODE_NAME
    ensures ch != '/' && ch != '?'
  {
    BracketsEnd();
  }

  /** A start tag, from its name on, is read as far as its body. */
  lemma TagRead(n: Laid, rest: string)
    requires LegalNode(n) && n.Tag?
    ensures var s := n.name + SpellAttributes(n.attributes, n.tail + SpellBody(n.body, rest));
      && SpellNode(n, rest) == "<" + s && At(s, 0) == n.name[0] && n.name[0] != '/'
      && ParseNode(s) == match ParseAfterStart(SpellBody(n.body, rest))
                         case Got(children, after) =>
                           Got([Element(n.name, ElementValue(children), PlainAttributes(n.attributes), children)],
                             after)
                         case other => other
  {
    hide Skip, NO_NODE_NAME, SpellAttributes, SpellBody, ParseAttributes, ParseAfterStart, ElementValue, AllLegal,
         LegalBody, Span, ParseNode;
    var b := SpellBody(n.body, rest);
    var a := SpellAttributes(n.attributes, n.tail + b);
    var s := n.name + a;
    BodyBegins(n.body, rest);
    AfterTagName(n.attributes, n.tail, b);
    SpansNode(n.name, a);
    NameBegins(n.name, NO_NODE_NAME);
    NotNamed(n.name[0]);
    ElementBranch(s);
    NameSkipped(s);
    AttributesRead(n.attributes, n.tail, b);
  }

  lemma NameSkipped(s: string)
    ensures Skip(s, NodeNameClass) == s[Span(s, NodeNameClass)..]
  {
  }

  /** A node that is no text is read as what it stands for. */
  lemma {:induction false} NodeRead(n: Laid, rest: string)
    requires LegalNode(n) && !n.Text?
    ensures var s := SpellNode(n, rest);
      At(s, 0) == '<' && At(s, 1) != '/' && s != "" && ParseNode(s[1..]) == Got(PlainNode(n), rest)
    decreases n, 0
  {
    hide ParseNode, SpellNode;
    match n
    case Section(text) => SectionRead(text, rest);
    case Ignored(text) => IgnoredRead(text, rest);
    case Tag(_, _, _, body) =>
      hide PlainNode;
      TagRead(n, rest);
      BodyRead(body, rest);
      PlainTag(n);
  }

  /** The body of a tag is read as its nodes. */
  lemma {:induction false} BodyRead(body: Body, rest: string)
    requires LegalBody(body)
    ensures ParseAfterStart(SpellBody(body, rest)) == Got(PlainBody(body), rest)
    decreases body, 0
  {
    hide ParseContents, SpellItems, Plain, LegalItems;
    match body
    case Alone =>
      assert ("/>" + rest)[1] == '>' && ("/>" + rest)[2..] == rest;
    case Holds(items, last, closing, closingTail) =>
      var end := "</" + (closing + (closingTail + (">" + rest)));
      Parts(">", SpellItems(items, last, end));
      ClosingRead(closing, closingTail, rest);
      ItemsRead(items, last, end, rest);
  }

  /** Text is followed by a tag at once. */
  lemma TagAtOnce(items: seq<Placed>, last: string, end: string)
    requires LegalItems(items, last) && BeginsTag(items, last) && At(end, 0) == '<'
    ensures At(SpellItems(items, last, end), 0) == '<'
  {
    if items == [] { assert "" + end == end; }
    else { assert "" + SpellNode(items[0].node, SpellItems(items[1..], last, end))
               == SpellNode(items[0].node, SpellItems(items[1..], last, end)); }
  }

  /** A text that shows begins, behind its blanks, with something else than a bracket. */
  lemma {:induction false} TextShows(pieces: seq<Piece>, rest: string)
    requires LegalPieces(pieces, '<') && Shows(pieces) && At(rest, 0) == '<'
    ensures var a := Skip(SpellPieces(pieces, rest), WhiteClass); At(a, 0) != '<' && At(a, 0) != '\0'
    decreases |pieces|
  {
    hide Skip, FrontReference, PieceMeans, LegalPiece;
    var p, more := pieces[0], SpellPieces(pieces[1..], rest);
    PiecesBefore(pieces[1..], rest);
    LegalBefore(p, '<', SpellPieces(pieces[1..], ""), rest);
    PieceFront(p, '<', more);
    var w := SpellPiece(p);
    if p.Raw? && Blank(p.ch) {
      OneBlankMore(p.ch, more);
      TextShows(pieces[1..], rest);
    } else {
      assert !Blank(w[0]) && (w + more)[0] == w[0];
      SkipsBlanks("", w + more);
      assert "" + (w + more) == w + more;
    }
  }

  lemma OneBlankMore(ch: char, more: string)
    requires Blank(ch)
    ensures Skip([ch] + more, WhiteClass) == Skip(more, WhiteClass)
  {
    assert ([ch] + more)[1..] == more;
  }

  lemma TextRead(pieces: seq<Piece>, rest: string)
    requires LegalNode(Text(pieces)) && At(rest, 0) == '<'
    ensures ParseContents(SpellPieces(pieces, rest)) == AfterNodes([Data(Means(pieces))], ParseContents(rest))
  {
    hide Expand, ParseTag, SpellPieces, LegalPieces, Means, Skip, Shows;
    PiecesRead(pieces, '<', rest);
    TextShows(pieces, rest);
    TagFirst(rest);
    var s := SpellPieces(pieces, rest);
    if s == rest { BracketFirst(rest); }
  }

  lemma BracketFirst(s: string)
    requires At(s, 0) == '<'
    ensures Skip(s, WhiteClass) == s
  {
    NothingToSkip(s, WhiteClass);
  }

  /** Blanks and a tag. */
  lemma TagBehindBlanks(lead: string, s: string)
    requires Blanks(lead) && At(s, 0) == '<'
    ensures ParseContents(lead + s) == ParseTag(s)
  {
    hide Skip, ParseTag;
    SkipsBlanks(lead, s);
  }

  /** The contents of an element, up to its closing tag. */
  lemma {:induction false} ItemsRead(items: seq<Placed>, last: string, end: string, rest: string)
    requires LegalItems(items, last) && At(end, 0) == '<' && ParseTag(end) == Got([], rest)
    ensures ParseContents(SpellItems(items, last, end)) == Got(Plain(items), rest)
    decreases items, 1
  {
    hide ParseContents, SpellNode, PlainNode, ParseNode;
    if items == [] {
      TagBehindBlanks(last, end);
    } else {
      var n, more := items[0].node, SpellItems(items[1..], last, end);
      ItemsRead(items[1..], last, end, rest);
      if n.Text? {
        hide LegalNode;
        TagAtOnce(items[1..], last, end);
        TextRead(n.pieces, more);
        TextIs(n, more);
        assert "" + SpellNode(n, more) == SpellNode(n, more);
      } else {
        NodeRead(n, more);
        TagBehindBlanks(items[0].lead, SpellNode(n, more));
      }
    }
  }

  lemma TextIs(n: Laid, rest: string)
    requires n.Text?
    ensures SpellNode(n, rest) == SpellPieces(n.pieces, rest) && PlainNode(n) == [Data(Means(n.pieces))]
  {
  }

  // ---- Nothing else is accepted

  lemma AfterNodesGot(done: seq<Node>, r: Result<seq<Node>>)
    requires AfterNodes(done, r).Got?
    ensures r.Got? && AfterNodes(done, r) == Got(done + r.value, r.rest)
  {
  }

  /** What ParseElement has read of the start tag. */
  lemma ElementParts(s: string)
    requires ParseElement(s).Got?
    ensures var n := Span(s, NodeNameClass);
      var start := ParseAttributes(Skip(s[n..], WhiteClass));
      && n > 0 && start.Got? && |start.rest| < |s| && ParseAfterStart(start.rest).Got?
      && var children := ParseAfterStart(start.rest).value;
         ParseElement(s) == Got([Element(s[..n], ElementValue(children), start.value, children)],
                                ParseAfterStart(start.rest).rest)
  {
    hide ParseAttributes, ParseAfterStart, ElementValue;
  }

  /** A parsed element, from its name on, is a tag. */
  lemma {:induction false} ElementFound(s: string) returns (n: Laid)
    requires ParseElement(s).Got? && At(s, 0) != '!'
    ensures LegalNode(n) && n.Tag? && "<" + s == SpellNode(n, ParseElement(s).rest)
    ensures ParseElement(s).value == PlainNode(n)
    decreases |s|, 5
  {
    hide Skip, ParseAttributes, ParseAfterStart, ElementValue, Span, ParseElement, NO_NODE_NAME, NO_ATTRIBUTE_NAME,
         SpellAttributes, SpellBody, LegalBody, PlainAttributes, PlainNode, PlainBody, AllLegal;
    ElementParts(s);
    var name := NodeNameFound(s);
    var after := s[|name|..];
    var attributes, tail := AttributesFound(after);
    var start := ParseAttributes(Skip(after, WhiteClass));
    var body := BodyFound(start.rest);
    n := Tag(name, attributes, tail, body);
    LeadNeeded(after);
    PlainTag(n);
    SpelledTag(n, s, ParseElement(s).rest);
  }

  lemma SpelledTag(n: Laid, s: string, rest: string)
    requires n.Tag? && s == n.name + SpellAttributes(n.attributes, n.tail + SpellBody(n.body, rest))
    ensures "<" + s == SpellNode(n, rest)
  {
    hide SpellAttributes, SpellBody;
  }

  /** A name that ends is followed by no character of an attribute's name. */
  lemma LeadNeeded(s: string)
    ensures At(s, 0) in NO_NODE_NAME && s != "" ==> s[0] in NO_ATTRIBUTE_NAME
  {
    assert NO_NODE_NAME == [' ', '\n', '\r', '\t', '/', '>', '?', '\0'];
    assert NO_ATTRIBUTE_NAME == [' ', '\n', '\r', '\t', '/', '<', '>', '=', '?', '!', '\0'];
  }

  lemma {:induction false} NodeFound(s: string) returns (n: Laid)
    requires ParseNode(s).Got?
    ensures LegalNode(n) && !n.Text? && "<" + s == SpellNode(n, ParseNode(s).rest)
    ensures ParseNode(s).value == PlainNode(n)
    decreases |s|, 6
  {
    hide ParseElement, ParseNode, SpellNode, LegalNode, PlainNode;
    NotDeclaration(s);
    if At(s, 0) == '!' {
      if Begins(s, "![CDATA[") { n := SectionFound(s); } else { n := IgnoredFound(s); }
    } else {
      ElementBranch(s);
      n := ElementFound(s);
    }
  }

  lemma NotDeclaration(s: string)
    requires ParseNode(s).Got?
    ensures At(s, 0) != '?'
  {
    hide ParseElement, ParseCData, UnknownEnd;
  }

  lemma {:induction false} BodyFound(s: string) returns (body: Body)
    requires ParseAfterStart(s).Got?
    ensures LegalBody(body) && s == SpellBody(body, ParseAfterStart(s).rest)
    ensures ParseAfterStart(s).value == PlainBody(body)
    decreases |s|, 4
  {
    hide ParseContents, LegalItems, SpellItems, Plain, NoneOf, Blanks;
    if At(s, 0) == '>' {
      var items, last, closing, closingTail := ItemsFound(s[1..]);
      body := Holds(items, last, closing, closingTail);
      assert s == ">" + s[1..];
    } else {
      body := Alone;
      assert s == "/>" + s[2..];
    }
  }

  function End(closing: string, closingTail: string, rest: string): string {
    "</" + (closing + (closingTail + (">" + rest)))
  }

  /** Parsed contents are nodes, blanks and a closing tag. */
  lemma {:induction false} ItemsFound(s: string)
    returns (items: seq<Placed>, last: string, closing: string, closingTail: string)
    requires ParseContents(s).Got?
    ensures LegalItems(items, last) && NoneOf(closing, NO_NODE_NAME) && Blanks(closingTail)
    ensures s == SpellItems(items, last, End(closing, closingTail, ParseContents(s).rest))
    ensures ParseContents(s).value == Plain(items)
    decreases |s|, 3
  {
    hide Skip, ParseTag, ParseContents, SpellNode, PlainNode, NO_NODE_NAME, NoneOf, Blanks, LegalNode, End, Expand;
    var lead := BlanksFound(s);
    var a := Skip(s, WhiteClass);
    if At(a, 0) == '<' {
      TagBehindBlanks(lead, a);
      items, last, closing, closingTail := TagItemsFound(a);
      items, last := WithLead(lead, items, last, End(closing, closingTail, ParseContents(s).rest));
    } else {
      var k := TextParts(s);
      var pieces := PiecesFound(s, '<');
      var text := Text(pieces);
      TextShown(pieces, s[k..]);
      var others;
      others, last, closing, closingTail := TagItemsFound(s[k..]);
      TextLegal(pieces);
      items := [Placed("", text)] + others;
      assert items[1..] == others;
      TextIs(text, s[k..]);
      assert "" + s == s;
      NoBlanks();
    }
  }

  lemma NoBlanks()
    ensures Blanks("")
  {
  }

  lemma TextLegal(pieces: seq<Piece>)
    requires LegalPieces(pieces, '<') && Shows(pieces)
    ensures LegalNode(Text(pieces))
  {
  }

  lemma TextParts(s: string) returns (k: nat)
    requires ParseContents(s).Got? && At(Skip(s, WhiteClass), 0) != '<'
    ensures Expand(s, '<').Expanded? && k == Expand(s, '<').taken && 0 < k <= |s| && At(s[k..], 0) == '<'
    ensures ParseTag(s[k..]).Got?
    ensures ParseContents(s) == AfterNodes([Data(Expand(s, '<').text)], ParseTag(s[k..]))
  {
    hide Skip, Expand, ParseTag;
    k := Expand(s, '<').taken;
    AfterNodesGot([Data(Expand(s, '<').text)], ParseTag(s[k..]));
  }

  /** A text behind whose blanks something else than a bracket begins shows. */
  lemma {:induction false} TextShown(pieces: seq<Piece>, rest: string)
    requires LegalPieces(pieces, '<') && At(rest, 0) == '<'
    requires At(Skip(SpellPieces(pieces, rest), WhiteClass), 0) != '<'
    ensures Shows(pieces)
    decreases |pieces|
  {
    hide Skip, PieceMeans, LegalPiece;
    if pieces == [] {
      BracketFirst(rest);
    } else if pieces[0].Raw? && Blank(pieces[0].ch) {
      OneBlankMore(pieces[0].ch, SpellPieces(pieces[1..], rest));
      TextShown(pieces[1..], rest);
    }
  }

  /** Blanks before nodes that begin at once. */
  lemma WithLead(lead: string, items: seq<Placed>, last: string, rest: string)
    returns (items': seq<Placed>, last': string)
    requires Blanks(lead) && LegalItems(items, last) && BeginsTag(items, last)
    ensures LegalItems(items', last') && Plain(items') == Plain(items)
    ensures SpellItems(items', last', rest) == lead + SpellItems(items, last, rest)
  {
    hide SpellNode, PlainNode, LegalNode, Blanks;
    if items == [] {
      items', last' := [], lead;
      assert "" + rest == rest;
    } else {
      items', last' := [Placed(lead, items[0].node)] + items[1..], last;
      assert items'[1..] == items[1..];
      var text := SpellNode(items[0].node, SpellItems(items[1..], last, rest));
      assert "" + text == text;
    }
  }

  /** What begins with a bracket. */
  lemma {:induction false} TagItemsFound(s: string)
    returns (items: seq<Placed>, last: string, closing: string, closingTail: string)
    requires At(s, 0) == '<' && ParseTag(s).Got?
    ensures LegalItems(items, last) && NoneOf(closing, NO_NODE_NAME) && Blanks(closingTail) && BeginsTag(items, last)
    ensures s == SpellItems(items, last, End(closing, closingTail, ParseTag(s).rest))
    ensures ParseTag(s).value == Plain(items)
    decreases |s|, 2
  {
    hide ParseTag, ParseContents, ParseNode, SpellNode, PlainNode, NO_NODE_NAME, NoneOf, Blanks, LegalNode;
    NoBlanks();
    if At(s, 1) == '/' {
      items, last := [], "";
      closing, closingTail := ClosingFound(s);
      assert "" + s == s;
    } else {
      hide End;
      TagParts(s);
      var n := NodeFound(s[1..]);
      var others;
      others, last, closing, closingTail := ItemsFound(ParseNode(s[1..]).rest);
      items := [Placed("", n)] + others;
      assert items[1..] == others;
      assert s == "<" + s[1..];
      assert "" + s == s;
    }
  }

  lemma TagParts(s: string)
    requires At(s, 0) == '<' && At(s, 1) != '/' && ParseTag(s).Got?
    ensures ParseNode(s[1..]).Got? && ParseContents(ParseNode(s[1..]).rest).Got?
    ensures ParseTag(s) == AfterNodes(ParseNode(s[1..]).value, ParseContents(ParseNode(s[1..]).rest))
  {
    hide ParseNode, ParseContents;
    AfterNodesGot(ParseNode(s[1..]).value, ParseContents(ParseNode(s[1..]).rest));
  }

  // ---- Documents

  predicate NoText(items: seq<Placed>) {
    forall i :: 0 <= i < |items| ==> !items[i].node.Text?
  }

  /** Nodes with blanks around them and no text of their own, up to a zero or the end. */
  predicate Document(s: string, items: seq<Placed>, last: string, rest: string) {
    NoText(items) && LegalItems(items, last) && At(rest, 0) == '\0' && s == SpellItems(items, last, rest)
  }

  lemma {:induction false} DocumentRead(items: seq<Placed>, last: string, rest: string)
    requires NoText(items) && LegalItems(items, last) && At(rest, 0) == '\0'
    ensures ParseNodes(SpellItems(items, last, rest)) == Got(Plain(items), rest)
    decreases |items|
  {
    hide Skip, ParseNode, SpellNode, PlainNode, LegalNode;
    if items == [] {
      SkipsBlanks(last, rest);
    } else {
      var n, more := items[0].node, SpellItems(items[1..], last, rest);
      DocumentRead(items[1..], last, rest);
      NodeRead(n, more);
      SkipsBlanks(items[0].lead, SpellNode(n, more));
    }
  }

  lemma {:induction false} DocumentFound(s: string) returns (items: seq<Placed>, last: string)
    requires ParseNodes(s).Got?
    ensures Document(s, items, last, ParseNodes(s).rest) && ParseNodes(s).value == Plain(items)
    decreases |s|
  {
    hide Skip, ParseNode, SpellNode, PlainNode, LegalNode, Blanks;
    var lead := BlanksFound(s);
    var a := Skip(s, WhiteClass);
    if At(a, 0) == '\0' {
      items, last := [], lead;
    } else {
      var n := NodeFound(a[1..]);
      var rest := ParseNode(a[1..]).rest;
      AfterNodesGot(ParseNode(a[1..]).value, ParseNodes(rest));
      var others;
      others, last := DocumentFound(rest);
      items := [Placed(lead, n)] + others;
      assert items[1..] == others;
      assert a == "<" + a[1..];
    }
  }

  /** The byte order mark, in UTF-8. */
  const MARK := "\U{00EF}\U{00BB}\U{00BF}"

  /** A text is parsed, up to a zero, if and only if it is a layout of nodes up to there, with a byte order mark before
      it or not; and what it is parsed to is what the layout stands for. */
  lemma ParsesExactlyTheLayouts(s: string, nodes: seq<Node>, rest: string)
    ensures ParseDocument(s) == Got(nodes, rest) <==>
      exists items, last, text ::
        Document(text, items, last, rest) && (s == text || s == MARK + text) && Plain(items) == nodes
  {
    hide ParseNodes, Document, Plain, SkipBom;
    if ParseDocument(s) == Got(nodes, rest) {
      var items, last := DocumentFound(SkipBom(s));
      MarkSkipped(s);
    }
    forall items, last, text | Document(text, items, last, rest) && (s == text || s == MARK + text)
      ensures ParseDocument(s) == Got(Plain(items), rest)
    {
      LayoutParsed(s, text, items, last, rest);
    }
  }

  lemma MarkSkipped(s: string)
    ensures s == SkipBom(s) || s == MARK + SkipBom(s)
  {
    if SkipBom(s) != s { assert s == s[..3] + s[3..]; }
  }

  lemma LayoutParsed(s: string, text: string, items: seq<Placed>, last: string, rest: string)
    requires Document(text, items, last, rest) && (s == text || s == MARK + text)
    ensures ParseDocument(s) == Got(Plain(items), rest)
  {
    hide ParseNodes, Plain, LegalItems, SpellItems;
    DocumentRead(items, last, rest);
    DocumentBegins(text, items, last, rest);
    if s != text { assert s[..3] == MARK && s[3..] == text; }
  }

  lemma DocumentBegins(text: string, items: seq<Placed>, last: string, rest: string)
    requires Document(text, items, last, rest)
    ensures Blank(At(text, 0)) || At(text, 0) == '<' || At(text, 0) == '\0'
  {
    hide SpellPieces, LegalPieces;
    if items == [] {
      assert text == last + rest;
    } else {
      var node := SpellNode(items[0].node, SpellItems(items[1..], last, rest));
      assert text == items[0].lead + node && node[0] == '<';
    }
  }
}
