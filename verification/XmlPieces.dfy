/** Names, values and attributes of an XML layout: they are parsed as what they stand for, and what is parsed as such is
    laid out so. */
module XmlPieces {
  import opened Layout
  import opened XmlExpand
  import opened XmlText
  import opened XmlLayout
  import G = JsonGrammar
  import X = XmlReferences

  // ---- Classes of characters

  lemma NodeNameIs(ch: char)
    ensures In(ch, NodeNameClass) <==> ch !in NO_NODE_NAME
  {
    assert NO_NODE_NAME == [' ', '\n', '\r', '\t', '/', '>', '?', '\0'];
  }

  lemma AttributeNameIs(ch: char)
    ensures In(ch, AttributeNameClass) <==> ch !in NO_ATTRIBUTE_NAME
  {
    assert NO_ATTRIBUTE_NAME == [' ', '\n', '\r', '\t', '/', '<', '>', '=', '?', '!', '\0'];
  }

  lemma SkipsBlanks(b: string, s: string)
    requires Blanks(b) && !Blank(At(s, 0))
    ensures Skip(b + s, WhiteClass) == s
  {
    hide Span;
    SpanExact(b, s, WhiteClass);
    assert (b + s)[|b|..] == s;
  }

  lemma SpansNode(name: string, s: string)
    requires NoneOf(name, NO_NODE_NAME) && At(s, 0) in NO_NODE_NAME
    ensures Span(name + s, NodeNameClass) == |name| && (name + s)[..|name|] == name && (name + s)[|name|..] == s
    ensures Skip(name + s, NodeNameClass) == s
  {
    hide Span, In, NO_NODE_NAME;
    forall i | 0 <= i < |name| ensures In(name[i], NodeNameClass) { NodeNameIs(name[i]); }
    NodeNameIs(At(s, 0));
    SpanExact(name, s, NodeNameClass);
  }

  lemma SpansAttribute(name: string, s: string)
    requires NoneOf(name, NO_ATTRIBUTE_NAME) && At(s, 0) in NO_ATTRIBUTE_NAME
    ensures Span(name + s, AttributeNameClass) == |name| && (name + s)[..|name|] == name && (name + s)[|name|..] == s
  {
    hide Span, In, NO_ATTRIBUTE_NAME;
    forall i | 0 <= i < |name| ensures In(name[i], AttributeNameClass) { AttributeNameIs(name[i]); }
    AttributeNameIs(At(s, 0));
    SpanExact(name, s, AttributeNameClass);
  }

  /** The blanks at the front, and what follows them. */
  lemma BlanksFound(s: string) returns (b: string)
    ensures s == b + Skip(s, WhiteClass) && Blanks(b) && !Blank(At(Skip(s, WhiteClass), 0))
  {
    b := s[..Span(s, WhiteClass)];
  }

  lemma NodeNameFound(s: string) returns (name: string)
    ensures s == name + Skip(s, NodeNameClass) && NoneOf(name, NO_NODE_NAME)
    ensures At(Skip(s, NodeNameClass), 0) in NO_NODE_NAME
    ensures |name| == Span(s, NodeNameClass) && name == s[..|name|] && s[|name|..] == Skip(s, NodeNameClass)
  {
    hide In, NO_NODE_NAME;
    name := s[..Span(s, NodeNameClass)];
    forall i | 0 <= i < |name| ensures name[i] !in NO_NODE_NAME { NodeNameIs(name[i]); }
    NodeNameIs(At(Skip(s, NodeNameClass), 0));
    ZeroEnds();
  }

  lemma ZeroEnds()
    ensures '\0' in NO_NODE_NAME && '\0' in NO_ATTRIBUTE_NAME && !In('\0', NodeNameClass)
      && !In('\0', AttributeNameClass)
  {
    assert NO_NODE_NAME[7] == '\0' && NO_ATTRIBUTE_NAME[10] == '\0';
  }

  lemma AttributeNameFound(s: string) returns (name: string)
    ensures var n := Span(s, AttributeNameClass);
      s == name + s[n..] && NoneOf(name, NO_ATTRIBUTE_NAME) && |name| == n && name == s[..n]
  {
    hide In, NO_ATTRIBUTE_NAME;
    name := s[..Span(s, AttributeNameClass)];
    forall i | 0 <= i < |name| ensures name[i] !in NO_ATTRIBUTE_NAME { AttributeNameIs(name[i]); }
  }

  // ---- Figures

  lemma FigureDigit(f: Figure)
    ensures Digit(SpellFigure(f)) == f.value && SpellFigure(f) != 'x' && SpellFigure(f) != ';'
  {
    var v := f.value;
    if v < 8 {
      assert LOWER[0] == '0' && LOWER[1] == '1' && LOWER[2] == '2' && LOWER[3] == '3';
      assert LOWER[4] == '4' && LOWER[5] == '5' && LOWER[6] == '6' && LOWER[7] == '7';
    }
  }

  lemma {:induction false} FiguresNumber(figures: seq<Figure>, base: nat)
    ensures X.NumberIn(SpellFigures(figures), base) == NumberOf(figures, base)
    decreases |figures|
  {
    hide SpellFigure, Digit;
    if figures != [] {
      var front := figures[..|figures| - 1];
      FiguresNumber(front, base);
      FigureDigit(figures[|figures| - 1]);
      assert SpellFigures(figures)[..|figures| - 1] == SpellFigures(front);
    }
  }

  lemma {:induction false} FiguresCount(figures: seq<Figure>, rest: string)
    ensures DigitCount(SpellFigures(figures) + (";" + rest)) == |figures|
    decreases |figures|
  {
    hide SpellFigure, Digit;
    var s := SpellFigures(figures) + (";" + rest);
    if figures == [] {
      assert s[0] == ';';
      Semicolon();
    } else {
      FigureDigit(figures[0]);
      assert SpellFigures(figures)[1..] == SpellFigures(figures[1..]);
      assert s[1..] == SpellFigures(figures[1..]) + (";" + rest);
      FiguresCount(figures[1..], rest);
    }
  }

  lemma Semicolon()
    ensures Digit(';') == 255
  {
  }

  /** Digits of both kinds are figures. */
  lemma {:induction false} FiguresFound(w: string) returns (figures: seq<Figure>)
    requires forall i :: 0 <= i < |w| ==> Digit(w[i]) != 255
    ensures SpellFigures(figures) == w
    decreases |w|
  {
    hide Digit, SpellFigure;
    if w == "" {
      figures := [];
    } else {
      var f := FigureFound(w[0]);
      var more := FiguresFound(w[1..]);
      figures := [f] + more;
      assert SpellFigures(figures) == [SpellFigure(f)] + SpellFigures(more);
    }
  }

  lemma FigureFound(ch: char) returns (f: Figure)
    requires Digit(ch) != 255
    ensures SpellFigure(f) == ch
  {
    var v := Digit(ch);
    f := Figure(v, 'A' <= ch <= 'F');
  }

  // ---- References

  predicate Stops(stop: char) {
    stop in ['<', '\'', '"']
  }

  lemma {:induction false} PiecesBefore(pieces: seq<Piece>, rest: string)
    ensures SpellPieces(pieces, rest) == SpellPieces(pieces, "") + rest
    decreases |pieces|
  {
    if pieces == [] {
      assert "" + rest == rest;
    } else {
      PiecesBefore(pieces[1..], rest);
      var p, more := SpellPiece(pieces[0]), SpellPieces(pieces[1..], "");
      assert p + (more + rest) == p + more + rest;
    }
  }

  lemma PrefixStays(w: string, a: string, rest: string)
    requires rest != "" && rest[0] !in w
    ensures w <= a + rest <==> w <= a
  {
    var ch := rest[0];
    assert (a + rest)[|a|] == ch;
    assert w <= a + rest && |w| > |a| ==> ch in w;
  }

  lemma RefersBefore(a: string, rest: string)
    requires rest != "" && Stops(rest[0])
    ensures Refers(a + rest) <==> Refers(a)
  {
    PrefixStays("amp;", a, rest);
    PrefixStays("apos;", a, rest);
    PrefixStays("quot;", a, rest);
    PrefixStays("gt;", a, rest);
    PrefixStays("lt;", a, rest);
    PrefixStays("#", a, rest);
  }

  /** An ampersand is copied exactly if it begins no reference. */
  lemma Ampersand(more: string)
    ensures FrontReference("&" + more) == Copied <==> !Refers(more)
  {
    hide Numeric;
    var s := "&" + more;
    Behind("&amp;", "amp;", more);
    Behind("&apos;", "apos;", more);
    Behind("&quot;", "quot;", more);
    Behind("&gt;", "gt;", more);
    Behind("&lt;", "lt;", more);
    Behind("&#", "#", more);
    Behind("&#x", "#x", more);
    if "#x" <= more { assert more[..2][..1] == "#"; }
    if Begins(s, "&#") { NumericFront(s); NumericNotCopied(s, 3, 16); NumericNotCopied(s, 2, 10); }
  }

  lemma NumericNotCopied(s: string, start: nat, base: nat)
    ensures Numeric(s, start, base) != Copied
  {
  }

  lemma Behind(w: string, w': string, more: string)
    requires w == "&" + w'
    ensures Begins("&" + more, w) <==> w' <= more
  {
    if Begins("&" + more, w) { assert w[1..] == w' && ("&" + more)[1..] == more; }
    if w' <= more { assert "&" + more == "&" + (w' + more[|w'|..]) == w + more[|w'|..]; }
  }

  lemma NamedFront(ch: char, more: string)
    requires ch in ['&', '\'', '"', '>', '<']
    ensures var w := SpellPiece(Named(ch)); w[0] == '&' && FrontReference(w + more) == Replaces([ch], |w|)
  {
    hide Numeric;
    var w := SpellPiece(Named(ch));
    var s := w + more;
    assert s[..|w|] == w;
    if ch == '\'' { assert s[2] == 'p'; }
    if ch == '"' { assert s[1] == 'q'; }
    if ch == '>' { assert s[1] == 'g'; }
    if ch == '<' { assert s[1] == 'l'; }
  }

  lemma NumberFront(hex: bool, figures: seq<Figure>, more: string)
    requires CodePoint(hex, figures) < 0x110000
    ensures var w := SpellPiece(Number(hex, figures));
      w[0] == '&' && FrontReference(w + more) == Replaces(G.Utf8(CodePoint(hex, figures)), |w|)
  {
    hide DigitCount, CodeOf, NumberOf, X.NumberIn, G.Utf8, SpellFigure, FrontReference;
    var head, start, base := if hex then "&#x" else "&#", if hex then 3 else 2, if hex then 16 else 10;
    var digits := SpellFigures(figures);
    var s := head + (digits + (";" + more));
    assert SpellPiece(Number(hex, figures)) + more == s;
    Parts(head, digits + (";" + more));
    Parts(digits, ";" + more);
    assert s[..2] == "&#";
    assert s[start + |digits|] == ';';
    if !hex && figures != [] { FigureDigit(figures[0]); assert s[2] == SpellFigure(figures[0]); }
    NumericFront(s);
    FiguresCount(figures, more);
    X.CodeIsWrapped(digits, base);
    FiguresNumber(figures, base);
  }

  lemma PieceFront(p: Piece, stop: char, more: string)
    requires LegalPiece(p, stop, more) && Stops(stop)
    ensures var w := SpellPiece(p);
      && w != "" && Inside(w[0], stop)
      && (|| FrontReference(w + more) == Replaces(PieceMeans(p), |w|)
          || (FrontReference(w + more) == Copied && |w| == 1 && PieceMeans(p) == w))
  {
    hide FrontReference, G.Utf8, CodePoint, Refers;
    match p
    case Raw(ch) => if ch == '&' { Ampersand(more); } else { CopiedUnlessAmpersand([ch] + more); }
    case Named(ch) => NamedFront(ch, more);
    case Number(hex, figures) => NumberFront(hex, figures, more);
  }

  /** What is replaced or copied at the front is expanded first. */
  lemma FrontExpanded(w: string, text: string, stop: char, more: string)
    requires w != "" && Inside(w[0], stop)
    requires FrontReference(w + more) == Replaces(text, |w|)
      || (FrontReference(w + more) == Copied && |w| == 1 && text == w)
    ensures Expand(w + more, stop) == Before(text, |w|, Expand(more, stop))
  {
    hide FrontReference;
    Parts(w, more);
    assert (w + more)[0] == w[0];
  }

  /** Pieces are expanded to what they mean, up to the character that ends them. */
  lemma {:induction false} PiecesRead(pieces: seq<Piece>, stop: char, rest: string)
    requires LegalPieces(pieces, stop) && Stops(stop) && At(rest, 0) == stop
    ensures var s := SpellPieces(pieces, rest);
      var k := |s| - |rest|;
      0 <= k && Expand(s, stop) == Expanded(Means(pieces), k) && s[k..] == rest
    decreases |pieces|
  {
    hide FrontReference, PieceMeans, SpellPiece, LegalPiece, Expand, Inside, Stops, G.Utf8;
    if pieces == [] {
      EndExpands(rest, stop);
    } else {
      var p, more := pieces[0], SpellPieces(pieces[1..], rest);
      PiecesRead(pieces[1..], stop, rest);
      PiecesBefore(pieces[1..], rest);
      LegalBefore(p, stop, SpellPieces(pieces[1..], ""), rest);
      PieceFront(p, stop, more);
      var w := SpellPiece(p);
      FrontExpanded(w, PieceMeans(p), stop, more);
      var k := |more| - |rest|;
      assert (w + more)[|w| + k..] == more[k..];
    }
  }

  lemma EndExpands(rest: string, stop: char)
    requires At(rest, 0) == stop
    ensures Expand(rest, stop) == Expanded("", 0)
  {
  }

  lemma LegalBefore(p: Piece, stop: char, more: string, rest: string)
    requires Stops(stop) && At(rest, 0) == stop
    ensures LegalPiece(p, stop, more + rest) <==> LegalPiece(p, stop, more)
  {
    hide Refers;
    RefersBefore(more, rest);
  }

  /** How much is replaced, or copied, at the front of a text, and what is put there. */
  function FrontLength(s: string): nat {
    if FrontReference(s).Replaces? then FrontReference(s).length else 1
  }

  function FrontText(s: string): string
    requires s != ""
  {
    if FrontReference(s).Replaces? then FrontReference(s).text else [s[0]]
  }

  /** What is replaced at the front of a text is a piece. */
  lemma PieceFound(s: string, stop: char) returns (p: Piece, more: string)
    requires s != "" && Inside(s[0], stop) && !FrontReference(s).Broken?
    ensures s == SpellPiece(p) + more && LegalPiece(p, stop, more)
    ensures PieceMeans(p) == FrontText(s) && 0 < FrontLength(s) <= |s| && more == s[FrontLength(s)..]
  {
    hide G.Utf8, Refers, Numeric;
    if FrontReference(s) == Copied {
      p, more := Raw(s[0]), s[1..];
      assert [s[0]] + more == s;
      if s[0] == '&' { Ampersand(more); }
    } else if Begins(s, "&#") {
      p, more := NumberFound(s);
    } else {
      var ch := FrontReference(s).text[0];
      p, more := Named(ch), s[FrontReference(s).length..];
    }
  }

  /** A number with figures that were found. */
  lemma FiguresBetween(s: string, hex: bool) returns (figures: seq<Figure>)
    requires var start := if hex then 3 else 2;
      |s| >= start && s[..start] == if hex then "&#x" else "&#"
    requires var start := if hex then 3 else 2;
      At(s, start + DigitCount(s[start..])) == ';'
    ensures var start, base := if hex then 3 else 2, if hex then 16 else 10;
      var n := DigitCount(s[start..]);
      && start + n + 1 <= |s| && s == SpellPiece(Number(hex, figures)) + s[start + n + 1..]
      && CodePoint(hex, figures) == CodeOf(s[start..][..n], base)
  {
    hide DigitCount, CodeOf, NumberOf, X.NumberIn, G.Utf8, SpellFigure, FrontReference, Digit;
    var head, start, base := if hex then "&#x" else "&#", if hex then 3 else 2, if hex then 16 else 10;
    var from := s[start..];
    var n := DigitCount(from);
    figures := FiguresFound(from[..n]);
    SplitNumber(s, head, n);
    assert s == SpellPiece(Number(hex, figures)) + s[start + n + 1..];
    X.CodeIsWrapped(from[..n], base);
    FiguresNumber(figures, base);
  }

  lemma SplitNumber(s: string, head: string, n: nat)
    requires |head| + n < |s| && s[..|head|] == head && s[|head| + n] == ';'
    ensures s == head + (s[|head|..][..n] + ";") + s[|head| + n + 1..]
  {
  }

  lemma NumberFound(s: string) returns (p: Piece, more: string)
    requires Begins(s, "&#") && !FrontReference(s).Broken?
    ensures p.Number? && s == SpellPiece(p) + more && CodePoint(p.hex, p.figures) < 0x110000
    ensures FrontReference(s).Replaces? && FrontReference(s).text == PieceMeans(p)
      && 0 < FrontReference(s).length <= |s| && more == s[FrontReference(s).length..]
  {
    hide DigitCount, CodeOf, CodePoint, G.Utf8, FrontReference, SpellPiece;
    NumericFront(s);
    var hex := At(s, 2) == 'x';
    var start := if hex then 3 else 2;
    assert s[..2] == "&#";
    assert s[..start] == if hex then "&#x" else "&#";
    var figures := FiguresBetween(s, hex);
    p, more := Number(hex, figures), s[start + DigitCount(s[start..]) + 1..];
  }

  /** Whatever is expanded is made of pieces. */
  lemma {:induction false} PiecesFound(s: string, stop: char) returns (pieces: seq<Piece>)
    requires Stops(stop) && Expand(s, stop).Expanded? && At(s[Expand(s, stop).taken..], 0) == stop
    ensures LegalPieces(pieces, stop) && Means(pieces) == Expand(s, stop).text
    ensures s == SpellPieces(pieces, s[Expand(s, stop).taken..])
    decreases |s|
  {
    hide FrontReference, PieceMeans, SpellPiece, LegalPiece, FrontText, FrontLength;
    if !Inside(At(s, 0), stop) {
      pieces := [];
    } else {
      NotBroken(s, stop);
      var p, more := PieceFound(s, stop);
      var rest := s[Expand(s, stop).taken..];
      TakenMore(s, stop, more);
      var others := PiecesFound(more, stop);
      pieces := [p] + others;
      assert pieces[1..] == others;
      PiecesBefore(others, rest);
      LegalBefore(p, stop, SpellPieces(others, ""), rest);
    }
  }

  lemma NotBroken(s: string, stop: char)
    requires Expand(s, stop).Expanded? && Inside(At(s, 0), stop)
    ensures !FrontReference(s).Broken?
  {
    hide FrontReference;
  }

  lemma TakenMore(s: string, stop: char, more: string)
    requires Expand(s, stop).Expanded? && Inside(At(s, 0), stop) && s != ""
    requires !FrontReference(s).Broken? && 0 < FrontLength(s) <= |s| && more == s[FrontLength(s)..]
    ensures Expand(more, stop).Expanded? && |more| < |s|
      && Expand(s, stop).text == FrontText(s) + Expand(more, stop).text
    ensures more[Expand(more, stop).taken..] == s[Expand(s, stop).taken..]
  {
    hide FrontReference;
  }

  // ---- Attributes

  lemma QuoteStops(quote: char)
    requires quote in ['\'', '"']
    ensures Stops(quote) && !Blank(quote) && (quote == '\'' || quote == '"')
  {
  }

  /** A quoted value and the blanks behind it. */
  lemma ValueRead(quote: char, value: seq<Piece>, more: string)
    requires quote in ['\'', '"'] && LegalPieces(value, quote)
    ensures ParseValue([quote] + SpellPieces(value, [quote] + more)) == Got(Means(value), Skip(more, WhiteClass))
  {
    hide Expand, Skip, SpellPieces, LegalPieces, Means;
    QuoteStops(quote);
    var rest := [quote] + more;
    var s := SpellPieces(value, rest);
    PiecesRead(value, quote, rest);
    Parts([quote], s);
    Parts([quote], more);
    var k := |s| - |rest|;
    assert ([quote] + s)[1 + k..] == s[k..];
  }

  lemma ValueFound(s: string) returns (quote: char, value: seq<Piece>, more: string)
    requires ParseValue(s).Got?
    ensures quote in ['\'', '"'] && LegalPieces(value, quote)
    ensures s == [quote] + SpellPieces(value, [quote] + more)
    ensures ParseValue(s) == Got(Means(value), Skip(more, WhiteClass))
  {
    hide Expand, Skip, SpellPieces, LegalPieces, Means, Stops;
    quote := At(s, 0);
    QuoteStops(quote);
    var k := Expand(s[1..], quote).taken;
    assert s[1..][k..] == s[1 + k..];
    value := PiecesFound(s[1..], quote);
    more := s[1 + k..][1..];
    assert s[1 + k..] == [quote] + more;
    assert s == [quote] + s[1..];
  }

  lemma AfterNameRead(a: LaidAttribute, more: string)
    requires LegalAttribute(a)
    ensures var value := [a.quote] + SpellPieces(a.value, [a.quote] + more);
      && AfterName(a.before + ("=" + (a.after + value))) == Got(Means(a.value), Skip(more, WhiteClass))
      && At(a.before + ("=" + (a.after + value)), 0) in NO_ATTRIBUTE_NAME
  {
    hide Skip, SpellPieces, LegalPieces, Means, ParseValue;
    var value := [a.quote] + SpellPieces(a.value, [a.quote] + more);
    QuoteStops(a.quote);
    SkipsBlanks(a.before, "=" + (a.after + value));
    assert ("=" + (a.after + value))[1..] == a.after + value;
    SkipsBlanks(a.after, value);
    ValueRead(a.quote, a.value, more);
    if a.before != "" { BlankEnds(a.before[0]); } else { EqualsEnds(); }
  }

  lemma BlankEnds(ch: char)
    requires Blank(ch)
    ensures ch in NO_ATTRIBUTE_NAME && ch in NO_NODE_NAME
  {
    assert NO_NODE_NAME[..4] == NO_ATTRIBUTE_NAME[..4] == [' ', '\n', '\r', '\t'];
    assert ch in NO_NODE_NAME[..4];
  }

  lemma EqualsEnds()
    ensures '=' in NO_ATTRIBUTE_NAME
  {
    assert NO_ATTRIBUTE_NAME[7] == '=';
  }

  lemma NameBegins(name: string, excluded: string)
    requires name != "" && NoneOf(name, excluded)
    ensures name[0] !in excluded
  {
  }

  lemma NameIsNoBlank(ch: char)
    requires ch !in NO_ATTRIBUTE_NAME || ch !in NO_NODE_NAME
    ensures !Blank(ch)
  {
    if Blank(ch) { BlankEnds(ch); }
  }

  lemma AttributeRead(a: LaidAttribute, more: string)
    requires LegalAttribute(a)
    ensures ParseAttributes(Skip(SpellAttribute(a, more), WhiteClass))
         == match ParseAttributes(Skip(more, WhiteClass))
            case Got(others, after) => Got([Attribute(a.name, Means(a.value))] + others, after)
            case other => other
  {
    hide Skip, SpellPieces, LegalPieces, Means, AfterName, Span, NO_ATTRIBUTE_NAME, In;
    var after := a.before + ("=" + (a.after + ([a.quote] + SpellPieces(a.value, [a.quote] + more))));
    AfterNameRead(a, more);
    NameBegins(a.name, NO_ATTRIBUTE_NAME);
    NameIsNoBlank(a.name[0]);
    SkipsBlanks(a.lead, a.name + after);
    SpansAttribute(a.name, after);
    AttributeNameIs(a.name[0]);
  }

  /** Attributes, and the blanks behind the last, up to what ends the tag. */
  lemma {:induction false} AttributesRead(attributes: seq<LaidAttribute>, tail: string, rest: string)
    requires AllLegal(attributes) && Blanks(tail) && (At(rest, 0) == '/' || At(rest, 0) == '>')
    ensures ParseAttributes(Skip(SpellAttributes(attributes, tail + rest), WhiteClass))
         == Got(PlainAttributes(attributes), rest)
    decreases |attributes|
  {
    hide SpellAttribute, Skip, AfterName, LegalAttribute;
    if attributes == [] {
      SkipsBlanks(tail, rest);
    } else {
      AttributeRead(attributes[0], SpellAttributes(attributes[1..], tail + rest));
      AttributesRead(attributes[1..], tail, rest);
    }
  }

  lemma AfterNameFound(s: string) returns (before: string, after: string, quote: char, value: seq<Piece>, more: string)
    requires AfterName(s).Got?
    ensures Blanks(before) && Blanks(after) && quote in ['\'', '"'] && LegalPieces(value, quote)
    ensures s == before + ("=" + (after + ([quote] + SpellPieces(value, [quote] + more))))
    ensures AfterName(s) == Got(Means(value), Skip(more, WhiteClass)) && |more| < |s|
  {
    hide Skip, SpellPieces, LegalPieces, Means, ParseValue;
    before := BlanksFound(s);
    var a := Skip(s, WhiteClass);
    assert a == "=" + a[1..];
    after := BlanksFound(a[1..]);
    quote, value, more := ValueFound(Skip(a[1..], WhiteClass));
    PiecesLength(value, [quote] + more);
  }

  lemma {:induction false} PiecesLength(pieces: seq<Piece>, rest: string)
    ensures |SpellPieces(pieces, rest)| >= |rest|
    decreases |pieces|
  {
    if pieces != [] { PiecesLength(pieces[1..], rest); }
  }

  /** Whatever is parsed as attributes is laid out as attributes. */
  lemma {:induction false} AttributesFound(s: string) returns (attributes: seq<LaidAttribute>, tail: string)
    requires ParseAttributes(Skip(s, WhiteClass)).Got?
    ensures var r := ParseAttributes(Skip(s, WhiteClass));
      && AllLegal(attributes) && Blanks(tail)
      && s == SpellAttributes(attributes, tail + r.rest) && r.value == PlainAttributes(attributes)
    ensures attributes != [] && attributes[0].lead == "" ==> s != "" && s[0] !in NO_ATTRIBUTE_NAME
    decreases |s|
  {
    hide Skip, SpellPieces, LegalPieces, Means, AfterName, Span, NO_ATTRIBUTE_NAME, In;
    var lead := BlanksFound(s);
    var a := Skip(s, WhiteClass);
    AttributeNameIs(At(a, 0));
    if !In(At(a, 0), AttributeNameClass) {
      attributes, tail := [], lead;
    } else {
      ZeroEnds();
      var name := AttributeNameFound(a);
      SpanOne(a);
      var before, after, quote, value, more := AfterNameFound(a[|name|..]);
      var others;
      others, tail := AttributesFound(more);
      attributes := [LaidAttribute(lead, name, before, after, quote, value)] + others;
      assert attributes[1..] == others;
    }
  }

  lemma SpanOne(s: string)
    requires s != "" && In(s[0], AttributeNameClass)
    ensures Span(s, AttributeNameClass) > 0
  {
  }
}
