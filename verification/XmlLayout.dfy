/** How an XML document without comments, declarations, processing instructions and document types can be laid out,
    and that these layouts are all the parser accepts: said of the characters themselves. */
module XmlLayout {
  import opened Layout
  import opened XmlExpand
  import opened XmlText
  import G = JsonGrammar
  import X = XmlReferences

  // ---- Characters and their references

  /** What stands for a character: itself, the name of one of five, or the number of its code point. */
  datatype Piece =
    | Raw(ch: char)
    | Named(ch: char)
    | Number(hex: bool, figures: seq<Figure>)

  function SpellPiece(p: Piece): string {
    match p
    case Raw(ch) => [ch]
    case Named('&') => "&amp;"
    case Named('\'') => "&apos;"
    case Named('"') => "&quot;"
    case Named('>') => "&gt;"
    case Named(_) => "&lt;"
    case Number(true, figures) => "&#x" + (SpellFigures(figures) + ";")
    case Number(false, figures) => "&#" + (SpellFigures(figures) + ";")
  }

  /** The text of pieces before `rest`. */
  function SpellPieces(pieces: seq<Piece>, rest: string): string {
    if pieces == [] then rest else SpellPiece(pieces[0]) + SpellPieces(pieces[1..], rest)
  }

  const WORD_LIMIT: int := 0x1_0000_0000_0000_0000

  /** A number is taken in a word of 64 bits; the figures above nine are taken in decimal numbers, too. */
  function CodePoint(hex: bool, figures: seq<Figure>): nat {
    NumberOf(figures, if hex then 16 else 10) % WORD_LIMIT
  }

  function PieceMeans(p: Piece): string {
    match p
    case Raw(ch) => [ch]
    case Named(ch) => [ch]
    case Number(hex, figures) => G.Utf8(CodePoint(hex, figures))
  }

  function Means(pieces: seq<Piece>): string {
    if pieces == [] then "" else PieceMeans(pieces[0]) + Means(pieces[1..])
  }

  /** What makes a reference of an ampersand before it. */
  predicate Refers(s: string) {
    "amp;" <= s || "apos;" <= s || "quot;" <= s || "gt;" <= s || "lt;" <= s || "#" <= s
  }

  /** A piece before others and the character that ends them: an ampersand stands for itself if it begins no
      reference. */
  predicate LegalPiece(p: Piece, stop: char, more: string) {
    match p
    case Raw(ch) => ch != stop && ch != '\0' && (ch == '&' ==> !Refers(more))
    case Named(ch) => ch in ['&', '\'', '"', '>', '<']
    case Number(hex, figures) => CodePoint(hex, figures) < 0x110000
  }

  predicate LegalPieces(pieces: seq<Piece>, stop: char) {
    pieces == [] || (LegalPiece(pieces[0], stop, SpellPieces(pieces[1..], "")) && LegalPieces(pieces[1..], stop))
  }

  // ---- Layouts

  datatype LaidAttribute = LaidAttribute(lead: string, name: string, before: string, after: string, quote: char,
                                         value: seq<Piece>)

  /** A node; one that begins with an exclamation mark and is not recognised is ignored. */
  datatype Laid =
    | Tag(name: string, attributes: seq<LaidAttribute>, tail: string, body: Body)
    | Text(pieces: seq<Piece>)
    | Section(text: string)
    | Ignored(text: string)

  /** What follows the attributes: nothing, or nodes, blanks and a closing tag, whose name may be any. */
  datatype Body = Alone | Holds(items: seq<Placed>, last: string, closing: string, closingTail: string)

  /** A node with blanks before it. */
  datatype Placed = Placed(lead: string, node: Laid)

  /** The text of an attribute before `rest`. */
  function SpellAttribute(a: LaidAttribute, rest: string): string {
    a.lead + (a.name + (a.before + ("=" + (a.after + ([a.quote] + SpellPieces(a.value, [a.quote] + rest))))))
  }

  function SpellAttributes(attributes: seq<LaidAttribute>, rest: string): string {
    if attributes == [] then rest else SpellAttribute(attributes[0], SpellAttributes(attributes[1..], rest))
  }

  function SpellNode(n: Laid, rest: string): string
    decreases n, 0
  {
    match n
    case Tag(name, attributes, tail, body) => "<" + (name + SpellAttributes(attributes, tail + SpellBody(body, rest)))
    case Text(pieces) => SpellPieces(pieces, rest)
    case Section(text) => "<![CDATA[" + (text + ("]]>" + rest))
    case Ignored(text) => "<!" + (text + (">" + rest))
  }

  function SpellBody(body: Body, rest: string): string
    decreases body, 0
  {
    match body
    case Alone => "/>" + rest
    case Holds(items, last, closing, closingTail) =>
      ">" + SpellItems(items, last, "</" + (closing + (closingTail + (">" + rest))))
  }

  /** Nodes, and the blanks behind the last. */
  function SpellItems(items: seq<Placed>, last: string, rest: string): string
    decreases items, 1
  {
    if items == [] then last + rest
    else items[0].lead + SpellNode(items[0].node, SpellItems(items[1..], last, rest))
  }

  const NO_NODE_NAME := " \n\r\t/>?\0"
  const NO_ATTRIBUTE_NAME := " \n\r\t/<>=?!\0"

  predicate LegalAttribute(a: LaidAttribute) {
    && Blanks(a.lead) && Blanks(a.before) && Blanks(a.after)
    && a.name != "" && NoneOf(a.name, NO_ATTRIBUTE_NAME)
    && a.quote in ['\'', '"'] && LegalPieces(a.value, a.quote)
  }

  predicate AllLegal(attributes: seq<LaidAttribute>) {
    attributes == [] || (LegalAttribute(attributes[0]) && AllLegal(attributes[1..]))
  }

  /** Whether a text has more in it than blanks. */
  predicate Shows(pieces: seq<Piece>) {
    pieces != [] && ((pieces[0].Raw? && Blank(pieces[0].ch)) ==> Shows(pieces[1..]))
  }

  /** Whether the end of a CDATA section is nowhere in a text. */
  predicate NoEnd(text: string) {
    text == "" || (!("]]>" <= text) && NoEnd(text[1..]))
  }

  predicate LegalNode(n: Laid)
    decreases n, 0
  {
    match n
    case Tag(name, attributes, tail, body) =>
      && name != "" && name[0] != '!' && NoneOf(name, NO_NODE_NAME)
      && AllLegal(attributes) && (attributes != [] ==> attributes[0].lead != "")
      && Blanks(tail) && LegalBody(body)
    case Text(pieces) => LegalPieces(pieces, '<') && Shows(pieces)
    case Section(text) => NoneOf(text, "\0") && NoEnd(text)
    case Ignored(text) =>
      && NoneOf(text, ">\0") && !("--" <= text) && !("[CDATA[" <= text)
      && !("DOCTYPE" <= text && |text| > 7 && Blank(text[7]))
  }

  predicate LegalBody(body: Body)
    decreases body, 0
  {
    match body
    case Alone => true
    case Holds(items, last, closing, closingTail) =>
      LegalItems(items, last) && NoneOf(closing, NO_NODE_NAME) && Blanks(closingTail)
  }

  /** Blanks beside a text belong to it, and two texts that meet are one. */
  predicate LegalItems(items: seq<Placed>, last: string)
    decreases items, 1
  {
    if items == [] then Blanks(last)
    else
      && Blanks(items[0].lead) && LegalNode(items[0].node) && LegalItems(items[1..], last)
      && (items[0].node.Text? ==> items[0].lead == "" && BeginsTag(items[1..], last))
  }

  predicate BeginsTag(items: seq<Placed>, last: string) {
    if items == [] then last == "" else items[0].lead == "" && !items[0].node.Text?
  }

  // ---- What a layout stands for

  /** The first text that does not begin with zero, or else the last one. */
  function FirstText(texts: seq<string>): string {
    if texts == [] then ""
    else if |texts| == 1 || (texts[0] != "" && texts[0][0] != '\0') then texts[0]
    else FirstText(texts[1..])
  }

  function Texts(items: seq<Placed>): seq<string> {
    if items == [] then []
    else (if items[0].node.Text? then [Means(items[0].node.pieces)] else []) + Texts(items[1..])
  }

  function PlainAttributes(attributes: seq<LaidAttribute>): seq<Attribute> {
    if attributes == [] then []
    else [Attribute(attributes[0].name, Means(attributes[0].value))] + PlainAttributes(attributes[1..])
  }

  /** The node a layout stands for, or none. */
  function PlainNode(n: Laid): seq<Node>
    decreases n, 0
  {
    match n
    case Tag(name, attributes, _, Alone) => [Element(name, "", PlainAttributes(attributes), [])]
    case Tag(name, attributes, _, Holds(items, _, _, _)) =>
      [Element(name, FirstText(Texts(items)), PlainAttributes(attributes), Plain(items))]
    case Text(pieces) => [Data(Means(pieces))]
    case Section(text) => [CData(text)]
    case Ignored(_) => []
  }

  function Plain(items: seq<Placed>): seq<Node>
    decreases items, 1
  {
    if items == [] then [] else PlainNode(items[0].node) + Plain(items[1..])
  }
}
