/** How a JSON text can be laid out for the reader, by its flags: said of the characters themselves. */
module JsonLayout {
  import opened Layout
  import opened JsonEvents
  import opened JsonLiterals
  import opened JsonNumerals
  import N = JsonNumbers
  import R = ReaderSpec

  // ---- What can stand between two tokens

  datatype Filler =
    | Space(ch: char)
    | LineComment(text: string)
    | BlockComment(text: string)

  /** The text of a filler before `rest`. */
  function SpellFiller(f: Filler, rest: string): string {
    match f
    case Space(ch) => [ch] + rest
    case LineComment(text) => "//" + (text + ("\n" + rest))
    case BlockComment(text) => "/*" + (text + ("*/" + rest))
  }

  function SpellFillers(fillers: seq<Filler>, rest: string): string {
    if fillers == [] then rest else SpellFiller(fillers[0], SpellFillers(fillers[1..], rest))
  }

  /** Whether the end of a block comment is nowhere in a text. */
  predicate NoClose(text: string) {
    text == "" || (!("*/" <= text) && NoClose(text[1..]))
  }

  predicate LegalFiller(f: Filler, comments: bool) {
    match f
    case Space(ch) => Blank(ch)
    case LineComment(text) => comments && NoneOf(text, "\n\0")
    case BlockComment(text) => comments && NoneOf(text, "\0") && NoClose(text)
  }

  predicate LegalFillers(fillers: seq<Filler>, comments: bool) {
    fillers == [] || (LegalFiller(fillers[0], comments) && LegalFillers(fillers[1..], comments))
  }

  // ---- Values

  type Fillers = seq<Filler>

  datatype Laid =
    | NullWord
    | TrueWord
    | FalseWord
    | Number(n: Numeral)
    | Quoted(parts: seq<Part>)
    | Array(elements: seq<LaidElement>, end: Ending)
    | Object(members: seq<LaidMember>, end: Ending)

  datatype LaidElement = LaidElement(before: Fillers, value: Laid, after: Fillers)

  datatype LaidMember = LaidMember(before: Fillers, name: seq<Part>, afterName: Fillers, afterColon: Fillers,
    value: Laid,
                                   after: Fillers)

  /** What stands before a closing bracket: nothing, a comma behind the last element, or what fills an empty
      container. */
  datatype Ending = Nothing | Comma(fillers: Fillers) | Inside(fillers: Fillers)

  function SpellEnding(end: Ending, bracket: char, rest: string): string {
    match end
    case Nothing => [bracket] + rest
    case Comma(fillers) => "," + SpellFillers(fillers, [bracket] + rest)
    case Inside(fillers) => SpellFillers(fillers, [bracket] + rest)
  }

  function SpellString(parts: seq<Part>, rest: string): string {
    "\"" + SpellParts(parts, "\"" + rest)
  }

  /** The text of a value before `rest`. */
  function SpellValue(v: Laid, rest: string): string
    decreases v, 0
  {
    match v
    case NullWord => "null" + rest
    case TrueWord => "true" + rest
    case FalseWord => "false" + rest
    case Number(n) => SpellNumeral(n, rest)
    case Quoted(parts) => SpellString(parts, rest)
    case Array(elements, end) => "[" + SpellElements(elements, SpellEnding(end, ']', rest))
    case Object(members, end) => "{" + SpellMembers(members, SpellEnding(end, '}', rest))
  }

  /** Elements with a comma between any two. */
  function SpellElements(elements: seq<LaidElement>, rest: string): string
    decreases elements, 2
  {
    if elements == [] then rest else SpellFillers(elements[0].before, FromElement(elements, rest))
  }

  /** The same from the first value on. */
  function FromElement(elements: seq<LaidElement>, rest: string): string
    requires elements != []
    decreases elements, 1
  {
    SpellValue(elements[0].value, SpellFillers(elements[0].after,
      if |elements| == 1 then rest else "," + SpellElements(elements[1..], rest)))
  }

  function SpellMembers(members: seq<LaidMember>, rest: string): string
    decreases members, 2
  {
    if members == [] then rest else SpellFillers(members[0].before, FromMember(members, rest))
  }

  /** The same from the first name on. */
  function FromMember(members: seq<LaidMember>, rest: string): string
    requires members != []
    decreases members, 1
  {
    SpellMember(members[0],
      SpellFillers(members[0].after, if |members| == 1 then rest else "," + SpellMembers(members[1..], rest)))
  }

  /** A member from its name to its value. */
  function SpellMember(m: LaidMember, rest: string): string
    decreases m, 1
  {
    SpellString(m.name, SpellFillers(m.afterName, ":" + SpellFillers(m.afterColon, SpellValue(m.value, rest))))
  }

  predicate LegalEnding(end: Ending, empty: bool, c: R.Config) {
    match end
    case Nothing => !empty
    case Comma(fillers) => !empty && c.trailingCommas && LegalFillers(fillers, c.comments)
    case Inside(fillers) => empty && LegalFillers(fillers, c.comments)
  }

  /** A value that a reader with the flags of `c` reads, where `big` says when a double has no room for more digits. */
  ghost predicate LegalValue(v: Laid, c: R.Config, big: N.Overflow)
    decreases v, 0
  {
    match v
    case Number(n) => LegalNumeral(n) && Moderate(n, big)
    case Quoted(parts) => LegalParts(parts)
    case Array(elements, end) => LegalElements(elements, c, big) && LegalEnding(end, elements == [], c)
    case Object(members, end) => LegalMembers(members, c, big) && LegalEnding(end, members == [], c)
    case _ => true
  }

  ghost predicate LegalElements(elements: seq<LaidElement>, c: R.Config, big: N.Overflow)
    decreases elements, 1
  {
    elements == []
    || (var e := elements[0];
        && LegalFillers(e.before, c.comments) && LegalValue(e.value, c, big) && LegalFillers(e.after, c.comments)
        && LegalElements(elements[1..], c, big))
  }

  ghost predicate LegalMembers(members: seq<LaidMember>, c: R.Config, big: N.Overflow)
    decreases members, 1
  {
    members == []
    || (var m := members[0];
        && LegalFillers(m.before, c.comments) && LegalParts(m.name) && LegalFillers(m.afterName, c.comments)
        && LegalFillers(m.afterColon, c.comments) && LegalValue(m.value, c, big) && LegalFillers(m.after, c.comments)
        && LegalMembers(members[1..], c, big))
  }

  // ---- The events of a layout

  function Told(v: Laid): seq<Event>
    decreases v, 0
  {
    match v
    case NullWord => [Null]
    case TrueWord => [Bool(true)]
    case FalseWord => [Bool(false)]
    case Number(n) => [NumeralTold(n)]
    case Quoted(parts) => [Str(PartsMean(parts))]
    case Array(elements, _) => [StartArray] + ElementsTold(elements) + [EndArray(|elements|)]
    case Object(members, _) => [StartObject] + MembersTold(members) + [EndObject(|members|)]
  }

  function ElementsTold(elements: seq<LaidElement>): seq<Event>
    decreases elements, 1
  {
    if elements == [] then [] else Told(elements[0].value) + ElementsTold(elements[1..])
  }

  function MembersTold(members: seq<LaidMember>): seq<Event>
    decreases members, 1
  {
    if members == [] then [] else MemberTold(members[0]) + MembersTold(members[1..])
  }

  function MemberTold(m: LaidMember): seq<Event>
    decreases m, 1
  {
    [Key(PartsMean(m.name))] + Told(m.value)
  }

  // ---- Texts

  predicate AtEnd(s: string) {
    s == "" || s[0] == '\0'
  }

  /** Fillers up to the end, the last of which may be a line comment without a line feed. */
  ghost predicate FillsUp(s: string, c: R.Config, end: string) {
    AtEnd(end) && exists fillers ::
      LegalFillers(fillers, c.comments)
      && (s == SpellFillers(fillers, end)
          || (c.comments && exists text :: NoneOf(text, "\n\0") && s == SpellFillers(fillers, "//" + (text + end))))
  }

  /** A text for the reader: fillers, a value, and fillers up to the end; or anything behind the value, if the reader
      stops there. */
  ghost predicate IsText(c: R.Config, big: N.Overflow, before: Fillers, v: Laid, rest: string, end: string) {
    && LegalFillers(before, c.comments) && LegalValue(v, c, big) && (v.Number? ==> Ends(v.n, rest))
    && c.text == SpellFillers(before, SpellValue(v, rest))
    && if c.stopWhenDone then end == rest else FillsUp(rest, c, end)
  }
}
