/** The events a JSON reader delivers, shared by the reader, the document builder and the writers. */
module JsonEvents {

  datatype Event =
    | Null
    | Bool(b: bool)
    | Int(i: int)
    | Uint(u: nat)
    | Int64(i64: int)
    | Uint64(u64: nat)
    | Double(literal: string)
    | RawNumber(digits: string)
    | Str(s: string)
    | Key(k: string)
    | StartObject
    | EndObject(memberCount: nat)
    | StartArray
    | EndArray(elementCount: nat)
}

/** What `GenericReader` reads, and what its recursive-descent form computes.

    A text is a sequence of code units; looking past its end shows the NUL that terminates a stream.
    The scanners for strings, numbers and literals are the same code in both forms of the reader, so
    they are a parameter here (`leaf`): every statement holds whatever a flag set makes them do.  A
    handler is any function from the events delivered so far to "go on" or "stop". */
module ReaderSpec {
  import opened JsonEvents

  datatype ErrorCode =
    | DocumentEmpty
    | DocumentRootNotSingular
    | ValueInvalid
    | ObjectMissName
    | ObjectMissColon
    | ObjectMissCommaOrCurlyBracket
    | ArrayMissCommaOrSquareBracket
    | Termination
    | UnspecificSyntaxError
    | ScalarError(reason: nat)  // any code that only a scalar scanner reports

  datatype LeafResult = LeafOk(ev: Event, next: nat) | LeafErr(code: ErrorCode)

  datatype Config = Config(
    text: string,
    comments: bool,
    trailingCommas: bool,
    stopWhenDone: bool,
    leaf: (nat, bool) -> LeafResult,
    handler: seq<Event> -> bool)

  /** How a parse, or a part of one, ends: the position reached, or the error; and the events delivered. */
  datatype Outcome =
    | Done(pos: nat, trace: seq<Event>)
    | Fail(trace: seq<Event>, code: ErrorCode)

  function Peek(text: string, p: nat): char {
    if p < |text| then text[p] else '\0'
  }

  predicate Punctuation(ch: char) {
    ch == ']' || ch == '}' || ch == ',' || ch == ':'
  }

  /** What the scalar scanners promise both forms: an accepted scalar uses up text, and no number,
      string or literal starts at a punctuation mark or at the end of the text. */
  ghost predicate WellBehaved(c: Config) {
    && (forall p: nat, key: bool :: p <= |c.text| && c.leaf(p, key).LeafOk? ==> p < c.leaf(p, key).next <= |c.text|)
    && (forall p: nat :: Punctuation(Peek(c.text, p)) || Peek(c.text, p) == '\0' ==>
      c.leaf(p, false) == LeafErr(ValueInvalid))
  }

  // ---- White space and comments

  predicate White(ch: char) {
    ch == ' ' || ch == '\n' || ch == '\r' || ch == '\t'
  }

  function SkipWhite(text: string, p: nat): (q: nat)
    requires p <= |text|
    ensures p <= q <= |text|
    decreases |text| - p
  {
    if White(Peek(text, p)) then SkipWhite(text, p + 1) else p
  }

  datatype Skipped = At(pos: nat) | BadComment

  /** The position after the star-slash that ends a block comment whose inside starts at `p`. */
  function BlockEnd(text: string, p: nat): (r: Skipped)
    requires p <= |text|
    ensures r.At? ==> p < r.pos <= |text|
    decreases |text| - p
  {
    if Peek(text, p) == '\0' then BadComment
    else if Peek(text, p) == '*' && Peek(text, p + 1) == '/' then At(p + 2)
    else BlockEnd(text, p + 1)
  }

  /** The position after the line feed that ends a line comment, or of the end of the text. */
  function LineEnd(text: string, p: nat): (q: nat)
    requires p <= |text|
    ensures p <= q <= |text|
    decreases |text| - p
  {
    if Peek(text, p) == '\0' then p
    else if text[p] == '\n' then p + 1
    else LineEnd(text, p + 1)
  }

  /** The position after one comment whose first slash has been read. */
  function CommentEnd(text: string, p: nat): (r: Skipped)
    requires p <= |text|
    ensures r.At? ==> p < r.pos <= |text|
  {
    if Peek(text, p) == '*' then BlockEnd(text, p + 1)
    else if Peek(text, p) == '/' then At(LineEnd(text, p + 1))
    else BadComment
  }

  /** Comments, each followed by white space, starting at a position with no white space. */
  function SkipComments(text: string, p: nat): (r: Skipped)
    requires p <= |text|
    ensures r.At? ==> p <= r.pos <= |text|
    decreases |text| - p
  {
    if Peek(text, p) != '/' then At(p) else
    var e := CommentEnd(text, p + 1);
    if e.BadComment? then BadComment else SkipComments(text, SkipWhite(text, e.pos))
  }

  function Skip(c: Config, p: nat): (r: Skipped)
    requires p <= |c.text|
    ensures r.At? ==> p <= r.pos <= |c.text|
  {
    if c.comments then SkipComments(c.text, SkipWhite(c.text, p)) else At(SkipWhite(c.text, p))
  }

  // ---- Recursive descent

  /** Deliver an event, then stand at position `p` unless the handler stops the parse. */
  function Emit(c: Config, p: nat, tr: seq<Event>, ev: Event): (o: Outcome) {
    if c.handler(tr + [ev]) then Done(p, tr + [ev]) else Fail(tr + [ev], Termination)
  }

  function Scalar(c: Config, p: nat, tr: seq<Event>, isKey: bool): (o: Outcome)
    requires WellBehaved(c) && p <= |c.text|
    ensures o.Done? ==> p < o.pos <= |c.text|
  {
    match c.leaf(p, isKey)
    case LeafErr(code) => Fail(tr, code)
    case LeafOk(ev, next) => Emit(c, next, tr, ev)
  }

  function Value(c: Config, p: nat, tr: seq<Event>): (o: Outcome)
    requires WellBehaved(c) && p <= |c.text|
    ensures o.Done? ==> p < o.pos <= |c.text|
    decreases |c.text| - p, 1
  {
    if Peek(c.text, p) == '{' then Object(c, p, tr)
    else if Peek(c.text, p) == '[' then Array(c, p, tr)
    else Scalar(c, p, tr, false)
  }

  function Object(c: Config, p: nat, tr: seq<Event>): (o: Outcome)
    requires WellBehaved(c) && p < |c.text|
    ensures o.Done? ==> p < o.pos <= |c.text|
    decreases |c.text| - p, 0
  {
    var open := Emit(c, p + 1, tr, StartObject);
    if open.Fail? then open else
    var s := Skip(c, p + 1);
    if s.BadComment? then Fail(open.trace, UnspecificSyntaxError)
    else if Peek(c.text, s.pos) == '}' then Emit(c, s.pos + 1, open.trace, EndObject(0))
    else Members(c, s.pos, open.trace, 0)
  }

  /** A member: name, colon and value. */
  function Member(c: Config, p: nat, tr: seq<Event>): (o: Outcome)
    requires WellBehaved(c) && p <= |c.text|
    ensures o.Done? ==> p < o.pos <= |c.text|
    decreases |c.text| - p, 2
  {
    if Peek(c.text, p) != '"' then Fail(tr, ObjectMissName) else
    var key := Scalar(c, p, tr, true);
    if key.Fail? then key else
    var s := Skip(c, key.pos);
    if s.BadComment? then Fail(key.trace, UnspecificSyntaxError)
    else if Peek(c.text, s.pos) != ':' then Fail(key.trace, ObjectMissColon) else
    var t := Skip(c, s.pos + 1);
    if t.BadComment? then Fail(key.trace, UnspecificSyntaxError) else Value(c, t.pos, key.trace)
  }

  /** The members from one whose name must start at `p`, up to and including the closing bracket;
      `n` members came before. */
  function Members(c: Config, p: nat, tr: seq<Event>, n: nat): (o: Outcome)
    requires WellBehaved(c) && p <= |c.text|
    ensures o.Done? ==> p < o.pos <= |c.text|
    decreases |c.text| - p, 3
  {
    var v := Member(c, p, tr);
    if v.Fail? then v else
    var u := Skip(c, v.pos);
    if u.BadComment? then Fail(v.trace, UnspecificSyntaxError)
    else if Peek(c.text, u.pos) == '}' then Emit(c, u.pos + 1, v.trace, EndObject(n + 1))
    else if Peek(c.text, u.pos) != ',' then Fail(v.trace, ObjectMissCommaOrCurlyBracket) else
    var w := Skip(c, u.pos + 1);
    if w.BadComment? then Fail(v.trace, UnspecificSyntaxError)
    else if c.trailingCommas && Peek(c.text, w.pos) == '}' then Emit(c, w.pos + 1, v.trace, EndObject(n + 1))
    else Members(c, w.pos, v.trace, n + 1)
  }

  function Array(c: Config, p: nat, tr: seq<Event>): (o: Outcome)
    requires WellBehaved(c) && p < |c.text|
    ensures o.Done? ==> p < o.pos <= |c.text|
    decreases |c.text| - p, 0
  {
    var open := Emit(c, p + 1, tr, StartArray);
    if open.Fail? then open else
    var s := Skip(c, p + 1);
    if s.BadComment? then Fail(open.trace, UnspecificSyntaxError)
    else if Peek(c.text, s.pos) == ']' then Emit(c, s.pos + 1, open.trace, EndArray(0))
    else Elements(c, s.pos, open.trace, 0)
  }

  /** The elements from one that must start at `p`, up to and including the closing bracket;
      `n` elements came before. */
  function Elements(c: Config, p: nat, tr: seq<Event>, n: nat): (o: Outcome)
    requires WellBehaved(c) && p <= |c.text|
    ensures o.Done? ==> p < o.pos <= |c.text|
    decreases |c.text| - p, 2
  {
    var v := Value(c, p, tr);
    if v.Fail? then v else
    var u := Skip(c, v.pos);
    if u.BadComment? then Fail(v.trace, UnspecificSyntaxError)
    else if Peek(c.text, u.pos) == ']' then Emit(c, u.pos + 1, v.trace, EndArray(n + 1))
    else if Peek(c.text, u.pos) != ',' then Fail(v.trace, ArrayMissCommaOrSquareBracket) else
    var w := Skip(c, u.pos + 1);
    if w.BadComment? then Fail(v.trace, UnspecificSyntaxError)
    else if c.trailingCommas && Peek(c.text, w.pos) == ']' then Emit(c, w.pos + 1, v.trace, EndArray(n + 1))
    else Elements(c, w.pos, v.trace, n + 1)
  }

  /** After the root value: nothing but white space may follow, unless the parse stops when done. */
  function AfterRoot(c: Config, o: Outcome): (r: Outcome)
    requires o.Done? ==> o.pos <= |c.text|
  {
    if o.Fail? || c.stopWhenDone then o else
    var s := Skip(c, o.pos);
    if s.BadComment? then Fail(o.trace, UnspecificSyntaxError)
    else if Peek(c.text, s.pos) != '\0' then Fail(o.trace, DocumentRootNotSingular)
    else Done(s.pos, o.trace)
  }

  function Recursive(c: Config): (r: Outcome)
    requires WellBehaved(c)
  {
    var s := Skip(c, 0);
    if s.BadComment? then Fail([], UnspecificSyntaxError)
    else if Peek(c.text, s.pos) == '\0' then Fail([], DocumentEmpty)
    else AfterRoot(c, Value(c, s.pos, []))
  }
}
