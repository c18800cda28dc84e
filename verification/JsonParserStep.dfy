/** One character of the push-down JSON parser: what `JSON_parser_char` does to the state, the mode stack,
    the scalar under way and the parse buffer, and which callbacks it makes. */
module JsonParserStep {
  import opened JsonParserTable

  /** What the callback is told.  Numbers carry the text that `sscanf` and `strtod` read. */
  datatype ParseEvent =
    | ArrayStart | ArrayStop | ObjectStart | ObjectStop
    | IntegerText(text: string) | FloatText(text: string)
    | NullEvent | TrueEvent | FalseEvent
    | StringText(s: string) | KeyText(k: string)

  datatype Mode = InArray | InDone | InKey | InObject

  datatype ScalarType = NoType | IntegerType | FloatType | NullType | TrueType | FalseType | StringType

  /** The parser between two characters.  The depth is negative for an unlimited one. */
  datatype Machine = Machine(
    depth: int,
    state: State,
    scalar: ScalarType,
    escaped: bool,
    highSurrogate: nat,
    stack: seq<Mode>,
    buffer: string)

  function Initial(depth: int): Machine {
    Machine(if depth == 0 then 1 else if depth < 0 then -1 else depth, GO, NoType, false, 0, [InDone], "")
  }

  datatype Step = Go(m: Machine, events: seq<ParseEvent>) | Rejected

  // ---- The mode stack

  function Push(m: Machine, mode: Mode): Step {
    if m.depth >= 0 && |m.stack| >= m.depth then Rejected
    else Go(m.(stack := m.stack + [mode]), [])
  }

  function Pop(m: Machine, mode: Mode): Step {
    if m.stack == [] || m.stack[|m.stack| - 1] != mode then Rejected
    else Go(m.(stack := m.stack[..|m.stack| - 1]), [])
  }

  function Top(m: Machine): Mode {
    if m.stack == [] then InDone else m.stack[|m.stack| - 1]
  }

  // ---- The parse buffer

  function PopChar(m: Machine): Machine {
    if m.buffer == [] then m else m.(buffer := m.buffer[..|m.buffer| - 1])
  }

  function Escaped(ch: char): string {
    match ch
    case 'b' => "\U{0008}"
    case 'f' => "\U{000C}"
    case 'n' => "\n"
    case 'r' => "\r"
    case 't' => "\t"
    case '"' => "\""
    case '\\' => "\\"
    case '/' => "/"
    case 'u' => "\\u"
    case _ => ""
  }

  /** The character is buffered: unescaped after a backslash; blanks only inside a scalar. */
  function AddChar(m: Machine, ch: char, k: Kind): Step {
    if m.escaped then
      if Escaped(ch) == "" then Rejected
      else Go(m.(escaped := false, buffer := PopChar(m).buffer + Escaped(ch)), [])
    else if !m.scalar.NoType? || !Blank(k) then Go(m.(buffer := m.buffer + [ch]), [])
    else Go(m, [])
  }

  predicate BlankChar(ch: char) {
    ch == ' ' || ch == '\t' || ch == '\n' || ch == '\r'
  }

  /** What reading a number from the buffer leaves out: the blanks after it. */
  function TrimRight(s: string): string {
    if s != [] && BlankChar(s[|s| - 1]) then TrimRight(s[..|s| - 1]) else s
  }

  function ScalarEvents(scalar: ScalarType, buffer: string): seq<ParseEvent> {
    match scalar
    case NoType => []
    case IntegerType => [IntegerText(TrimRight(buffer))]
    case FloatType => [FloatText(TrimRight(buffer))]
    case NullType => [NullEvent]
    case TrueType => [TrueEvent]
    case FalseType => [FalseEvent]
    case StringType => [StringText(buffer)]
  }

  /** `parse_parse_buffer`: the scalar under way, if any, is delivered and the buffer cleared. */
  function Flush(m: Machine): (Machine, seq<ParseEvent>) {
    (m.(buffer := ""), ScalarEvents(m.scalar, m.buffer))
  }

  // ---- Unicode escapes

  function HexValue(ch: char): nat {
    if '0' <= ch <= '9' then ch as int - '0' as int
    else if 'A' <= ch <= 'F' then ch as int - 'A' as int + 10
    else if 'a' <= ch <= 'f' then ch as int - 'a' as int + 10
    else 0
  }

  /** The code unit spelled by the last four characters of the buffer. */
  function CodeUnit(h: string): nat
    requires |h| == 4
  {
    HexValue(h[0]) * 0x1000 + HexValue(h[1]) * 0x100 + HexValue(h[2]) * 0x10 + HexValue(h[3])
  }

  predicate HighSurrogate(u: nat) {
    0xD800 <= u < 0xDC00
  }

  predicate LowSurrogate(u: nat) {
    0xDC00 <= u < 0xE000
  }

  function SurrogatePair(hi: nat, lo: nat): nat {
    (hi % 0x400) * 0x400 + lo % 0x400 + 0x10000
  }

  function ByteChar(b: nat): char {
    (b % 256) as char
  }

  /** A code point as one leading byte and `trail` continuation bytes, by shifts and lead bits. */
  function Encode(uc: nat, trail: nat): string
    requires trail <= 3
  {
    match trail
    case 0 => [ByteChar(uc)]
    case 1 => [ByteChar(0xC0 + uc / 0x40), ByteChar(0x80 + uc % 0x40)]
    case 2 => [ByteChar(0xE0 + uc / 0x1000), ByteChar(0x80 + uc / 0x40 % 0x40), ByteChar(0x80 + uc % 0x40)]
    case 3 => [ByteChar(0xF0 + uc / 0x40000), ByteChar(0x80 + uc / 0x1000 % 0x40),
               ByteChar(0x80 + uc / 0x40 % 0x40), ByteChar(0x80 + uc % 0x40)]
  }

  function DecodeUnicode(m: Machine): Step {
    if |m.buffer| < 6 then Rejected else
    var uc := CodeUnit(m.buffer[|m.buffer| - 4..]);
    var kept := m.buffer[..|m.buffer| - 6];
    if m.highSurrogate != 0 then
      if LowSurrogate(uc)
      then Go(m.(buffer := kept + Encode(SurrogatePair(m.highSurrogate, uc), 3), highSurrogate := 0), [])
      else Rejected
    else if uc < 0x80 then Go(m.(buffer := kept + Encode(uc, 0)), [])
    else if uc < 0x800 then Go(m.(buffer := kept + Encode(uc, 1)), [])
    else if HighSurrogate(uc) then Go(m.(buffer := kept, highSurrogate := uc), [])
    else if LowSurrogate(uc) then Rejected
    else Go(m.(buffer := kept + Encode(uc, 2)), [])
  }

  // ---- One character

  function CloseContainer(m: Machine, mode: Mode): Step {
    var (m1, evs) := Flush(PopChar(m));
    match Pop(m1, mode)
    case Rejected => Rejected
    case Go(m2, _) =>
      Go(m2.(scalar := NoType, state := OK), evs + [if mode == InArray then ArrayStop else ObjectStop])
  }

  function OpenContainer(m: Machine, mode: Mode): Step {
    match Push(PopChar(m), mode)
    case Rejected => Rejected
    case Go(m1, _) =>
      if mode == InArray then Go(m1.(state := AR), [ArrayStart]) else Go(m1.(state := OB), [ObjectStart])
  }

  function Flip(m: Machine, from: Mode, to: Mode): Step {
    match Pop(m, from)
    case Rejected => Rejected
    case Go(m1, _) => Push(m1, to)
  }

  function Perform(m: Machine, a: Action): Step {
    match a
    case CommentBegin => Rejected
    case UnicodeRead =>
      (match DecodeUnicode(m)
       case Rejected => Rejected
       case Go(m1, _) => Go(m1.(state := if m1.highSurrogate != 0 then D1 else ST), []))
    case Escape => Go(m.(escaped := true, state := ES), [])
    case IntegerByMinus => Go(m.(scalar := IntegerType, state := MI), [])
    case IntegerByZero => Go(m.(scalar := IntegerType, state := ZE), [])
    case IntegerByDigit => Go(m.(scalar := IntegerType, state := IT), [])
    case DoubleByExponent => Go(m.(scalar := FloatType, state := E1), [])
    case DoubleByFraction => Go(m.(scalar := FloatType, state := FX), [])
    case StringBegin => Go(m.(buffer := "", scalar := StringType, state := ST), [])
    case Null => Go(m.(scalar := NullType, state := N1), [])
    case False => Go(m.(scalar := FalseType, state := F1), [])
    case True => Go(m.(scalar := TrueType, state := T1), [])
    case EmptyObjectEnd =>
      (match Pop(m.(buffer := ""), InKey)
       case Rejected => Rejected
       case Go(m1, _) => Go(m1.(state := OK), [ObjectStop]))
    case ObjectEnd => CloseContainer(m, InObject)
    case ArrayEnd => CloseContainer(m, InArray)
    case ObjectBegin => OpenContainer(m, InKey)
    case ArrayBegin => OpenContainer(m, InArray)
    case StringEnd =>
      var m1 := PopChar(m);
      (match Top(m)
       case InKey => Go(m1.(scalar := NoType, state := CO, buffer := ""), [KeyText(m1.buffer)])
       case InArray => Go(Flush(m1).0.(scalar := NoType, state := OK), Flush(m1).1)
       case InObject => Go(Flush(m1).0.(scalar := NoType, state := OK), Flush(m1).1)
       case InDone => Rejected)
    case Comma =>
      var (m1, evs) := Flush(PopChar(m));
      (match Top(m)
       case InObject =>
         (match Flip(m1, InObject, InKey)
          case Rejected => Rejected
          case Go(m2, _) => Go(m2.(scalar := NoType, state := KE), evs))
       case InArray => Go(m1.(scalar := NoType, state := VA), evs)
       case _ => Rejected)
    case Colon =>
      (match Flip(PopChar(m), InKey, InObject)
       case Rejected => Rejected
       case Go(m1, _) => Go(m1.(state := VA), []))
  }

  function Move(m: Machine, move: JsonParserTable.Move): Step {
    match move
    case To(s) => Go(m.(state := s), [])
    case Act(a) => Perform(m, a)
    case Bad => Rejected
  }

  function Char(m: Machine, ch: char): Step {
    match Classify(ch)
    case Illegal => Rejected
    case Known(k) =>
      match AddChar(m, ch, k)
      case Rejected => Rejected
      case Go(m1, _) => Move(m1, Next(m.state, k))
  }

  // ---- A whole text

  /** The events of a run, or nothing when some character is refused or the text ends too early. */
  datatype Run = Accepted(events: seq<ParseEvent>) | Refused

  function Prepend(evs: seq<ParseEvent>, r: Run): Run {
    match r
    case Refused => Refused
    case Accepted(more) => Accepted(evs + more)
  }

  /** `JSON_parser_done`. */
  predicate Finished(m: Machine) {
    m.state == OK && Pop(m, InDone).Go?
  }

  function RunFrom(m: Machine, s: string): Run
    decreases |s|
  {
    if s == "" then if Finished(m) then Accepted([]) else Refused
    else match Char(m, s[0])
      case Rejected => Refused
      case Go(m1, evs) => Prepend(evs, RunFrom(m1, s[1..]))
  }

  // ---- What holds between characters

  function HexDigitsRead(s: State): nat
    requires UnicodeState(s)
  {
    if s.U1? then 0 else if s.U2? then 1 else if s.U3? then 2 else 3
  }

  predicate HexChar(ch: char) {
    '0' <= ch <= '9' || 'A' <= ch <= 'F' || 'a' <= ch <= 'f'
  }

  predicate StackOk(m: Machine) {
    && m.stack != [] && m.stack[0] == InDone
    && (forall i :: 1 <= i < |m.stack| ==> m.stack[i] != InDone)
    && (forall i :: 0 <= i < |m.stack| - 1 ==> m.stack[i] != InKey)
    && (m.depth > 0 ==> |m.stack| <= m.depth)
    && m.depth != 0
  }

  predicate InsideValue(m: Machine) {
    Top(m) == InArray || Top(m) == InObject
  }

  /** The buffer holds at least a backslash, a `u` and the digits read so far. */
  predicate EscapeBuffered(buffer: string, digits: nat) {
    && |buffer| >= 2 + digits
    && buffer[|buffer| - digits - 2] == '\\' && buffer[|buffer| - digits - 1] == 'u'
    && (forall i :: |buffer| - digits <= i < |buffer| ==> HexChar(buffer[i]))
  }

  predicate EndsWith(buffer: string, ch: char) {
    buffer != "" && buffer[|buffer| - 1] == ch
  }

  /** The invariant of the parser: what each state implies about modes, scalar and buffer. */
  predicate Invariant(m: Machine) {
    && StackOk(m)
    && (m.escaped <==> m.state.ES?)
    && (m.highSurrogate != 0 ==>
      HighSurrogate(m.highSurrogate) && (m.state.D1? || m.state.D2? || UnicodeState(m.state)))
    && (m.state.D1? || m.state.D2? ==> m.highSurrogate != 0)
    && (m.scalar.NoType? ==> m.buffer == "")
    && (m.scalar.StringType? <==> StringState(m.state))
    && (match m.state
        case GO => m.scalar.NoType? && |m.stack| == 1
        case OB => m.scalar.NoType? && Top(m) == InKey
        case KE => m.scalar.NoType? && Top(m) == InKey
        case CO => m.scalar.NoType? && Top(m) == InKey
        case VA => m.scalar.NoType? && InsideValue(m)
        case AR => m.scalar.NoType? && Top(m) == InArray
        case OK => Top(m) != InKey && (!m.scalar.NoType? ==> InsideValue(m) && m.buffer != "")
        case ST => |m.stack| > 1
        case ES => |m.stack| > 1 && EndsWith(m.buffer, '\\')
        case D1 => |m.stack| > 1
        case D2 => |m.stack| > 1 && EndsWith(m.buffer, '\\')
        case MI => m.scalar.IntegerType? && InsideValue(m) && m.buffer != ""
        case ZE => m.scalar.IntegerType? && InsideValue(m) && m.buffer != ""
        case IT => m.scalar.IntegerType? && InsideValue(m) && m.buffer != ""
        case _ =>
          if UnicodeState(m.state) then |m.stack| > 1 && EscapeBuffered(m.buffer, HexDigitsRead(m.state))
          else if NumberState(m.state) then m.scalar.FloatType? && InsideValue(m) && m.buffer != ""
          else (m.scalar.TrueType? || m.scalar.FalseType? || m.scalar.NullType?) && InsideValue(m) && m.buffer != "")
  }

  lemma InitialInvariant(depth: int)
    ensures Invariant(Initial(depth))
  {
  }

  // The actions, on a machine whose buffer ends with the character that caused them.

  lemma CloseKeeps(m: Machine, mode: Mode)
    requires StackOk(m) && !m.escaped && m.highSurrogate == 0 && (mode == InArray || mode == InObject)
    ensures CloseContainer(m, mode).Go? ==> Invariant(CloseContainer(m, mode).m)
  {
    hide ScalarEvents;
  }

  lemma OpenKeeps(m: Machine, mode: Mode)
    requires StackOk(m) && !m.escaped && m.highSurrogate == 0 && |m.buffer| == 1 && m.scalar.NoType?
    requires Top(m) != InKey && (mode == InKey || mode == InArray)
    ensures OpenContainer(m, mode).Go? ==> Invariant(OpenContainer(m, mode).m)
  {
  }

  lemma CommaKeeps(m: Machine)
    requires StackOk(m) && !m.escaped && m.highSurrogate == 0
    ensures Perform(m, Comma).Go? ==> Invariant(Perform(m, Comma).m)
  {
    hide ScalarEvents, CloseContainer, OpenContainer, DecodeUnicode;
  }

  lemma ColonKeeps(m: Machine)
    requires StackOk(m) && !m.escaped && m.highSurrogate == 0 && |m.buffer| == 1 && m.scalar.NoType?
    ensures Perform(m, Colon).Go? ==> Invariant(Perform(m, Colon).m)
  {
    hide ScalarEvents, CloseContainer, OpenContainer, DecodeUnicode;
  }

  lemma StringEndKeeps(m: Machine)
    requires StackOk(m) && !m.escaped && m.highSurrogate == 0 && m.scalar.StringType?
    ensures Perform(m, StringEnd).Go? ==> Invariant(Perform(m, StringEnd).m)
  {
    hide ScalarEvents, CloseContainer, OpenContainer, DecodeUnicode;
  }

  /** A scalar noted in a state of its kind. */
  lemma NotedKeeps(m: Machine, scalar: ScalarType, state: State)
    requires StackOk(m) && !m.escaped && m.highSurrogate == 0 && InsideValue(m) && m.buffer != ""
    requires (scalar.IntegerType? && (state.MI? || state.ZE? || state.IT?))
          || (scalar.FloatType? && (state.E1? || state.FX?))
          || ((scalar.TrueType? || scalar.FalseType? || scalar.NullType?) && (state.T1? || state.F1? || state.N1?))
    ensures Invariant(m.(scalar := scalar, state := state))
  {
    hide HighSurrogate, EscapeBuffered, EndsWith;
  }

  /** The actions that only note what kind of scalar has begun, or turned out to be. */
  lemma ScalarKeeps(m: Machine, a: Action)
    requires StackOk(m) && !m.escaped && m.highSurrogate == 0 && InsideValue(m) && m.buffer != ""
    requires a.IntegerByMinus? || a.IntegerByZero? || a.IntegerByDigit? || a.DoubleByExponent? || a.DoubleByFraction?
          || a.True? || a.False? || a.Null?
    ensures Perform(m, a).Go? && Invariant(Perform(m, a).m)
  {
    hide CloseContainer, OpenContainer, DecodeUnicode, ScalarEvents, Invariant, StackOk;
    var r := Perform(m, a);
    assert r.Go? && r.m == m.(scalar := r.m.scalar, state := r.m.state);
    NotedKeeps(m, r.m.scalar, r.m.state);
  }

  lemma StringBeginKeeps(m: Machine)
    requires StackOk(m) && |m.stack| > 1 && !m.escaped && m.highSurrogate == 0
    ensures Perform(m, StringBegin).Go? && Invariant(Perform(m, StringBegin).m)
  {
  }

  lemma NoComments(m: Machine)
    ensures Perform(m, CommentBegin) == Rejected
  {
  }

  lemma EmptyEndKeeps(m: Machine)
    requires StackOk(m) && !m.escaped && m.highSurrogate == 0 && m.scalar.NoType?
    ensures Perform(m, EmptyObjectEnd).Go? ==> Invariant(Perform(m, EmptyObjectEnd).m)
  {
    hide ScalarEvents, CloseContainer, OpenContainer, DecodeUnicode;
  }

  lemma UnicodeKeeps(m: Machine)
    requires StackOk(m) && |m.stack| > 1 && !m.escaped && m.scalar.StringType?
    requires m.highSurrogate != 0 ==> HighSurrogate(m.highSurrogate)
    ensures Perform(m, UnicodeRead).Go? ==> Invariant(Perform(m, UnicodeRead).m)
  {
    hide ScalarEvents, CloseContainer, OpenContainer, Encode, CodeUnit;
  }

  lemma OpensBy(m: Machine)
    ensures Perform(m, ObjectBegin) == OpenContainer(m, InKey) && Perform(m, ArrayBegin) == OpenContainer(m, InArray)
  {
  }

  lemma ClosesBy(m: Machine)
    ensures Perform(m, ObjectEnd) == CloseContainer(m, InObject) && Perform(m, ArrayEnd) == CloseContainer(m, InArray)
  {
  }

  lemma BetweenValues(m: Machine, k: Kind, m1: Machine)
    requires Invariant(m) && (m.state.GO? || m.state.OB? || m.state.KE? || m.state.CO?)
    requires m1 == m || (!Blank(k) && |m1.buffer| == 1 && m1 == m.(buffer := m1.buffer))
    requires m1 == m ==> Blank(k)
    ensures Move(m1, Next(m.state, k)).Go? ==> Invariant(Move(m1, Next(m.state, k)).m)
  {
    hide Perform, Next;
    BetweenMoves(m.state, k);
    match Next(m.state, k)
    case Act(ObjectBegin) => OpensBy(m1); OpenKeeps(m1, InKey);
    case Act(ArrayBegin) => OpensBy(m1); OpenKeeps(m1, InArray);
    case Act(StringBegin) => StringBeginKeeps(m1);
    case Act(CommentBegin) => NoComments(m1);
    case Act(Colon) => ColonKeeps(m1);
    case Act(EmptyObjectEnd) => EmptyEndKeeps(m1);
    case _ =>
  }

  lemma ValueStateFacts(m: Machine)
    requires Invariant(m) && (m.state.VA? || m.state.AR?)
    ensures StackOk(m) && !m.escaped && m.highSurrogate == 0 && m.scalar.NoType? && m.buffer == "" && InsideValue(m)
    ensures |m.stack| > 1 && Top(m) != InKey
  {
  }

  lemma BeforeValue(m: Machine, k: Kind, m1: Machine)
    requires Invariant(m) && (m.state.VA? || m.state.AR?)
    requires m1 == m || (!Blank(k) && |m1.buffer| == 1 && m1 == m.(buffer := m1.buffer))
    requires m1 == m ==> Blank(k)
    ensures Move(m1, Next(m.state, k)).Go? ==> Invariant(Move(m1, Next(m.state, k)).m)
  {
    hide Perform, Invariant, Next;
    ValueStateFacts(m);
    ValueStateMoves(m.state, k);
    NotBlankActs(m.state, k);
    match Next(m.state, k)
    case Act(ObjectBegin) => OpensBy(m1); OpenKeeps(m1, InKey);
    case Act(ArrayBegin) => OpensBy(m1); OpenKeeps(m1, InArray);
    case Act(ArrayEnd) => ClosesBy(m1); CloseKeeps(m1, InArray);
    case Act(StringBegin) => StringBeginKeeps(m1);
    case Act(CommentBegin) => NoComments(m1);
    case Act(a) => ScalarKeeps(m1, a);
    case _ =>
  }

  /** A state that may end a value, on what may follow one. */
  lemma AfterValueFacts(m: Machine)
    requires Invariant(m) && (m.state.OK? || NumberState(m.state))
    ensures StackOk(m) && !m.escaped && m.highSurrogate == 0 && !m.scalar.StringType? && Top(m) != InKey
    ensures m.scalar.NoType? ==> m.state.OK? && m.buffer == ""
    ensures !m.scalar.NoType? ==> InsideValue(m) && m.buffer != ""
  {
  }

  lemma EndedKeeps(m: Machine)
    requires StackOk(m) && !m.escaped && m.highSurrogate == 0 && !m.scalar.StringType? && Top(m) != InKey && m.state.OK?
    requires m.scalar.NoType? ==> m.buffer == ""
    requires !m.scalar.NoType? ==> InsideValue(m) && m.buffer != ""
    ensures Invariant(m)
  {
  }

  lemma AfterValue(m: Machine, k: Kind, m1: Machine)
    requires Invariant(m) && (m.state.OK? || NumberState(m.state))
    requires m1 == m || (m1.buffer != "" && m1 == m.(buffer := m1.buffer))
    requires m1.scalar.NoType? ==> m1 == m || !Blank(k)
    ensures Move(m1, AfterValueMove(k)).Go? ==> Invariant(Move(m1, AfterValueMove(k)).m)
  {
    hide Perform, Invariant, AfterValueMove;
    AfterValueFacts(m);
    AfterValueMoves(k);
    match AfterValueMove(k)
    case Act(ObjectEnd) => ClosesBy(m1); CloseKeeps(m1, InObject);
    case Act(ArrayEnd) => ClosesBy(m1); CloseKeeps(m1, InArray);
    case Act(Comma) => CommaKeeps(m1);
    case To(t) => EndedKeeps(m1.(state := t));
    case _ =>
  }

  lemma InNumber(m: Machine, k: Kind, m1: Machine)
    requires Invariant(m) && NumberState(m.state)
    requires m1.buffer != "" && m1 == m.(buffer := m1.buffer)
    ensures Move(m1, Next(m.state, k)).Go? ==> Invariant(Move(m1, Next(m.state, k)).m)
  {
    hide Perform, Next;
    NumberMoves(m.state, k);
    NoComments(m1);
    if Next(m.state, k) == AfterValueMove(k) {
      AfterValue(m, k, m1);
    } else if Next(m.state, k) == Act(DoubleByFraction) {
      ScalarKeeps(m1, DoubleByFraction);
    } else if Next(m.state, k) == Act(DoubleByExponent) {
      ScalarKeeps(m1, DoubleByExponent);
    }
  }

  lemma InWord(m: Machine, k: Kind, m1: Machine)
    requires Invariant(m) && WordState(m.state)
    requires m1.buffer != "" && m1 == m.(buffer := m1.buffer)
    ensures Move(m1, Next(m.state, k)).Go? ==> Invariant(Move(m1, Next(m.state, k)).m)
  {
    hide Perform, Next;
    NoComments(m1);
    WordMoves(m.state, k);
  }

  lemma InString(m: Machine, ch: char, k: Kind, m1: Machine)
    requires Invariant(m) && (m.state.ST? || m.state.D1? || m.state.D2?)
    requires m1 == m.(buffer := m.buffer + [ch]) && Classify(ch) == Known(k)
    ensures Move(m1, Next(m.state, k)).Go? ==> Invariant(Move(m1, Next(m.state, k)).m)
  {
    hide Perform, Next, Classify;
    PlainMoves(m.state, k);
    KindChars(ch, k);
    match Next(m.state, k)
    case Act(StringEnd) => StringEndKeeps(m1);
    case Act(Escape) => EscapeKeeps(m1);
    case _ =>
  }

  lemma EscapeKeeps(m: Machine)
    requires StackOk(m) && |m.stack| > 1 && m.highSurrogate == 0 && m.scalar.StringType? && EndsWith(m.buffer, '\\')
    ensures Perform(m, Escape).Go? ==> Invariant(Perform(m, Escape).m)
  {
    hide CloseContainer, OpenContainer, ScalarEvents, DecodeUnicode;
  }

  lemma AfterBackslash(m: Machine, ch: char, k: Kind, m1: Machine)
    requires Invariant(m) && m.state.ES? && Classify(ch) == Known(k) && Escaped(ch) != ""
    requires m1 == m.(escaped := false, buffer := PopChar(m).buffer + Escaped(ch))
    ensures Move(m1, Next(m.state, k)).Go? ==> Invariant(Move(m1, Next(m.state, k)).m)
  {
    hide CloseContainer, OpenContainer, ScalarEvents, DecodeUnicode, Perform;
  }

  lemma HexClasses(ch: char, k: Kind)
    requires Classify(ch) == Known(k)
    ensures HexDigit(k) <==> HexChar(ch)
  {
    hide Classify, HexDigit, HexChar;
    if HexChar(ch) { HexIsClass(ch); }
    if HexDigit(k) { ClassIsHex(ch); }
  }

  lemma HexIsClass(ch: char)
    requires HexChar(ch)
    ensures Classify(ch).Known? && HexDigit(Classify(ch).kind)
  {
  }

  lemma ClassIsHex(ch: char)
    requires Classify(ch).Known? && HexDigit(Classify(ch).kind)
    ensures HexChar(ch)
  {
  }

  lemma InUnicodeEscape(m: Machine, ch: char, k: Kind, m1: Machine)
    requires Invariant(m) && UnicodeState(m.state) && Classify(ch) == Known(k)
    requires m1 == m.(buffer := m.buffer + [ch])
    ensures Move(m1, Next(m.state, k)).Go? ==> Invariant(Move(m1, Next(m.state, k)).m)
  {
    hide Perform, Classify, Next;
    HexClasses(ch, k);
    UnicodeMoves(m.state, k);
    if m.state.U4? && HexDigit(k) {
      UnicodeKeeps(m1);
    }
  }

  lemma CharKeepsInvariant(m: Machine, ch: char)
    requires Invariant(m)
    ensures Char(m, ch).Go? ==> Invariant(Char(m, ch).m)
  {
    hide Move, Next, Classify, Escaped;
    if Char(m, ch).Rejected? { return; }
    var k := Classify(ch).kind;
    var m1 := AddChar(m, ch, k).m;
    if NumberState(m.state) { InNumber(m, k, m1); }
    else if WordState(m.state) { InWord(m, k, m1); }
    else if UnicodeState(m.state) { InUnicodeEscape(m, ch, k, m1); }
    else if m.state.ES? { AfterBackslash(m, ch, k, m1); }
    else if StringState(m.state) { InString(m, ch, k, m1); }
    else if m.state.OK? { AtOk(m, k, m1); }
    else if m.state.VA? || m.state.AR? { BeforeValue(m, k, m1); }
    else { BetweenValues(m, k, m1); }
  }

  lemma AtOk(m: Machine, k: Kind, m1: Machine)
    requires Invariant(m) && m.state.OK?
    requires m1 == m || (m1.buffer != "" && m1 == m.(buffer := m1.buffer))
    requires m1 == m ==> Blank(k)
    requires m1.scalar.NoType? ==> m1 == m || !Blank(k)
    ensures Move(m1, Next(m.state, k)).Go? ==> Invariant(Move(m1, Next(m.state, k)).m)
  {
    hide CloseContainer, OpenContainer, ScalarEvents, DecodeUnicode;
    if !k.Slash? { AfterValue(m, k, m1); }
  }
}
