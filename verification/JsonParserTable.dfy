/** The character classes and the state transition table of the one-character-at-a-time JSON parser,
    without the states of comments, which are switched off. */
module JsonParserTable {

  datatype Kind =
    | Space | White | LCurb | RCurb | LSqrb | RSqrb | ColonClass | CommaClass | Quote | Backs | Slash
    | Plus | Minus | Point | Zero | Digit
    | LowA | LowB | LowC | LowD | LowE | LowF | LowL | LowN | LowR | LowS | LowT | LowU
    | ABCDF | UpE | Etc | Star

  datatype ClassResult = Known(kind: Kind) | Illegal

  function Classify(ch: char): ClassResult {
    if ch as int >= 128 then Known(Etc)
    else match ch
      case ' ' => Known(Space)
      case '\t' => Known(White)
      case '\n' => Known(White)
      case '\r' => Known(White)
      case '{' => Known(LCurb)
      case '}' => Known(RCurb)
      case '[' => Known(LSqrb)
      case ']' => Known(RSqrb)
      case ':' => Known(ColonClass)
      case ',' => Known(CommaClass)
      case '"' => Known(Quote)
      case '\\' => Known(Backs)
      case '/' => Known(Slash)
      case '+' => Known(Plus)
      case '-' => Known(Minus)
      case '.' => Known(Point)
      case '0' => Known(Zero)
      case 'a' => Known(LowA)
      case 'b' => Known(LowB)
      case 'c' => Known(LowC)
      case 'd' => Known(LowD)
      case 'e' => Known(LowE)
      case 'f' => Known(LowF)
      case 'l' => Known(LowL)
      case 'n' => Known(LowN)
      case 'r' => Known(LowR)
      case 's' => Known(LowS)
      case 't' => Known(LowT)
      case 'u' => Known(LowU)
      case 'E' => Known(UpE)
      case '*' => Known(Star)
      case _ =>
        if '1' <= ch <= '9' then Known(Digit)
        else if 'A' <= ch <= 'F' then Known(ABCDF)
        else if ch < ' ' then Illegal
        else Known(Etc)
  }

  datatype State =
    | GO | OK | OB | KE | CO | VA | AR | ST | ES | U1 | U2 | U3 | U4
    | MI | ZE | IT | FR | E1 | E2 | E3
    | T1 | T2 | T3 | F1 | F2 | F3 | F4 | N1 | N2 | N3
    | FX | D1 | D2

  datatype Action =
    | CommentBegin | False | True | Null
    | DoubleByExponent | DoubleByFraction | StringBegin
    | IntegerByMinus | IntegerByZero | IntegerByDigit
    | Escape | UnicodeRead
    | Colon | Comma | StringEnd | ArrayBegin | ObjectBegin | ArrayEnd | ObjectEnd | EmptyObjectEnd

  datatype Move = To(state: State) | Act(action: Action) | Bad

  predicate Blank(k: Kind) {
    k.Space? || k.White?
  }

  predicate HexDigit(k: Kind) {
    k.Zero? || k.Digit? || k.LowA? || k.LowB? || k.LowC? || k.LowD? || k.LowE? || k.LowF? || k.ABCDF? || k.UpE?
  }

  predicate DigitClass(k: Kind) {
    k.Zero? || k.Digit?
  }

  predicate Exponent(k: Kind) {
    k.LowE? || k.UpE?
  }

  /** What every state that ends a value does with what may follow a value. */
  function AfterValueMove(k: Kind): Move {
    if Blank(k) then To(OK)
    else if k.RCurb? then Act(ObjectEnd)
    else if k.RSqrb? then Act(ArrayEnd)
    else if k.CommaClass? then Act(Comma)
    else Bad
  }

  // ---- Kinds of states

  predicate NumberState(s: State) {
    s.MI? || s.ZE? || s.IT? || s.FR? || s.FX? || s.E1? || s.E2? || s.E3?
  }

  predicate WordState(s: State) {
    s.T1? || s.T2? || s.T3? || s.F1? || s.F2? || s.F3? || s.F4? || s.N1? || s.N2? || s.N3?
  }

  predicate UnicodeState(s: State) {
    s.U1? || s.U2? || s.U3? || s.U4?
  }

  predicate StringState(s: State) {
    s.ST? || s.ES? || UnicodeState(s) || s.D1? || s.D2?
  }

  /** The first character of a value. */
  function ValueMove(k: Kind): Move {
    match k
    case LCurb => Act(ObjectBegin)
    case LSqrb => Act(ArrayBegin)
    case Quote => Act(StringBegin)
    case Slash => Act(CommentBegin)
    case Minus => Act(IntegerByMinus)
    case Zero => Act(IntegerByZero)
    case Digit => Act(IntegerByDigit)
    case LowF => Act(False)
    case LowN => Act(Null)
    case LowT => Act(True)
    case _ => Bad
  }

  /** Between tokens, and where a value begins. */
  function NextBetween(s: State, k: Kind): Move {
    match s
    case GO =>
      if Blank(k) then To(GO)
      else if k.LCurb? then Act(ObjectBegin)
      else if k.LSqrb? then Act(ArrayBegin)
      else if k.Slash? then Act(CommentBegin)
      else Bad
    case OK => if k.Slash? then Act(CommentBegin) else AfterValueMove(k)
    case OB =>
      if Blank(k) then To(OB)
      else if k.RCurb? then Act(EmptyObjectEnd)
      else if k.Quote? then Act(StringBegin)
      else if k.Slash? then Act(CommentBegin)
      else Bad
    case KE =>
      if Blank(k) then To(KE)
      else if k.Quote? then Act(StringBegin)
      else if k.Slash? then Act(CommentBegin)
      else Bad
    case CO =>
      if Blank(k) then To(CO)
      else if k.ColonClass? then Act(Colon)
      else if k.Slash? then Act(CommentBegin)
      else Bad
    case VA => if Blank(k) then To(VA) else ValueMove(k)
    case AR => if Blank(k) then To(AR) else if k.RSqrb? then Act(ArrayEnd) else ValueMove(k)
    case _ => Bad
  }

  function StringMove(k: Kind): Move {
    if k.White? then Bad else if k.Quote? then Act(StringEnd) else if k.Backs? then Act(Escape) else To(ST)
  }

  /** What a digit of a Unicode escape does. */
  function HexMove(s: State): Move {
    if s.U1? then To(U2) else if s.U2? then To(U3) else if s.U3? then To(U4) else Act(UnicodeRead)
  }

  /** Inside strings. */
  function NextInString(s: State, k: Kind): Move {
    match s
    case ST => StringMove(k)
    case ES =>
      if k.Quote? || k.Backs? || k.Slash? || k.LowB? || k.LowF? || k.LowN? || k.LowR? || k.LowT? then To(ST)
      else if k.LowU? then To(U1)
      else Bad
    case U1 => if HexDigit(k) then HexMove(s) else Bad
    case U2 => if HexDigit(k) then HexMove(s) else Bad
    case U3 => if HexDigit(k) then HexMove(s) else Bad
    case U4 => if HexDigit(k) then HexMove(s) else Bad
    case D1 => if k.Backs? then To(D2) else Bad
    case D2 => if k.LowU? then To(U1) else Bad
    case _ => Bad
  }

  /** Inside numbers. */
  function NextInNumber(s: State, k: Kind): Move {
    match s
    case MI => if k.Zero? then To(ZE) else if k.Digit? then To(IT) else Bad
    case ZE =>
      if k.Point? then Act(DoubleByFraction) else if k.Slash? then Act(CommentBegin) else AfterValueMove(k)
    case IT =>
      if DigitClass(k) then To(IT)
      else if k.Point? then Act(DoubleByFraction)
      else if Exponent(k) then Act(DoubleByExponent)
      else if k.Slash? then Act(CommentBegin)
      else AfterValueMove(k)
    case FR =>
      if DigitClass(k) then To(FR)
      else if Exponent(k) then To(E1)
      else if k.Slash? then Act(CommentBegin)
      else AfterValueMove(k)
    case FX => if DigitClass(k) then To(FR) else if Exponent(k) then To(E1) else AfterValueMove(k)
    case E1 => if k.Plus? || k.Minus? then To(E2) else if DigitClass(k) then To(E3) else Bad
    case E2 => if DigitClass(k) then To(E3) else Bad
    case E3 => if DigitClass(k) then To(E3) else AfterValueMove(k)
    case _ => Bad
  }

  /** Inside `true`, `false` and `null`. */
  function NextInWord(s: State, k: Kind): Move {
    match s
    case T1 => if k.LowR? then To(T2) else Bad
    case T2 => if k.LowU? then To(T3) else Bad
    case T3 => if k.LowE? then To(OK) else if k.Slash? then Act(CommentBegin) else Bad
    case F1 => if k.LowA? then To(F2) else Bad
    case F2 => if k.LowL? then To(F3) else Bad
    case F3 => if k.LowS? then To(F4) else Bad
    case F4 => if k.LowE? then To(OK) else if k.Slash? then Act(CommentBegin) else Bad
    case N1 => if k.LowU? then To(N2) else Bad
    case N2 => if k.LowL? then To(N3) else Bad
    case N3 => if k.LowL? then To(OK) else if k.Slash? then Act(CommentBegin) else Bad
    case _ => Bad
  }

  /** The table. */
  function Next(s: State, k: Kind): Move {
    if StringState(s) then NextInString(s, k)
    else if NumberState(s) then NextInNumber(s, k)
    else if WordState(s) then NextInWord(s, k)
    else NextBetween(s, k)
  }

  /** The states in which a value may have ended. */
  predicate MayEnd(s: State) {
    s.OK? || s.ZE? || s.IT? || s.FR? || s.FX? || s.E3?
  }

  // ---- What the table says of them

  /** Where a number state can go: on within its kind, to a float, or where any ended value goes. */
  lemma NumberMoves(s: State, k: Kind)
    requires NumberState(s)
    ensures Next(s, k) == AfterValueMove(k) || Next(s, k) == Bad
         || (Next(s, k) == Act(DoubleByFraction) && (s.ZE? || s.IT?) && k.Point?)
         || (Next(s, k) == Act(DoubleByExponent) && s.IT? && Exponent(k))
         || Next(s, k) == Act(CommentBegin)
         || (Next(s, k).To? && NumberState(Next(s, k).state) && IntegerState(Next(s, k).state) == IntegerState(s))
  {
    hide NextInString, NextInWord, NextBetween;
    if IntegerState(s) { IntegerMoves(s, k); } else { FloatMoves(s, k); }
  }

  lemma IntegerMoves(s: State, k: Kind)
    requires IntegerState(s)
    ensures var m := NextInNumber(s, k);
      m == AfterValueMove(k) || m == Bad || m == Act(CommentBegin) || (m.To? && IntegerState(m.state))
      || (m == Act(DoubleByFraction) && !s.MI? && k.Point?) || (m == Act(DoubleByExponent) && s.IT? && Exponent(k))
  {
    hide AfterValueMove;
  }

  lemma FloatMoves(s: State, k: Kind)
    requires NumberState(s) && !IntegerState(s)
    ensures var m := NextInNumber(s, k);
      m == AfterValueMove(k) || m == Bad || m == Act(CommentBegin)
      || (m.To? && NumberState(m.state) && !IntegerState(m.state))
  {
    hide AfterValueMove;
  }

  predicate IntegerState(s: State) {
    s.MI? || s.ZE? || s.IT?
  }

  lemma WordMoves(s: State, k: Kind)
    requires WordState(s)
    ensures match Next(s, k)
      case To(t) => WordState(t) || t.OK?
      case Act(a) => a.CommentBegin?
      case Bad => true
  {
    hide Next, NextInWord;
    NextIsWord(s, k);
    if s.T1? || s.T2? || s.T3? { TrueMoves(s, k); }
    else if s.N1? || s.N2? || s.N3? { NullMoves(s, k); }
    else { FalseMoves(s, k); }
  }

  predicate WordMove(m: Move) {
    m.Bad? || (m.To? && (WordState(m.state) || m.state.OK?)) || (m.Act? && m.action.CommentBegin?)
  }

  lemma TrueMoves(s: State, k: Kind)
    requires s.T1? || s.T2? || s.T3?
    ensures WordMove(NextInWord(s, k))
  {
  }

  lemma FalseMoves(s: State, k: Kind)
    requires s.F1? || s.F2? || s.F3? || s.F4?
    ensures WordMove(NextInWord(s, k))
  {
  }

  lemma NullMoves(s: State, k: Kind)
    requires s.N1? || s.N2? || s.N3?
    ensures WordMove(NextInWord(s, k))
  {
  }

  /** Strings are left only by a quote. */
  lemma StringMoves(s: State, k: Kind)
    requires StringState(s)
    ensures match Next(s, k)
      case To(t) =>
        && StringState(t) && !t.ES? && (t.D2? <==> s.D1?) && (t.D2? ==> k.Backs?)
        && (!s.ES? && !s.D2? ==> !k.Quote? && (k.Backs? ==> s.D1?))
      case Act(a) => (a.StringEnd? && s.ST? && k.Quote?) || (a.Escape? && s.ST? && k.Backs?)
        || (a.UnicodeRead? && s.U4?)
      case Bad => true
  {
    hide NextInWord, NextInNumber, NextBetween;
  }

  lemma UnicodeMoves(s: State, k: Kind)
    requires UnicodeState(s)
    ensures !HexDigit(k) ==> Next(s, k).Bad?
    ensures HexDigit(k) ==> Next(s, k) == HexMove(s)
  {
    hide NextInWord, NextInNumber, NextBetween;
  }

  lemma PlainMoves(s: State, k: Kind)
    requires s.ST? || s.D1? || s.D2?
    ensures s.ST? ==> Next(s, k) == StringMove(k)
    ensures s.D1? ==> Next(s, k) == if k.Backs? then To(D2) else Bad
    ensures s.D2? ==> Next(s, k) == if k.LowU? then To(U1) else Bad
  {
    hide NextInWord, NextInNumber, NextBetween;
  }

  predicate BetweenState(s: State) {
    s.GO? || s.OK? || s.OB? || s.KE? || s.CO? || s.VA? || s.AR?
  }

  lemma NextIsBetween(s: State, k: Kind)
    requires BetweenState(s)
    ensures Next(s, k) == NextBetween(s, k)
  {
    hide NextInWord, NextInNumber, NextInString, NextBetween;
  }

  lemma NextIsWord(s: State, k: Kind)
    requires WordState(s)
    ensures Next(s, k) == NextInWord(s, k)
  {
    hide NextInWord, NextInNumber, NextInString, NextBetween;
  }

  /** Between tokens blanks change nothing, and everything else acts. */
  lemma BetweenMoves(s: State, k: Kind)
    requires BetweenState(s)
    ensures match Next(s, k)
      case To(t) => t == s && Blank(k)
      case Bad => true
      case Act(a) =>
        && !Blank(k)
        && match s
           case GO => a.ObjectBegin? || a.ArrayBegin? || a.CommentBegin?
           case OK => a.ObjectEnd? || a.ArrayEnd? || a.Comma? || a.CommentBegin?
           case OB => a.EmptyObjectEnd? || a.StringBegin? || a.CommentBegin?
           case KE => a.StringBegin? || a.CommentBegin?
           case CO => a.Colon? || a.CommentBegin?
           case _ => BeginsValue(a)
  {
    hide Next, BeginsValue, ValueMove;
    NextIsBetween(s, k);
    if s.VA? || s.AR? { ValueMoves(k); }
  }

  lemma ValueMoves(k: Kind)
    ensures BeginsValue(ArrayEnd)
    ensures ValueMove(k).Bad? || (ValueMove(k).Act? && BeginsValue(ValueMove(k).action) && !Blank(k))
  {
  }

  lemma AfterValueMoves(k: Kind)
    ensures match AfterValueMove(k)
      case To(t) => t.OK? && Blank(k)
      case Bad => true
      case Act(a) => a.ObjectEnd? || a.ArrayEnd? || a.Comma?
  {
  }

  lemma ValueStateMoves(s: State, k: Kind)
    requires s.VA? || s.AR?
    ensures Next(s, k).To? ==> Next(s, k).state == s && Blank(k)
    ensures Next(s, k).Act? ==> BeginsValue(Next(s, k).action)
  {
    hide Next;
    BetweenMoves(s, k);
  }

  /** What can happen where a value is to begin. */
  predicate BeginsValue(a: Action) {
    || a.ObjectBegin? || a.ArrayBegin? || a.ArrayEnd? || a.StringBegin? || a.CommentBegin?
    || a.IntegerByMinus? || a.IntegerByZero? || a.IntegerByDigit? || a.True? || a.False? || a.Null?
  }

  lemma NotBlankActs(s: State, k: Kind)
    requires s.VA? || s.AR?
    ensures Next(s, k).Act? ==> !Blank(k)
  {
    hide Next;
    BetweenMoves(s, k);
  }

  /** The states with a meaning of their own to the builder are only left by actions. */
  lemma ToMoves(s: State, k: Kind, t: State)
    requires Next(s, k) == To(t)
    ensures (s.CO? <==> t.CO?) && (s.VA? <==> t.VA?)
    ensures s.OK? ==> t.OK?
    ensures t.OK? ==> s.OK? || NumberState(s) || WordState(s)
  {
    hide Next, AfterValueMove;
    if StringState(s) { StringMoves(s, k); }
    else if NumberState(s) {
      NumberMoves(s, k);
      AfterValueMoves(k);
    }
    else if WordState(s) { WordMoves(s, k); }
    else { BetweenMoves(s, k); }
  }

  /** Where the actions with callbacks can come from. */
  lemma ActionStates(s: State, k: Kind, a: Action)
    requires Next(s, k) == Act(a)
    ensures a.ArrayEnd? ==> s.AR? || s.OK? || NumberState(s)
    ensures a.ObjectEnd? || a.Comma? ==> s.OK? || NumberState(s)
    ensures a.EmptyObjectEnd? ==> s.OB?
    ensures a.ObjectBegin? || a.ArrayBegin? ==> s.GO? || s.VA? || s.AR?
    ensures a.StringEnd? ==> s.ST?
  {
    hide Next, AfterValueMove;
    if StringState(s) { StringMoves(s, k); }
    else if NumberState(s) {
      NumberMoves(s, k);
      AfterValueMoves(k);
    }
    else if WordState(s) { WordMoves(s, k); }
    else {
      BetweenMoves(s, k);
      NoArrayEnd(s, k);
    }
  }

  lemma NoArrayEnd(s: State, k: Kind)
    ensures s.VA? ==> Next(s, k) != Act(ArrayEnd)
  {
    hide NextInWord, NextInNumber, NextInString;
  }

  /** Where the actions without callbacks can come from. */
  lemma QuietStates(s: State, k: Kind, a: Action)
    requires Next(s, k) == Act(a)
    ensures a.Colon? ==> s.CO?
    ensures a.StringBegin? ==> s.OB? || s.KE? || s.VA? || s.AR?
    ensures a.Escape? ==> s.ST?
    ensures a.UnicodeRead? ==> s.U4?
    ensures a.IntegerByMinus? || a.IntegerByZero? || a.IntegerByDigit? || a.True? || a.False? || a.Null? ==>
      s.VA? || s.AR?
    ensures a.DoubleByExponent? || a.DoubleByFraction? ==> s.ZE? || s.IT?
  {
    hide Next, AfterValueMove;
    if StringState(s) { StringMoves(s, k); }
    else if NumberState(s) {
      NumberMoves(s, k);
      AfterValueMoves(k);
    }
    else if WordState(s) { WordMoves(s, k); }
    else { BetweenMoves(s, k); }
  }

  /** The classes that have one character, and the blanks. */
  lemma KindChars(ch: char, k: Kind)
    requires Classify(ch) == Known(k)
    ensures (k.LCurb? <==> ch == '{') && (k.RCurb? <==> ch == '}') && (k.LSqrb? <==> ch == '[')
      && (k.RSqrb? <==> ch == ']')
    ensures (k.ColonClass? <==> ch == ':') && (k.CommaClass? <==> ch == ',') && (k.Quote? <==> ch == '"')
    ensures (k.Backs? <==> ch == '\\') && (k.LowU? <==> ch == 'u')
    ensures Blank(k) <==> ch == ' ' || ch == '\t' || ch == '\n' || ch == '\r'
  {
  }

  /** The classes that make the punctuation actions happen. */
  lemma ActionKinds(s: State, k: Kind, a: Action)
    requires Next(s, k) == Act(a)
    ensures (a.ObjectBegin? ==> k.LCurb?) && (a.ArrayBegin? ==> k.LSqrb?)
    ensures a.ObjectEnd? || a.EmptyObjectEnd? ==> k.RCurb?
    ensures (a.ArrayEnd? ==> k.RSqrb?) && (a.Comma? ==> k.CommaClass?) && (a.Colon? ==> k.ColonClass?)
    ensures a.StringBegin? || a.StringEnd? ==> k.Quote?
    ensures a.Escape? ==> k.Backs?
  {
    hide Next, AfterValueMove;
    if StringState(s) { StringMoves(s, k); }
    else if NumberState(s) {
      NumberMoves(s, k);
      AfterValueKinds(k);
    }
    else if WordState(s) { WordMoves(s, k); }
    else { BetweenKinds(s, k, a); }
  }

  lemma AfterValueKinds(k: Kind)
    ensures var m := AfterValueMove(k);
      && (m.To? ==> m.state.OK? && Blank(k))
      && (m == Act(ObjectEnd) <==> k.RCurb?) && (m == Act(ArrayEnd) <==> k.RSqrb?)
      && (m == Act(Comma) <==> k.CommaClass?)
      && (m.Act? ==> m.action.ObjectEnd? || m.action.ArrayEnd? || m.action.Comma?)
  {
  }

  lemma BetweenKinds(s: State, k: Kind, a: Action)
    requires BetweenState(s) && Next(s, k) == Act(a)
    ensures (a.ObjectBegin? ==> k.LCurb?) && (a.ArrayBegin? ==> k.LSqrb?)
    ensures a.ObjectEnd? || a.EmptyObjectEnd? ==> k.RCurb?
    ensures (a.ArrayEnd? ==> k.RSqrb?) && (a.Comma? ==> k.CommaClass?) && (a.Colon? ==> k.ColonClass?)
    ensures a.StringBegin? ==> k.Quote?
    ensures !a.StringEnd? && !a.Escape?
  {
    hide Next, AfterValueMove, ValueMove;
    NextIsBetween(s, k);
    AfterValueKinds(k);
    ValueKinds(k);
  }

  lemma ValueKinds(k: Kind)
    ensures var m := ValueMove(k);
      && (m == Act(ObjectBegin) <==> k.LCurb?) && (m == Act(ArrayBegin) <==> k.LSqrb?)
      && (m == Act(StringBegin) <==> k.Quote?)
      && (m.Act? ==> BeginsValue(m.action) && !m.action.ArrayEnd?) && (k.RCurb? || k.RSqrb? ==> m.Bad?)
  {
  }

  /** What the brackets and the first letters of the words do where a value may begin. */
  lemma ValueBegins(s: State, k: Kind)
    requires s.GO? || s.VA? || s.AR?
    ensures k.LCurb? ==> Next(s, k) == Act(ObjectBegin)
    ensures k.LSqrb? ==> Next(s, k) == Act(ArrayBegin)
    ensures !s.GO? && k.LowT? ==> Next(s, k) == Act(True)
    ensures !s.GO? && k.LowF? ==> Next(s, k) == Act(False)
    ensures !s.GO? && k.LowN? ==> Next(s, k) == Act(Null)
  {
    hide Next;
    NextIsBetween(s, k);
  }

  /** What the closing brackets do. */
  lemma CloseMoves(s: State, k: Kind)
    requires k.RSqrb? || k.RCurb?
    ensures Next(s, k) == Act(ArrayEnd) <==> k.RSqrb? && (MayEnd(s) || s.AR?)
    ensures Next(s, k) == Act(ObjectEnd) <==> k.RCurb? && MayEnd(s)
    ensures Next(s, k) == Act(EmptyObjectEnd) <==> k.RCurb? && s.OB?
    ensures StringState(s) ==> Next(s, k).Bad? || (Next(s, k).To? && StringState(Next(s, k).state))
    ensures !StringState(s) && !MayEnd(s) && !s.AR? && !s.OB? ==> Next(s, k).Bad?
    ensures s.AR? && k.RCurb? ==> Next(s, k).Bad?
    ensures s.OB? && k.RSqrb? ==> Next(s, k).Bad?
  {
    hide Next, NextInNumber, NextInString, NextInWord, AfterValueMove, ValueMove;
    AfterValueKinds(k);
    ValueKinds(k);
    if StringState(s) {
      StringMoves(s, k);
      NoHexBracket(s, k);
    } else if NumberState(s) { CloseInNumber(s, k); }
    else if WordState(s) { CloseInWord(s, k); }
    else { NextIsBetween(s, k); }
  }

  lemma NoHexBracket(s: State, k: Kind)
    requires StringState(s) && (k.RSqrb? || k.RCurb?)
    ensures !Next(s, k).Act?
  {
    hide NextInNumber, NextInWord, NextBetween;
  }

  lemma CloseInNumber(s: State, k: Kind)
    requires NumberState(s) && (k.RSqrb? || k.RCurb?)
    ensures Next(s, k) == if MayEnd(s) then AfterValueMove(k) else Bad
  {
    hide NextInString, NextInWord, NextBetween;
  }

  lemma CloseInWord(s: State, k: Kind)
    requires WordState(s) && (k.RSqrb? || k.RCurb?)
    ensures Next(s, k).Bad?
  {
    hide NextInString, NextInNumber, NextBetween;
  }

  /** What ends a value where it may end. */
  lemma EndedMoves(s: State, k: Kind)
    requires MayEnd(s) && (k.CommaClass? || k.RSqrb? || k.RCurb?)
    ensures Next(s, k) == Act(if k.CommaClass? then Comma else if k.RSqrb? then ArrayEnd else ObjectEnd)
  {
    hide NextInString, NextInWord;
  }

  /** Numbers and words go on with characters of their own, or end with a blank. */
  lemma PlainTo(s: State, k: Kind)
    requires (NumberState(s) || WordState(s)) && Next(s, k).To?
    ensures var t := Next(s, k).state;
      && (NumberState(t) || WordState(t) || t.OK?)
      && !k.Quote? && !k.LCurb? && !k.LSqrb? && !k.RCurb? && !k.RSqrb?
  {
    hide Next;
    if NumberState(s) { PlainInNumber(s, k); } else { PlainInWord(s, k); }
  }

  lemma PlainInNumber(s: State, k: Kind)
    requires NumberState(s) && Next(s, k).To?
    ensures NumberState(Next(s, k).state) || Next(s, k).state.OK?
    ensures !k.Quote? && !k.LCurb? && !k.LSqrb? && !k.RCurb? && !k.RSqrb?
  {
    hide Next, NextInNumber;
    NextIsNumber(s, k);
    if IntegerState(s) { PlainInInteger(s, k); } else { PlainInFloat(s, k); }
  }

  lemma NextIsNumber(s: State, k: Kind)
    requires NumberState(s)
    ensures Next(s, k) == NextInNumber(s, k)
  {
    hide NextInWord, NextInNumber, NextInString, NextBetween;
  }

  lemma PlainInInteger(s: State, k: Kind)
    requires IntegerState(s) && NextInNumber(s, k).To?
    ensures NumberState(NextInNumber(s, k).state) || NextInNumber(s, k).state.OK?
    ensures !k.Quote? && !k.LCurb? && !k.LSqrb? && !k.RCurb? && !k.RSqrb?
  {
  }

  lemma PlainInFloat(s: State, k: Kind)
    requires NumberState(s) && !IntegerState(s) && NextInNumber(s, k).To?
    ensures NumberState(NextInNumber(s, k).state) || NextInNumber(s, k).state.OK?
    ensures !k.Quote? && !k.LCurb? && !k.LSqrb? && !k.RCurb? && !k.RSqrb?
  {
  }

  lemma PlainInWord(s: State, k: Kind)
    requires WordState(s) && Next(s, k).To?
    ensures WordState(Next(s, k).state) || Next(s, k).state.OK?
    ensures !k.Quote? && !k.LCurb? && !k.LSqrb? && !k.RCurb? && !k.RSqrb?
  {
    hide Next;
    NextIsWord(s, k);
  }

  /** The characters that begin a number or a word, or go on to its fraction or exponent. */
  lemma ScalarKinds(s: State, k: Kind, a: Action)
    requires Next(s, k) == Act(a) && ScalarAction(a)
    ensures !Blank(k) && !k.Quote? && !k.LCurb? && !k.LSqrb? && !k.RCurb? && !k.RSqrb? && !StringState(s)
  {
    hide Next, AfterValueMove;
    if StringState(s) { StringMoves(s, k); }
    else if NumberState(s) {
      NumberMoves(s, k);
      AfterValueKinds(k);
    }
    else if WordState(s) { WordMoves(s, k); }
    else { ScalarBetween(s, k, a); }
  }

  predicate ScalarAction(a: Action) {
    || a.IntegerByMinus? || a.IntegerByZero? || a.IntegerByDigit? || a.True? || a.False? || a.Null?
    || a.DoubleByExponent? || a.DoubleByFraction?
  }

  lemma ScalarBetween(s: State, k: Kind, a: Action)
    requires BetweenState(s) && Next(s, k) == Act(a) && ScalarAction(a)
    ensures !Blank(k) && !k.Quote? && !k.LCurb? && !k.LSqrb? && !k.RCurb? && !k.RSqrb?
  {
    hide Next, AfterValueMove, ValueMove;
    NextIsBetween(s, k);
    AfterValueKinds(k);
    ValueKinds(k);
    BetweenMoves(s, k);
  }

  lemma PointMove(s: State, k: Kind, ch: char)
    requires Classify(ch) == Known(k) && Next(s, k) == Act(DoubleByFraction)
    ensures ch == '.'
  {
    hide Classify, Next, AfterValueMove;
    QuietStates(s, k, DoubleByFraction);
    NumberMoves(s, k);
    AfterValueMoves(k);
    PointChar(ch, k);
  }

  lemma PointChar(ch: char, k: Kind)
    requires Classify(ch) == Known(k) && k.Point?
    ensures ch == '.'
  {
  }

  lemma NotBlankMove(s: State, k: Kind)
    requires Next(s, k).Act?
    ensures !Blank(k) && !s.ES?
  {
    hide Next, AfterValueMove, Blank;
    if StringState(s) { NotBlankInString(s, k); }
    else if NumberState(s) { NotBlankInNumber(s, k); }
    else if WordState(s) { NotBlankInWord(s, k); }
    else { BetweenMoves(s, k); }
  }

  lemma NotBlankInString(s: State, k: Kind)
    requires StringState(s) && Next(s, k).Act?
    ensures !Blank(k) && !s.ES?
  {
    hide NextInWord, NextInNumber, NextBetween;
  }

  lemma NotBlankInNumber(s: State, k: Kind)
    requires NumberState(s) && Next(s, k).Act?
    ensures !Blank(k)
  {
    hide NextInWord, NextInString, NextBetween;
  }

  lemma NotBlankInWord(s: State, k: Kind)
    requires WordState(s) && Next(s, k).Act?
    ensures !Blank(k)
  {
    hide NextInNumber, NextInString, NextBetween;
  }
}
