/** Runs of the push-down parser over blanks, words, numbers and strings, and over what follows a value. */
module JsonParserTokens {
  import opened JsonParserTable
  import opened JsonParserStep
  import opened JsonGrammar

  /** A machine between tokens: no scalar under way, nothing buffered. */
  function Idle(depth: int, state: State, stack: seq<Mode>): Machine {
    Machine(depth, state, NoType, false, 0, stack, "")
  }

  lemma PrependAppend(a: seq<ParseEvent>, b: seq<ParseEvent>, r: Run)
    ensures Prepend(a, Prepend(b, r)) == Prepend(a + b, r)
  {
    if r.Accepted? { assert a + (b + r.events) == a + b + r.events; }
  }

  lemma PrependNothing(r: Run)
    ensures Prepend([], r) == r
  {
    if r.Accepted? { assert [] + r.events == r.events; }
  }

  /** One character that is not refused. */
  lemma Step1(m: Machine, s: string)
    requires s != ""
    ensures RunFrom(m, s) == match Char(m, s[0])
      case Rejected => Refused
      case Go(m1, evs) => Prepend(evs, RunFrom(m1, s[1..]))
  {
  }

  predicate SkipsBlanks(state: State) {
    state.GO? || state.OK? || state.OB? || state.KE? || state.CO? || state.VA? || state.AR?
  }

  lemma BlankStep(m: Machine, ch: char)
    requires m == Idle(m.depth, m.state, m.stack) && SkipsBlanks(m.state) && BlankChar(ch)
    ensures Char(m, ch) == Go(m, [])
  {
    hide Perform;
  }

  lemma {:induction false} RunBlanks(m: Machine, s: string)
    requires m == Idle(m.depth, m.state, m.stack) && SkipsBlanks(m.state)
    ensures RunFrom(m, s) == RunFrom(m, SkipBlanks(s))
    decreases |s|
  {
    hide Char, RunFrom;
    if s != "" && BlankChar(s[0]) {
      BlankStep(m, s[0]);
      Step1(m, s);
      PrependNothing(RunFrom(m, s[1..]));
      RunBlanks(m, s[1..]);
    }
  }

  // ---- Words

  predicate BeforeValueState(m: Machine) {
    m == Idle(m.depth, m.state, m.stack) && (m.state.VA? || m.state.AR?)
  }

  /** The one letter a word state waits for, and the state after it. */
  function Awaited(state: State): (char, State)
    requires WordState(state)
  {
    match state
    case T1 => ('r', T2)
    case T2 => ('u', T3)
    case T3 => ('e', OK)
    case F1 => ('a', F2)
    case F2 => ('l', F3)
    case F3 => ('s', F4)
    case F4 => ('e', OK)
    case N1 => ('u', N2)
    case N2 => ('l', N3)
    case _ => ('l', OK)
  }

  /** The letters that remain to be read. */
  function Remaining(state: State): string
    requires WordState(state) || state.OK?
  {
    match state
    case T1 => "rue"
    case T2 => "ue"
    case T3 => "e"
    case F1 => "alse"
    case F2 => "lse"
    case F3 => "se"
    case F4 => "e"
    case N1 => "ull"
    case N2 => "ll"
    case N3 => "l"
    case _ => ""
  }

  lemma NothingRemains()
    ensures Remaining(OK) == ""
  {
  }

  lemma AwaitedStates(state: State)
    requires WordState(state)
    ensures WordState(Awaited(state).1) || Awaited(state).1.OK?
  {
  }

  lemma OneRemaining(state: State)
    requires WordState(state)
    ensures Remaining(state) == [Awaited(state).0] + Remaining(Awaited(state).1)
  {
  }

  /** A character of a known class, by the table and the action it leads to. */
  lemma CharByClass(m: Machine, ch: char, k: Kind)
    requires Classify(ch) == Known(k) && AddChar(m, ch, k).Go?
    ensures Char(m, ch) == JsonParserStep.Move(AddChar(m, ch, k).m, Next(m.state, k))
  {
  }

  /** A character that is buffered as it is. */
  lemma BufferedMove(m: Machine, ch: char, k: Kind)
    requires Classify(ch) == Known(k) && !m.escaped && (!m.scalar.NoType? || !Blank(k))
    ensures Char(m, ch) == JsonParserStep.Move(m.(buffer := m.buffer + [ch]), Next(m.state, k))
  {
    hide Classify, Next, Perform, Escaped;
  }

  lemma PopsBack(m: Machine, ch: char)
    ensures PopChar(m.(buffer := m.buffer + [ch])) == m
  {
    assert (m.buffer + [ch])[..|m.buffer|] == m.buffer;
  }

  /** The class of the letter that is awaited. */
  function AwaitedKind(state: State): Kind
    requires WordState(state)
  {
    match state
    case T1 => LowR
    case T2 => LowU
    case T3 => LowE
    case F1 => LowA
    case F2 => LowL
    case F3 => LowS
    case F4 => LowE
    case N1 => LowU
    case N2 => LowL
    case _ => LowL
  }

  lemma AwaitedClass(state: State, ch: char)
    requires WordState(state)
    ensures Classify(ch) == Known(AwaitedKind(state)) <==> ch == Awaited(state).0
  {
  }

  /** In a word the table goes on with the letter that is awaited, and with no other. */
  lemma AwaitedMove(state: State, k: Kind)
    requires WordState(state)
    ensures k == AwaitedKind(state) ==> Next(state, k) == To(Awaited(state).1)
    ensures k != AwaitedKind(state) ==> Next(state, k).Bad? || Next(state, k) == Act(CommentBegin)
  {
    hide Next;
    NextIsWord(state, k);
  }

  lemma Letter(m: Machine, ch: char)
    requires !m.scalar.NoType? && !m.escaped && WordState(m.state)
    ensures Char(m, ch)
         == if ch == Awaited(m.state).0 then Go(m.(state := Awaited(m.state).1, buffer := m.buffer + [ch]), [])
            else Rejected
  {
    hide Char, Classify, Next, Awaited, AwaitedKind, CloseContainer, OpenContainer, DecodeUnicode, ScalarEvents;
    AwaitedClass(m.state, ch);
    if Classify(ch).Known? {
      AwaitedMove(m.state, Classify(ch).kind);
      BufferedMove(m, ch, Classify(ch).kind);
    } else {
      IllegalChar(m, ch);
    }
  }

  lemma IllegalChar(m: Machine, ch: char)
    requires Classify(ch).Illegal?
    ensures Char(m, ch) == Rejected
  {
  }

  lemma {:induction false} RunLetters(m: Machine, s: string, word: string)
    requires !m.scalar.NoType? && !m.escaped && (WordState(m.state) || m.state.OK?) && word == Remaining(m.state)
    ensures RunFrom(m, s)
         == if word <= s then RunFrom(m.(state := OK, buffer := m.buffer + word), s[|word|..]) else Refused
    decreases |word|
  {
    hide Char, Remaining, Awaited;
    if m.state.OK? {
      assert word == "" by { NothingRemains(); }
      assert m.buffer + word == m.buffer;
      return;
    }
    OneRemaining(m.state);
    if s != "" {
      Letter(m, s[0]);
      AwaitedStates(m.state);
      if s[0] == word[0] {
        var m1 := m.(state := Awaited(m.state).1, buffer := m.buffer + [s[0]]);
        PrependNothing(RunFrom(m1, s[1..]));
        RunLetters(m1, s[1..], word[1..]);
        assert m1.buffer + word[1..] == m.buffer + word;
        assert word <= s <==> word[1..] <= s[1..] by {
          assert word == [word[0]] + word[1..] && s == [s[0]] + s[1..];
        }
      }
    }
  }

  /** What reading a scalar leaves: the scalar noted and buffered, in a state that ends a value. */
  function Noted(m: Machine, state: State, scalar: ScalarType, buffer: string): Machine {
    m.(state := state, scalar := scalar, buffer := buffer)
  }

  lemma FirstLetterMove(state: State, ch: char)
    requires (state.VA? || state.AR?) && (ch == 't' || ch == 'f' || ch == 'n')
    ensures Classify(ch).Known? && !Blank(Classify(ch).kind)
    ensures Next(state, Classify(ch).kind) == Act(if ch == 't' then True else if ch == 'f' then False else Null)
  {
    hide Next;
    ValueBegins(state, Classify(ch).kind);
  }

  lemma FirstLetter(m: Machine, s: string)
    requires BeforeValueState(m) && s != "" && (s[0] == 't' || s[0] == 'f' || s[0] == 'n')
    ensures RunFrom(m, s)
         == RunFrom(Noted(m, if s[0] == 't' then T1 else if s[0] == 'f' then F1 else N1,
                          if s[0] == 't' then TrueType else if s[0] == 'f' then FalseType else NullType, [s[0]]),
                            s[1..])
  {
    hide CloseContainer, OpenContainer, DecodeUnicode, ScalarEvents, Char, Next, Classify;
    FirstLetterMove(m.state, s[0]);
    CharByClass(m, s[0], Classify(s[0]).kind);
    var m1 := Noted(m, if s[0] == 't' then T1 else if s[0] == 'f' then F1 else N1,
                    if s[0] == 't' then TrueType else if s[0] == 'f' then FalseType else NullType, [s[0]]);
    hide RunFrom;
    assert m.buffer + [s[0]] == [s[0]];
    assert Char(m, s[0]) == Go(m1, []);
    Step1(m, s);
    PrependNothing(RunFrom(m1, s[1..]));
  }

  /** `true`, `false` and `null` are noted when their last letter has been read. */
  lemma RunWord(m: Machine, s: string, word: string, t: Tree, scalar: ScalarType)
    requires BeforeValueState(m) && s != "" && word != "" && s[0] == word[0]
    requires (word == "true" && t == TrueTree && scalar == TrueType)
          || (word == "false" && t == FalseTree && scalar == FalseType)
          || (word == "null" && t == NullTree && scalar == NullType)
    ensures RunFrom(m, s)
         == match Word(s, word, t)
            case NotFound => Refused
            case Found(_, rest) => RunFrom(Noted(m, OK, scalar, word), rest)
  {
    hide RunFrom;
    FirstLetter(m, s);
    var m1 := Noted(m, if s[0] == 't' then T1 else if s[0] == 'f' then F1 else N1, scalar, [s[0]]);
    assert word[1..] == (if s[0] == 't' then "rue" else if s[0] == 'f' then "alse" else "ull");
    RunLetters(m1, s[1..], word[1..]);
    assert m1.buffer + word[1..] == word;
    assert word <= s <==> word[1..] <= s[1..] by {
      assert word == [word[0]] + word[1..] && s == [s[0]] + s[1..];
    }
    if word <= s { assert s[1..][|word| - 1..] == s[|word|..]; }
  }

  // ---- What follows a value

  /** The next character does not continue the number that may have ended. */
  predicate NoContinuation(state: State, s: string) {
    s != "" && Classify(s[0]).Known? ==>
      var k := Classify(s[0]).kind;
      Next(state, k) == AfterValueMove(k) || Next(state, k) == Bad || Next(state, k) == Act(CommentBegin)
  }

  /** The run from the end of a value on, given the events still to be delivered for it. */
  function EndOf(depth: int, stack: seq<Mode>, evs: seq<ParseEvent>, r: string): Run
    requires stack != []
  {
    var below := stack[..|stack| - 1];
    var top := stack[|stack| - 1];
    if StartsWith(r, ',') && top == InArray then Prepend(evs, RunFrom(Idle(depth, VA, stack), r[1..]))
    else if StartsWith(r, ',') && top == InObject then Prepend(evs, RunFrom(Idle(depth, KE, below + [InKey]), r[1..]))
    else if StartsWith(r, ']') && top == InArray
    then Prepend(evs + [ArrayStop], RunFrom(Idle(depth, OK, below), r[1..]))
    else if StartsWith(r, '}') && top == InObject
    then Prepend(evs + [ObjectStop], RunFrom(Idle(depth, OK, below), r[1..]))
    else Refused
  }

  lemma EndOfPrepend(depth: int, stack: seq<Mode>, a: seq<ParseEvent>, b: seq<ParseEvent>, r: string)
    requires stack != []
    ensures Prepend(a, EndOf(depth, stack, b, r)) == EndOf(depth, stack, a + b, r)
  {
    var below := stack[..|stack| - 1];
    assert a + (b + [ArrayStop]) == a + b + [ArrayStop] && a + (b + [ObjectStop]) == a + b + [ObjectStop];
    PrependAppend(a, b, RunFrom(Idle(depth, VA, stack), if r == "" then "" else r[1..]));
    PrependAppend(a, b, RunFrom(Idle(depth, KE, below + [InKey]), if r == "" then "" else r[1..]));
    PrependAppend(a, b + [ArrayStop], RunFrom(Idle(depth, OK, below), if r == "" then "" else r[1..]));
    PrependAppend(a, b + [ObjectStop], RunFrom(Idle(depth, OK, below), if r == "" then "" else r[1..]));
  }

  predicate Ended(m: Machine) {
    && MayEnd(m.state) && !m.escaped && m.highSurrogate == 0
    && !m.scalar.StringType?
    && (m.scalar.NoType? ==> m.state.OK? && m.buffer == "")
    && (!m.scalar.NoType? ==> m.buffer != "")
    && m.stack != [] && InsideValue(m)
    && (m.depth >= 0 ==> |m.stack| <= m.depth)
  }

  lemma DelimiterClass(ch: char)
    requires ch == ',' || ch == ']' || ch == '}'
    ensures Classify(ch) == Known(if ch == ',' then CommaClass else if ch == ']' then RSqrb else RCurb)
  {
  }

  lemma DelimiterMove(m: Machine, ch: char)
    requires Ended(m) && (ch == ',' || ch == ']' || ch == '}')
    ensures Char(m, ch)
         == Perform(m.(buffer := m.buffer + [ch]), if ch == ',' then Comma else if ch == ']' then ArrayEnd
           else ObjectEnd)
    ensures PopChar(m.(buffer := m.buffer + [ch])) == m
  {
    hide Perform, Char, Classify, Next, PopChar;
    var k := if ch == ',' then CommaClass else if ch == ']' then RSqrb else RCurb;
    DelimiterClass(ch);
    BufferedMove(m, ch, k);
    EndedMoves(m.state, k);
    PopsBack(m, ch);
  }

  lemma CommaStep(m: Machine, m1: Machine)
    requires Ended(m) && m1 == m.(buffer := m1.buffer) && PopChar(m1) == m
    ensures Perform(m1, Comma)
         == Go(if Top(m) == InArray then Idle(m.depth, VA, m.stack)
           else Idle(m.depth, KE, m.stack[..|m.stack| - 1] + [InKey]),
               ScalarEvents(m.scalar, m.buffer))
  {
    hide ScalarEvents, CloseContainer, OpenContainer, DecodeUnicode, PopChar;
  }

  lemma CloseStep(m: Machine, m1: Machine, mode: Mode)
    requires Ended(m) && m1 == m.(buffer := m1.buffer) && PopChar(m1) == m && (mode == InArray || mode == InObject)
    ensures CloseContainer(m1, mode)
         == if Top(m) == mode then
              Go(Idle(m.depth, OK, m.stack[..|m.stack| - 1]),
                 ScalarEvents(m.scalar, m.buffer) + [if mode == InArray then ArrayStop else ObjectStop])
            else Rejected
  {
    hide ScalarEvents, PopChar;
  }

  lemma DelimiterStep(m: Machine, ch: char)
    requires Ended(m) && (ch == ',' || ch == ']' || ch == '}')
    ensures Char(m, ch)
         == (var below := m.stack[..|m.stack| - 1];
             var evs := ScalarEvents(m.scalar, m.buffer);
             if ch == ',' && Top(m) == InArray then Go(Idle(m.depth, VA, m.stack), evs)
             else if ch == ',' then Go(Idle(m.depth, KE, below + [InKey]), evs)
             else if ch == ']' && Top(m) == InArray then Go(Idle(m.depth, OK, below), evs + [ArrayStop])
             else if ch == '}' && Top(m) == InObject then Go(Idle(m.depth, OK, below), evs + [ObjectStop])
             else Rejected)
  {
    hide Char, ScalarEvents, Perform, CloseContainer, PopChar;
    DelimiterMove(m, ch);
    var m1 := m.(buffer := m.buffer + [ch]);
    CommaStep(m, m1);
    ClosesBy(m1);
    CloseStep(m, m1, InArray);
    CloseStep(m, m1, InObject);
  }

  /** The character that follows a value, when it is not a blank. */
  lemma RunDelimiter(m: Machine, s: string)
    requires Ended(m) && NoContinuation(m.state, s) && (s != "" ==> !BlankChar(s[0]))
    ensures RunFrom(m, s) == EndOf(m.depth, m.stack, ScalarEvents(m.scalar, m.buffer), s)
  {
    hide ScalarEvents, Perform;
    if s == "" { return; }
    if s[0] == ',' || s[0] == ']' || s[0] == '}' {
      hide Char;
      DelimiterStep(m, s[0]);
    } else if Classify(s[0]).Known? {
      NotADelimiter(s[0], Classify(s[0]).kind);
      NoComment(m.(buffer := m.buffer + [s[0]]));
    }
  }

  lemma NoComment(m: Machine)
    ensures Perform(m, CommentBegin) == Rejected
  {
  }

  lemma NotADelimiter(ch: char, k: Kind)
    requires Classify(ch) == Known(k) && !BlankChar(ch) && ch != ',' && ch != ']' && ch != '}'
    ensures AfterValueMove(k) == Bad
  {
  }

  lemma TrimBlank(s: string, ch: char)
    requires BlankChar(ch)
    ensures TrimRight(s + [ch]) == TrimRight(s)
  {
    assert (s + [ch])[..|s + [ch]| - 1] == s;
  }

  lemma BlankAfterValue(m: Machine, ch: char)
    requires Ended(m) && BlankChar(ch)
    ensures Char(m, ch) == Go(m.(state := OK, buffer := if m.scalar.NoType? then "" else m.buffer + [ch]), [])
  {
    hide Perform, ScalarEvents;
  }

  /** After a value, blanks change nothing; then the delimiter delivers what is pending. */
  lemma {:induction false} RunEnd(m: Machine, s: string)
    requires Ended(m) && NoContinuation(m.state, s)
    ensures RunFrom(m, s) == EndOf(m.depth, m.stack, ScalarEvents(m.scalar, m.buffer), SkipBlanks(s))
    decreases |s|
  {
    hide EndOf, Char;
    if s != "" && BlankChar(s[0]) {
      var m1 := m.(state := OK, buffer := if m.scalar.NoType? then "" else m.buffer + [s[0]]);
      BlankAfterValue(m, s[0]);
      PrependNothing(RunFrom(m1, s[1..]));
      RunEnd(m1, s[1..]);
      TrimBlank(m.buffer, s[0]);
    } else {
      RunDelimiter(m, s);
    }
  }

  // ---- Numbers

  /** One more character of the number being read. */
  function Longer(m: Machine, state: State, scalar: ScalarType, read: string): Machine {
    m.(state := state, scalar := scalar, buffer := m.buffer + read)
  }

  predicate ReadingNumber(m: Machine) {
    !m.scalar.NoType? && !m.scalar.StringType? && !m.escaped && m.highSurrogate == 0 && m.buffer != ""
    && m.stack != [] && InsideValue(m) && (m.depth >= 0 ==> |m.stack| <= m.depth)
  }

  /** The state a digit leads to. */
  function DigitTo(state: State): State {
    match state
    case FX => FR
    case E1 => E3
    case E2 => E3
    case _ => state
  }

  predicate TakesDigits(state: State) {
    state.IT? || state.FX? || state.FR? || state.E1? || state.E2? || state.E3?
  }

  lemma DigitStep(m: Machine, ch: char)
    requires ReadingNumber(m) && TakesDigits(m.state) && DigitChar(ch)
    ensures Char(m, ch) == Go(Longer(m, DigitTo(m.state), m.scalar, [ch]), [])
  {
    hide Perform;
  }

  lemma {:induction false} RunDigits(m: Machine, s: string)
    requires ReadingNumber(m) && TakesDigits(m.state)
    ensures RunFrom(m, s)
         == if Digits(s) == 0 then RunFrom(m, s)
            else RunFrom(Longer(m, DigitTo(m.state), m.scalar, s[..Digits(s)]), s[Digits(s)..])
    decreases |s|
  {
    hide Char;
    if Digits(s) > 0 {
      DigitStep(m, s[0]);
      var m1 := Longer(m, DigitTo(m.state), m.scalar, [s[0]]);
      PrependNothing(RunFrom(m1, s[1..]));
      RunDigits(m1, s[1..]);
      var n := Digits(s[1..]);
      if n == 0 {
        assert s[..1] == [s[0]];
      } else {
        assert m1.buffer + s[1..][..n] == m.buffer + s[..n + 1];
        assert s[1..][n..] == s[n + 1..];
      }
    }
  }

  lemma PointStep(m: Machine)
    requires ReadingNumber(m) && (m.state.ZE? || m.state.IT?)
    ensures Char(m, '.') == Go(Longer(m, FX, FloatType, "."), [])
  {
    hide CloseContainer, OpenContainer, DecodeUnicode, ScalarEvents;
  }

  /** An optional fraction after an integer part. */
  lemma RunFraction(m: Machine, s: string) returns (m1: Machine)
    requires ReadingNumber(m) && (m.state.ZE? || m.state.IT?)
    ensures RunFrom(m, s) == RunFrom(m1, s[FractionLength(s)..])
    ensures FractionLength(s) == 0 ==> m1 == m
    ensures FractionLength(s) > 0 ==>
      (m1.state.FX? || m1.state.FR?) && m1 == Longer(m, m1.state, FloatType, s[..FractionLength(s)])
  {
    hide Char, RunFrom, ReadingNumber;
    m1 := m;
    if StartsWith(s, '.') {
      PointStep(m);
      m1 := Longer(m, FX, FloatType, ".");
      Step1(m, s);
      PrependNothing(RunFrom(m1, s[1..]));
      StillReading(m, FX, ".");
      RunDigits(m1, s[1..]);
      var n := Digits(s[1..]);
      FractionBuffer(m.buffer, s, n);
      if n > 0 { m1 := Longer(m1, FR, FloatType, s[1..][..n]); }
    }
  }

  lemma StillReading(m: Machine, state: State, read: string)
    requires ReadingNumber(m)
    ensures ReadingNumber(Longer(m, state, FloatType, read))
  {
  }

  lemma FractionBuffer(buffer: string, s: string, n: nat)
    requires StartsWith(s, '.') && 1 + n <= |s|
    ensures buffer + "." + s[1..][..n] == buffer + s[..1 + n]
    ensures s[1..][n..] == s[1 + n..] && s[..1] == "."
  {
  }

  lemma ExponentStep(m: Machine, ch: char)
    requires ReadingNumber(m) && (m.state.IT? || m.state.FX? || m.state.FR?) && (ch == 'e' || ch == 'E')
    requires m.state.IT? || m.scalar.FloatType?
    ensures Char(m, ch) == Go(Longer(m, E1, FloatType, [ch]), [])
  {
    hide CloseContainer, OpenContainer, DecodeUnicode, ScalarEvents;
  }

  lemma SignStep(m: Machine, ch: char)
    requires ReadingNumber(m) && m.state.E1? && (ch == '+' || ch == '-')
    ensures Char(m, ch) == Go(Longer(m, E2, m.scalar, [ch]), [])
  {
    hide Perform;
  }

  lemma NoExponentDigit(m: Machine, s: string)
    requires ReadingNumber(m) && (m.state.E1? || m.state.E2?) && Digits(s) == 0
    requires m.state.E1? ==> !StartsWith(s, '+') && !StartsWith(s, '-')
    ensures RunFrom(m, s) == Refused
  {
    hide Perform, Classify, Next;
    if s != "" && Classify(s[0]).Known? { NoDigitMoves(s[0], Classify(s[0]).kind); }
  }

  /** An exponent after its letter. */
  lemma RunSign(m: Machine, s: string) returns (m1: Machine)
    requires ReadingNumber(m) && m.state.E1?
    ensures var sign := if StartsWith(s, '+') || StartsWith(s, '-') then 1 else 0;
      && RunFrom(m, s) == RunFrom(m1, s[sign..])
      && m1 == Longer(m, if sign == 1 then E2 else E1, m.scalar, s[..sign])
  {
    hide Char;
    if StartsWith(s, '+') || StartsWith(s, '-') {
      SignStep(m, s[0]);
      m1 := Longer(m, E2, m.scalar, [s[0]]);
      PrependNothing(RunFrom(m1, s[1..]));
      assert s[..1] == [s[0]];
    } else {
      m1 := m;
      assert m.buffer + s[..0] == m.buffer;
    }
  }

  lemma RunExponent(m: Machine, s: string) returns (m1: Machine)
    requires ReadingNumber(m) && (m.state.IT? || m.state.FX? || m.state.FR?) && StartsExponent(s)
    requires m.state.IT? || m.scalar.FloatType?
    ensures ExponentLength(s) == 0 ==> RunFrom(m, s) == Refused
    ensures ExponentLength(s) > 0 ==>
      m1 == Longer(m, E3, FloatType, s[..ExponentLength(s)]) && RunFrom(m, s) == RunFrom(m1, s[ExponentLength(s)..])
  {
    hide Char, RunFrom, ReadingNumber, Digits, ExponentLength;
    ExponentStep(m, s[0]);
    StillReading(m, E1, [s[0]]);
    var m0 := Longer(m, E1, FloatType, [s[0]]);
    Step1(m, s);
    PrependNothing(RunFrom(m0, s[1..]));
    m1 := RunSign(m0, s[1..]);
    var sign := if StartsWith(s[1..], '+') || StartsWith(s[1..], '-') then 1 else 0;
    StillReading(m0, if sign == 1 then E2 else E1, s[1..][..sign]);
    ExponentParts(s, sign);
    var rest := s[1..][sign..];
    if Digits(rest) == 0 {
      NoExponentDigit(m1, rest);
    } else {
      RunDigits(m1, rest);
      m1 := Longer(m1, E3, FloatType, rest[..Digits(rest)]);
      ExponentBuffer(m.buffer, s, sign, Digits(rest));
    }
  }

  lemma ExponentParts(s: string, sign: nat)
    requires StartsExponent(s) && sign == (if StartsWith(s[1..], '+') || StartsWith(s[1..], '-') then 1 else 0)
    ensures var n := Digits(s[1..][sign..]);
      ExponentLength(s) == (if n == 0 then 0 else 1 + sign + n) && 1 + sign + n <= |s|
  {
    assert s[1..][sign..] == s[1 + sign..];
  }

  lemma ExponentBuffer(buffer: string, s: string, sign: nat, n: nat)
    requires 1 + sign + n <= |s|
    ensures buffer + [s[0]] + s[1..][..sign] + s[1..][sign..][..n] == buffer + s[..1 + sign + n]
    ensures s[1..][sign..][n..] == s[1 + sign + n..]
  {
  }

  lemma MinusStep(m: Machine)
    requires BeforeValueState(m)
    ensures Char(m, '-') == Go(Noted(m, MI, IntegerType, "-"), [])
  {
    hide CloseContainer, OpenContainer, DecodeUnicode, ScalarEvents;
  }

  lemma FirstDigitMove(state: State, ch: char)
    requires (state.VA? || state.AR? || state.MI?) && DigitChar(ch)
    ensures Classify(ch).Known? && !Blank(Classify(ch).kind)
    ensures Next(state, Classify(ch).kind)
         == if state.MI? then To(if ch == '0' then ZE else IT)
           else Act(if ch == '0' then IntegerByZero else IntegerByDigit)
  {
  }

  lemma FirstDigitStep(m: Machine, ch: char)
    requires DigitChar(ch)
    requires BeforeValueState(m) || (ReadingNumber(m) && m.state.MI? && m.scalar.IntegerType?)
    ensures Char(m, ch) == Go(Longer(m, if ch == '0' then ZE else IT, IntegerType, [ch]), [])
  {
    hide CloseContainer, OpenContainer, DecodeUnicode, ScalarEvents, Char, Next, Classify;
    FirstDigitMove(m.state, ch);
    CharByClass(m, ch, Classify(ch).kind);
  }

  lemma NoDigitMoves(ch: char, k: Kind)
    requires Classify(ch) == Known(k) && !DigitChar(ch)
    ensures Next(MI, k) == Bad && Next(E2, k) == Bad
    ensures ch != '+' && ch != '-' ==> Next(E1, k) == Bad
  {
  }

  lemma NoFirstDigit(m: Machine, s: string)
    requires ReadingNumber(m) && m.state.MI? && (s == "" || !DigitChar(s[0]))
    ensures RunFrom(m, s) == Refused
  {
    hide Perform, Classify, Next;
    if s != "" && Classify(s[0]).Known? { NoDigitMoves(s[0], Classify(s[0]).kind); }
  }

  predicate NumberStart(ch: char) {
    DigitChar(ch) || ch == '-'
  }

  lemma NotAValueMove(ch: char, k: Kind)
    requires Classify(ch) == Known(k) && !NumberStart(ch)
    requires ch != '{' && ch != '[' && ch != '"' && ch != 't' && ch != 'f' && ch != 'n'
    ensures ValueMove(k) == Bad || ValueMove(k) == Act(CommentBegin)
    ensures k.RSqrb? ==> ch == ']'
    ensures Blank(k) ==> BlankChar(ch)
  {
  }

  lemma NotAValue(m: Machine, s: string)
    requires BeforeValueState(m) && s != "" && !BlankChar(s[0]) && !NumberStart(s[0])
    requires s[0] != '{' && s[0] != '[' && s[0] != '"' && s[0] != 't' && s[0] != 'f' && s[0] != 'n'
    requires m.state.AR? ==> s[0] != ']'
    ensures RunFrom(m, s) == Refused
  {
    hide Perform, Classify, ValueMove;
    NoComment(m.(buffer := m.buffer + [s[0]]));
    if Classify(s[0]).Known? { NotAValueMove(s[0], Classify(s[0]).kind); }
  }

  /** Reading the digits of an integer part, after its sign if there is one. */
  lemma RunUnsigned(m: Machine, a: string) returns (m1: Machine)
    requires BeforeValueState(m) || (ReadingNumber(m) && m.state.MI? && m.scalar.IntegerType?)
    requires InsideValue(m) && m.stack != [] && (m.depth >= 0 ==> |m.stack| <= m.depth)
    requires a != "" && DigitChar(a[0])
    ensures m1 == Longer(m, if a[0] == '0' then ZE else IT, IntegerType, a[..IntegerLength(a)])
    ensures RunFrom(m, a) == RunFrom(m1, a[IntegerLength(a)..])
  {
    hide Char, RunFrom, Digits;
    var m2 := Longer(m, if a[0] == '0' then ZE else IT, IntegerType, [a[0]]);
    FirstDigitStep(m, a[0]);
    Step1(m, a);
    PrependNothing(RunFrom(m2, a[1..]));
    if a[0] == '0' {
      m1 := m2;
      assert a[..1] == [a[0]];
    } else {
      m1 := MoreDigits(m2, a[1..]);
      MoreDigitsOf(m.buffer, a);
    }
  }

  lemma MoreDigitsOf(buffer: string, a: string)
    requires a != "" && DigitChar(a[0]) && a[0] != '0'
    ensures IntegerLength(a) == 1 + Digits(a[1..])
    ensures buffer + [a[0]] + a[1..][..Digits(a[1..])] == buffer + a[..IntegerLength(a)]
    ensures a[1..][Digits(a[1..])..] == a[IntegerLength(a)..]
  {
  }

  /** Reading a number as far as its integer part. */
  lemma RunInteger(m: Machine, s: string) returns (m1: Machine)
    requires BeforeValueState(m) && InsideValue(m) && m.stack != [] && (m.depth >= 0 ==> |m.stack| <= m.depth)
    requires s != "" && NumberStart(s[0])
    ensures WholeLength(s) == 0 ==> RunFrom(m, s) == Refused
    ensures WholeLength(s) > 0 ==>
      && m1 == Noted(m, if StartsWith(s[SignLength(s)..], '0') then ZE else IT, IntegerType, s[..WholeLength(s)])
      && RunFrom(m, s) == RunFrom(m1, s[WholeLength(s)..])
  {
    hide Char, RunFrom, IntegerLength, Digits;
    m1 := m;
    if StartsWith(s, '-') {
      MinusStep(m);
      m1 := Noted(m, MI, IntegerType, "-");
      Step1(m, s);
      PrependNothing(RunFrom(m1, s[1..]));
    }
    var sign := SignLength(s);
    var a := s[sign..];
    assert sign == 0 ==> a == s;
    if a == "" || !DigitChar(a[0]) {
      NoFirstDigit(m1, a);
      return;
    }
    var before := m1.buffer;
    m1 := RunUnsigned(m1, a);
    assert before == s[..sign] && before + a[..IntegerLength(a)] == s[..WholeLength(s)];
    assert a[IntegerLength(a)..] == s[WholeLength(s)..];
  }

  lemma MoreDigits(m: Machine, s: string) returns (m1: Machine)
    requires ReadingNumber(m) && m.state.IT?
    ensures m1 == Longer(m, IT, m.scalar, s[..Digits(s)]) && RunFrom(m, s) == RunFrom(m1, s[Digits(s)..])
  {
    RunDigits(m, s);
    m1 := Longer(m, IT, m.scalar, s[..Digits(s)]);
    if Digits(s) == 0 { assert m.buffer + s[..0] == m.buffer; }
  }

  lemma EndsTrimmed(s: string)
    requires s != "" && !BlankChar(s[|s| - 1])
    ensures TrimRight(s) == s
  {
  }

  lemma NumberEnds(m: Machine, s: string)
    requires ReadingNumber(m)
    requires (m.state.ZE? && !StartsWith(s, '.'))
          || (m.state.IT? && !StartsWith(s, '.') && !StartsExponent(s) && Digits(s) == 0)
          || ((m.state.FX? || m.state.FR?) && !StartsExponent(s) && Digits(s) == 0)
          || (m.state.E3? && Digits(s) == 0)
    ensures Ended(m) && NoContinuation(m.state, s)
  {
  }

  lemma ExponentEnds(c: string)
    requires StartsExponent(c) && ExponentLength(c) > 0
    ensures Digits(c[ExponentLength(c)..]) == 0 && DigitChar(c[ExponentLength(c) - 1])
  {
    var sign := if StartsWith(c[1..], '+') || StartsWith(c[1..], '-') then 1 else 0;
    var rest := c[1 + sign..];
    assert rest[Digits(rest)..] == c[ExponentLength(c)..];
    assert rest[Digits(rest) - 1] == c[ExponentLength(c) - 1];
  }

  /** What can stand after an integer part and after a fraction. */
  lemma FractionEnds(a: string, b: string)
    requires a != "" && DigitChar(a[0]) && b == a[IntegerLength(a)..]
    ensures DigitChar(a[IntegerLength(a) - 1])
    ensures FractionLength(b) == 0 ==> !StartsWith(b, '.') && (a[0] != '0' ==> Digits(b) == 0)
    ensures FractionLength(b) > 0 ==>
      Digits(b[FractionLength(b)..]) == 0 && !BlankChar(b[FractionLength(b) - 1])
  {
    if StartsWith(b, '.') {
      var rest := b[1..];
      assert rest[Digits(rest)..] == b[FractionLength(b)..];
      if Digits(rest) > 0 { assert rest[Digits(rest) - 1] == b[FractionLength(b) - 1]; }
    }
  }

  /** The end of a number that has an exponent, from its letter on. */
  lemma EndWithExponent(m: Machine, s: string, k: nat)
    requires ReadingNumber(m) && (m.state.IT? || m.state.FX? || m.state.FR?) && (m.state.IT? || m.scalar.FloatType?)
    requires k <= |s| && m.buffer == s[..k] && StartsExponent(s[k..])
    ensures ExponentLength(s[k..]) == 0 ==> RunFrom(m, s[k..]) == Refused
    ensures ExponentLength(s[k..]) > 0 ==>
      RunFrom(m, s[k..]) == EndOf(m.depth, m.stack, [FloatText(s[..k + ExponentLength(s[k..])])],
                                  SkipBlanks(s[k + ExponentLength(s[k..])..]))
  {
    hide RunFrom, EndOf, NoContinuation, ExponentLength, Digits, SkipBlanks;
    var c := s[k..];
    var m1 := RunExponent(m, c);
    var e := ExponentLength(c);
    if e == 0 { return; }
    ExponentEnds(c);
    assert m1.buffer == s[..k + e] by { assert s[..k] + c[..e] == s[..k + e]; }
    assert c[e..] == s[k + e..];
    NumberEnds(m1, c[e..]);
    EndsTrimmed(m1.buffer);
    RunEnd(m1, c[e..]);
  }

  /** The end of a number that has none. */
  lemma EndWithoutExponent(m: Machine, s: string, k: nat)
    requires ReadingNumber(m) && 0 < k <= |s| && m.buffer == s[..k] && !BlankChar(s[k - 1])
    requires m.scalar.IntegerType? || m.scalar.FloatType?
    requires (m.state.ZE? && !StartsWith(s[k..], '.'))
          || (m.state.IT? && !StartsWith(s[k..], '.') && !StartsExponent(s[k..]) && Digits(s[k..]) == 0)
          || ((m.state.FX? || m.state.FR?) && !StartsExponent(s[k..]) && Digits(s[k..]) == 0)
    ensures RunFrom(m, s[k..])
         == EndOf(m.depth, m.stack, [if m.scalar.FloatType? then FloatText(s[..k]) else IntegerText(s[..k])],
                  SkipBlanks(s[k..]))
  {
    hide RunFrom, EndOf, NoContinuation, Digits, SkipBlanks;
    NumberEnds(m, s[k..]);
    EndsTrimmed(m.buffer);
    RunEnd(m, s[k..]);
  }

  /** Reading a number as far as its fraction. */
  lemma RunMantissa(m: Machine, s: string) returns (m1: Machine)
    requires BeforeValueState(m) && InsideValue(m) && m.stack != [] && (m.depth >= 0 ==> |m.stack| <= m.depth)
    requires s != "" && NumberStart(s[0])
    ensures MantissaLength(s) == 0 ==> RunFrom(m, s) == Refused
    ensures MantissaLength(s) > 0 ==>
      && RunFrom(m, s) == RunFrom(m1, s[MantissaLength(s)..])
      && m1 == Noted(m, m1.state, if HasFraction(s) then FloatType else IntegerType, s[..MantissaLength(s)])
      && (if HasFraction(s) then m1.state.FX? || m1.state.FR?
          else m1.state == if StartsWith(s[SignLength(s)..], '0') then ZE else IT)
  {
    hide RunFrom, IntegerLength, Digits;
    var m0 := RunInteger(m, s);
    m1 := m0;
    var n := WholeLength(s);
    if n == 0 { return; }
    m1 := RunFraction(m0, s[n..]);
    var f := FractionLength(s[n..]);
    assert s[n..][f..] == s[n + f..] && s[..n] + s[n..][..f] == s[..n + f];
  }

  /** What can stand after a mantissa, and what it ends with. */
  lemma MantissaEnds(s: string)
    requires MantissaLength(s) > 0
    ensures !BlankChar(s[MantissaLength(s) - 1])
    ensures !HasFraction(s) ==> !StartsWith(s[MantissaLength(s)..], '.')
    ensures HasFraction(s) || !StartsWith(s[SignLength(s)..], '0') ==> Digits(s[MantissaLength(s)..]) == 0
  {
    var a := s[SignLength(s)..];
    var b := s[WholeLength(s)..];
    assert a[IntegerLength(a)..] == b;
    assert a[IntegerLength(a) - 1] == s[WholeLength(s) - 1];
    assert b[FractionLength(b)..] == s[MantissaLength(s)..];
    FractionEnds(a, b);
  }

  /** A number, whole: the run goes on after it with its one event to deliver. */
  lemma RunNumber(m: Machine, s: string)
    requires BeforeValueState(m) && InsideValue(m) && m.stack != [] && (m.depth >= 0 ==> |m.stack| <= m.depth)
    requires s != "" && NumberStart(s[0])
    ensures match Number(s)
      case NotFound => RunFrom(m, s) == Refused
      case Found(t, rest) => RunFrom(m, s) == EndOf(m.depth, m.stack, TreeEvents(t), SkipBlanks(rest))
  {
    hide Char, RunFrom, EndOf, MantissaLength, WholeLength, HasFraction, ExponentLength, Digits, SkipBlanks;
    var m1 := RunMantissa(m, s);
    var k := MantissaLength(s);
    if k == 0 { return; }
    if StartsExponent(s[k..]) && (HasFraction(s) || !StartsWith(s[SignLength(s)..], '0')) {
      EndWithExponent(m1, s, k);
    } else {
      MantissaEnds(s);
      EndWithoutExponent(m1, s, k);
    }
  }

  // ---- Strings

  /** A machine inside a string. */
  function Reading(depth: int, stack: seq<Mode>, state: State, high: nat, buffer: string): Machine {
    Machine(depth, state, StringType, state.ES?, high, stack, buffer)
  }

  predicate MayHoldString(stack: seq<Mode>) {
    stack != [] && stack[|stack| - 1] != InDone
  }

  /** The run from the closing quote of a string on. */
  function EndOfString(depth: int, stack: seq<Mode>, content: string, rest: string): Run
    requires stack != []
  {
    if stack[|stack| - 1] == InKey then Prepend([KeyText(content)], RunFrom(Idle(depth, CO, stack), rest))
    else Prepend([StringText(content)], RunFrom(Idle(depth, OK, stack), rest))
  }

  function NextHex(state: State): State {
    match state
    case U1 => U2
    case U2 => U3
    case _ => U4
  }

  lemma HexStep(m: Machine, ch: char)
    requires m == Reading(m.depth, m.stack, m.state, m.highSurrogate, m.buffer)
    requires m.state.U1? || m.state.U2? || m.state.U3?
    ensures Char(m, ch) == if HexChar(ch) then Go(m.(state := NextHex(m.state), buffer := m.buffer + [ch]), [])
      else Rejected
  {
    hide Perform, Classify;
    if Classify(ch).Known? { HexClasses(ch, Classify(ch).kind); } else { IllegalIsNotHex(ch); }
  }

  lemma IllegalIsNotHex(ch: char)
    requires Classify(ch).Illegal?
    ensures !HexChar(ch)
  {
  }

  lemma LastHexStep(m: Machine, ch: char)
    requires m == Reading(m.depth, m.stack, U4, m.highSurrogate, m.buffer)
    ensures Char(m, ch) == if HexChar(ch) then Perform(m.(buffer := m.buffer + [ch]), UnicodeRead) else Rejected
  {
    hide Perform, Classify;
    if Classify(ch).Known? { HexClasses(ch, Classify(ch).kind); } else { IllegalIsNotHex(ch); }
  }

  lemma RunHex(m: Machine, s: string)
    requires m == Reading(m.depth, m.stack, m.state, m.highSurrogate, m.buffer)
    requires m.state.U1? || m.state.U2? || m.state.U3?
    ensures RunFrom(m, s)
         == if s == "" || !HexChar(s[0]) then Refused
            else RunFrom(m.(state := NextHex(m.state), buffer := m.buffer + [s[0]]), s[1..])
  {
    hide Char;
    if s != "" {
      HexStep(m, s[0]);
      if HexChar(s[0]) { PrependNothing(RunFrom(m.(state := NextHex(m.state), buffer := m.buffer + [s[0]]), s[1..])); }
    }
  }

  /** Three hexadecimal digits. */
  lemma RunThreeHex(m: Machine, s: string)
    requires m == Reading(m.depth, m.stack, U1, m.highSurrogate, m.buffer)
    ensures RunFrom(m, s)
         == if |s| < 3 || !HexChar(s[0]) || !HexChar(s[1]) || !HexChar(s[2]) then Refused
            else RunFrom(m.(state := U4, buffer := m.buffer + s[..3]), s[3..])
  {
    hide RunFrom;
    RunHex(m, s);
    if s == "" || !HexChar(s[0]) { return; }
    var m1 := m.(state := U2, buffer := m.buffer + [s[0]]);
    RunHex(m1, s[1..]);
    if |s| < 2 || !HexChar(s[1]) { return; }
    var m2 := m1.(state := U3, buffer := m1.buffer + [s[1]]);
    assert s[1..][1..] == s[2..];
    RunHex(m2, s[2..]);
    if |s| < 3 || !HexChar(s[2]) { return; }
    assert s[2..][1..] == s[3..];
    assert m2.buffer + [s[2]] == m.buffer + s[..3];
  }

  /** Four hexadecimal digits, and the decoding they cause. */
  lemma RunFourHex(m: Machine, s: string)
    requires m == Reading(m.depth, m.stack, U1, m.highSurrogate, m.buffer)
    ensures RunFrom(m, s)
         == if !FourHex(s) then Refused
            else match Perform(m.(state := U4, buffer := m.buffer + s[..4]), UnicodeRead)
              case Rejected => Refused
              case Go(m1, evs) => Prepend(evs, RunFrom(m1, s[4..]))
  {
    hide Perform, RunFrom, Char;
    RunThreeHex(m, s);
    if |s| < 3 || !HexChar(s[0]) || !HexChar(s[1]) || !HexChar(s[2]) { return; }
    var m3 := m.(state := U4, buffer := m.buffer + s[..3]);
    if |s| == 3 {
      Exhausted(m3);
    } else {
      Step1(m3, s[3..]);
      LastHexStep(m3, s[3]);
      assert m3.buffer + [s[3]] == m.buffer + s[..4];
      assert s[3..][1..] == s[4..];
    }
  }

  lemma Exhausted(m: Machine)
    requires !m.state.OK?
    ensures RunFrom(m, "") == Refused
  {
  }

  /** What four digits after a backslash and a `u` become. */
  lemma Decoded(m: Machine, kept: string, h: string)
    requires m == Reading(m.depth, m.stack, U4, m.highSurrogate, kept + "\\u" + h) && |h| == 4
    requires m.highSurrogate != 0 ==> HighSurrogate(m.highSurrogate)
    ensures Perform(m, UnicodeRead)
         == var uc := CodeUnit(h);
            var hi := m.highSurrogate;
            if hi != 0 && LowSurrogate(uc)
              then Go(Reading(m.depth, m.stack, ST, 0, kept + Utf8(SurrogatePair(hi, uc))), [])
            else if hi != 0 || LowSurrogate(uc) then Rejected
            else if HighSurrogate(uc) then Go(Reading(m.depth, m.stack, D1, uc, kept), [])
            else Go(Reading(m.depth, m.stack, ST, 0, kept + Utf8(uc)), [])
  {
    hide Encode, CodeUnit;
    var b := m.buffer;
    assert |b| == |kept| + 6;
    assert b[..|b| - 6] == kept && b[|b| - 4..] == h;
    CodeUnitBound(h);
  }

  lemma HexValueBound(ch: char)
    ensures HexValue(ch) < 16
  {
  }

  lemma CodeUnitBound(h: string)
    requires |h| == 4
    ensures CodeUnit(h) < 0x10000
  {
    hide HexValue;
    HexValueBound(h[0]);
    HexValueBound(h[1]);
    HexValueBound(h[2]);
    HexValueBound(h[3]);
  }

  lemma SecondEscape(m: Machine, ch: char)
    requires m == Reading(m.depth, m.stack, m.state, m.highSurrogate, m.buffer)
    requires m.state.D1? || m.state.D2?
    ensures Char(m, ch)
         == if m.state.D1? && ch == '\\' then Go(m.(state := D2, buffer := m.buffer + [ch]), [])
            else if m.state.D2? && ch == 'u' then Go(m.(state := U1, buffer := m.buffer + [ch]), [])
            else Rejected
  {
    hide Perform;
  }

  /** After a high surrogate only the escape of a low one will do. */
  lemma RunSecondEscape(m: Machine, s: string)
    requires m == Reading(m.depth, m.stack, D1, m.highSurrogate, m.buffer) && HighSurrogate(m.highSurrogate)
    ensures RunFrom(m, s)
         == if |s| >= 6 && s[0] == '\\' && s[1] == 'u' && FourHex(s[2..]) && LowSurrogate(CodeUnit(s[2..6]))
            then RunFrom(Reading(m.depth, m.stack, ST, 0,
              m.buffer + Utf8(SurrogatePair(m.highSurrogate, CodeUnit(s[2..6])))), s[6..])
            else Refused
  {
    hide Perform, Char, RunFrom, CodeUnit, Utf8;
    if s == "" { Exhausted(m); return; }
    Step1(m, s);
    SecondEscape(m, s[0]);
    if s[0] != '\\' { return; }
    var m1 := m.(state := D2, buffer := m.buffer + [s[0]]);
    PrependNothing(RunFrom(m1, s[1..]));
    if |s| == 1 { Exhausted(m1); return; }
    Step1(m1, s[1..]);
    SecondEscape(m1, s[1]);
    if s[1] != 'u' { return; }
    var m2 := m1.(state := U1, buffer := m1.buffer + [s[1]]);
    assert s[1..][1..] == s[2..];
    PrependNothing(RunFrom(m2, s[2..]));
    assert m2.buffer == m.buffer + "\\u";
    RunFourHex(m2, s[2..]);
    if FourHex(s[2..]) {
      var h := s[2..][..4];
      assert h == s[2..6] && s[2..][4..] == s[6..];
      Decoded(m2.(state := U4, buffer := m2.buffer + h), m.buffer, h);
      PrependNothing(RunFrom(Reading(m.depth, m.stack, ST, 0,
        m.buffer + Utf8(SurrogatePair(m.highSurrogate, CodeUnit(h)))), s[6..]));
    }
  }

  lemma EscapeStep(m: Machine, ch: char)
    requires m == Reading(m.depth, m.stack, ES, 0, m.buffer) && EndsWith(m.buffer, '\\')
    ensures Char(m, ch)
         == var kept := m.buffer[..|m.buffer| - 1];
            if Simple(ch) then Go(Reading(m.depth, m.stack, ST, 0, kept + Escaped(ch)), [])
            else if ch == 'u' then Go(Reading(m.depth, m.stack, U1, 0, kept + "\\u"), [])
            else Rejected
  {
    hide CloseContainer, OpenContainer, DecodeUnicode, ScalarEvents;
    hide Perform;
  }

  /** What one escape sequence, after its backslash, does: the text it adds and what is left to read. */
  function Escape1(t: string): Parsed<string> {
    if t == "" then NotFound
    else if Simple(t[0]) then Found(Escaped(t[0]), t[1..])
    else if t[0] == 'u' && FourHex(t[1..]) then
      var uc := CodeUnit(t[1..5]);
      if LowSurrogate(uc) then NotFound
      else if HighSurrogate(uc) then
        if |t| >= 11 && t[5] == '\\' && t[6] == 'u' && FourHex(t[7..]) && LowSurrogate(CodeUnit(t[7..11]))
        then Found(Utf8(SurrogatePair(uc, CodeUnit(t[7..11]))), t[11..])
        else NotFound
      else Found(Utf8(uc), t[5..])
    else NotFound
  }

  lemma RunUnicodeEscape(m: Machine, t: string)
    requires m == Reading(m.depth, m.stack, ES, 0, m.buffer) && EndsWith(m.buffer, '\\') && t != "" && t[0] == 'u'
    ensures RunFrom(m, t)
         == match Escape1(t)
            case NotFound => Refused
            case Found(text, rest) =>
              RunFrom(Reading(m.depth, m.stack, ST, 0, m.buffer[..|m.buffer| - 1] + text), rest)
  {
    hide Perform, Char, RunFrom, CodeUnit, Utf8;
    var kept := m.buffer[..|m.buffer| - 1];
    Step1(m, t);
    EscapeStep(m, t[0]);
    var m1 := Reading(m.depth, m.stack, U1, 0, kept + "\\u");
    PrependNothing(RunFrom(m1, t[1..]));
    RunFourHex(m1, t[1..]);
    if FourHex(t[1..]) {
      var h := t[1..][..4];
      assert h == t[1..5] && t[1..][4..] == t[5..];
      Decoded(m1.(state := U4, buffer := m1.buffer + h), kept, h);
      var uc := CodeUnit(h);
      if HighSurrogate(uc) {
        var m2 := Reading(m.depth, m.stack, D1, uc, kept);
        PrependNothing(RunFrom(m2, t[5..]));
        RunSecondEscape(m2, t[5..]);
        assert |t| >= 11 ==> t[5..][2..] == t[7..] && t[5..][6..] == t[11..] && t[5..][2..6] == t[7..11];
      } else if !LowSurrogate(uc) {
        PrependNothing(RunFrom(Reading(m.depth, m.stack, ST, 0, kept + Utf8(uc)), t[5..]));
      }
    }
  }

  lemma RunEscape(m: Machine, t: string)
    requires m == Reading(m.depth, m.stack, ES, 0, m.buffer) && EndsWith(m.buffer, '\\')
    ensures RunFrom(m, t)
         == match Escape1(t)
            case NotFound => Refused
            case Found(text, rest) =>
              RunFrom(Reading(m.depth, m.stack, ST, 0, m.buffer[..|m.buffer| - 1] + text), rest)
  {
    hide Char, RunFrom, CodeUnit, Utf8, Escaped;
    if t == "" { Exhausted(m); return; }
    if t[0] == 'u' { RunUnicodeEscape(m, t); return; }
    Step1(m, t);
    EscapeStep(m, t[0]);
    if Simple(t[0]) {
      PrependNothing(RunFrom(Reading(m.depth, m.stack, ST, 0, m.buffer[..|m.buffer| - 1] + Escaped(t[0])), t[1..]));
    }
  }

  lemma StringStep(m: Machine, ch: char)
    requires m == Reading(m.depth, m.stack, ST, 0, m.buffer) && ch != '"'
    ensures Char(m, ch)
         == if ch == '\\' then Go(Reading(m.depth, m.stack, ES, 0, m.buffer + [ch]), [])
            else if ch < ' ' then Rejected
            else Go(m.(buffer := m.buffer + [ch]), [])
  {
    hide CloseContainer, OpenContainer, DecodeUnicode, ScalarEvents;
  }

  lemma QuoteStep(m: Machine)
    requires m == Reading(m.depth, m.stack, ST, 0, m.buffer) && MayHoldString(m.stack)
    ensures Char(m, '"')
         == if Top(m) == InKey then Go(Idle(m.depth, CO, m.stack), [KeyText(m.buffer)])
            else Go(Idle(m.depth, OK, m.stack), [StringText(m.buffer)])
  {
    hide CloseContainer, OpenContainer, DecodeUnicode;
    assert (m.buffer + ['"'])[..|m.buffer + ['"']| - 1] == m.buffer;
  }

  /** The content of a string, unescaped and encoded by recursion, is what the callback is told. */
  lemma {:induction false} RunString(m: Machine, s: string)
    requires m == Reading(m.depth, m.stack, ST, 0, m.buffer) && MayHoldString(m.stack)
    ensures RunFrom(m, s)
         == match StringBody(s)
            case NotFound => Refused
            case Found(content, rest) => EndOfString(m.depth, m.stack, m.buffer + content, rest)
    decreases |s|
  {
    hide Char, RunFrom, CodeUnit, Utf8, EndOfString, Escaped, StringBody;
    if s == "" {
      Exhausted(m);
      NoBody();
    } else if s[0] == '"' {
      Step1(m, s);
      QuoteStep(m);
      BodyQuote(s);
      assert m.buffer + "" == m.buffer;
      EndOfStringIs(m.depth, m.stack, m.buffer, s[1..]);
    } else {
      Step1(m, s);
      StringStep(m, s[0]);
      if s[0] == '\\' {
        var m1 := Reading(m.depth, m.stack, ES, 0, m.buffer + [s[0]]);
        PrependNothing(RunFrom(m1, s[1..]));
        RunEscape(m1, s[1..]);
        assert m1.buffer[..|m1.buffer| - 1] == m.buffer;
        BodyEscape(s);
        if Escape1(s[1..]).Found? {
          ContinueString(m, Escape1(s[1..]).value, Escape1(s[1..]).rest, s);
        }
      } else {
        BodyPlain(s);
        if s[0] >= ' ' {
          PrependNothing(RunFrom(m.(buffer := m.buffer + [s[0]]), s[1..]));
          ContinueString(m, [s[0]], s[1..], s);
        }
      }
    }
  }

  lemma {:induction false} ContinueString(m: Machine, text: string, rest: string, s: string)
    requires m == Reading(m.depth, m.stack, ST, 0, m.buffer) && MayHoldString(m.stack) && |rest| < |s|
    ensures RunFrom(m.(buffer := m.buffer + text), rest)
         == match Cons(text, StringBody(rest))
            case NotFound => Refused
            case Found(content, after) => EndOfString(m.depth, m.stack, m.buffer + content, after)
    decreases |s|, 0
  {
    hide RunFrom, EndOfString, StringBody;
    RunString(m.(buffer := m.buffer + text), rest);
    if StringBody(rest).Found? {
      assert m.buffer + text + StringBody(rest).value == m.buffer + (text + StringBody(rest).value);
    }
  }

  lemma NoBody()
    ensures StringBody("") == NotFound
  {
  }

  lemma BodyQuote(s: string)
    requires StartsWith(s, '"')
    ensures StringBody(s) == Found("", s[1..])
  {
  }

  lemma BodyPlain(s: string)
    requires s != "" && s[0] != '"' && s[0] != '\\'
    ensures StringBody(s) == if s[0] < ' ' then NotFound else Cons([s[0]], StringBody(s[1..]))
  {
  }

  lemma BodyEscape(s: string)
    requires StartsWith(s, '\\')
    ensures Escape1(s[1..]).Found? ==> |Escape1(s[1..]).rest| < |s|
    ensures StringBody(s)
         == match Escape1(s[1..])
            case NotFound => NotFound
            case Found(text, rest) => Cons(text, StringBody(rest))
  {
    hide CodeUnit, Utf8, Escaped;
    var t := s[1..];
    assert |s| >= 2 ==> s[2..] == t[1..];
    assert |s| >= 6 ==> s[2..6] == t[1..5] && s[6..] == t[5..];
    assert |s| >= 12 ==> s[8..12] == t[7..11] && s[12..] == t[11..];
    assert |s| >= 8 ==> s[8..] == t[7..];
  }

  lemma EndOfStringIs(depth: int, stack: seq<Mode>, content: string, rest: string)
    requires stack != []
    ensures EndOfString(depth, stack, content, rest)
         == if stack[|stack| - 1] == InKey then Prepend([KeyText(content)], RunFrom(Idle(depth, CO, stack), rest))
            else Prepend([StringText(content)], RunFrom(Idle(depth, OK, stack), rest))
  {
  }
}
