/** The push-down parser accepts exactly the texts of the grammar, and its callbacks are the events of the
    tree in preorder. */
module JsonParserProof {
  import opened JsonParserTable
  import opened JsonParserStep
  import opened JsonGrammar
  import opened JsonParserTokens

  predicate Fits(m: Machine) {
    m.depth >= 0 ==> |m.stack| <= m.depth
  }

  // ---- Opening brackets

  lemma OpenStep(m: Machine, ch: char)
    requires m == Idle(m.depth, m.state, m.stack) && (m.state.GO? || m.state.VA? || m.state.AR?)
      && (ch == '{' || ch == '[')
    ensures Char(m, ch)
         == if !Room(m.depth, |m.stack|) then Rejected
            else if ch == '{' then Go(Idle(m.depth, OB, m.stack + [InKey]), [ObjectStart])
            else Go(Idle(m.depth, AR, m.stack + [InArray]), [ArrayStart])
  {
    hide Next, Classify, Char, Perform, CloseContainer, DecodeUnicode, ScalarEvents;
    var k := if ch == '{' then LCurb else LSqrb;
    BracketClass(ch);
    CharByClass(m, ch, k);
    ValueBegins(m.state, k);
    assert m.buffer + [ch] == [ch];
    OpensBy(m.(buffer := [ch]));
  }

  lemma BracketClass(ch: char)
    requires ch == '{' || ch == '['
    ensures Classify(ch) == Known(if ch == '{' then LCurb else LSqrb)
  {
  }

  lemma RunOpen(m: Machine, s: string)
    requires m == Idle(m.depth, m.state, m.stack) && (m.state.GO? || m.state.VA? || m.state.AR?)
    requires StartsWith(s, '{') || StartsWith(s, '[')
    ensures RunFrom(m, s)
         == if !Room(m.depth, |m.stack|) then Refused
            else if s[0] == '{' then Prepend([ObjectStart], RunFrom(Idle(m.depth, OB, m.stack + [InKey]), s[1..]))
            else Prepend([ArrayStart], RunFrom(Idle(m.depth, AR, m.stack + [InArray]), s[1..]))
  {
    hide Char;
    OpenStep(m, s[0]);
  }

  // ---- Elements

  lemma EmptyArrayStep(m: Machine)
    requires m == Idle(m.depth, AR, m.stack) && Top(m) == InArray
    ensures Char(m, ']') == Go(Idle(m.depth, OK, m.stack[..|m.stack| - 1]), [ArrayStop])
  {
    hide Char, Classify, Next, Perform, PopChar;
    var m1 := m.(buffer := m.buffer + [']']);
    DelimiterClass(']');
    BufferedMove(m, ']', RSqrb);
    CloseMoves(AR, RSqrb);
    ClosesBy(m1);
    PopsBack(m, ']');
    assert [] + [ArrayStop] == [ArrayStop];
  }

  /** What is left to do once the elements of the innermost array have been read. */
  function AfterElements(m: Machine, r: Parsed<seq<Tree>>): Run
    requires m.stack != []
  {
    match r
    case NotFound => Refused
    case Found(es, rest) =>
      Prepend(ElementsEvents(es) + [ArrayStop], RunFrom(Idle(m.depth, OK, m.stack[..|m.stack| - 1]), rest))
  }

  lemma AfterOneElement(m: Machine, t: Tree, s: string)
    requires m == Idle(m.depth, m.state, m.stack) && Top(m) == InArray && StartsWith(s, ']')
    ensures EndOf(m.depth, m.stack, TreeEvents(t), s) == AfterElements(m, Found([t], s[1..]))
  {
    assert ElementsEvents([t]) == TreeEvents(t) + ElementsEvents([]);
    assert ElementsEvents([t]) == TreeEvents(t);
  }

  lemma AfterMoreElements(m: Machine, t: Tree, s: string, r: Parsed<seq<Tree>>)
    requires m == Idle(m.depth, m.state, m.stack) && Top(m) == InArray && StartsWith(s, ',')
    requires RunFrom(Idle(m.depth, VA, m.stack), s[1..]) == AfterElements(m, r)
    ensures EndOf(m.depth, m.stack, TreeEvents(t), s)
         == AfterElements(m, if r.Found? then Found([t] + r.value, r.rest) else NotFound)
  {
    hide RunFrom;
    if r.Found? {
      assert ([t] + r.value)[1..] == r.value;
      var more := ElementsEvents(r.value) + [ArrayStop];
      PrependAppend(TreeEvents(t), more, RunFrom(Idle(m.depth, OK, m.stack[..|m.stack| - 1]), r.rest));
      assert TreeEvents(t) + more == ElementsEvents([t] + r.value) + [ArrayStop];
    }
  }

  /** The elements of an array and its closing bracket. */
  lemma {:induction false} RunElements(m: Machine, s: string, first: bool)
    requires m == Idle(m.depth, if first then AR else VA, m.stack) && Top(m) == InArray && Fits(m)
    ensures RunFrom(m, s) == AfterElements(m, Elements(s, m.depth, |m.stack|, first))
    decreases |s|, 1
  {
    hide Char, RunFrom, AfterElements, Value, SkipBlanks, EndOf;
    RunBlanks(m, s);
    var a := SkipBlanks(s);
    if first && StartsWith(a, ']') {
      EmptyArrayStep(m);
      Step1(m, a);
      NoElements(m, a[1..]);
      return;
    }
    RunValue(m, a);
    match Value(a, m.depth, |m.stack|)
    case NotFound => NoMoreElements(m);
    case Found(t, rest) =>
      var b := SkipBlanks(rest);
      if StartsWith(b, ']') {
        AfterOneElement(m, t, b);
      } else if StartsWith(b, ',') {
        RunElements(Idle(m.depth, VA, m.stack), b[1..], false);
        SameStack(m, Elements(b[1..], m.depth, |m.stack|, false));
        AfterMoreElements(m, t, b, Elements(b[1..], m.depth, |m.stack|, false));
        NoMoreElements(m);
      } else {
        NeitherDelimiter(m.depth, m.stack, TreeEvents(t), b);
        NoMoreElements(m);
      }
  }

  lemma NoMoreElements(m: Machine)
    requires m.stack != []
    ensures AfterElements(m, NotFound) == Refused
  {
  }

  lemma NoElements(m: Machine, rest: string)
    requires m.stack != []
    ensures AfterElements(m, Found([], rest))
      == Prepend([ArrayStop], RunFrom(Idle(m.depth, OK, m.stack[..|m.stack| - 1]), rest))
  {
    assert ElementsEvents([]) + [ArrayStop] == [ArrayStop];
  }

  lemma SameStack(m: Machine, r: Parsed<seq<Tree>>)
    requires m.stack != []
    ensures AfterElements(Idle(m.depth, VA, m.stack), r) == AfterElements(m, r)
  {
  }

  lemma NeitherDelimiter(depth: int, stack: seq<Mode>, evs: seq<ParseEvent>, r: string)
    requires stack != [] && !StartsWith(r, ',')
    requires stack[|stack| - 1] == InArray ==> !StartsWith(r, ']')
    requires stack[|stack| - 1] == InObject ==> !StartsWith(r, '}')
    ensures EndOf(depth, stack, evs, r) == Refused
  {
  }

  // ---- Members

  lemma EmptyObjectStep(m: Machine)
    requires m == Idle(m.depth, OB, m.stack) && Top(m) == InKey
    ensures Char(m, '}') == Go(Idle(m.depth, OK, m.stack[..|m.stack| - 1]), [ObjectStop])
  {
    hide OpenContainer, CloseContainer, DecodeUnicode, ScalarEvents;
  }

  lemma KeyQuoteStep(m: Machine)
    requires m == Idle(m.depth, m.state, m.stack) && (m.state.OB? || m.state.KE? || m.state.VA? || m.state.AR?)
    ensures Char(m, '"') == Go(Reading(m.depth, m.stack, ST, 0, ""), [])
  {
    hide OpenContainer, CloseContainer, DecodeUnicode, ScalarEvents;
  }

  lemma ColonStep(m: Machine)
    requires m == Idle(m.depth, CO, m.stack) && Top(m) == InKey && Fits(m)
    ensures Char(m, ':') == Go(Idle(m.depth, VA, m.stack[..|m.stack| - 1] + [InObject]), [])
  {
    hide OpenContainer, CloseContainer, DecodeUnicode, ScalarEvents;
    assert m.buffer + [':'] == ":";
    assert PopChar(m.(buffer := ":")) == m;
  }

  /** A text that ends too early, or goes on with a character the table has no move for. */
  lemma NoWay(m: Machine, s: string)
    requires s == "" ==> !Finished(m)
    requires s != "" && Classify(s[0]).Known? ==>
      Next(m.state, Classify(s[0]).kind).Bad? || Next(m.state, Classify(s[0]).kind) == Act(CommentBegin)
    ensures RunFrom(m, s) == Refused
  {
    hide Finished, Classify, Next, AddChar, CloseContainer, OpenContainer, DecodeUnicode;
  }

  lemma NotAKey(m: Machine, s: string)
    requires m == Idle(m.depth, m.state, m.stack) && (m.state.OB? || m.state.KE?)
    requires s != "" ==> !BlankChar(s[0]) && s[0] != '"' && (m.state.OB? ==> s[0] != '}')
    ensures RunFrom(m, s) == Refused
  {
    hide Next, Classify, RunFrom;
    NothingElse(m, s);
    NoWay(m, s);
  }

  lemma NotAColon(m: Machine, s: string)
    requires m == Idle(m.depth, CO, m.stack)
    requires s != "" ==> !BlankChar(s[0]) && s[0] != ':'
    ensures RunFrom(m, s) == Refused
  {
    hide Next, Classify, RunFrom;
    NothingElse(m, s);
    NoWay(m, s);
  }

  /** The moves between tokens by characters, not by classes. */
  lemma NothingElse(m: Machine, s: string)
    requires s != "" && Classify(s[0]).Known? ==> BetweenState(m.state) && !BlankChar(s[0])
    ensures s != "" && Classify(s[0]).Known? ==>
      var move := Next(m.state, Classify(s[0]).kind);
      move.Bad? || (move.Act? && match move.action
        case Colon => s[0] == ':'
        case StringBegin => s[0] == '"'
        case EmptyObjectEnd => s[0] == '}'
        case ObjectEnd => s[0] == '}'
        case ArrayEnd => s[0] == ']'
        case Comma => s[0] == ','
        case ObjectBegin => s[0] == '{'
        case ArrayBegin => s[0] == '['
        case _ => true)
    ensures s != "" && Classify(s[0]).Known? && Next(m.state, Classify(s[0]).kind).Act? ==>
      var a := Next(m.state, Classify(s[0]).kind).action;
      match m.state
      case GO => a.ObjectBegin? || a.ArrayBegin? || a.CommentBegin?
      case OK => a.ObjectEnd? || a.ArrayEnd? || a.Comma? || a.CommentBegin?
      case OB => a.EmptyObjectEnd? || a.StringBegin? || a.CommentBegin?
      case KE => a.StringBegin? || a.CommentBegin?
      case CO => a.Colon? || a.CommentBegin?
      case _ => true
  {
    hide Next, Classify;
    if s != "" && Classify(s[0]).Known? {
      var k := Classify(s[0]).kind;
      KindChars(s[0], k);
      BetweenMoves(m.state, k);
      if Next(m.state, k).Act? { BetweenKinds(m.state, k, Next(m.state, k).action); }
    }
  }

  /** A string after its opening quote has been seen in a state that may begin one. */
  lemma RunQuoted(m: Machine, s: string)
    requires m == Idle(m.depth, m.state, m.stack) && (m.state.OB? || m.state.KE? || m.state.VA? || m.state.AR?)
    requires MayHoldString(m.stack) && StartsWith(s, '"')
    ensures RunFrom(m, s)
         == match StringBody(s[1..])
            case NotFound => Refused
            case Found(content, rest) => EndOfString(m.depth, m.stack, content, rest)
  {
    hide Char, RunFrom, StringBody, EndOfString;
    Step1(m, s);
    KeyQuoteStep(m);
    var m1 := Reading(m.depth, m.stack, ST, 0, "");
    PrependNothing(RunFrom(m1, s[1..]));
    RunString(m1, s[1..]);
    if StringBody(s[1..]).Found? {
      assert m1.buffer + StringBody(s[1..]).value == StringBody(s[1..]).value;
    }
  }

  lemma RunColon(m: Machine, s: string)
    requires m == Idle(m.depth, CO, m.stack) && Top(m) == InKey && Fits(m)
    ensures RunFrom(m, s)
         == if StartsWith(SkipBlanks(s), ':')
            then RunFrom(Idle(m.depth, VA, m.stack[..|m.stack| - 1] + [InObject]), SkipBlanks(SkipBlanks(s)[1..]))
            else Refused
  {
    hide Char, RunFrom;
    RunBlanks(m, s);
    var b := SkipBlanks(s);
    if StartsWith(b, ':') {
      Step1(m, b);
      ColonStep(m);
      var m1 := Idle(m.depth, VA, m.stack[..|m.stack| - 1] + [InObject]);
      PrependNothing(RunFrom(m1, b[1..]));
      RunBlanks(m1, b[1..]);
    } else {
      NotAColon(m, b);
    }
  }

  /** What is left to do once the members of the innermost object have been read. */
  function AfterMembers(m: Machine, r: Parsed<seq<TreeMember>>): Run
    requires m.stack != []
  {
    match r
    case NotFound => Refused
    case Found(ms, rest) =>
      Prepend(MembersEvents(ms) + [ObjectStop], RunFrom(Idle(m.depth, OK, m.stack[..|m.stack| - 1]), rest))
  }

  lemma NoMoreMembers(m: Machine)
    requires m.stack != []
    ensures AfterMembers(m, NotFound) == Refused
  {
  }

  lemma NoMembers(m: Machine, rest: string)
    requires m.stack != []
    ensures AfterMembers(m, Found([], rest))
      == Prepend([ObjectStop], RunFrom(Idle(m.depth, OK, m.stack[..|m.stack| - 1]), rest))
  {
    assert MembersEvents([]) + [ObjectStop] == [ObjectStop];
  }

  lemma AfterOneMember(m: Machine, tm: TreeMember, s: string)
    requires Top(m) == InKey && StartsWith(s, '}')
    ensures Prepend([KeyText(tm.name)], EndOf(m.depth, m.stack[..|m.stack| - 1] + [InObject], TreeEvents(tm.value), s))
         == AfterMembers(m, Found([tm], s[1..]))
  {
    hide RunFrom;
    var below := m.stack[..|m.stack| - 1];
    var stack := below + [InObject];
    assert stack[..|stack| - 1] == below;
    assert MembersEvents([tm]) == [KeyText(tm.name)] + TreeEvents(tm.value) + MembersEvents([]);
    assert [KeyText(tm.name)] + (TreeEvents(tm.value) + [ObjectStop]) == MembersEvents([tm]) + [ObjectStop];
    PrependAppend([KeyText(tm.name)], TreeEvents(tm.value) + [ObjectStop], RunFrom(Idle(m.depth, OK, below), s[1..]));
  }

  lemma AfterMoreMembers(m: Machine, tm: TreeMember, s: string, r: Parsed<seq<TreeMember>>)
    requires Top(m) == InKey && StartsWith(s, ',')
    requires RunFrom(Idle(m.depth, KE, m.stack), s[1..]) == AfterMembers(m, r)
    ensures Prepend([KeyText(tm.name)], EndOf(m.depth, m.stack[..|m.stack| - 1] + [InObject], TreeEvents(tm.value), s))
         == AfterMembers(m, if r.Found? then Found([tm] + r.value, r.rest) else NotFound)
  {
    hide RunFrom;
    var below := m.stack[..|m.stack| - 1];
    var stack := below + [InObject];
    assert stack[..|stack| - 1] == below && below + [InKey] == m.stack;
    if r.Found? {
      var key, value, more := [KeyText(tm.name)], TreeEvents(tm.value), MembersEvents(r.value) + [ObjectStop];
      var next := RunFrom(Idle(m.depth, OK, below), r.rest);
      assert ([tm] + r.value)[1..] == r.value;
      PrependAppend(value, more, next);
      PrependAppend(key, value + more, next);
      assert key + (value + more) == MembersEvents([tm] + r.value) + [ObjectStop];
    }
  }

  /** The members of an object and its closing bracket. */
  lemma {:induction false} RunMembers(m: Machine, s: string, first: bool)
    requires m == Idle(m.depth, if first then OB else KE, m.stack) && Top(m) == InKey && Fits(m)
    ensures RunFrom(m, s) == AfterMembers(m, Members(s, m.depth, |m.stack|, first))
    decreases |s|, 1
  {
    hide Char, RunFrom, AfterMembers, Value, SkipBlanks, StringBody, EndOf, MoreMembers;
    RunBlanks(m, s);
    NoMoreMembers(m);
    var a := SkipBlanks(s);
    if first && StartsWith(a, '}') {
      EmptyObjectStep(m);
      Step1(m, a);
      NoMembers(m, a[1..]);
    } else if !StartsWith(a, '"') {
      NotAKey(m, a);
    } else {
      RunQuoted(m, a);
      if StringBody(a[1..]).NotFound? { return; }
      var name, rest := StringBody(a[1..]).value, StringBody(a[1..]).rest;
      RunColon(Idle(m.depth, CO, m.stack), rest);
      var b := SkipBlanks(rest);
      if !StartsWith(b, ':') { return; }
      var c := SkipBlanks(b[1..]);
      var m1 := Idle(m.depth, VA, m.stack[..|m.stack| - 1] + [InObject]);
      RunValue(m1, c);
      if Value(c, m.depth, |m.stack|).NotFound? { return; }
      var v, rest' := Value(c, m.depth, |m.stack|).value, Value(c, m.depth, |m.stack|).rest;
      RunMoreMembers(m, TreeMember(name, v), SkipBlanks(rest'), s);
    }
  }

  lemma {:induction false} RunMoreMembers(m: Machine, tm: TreeMember, s: string, whole: string)
    requires m == Idle(m.depth, m.state, m.stack) && Top(m) == InKey && Fits(m) && |s| < |whole|
    ensures Prepend([KeyText(tm.name)], EndOf(m.depth, m.stack[..|m.stack| - 1] + [InObject], TreeEvents(tm.value), s))
         == AfterMembers(m, MoreMembers(tm, s, m.depth, |m.stack|))
    decreases |whole|, 0
  {
    hide RunFrom, AfterMembers, EndOf, Members;
    NoMoreMembers(m);
    if StartsWith(s, '}') {
      AfterOneMember(m, tm, s);
    } else if StartsWith(s, ',') {
      RunMembers(Idle(m.depth, KE, m.stack), s[1..], false);
      SameStackMembers(m, Members(s[1..], m.depth, |m.stack|, false));
      AfterMoreMembers(m, tm, s, Members(s[1..], m.depth, |m.stack|, false));
    } else {
      NeitherDelimiter(m.depth, m.stack[..|m.stack| - 1] + [InObject], TreeEvents(tm.value), s);
    }
  }

  lemma SameStackMembers(m: Machine, r: Parsed<seq<TreeMember>>)
    requires m.stack != []
    ensures AfterMembers(Idle(m.depth, KE, m.stack), r) == AfterMembers(m, r)
  {
  }

  // ---- Values

  /** After a container has closed inside another: what it delivered, and what follows it. */
  lemma AfterContainer(m: Machine, evs: seq<ParseEvent>, rest: string)
    requires m == Idle(m.depth, m.state, m.stack) && m.stack != [] && InsideValue(m) && Fits(m)
    ensures Prepend(evs, RunFrom(Idle(m.depth, OK, m.stack), rest)) == EndOf(m.depth, m.stack, evs, SkipBlanks(rest))
  {
    hide RunFrom, EndOf;
    RunEnd(Idle(m.depth, OK, m.stack), rest);
    EndOfPrepend(m.depth, m.stack, evs, [], SkipBlanks(rest));
    assert evs + [] == evs;
  }

  lemma RunArray(m: Machine, s: string)
    requires m == Idle(m.depth, m.state, m.stack) && (m.state.GO? || m.state.VA? || m.state.AR?)
    requires StartsWith(s, '[') && Fits(m)
    ensures RunFrom(m, s)
         == match Value(s, m.depth, |m.stack|)
            case NotFound => Refused
            case Found(t, rest) => Prepend(TreeEvents(t), RunFrom(Idle(m.depth, OK, m.stack), rest))
    decreases |s|, 0, 0
  {
    hide RunFrom, Elements, Members;
    RunOpen(m, s);
    if Room(m.depth, |m.stack|) {
      var m1 := Idle(m.depth, AR, m.stack + [InArray]);
      assert m1.stack[..|m1.stack| - 1] == m.stack;
      RunElements(m1, s[1..], true);
      match Elements(s[1..], m.depth, |m.stack| + 1, true)
      case NotFound =>
      case Found(es, rest) =>
        PrependAppend([ArrayStart], ElementsEvents(es) + [ArrayStop], RunFrom(Idle(m.depth, OK, m.stack), rest));
        assert [ArrayStart] + (ElementsEvents(es) + [ArrayStop]) == TreeEvents(ArrayTree(es));
    }
  }

  lemma RunObject(m: Machine, s: string)
    requires m == Idle(m.depth, m.state, m.stack) && (m.state.GO? || m.state.VA? || m.state.AR?)
    requires StartsWith(s, '{') && Fits(m)
    ensures RunFrom(m, s)
         == match Value(s, m.depth, |m.stack|)
            case NotFound => Refused
            case Found(t, rest) => Prepend(TreeEvents(t), RunFrom(Idle(m.depth, OK, m.stack), rest))
    decreases |s|, 0, 0
  {
    hide RunFrom, Elements, Members;
    RunOpen(m, s);
    if Room(m.depth, |m.stack|) {
      var m1 := Idle(m.depth, OB, m.stack + [InKey]);
      assert m1.stack[..|m1.stack| - 1] == m.stack;
      RunMembers(m1, s[1..], true);
      match Members(s[1..], m.depth, |m.stack| + 1, true)
      case NotFound =>
      case Found(ms, rest) =>
        PrependAppend([ObjectStart], MembersEvents(ms) + [ObjectStop], RunFrom(Idle(m.depth, OK, m.stack), rest));
        assert [ObjectStart] + (MembersEvents(ms) + [ObjectStop]) == TreeEvents(ObjectTree(ms));
    }
  }

  lemma RunStringValue(m: Machine, s: string)
    requires BeforeValueState(m) && m.stack != [] && InsideValue(m) && Fits(m) && StartsWith(s, '"')
    ensures RunFrom(m, s)
         == match Value(s, m.depth, |m.stack|)
            case NotFound => Refused
            case Found(t, rest) => EndOf(m.depth, m.stack, TreeEvents(t), SkipBlanks(rest))
  {
    hide RunFrom, StringBody, EndOf;
    RunQuoted(m, s);
    match StringBody(s[1..])
    case NotFound =>
    case Found(content, rest) => AfterContainer(m, [StringText(content)], rest);
  }

  lemma RunWordValue(m: Machine, s: string)
    requires BeforeValueState(m) && m.stack != [] && InsideValue(m) && Fits(m)
    requires StartsWith(s, 't') || StartsWith(s, 'f') || StartsWith(s, 'n')
    ensures RunFrom(m, s)
         == match Value(s, m.depth, |m.stack|)
            case NotFound => Refused
            case Found(t, rest) => EndOf(m.depth, m.stack, TreeEvents(t), SkipBlanks(rest))
  {
    hide RunFrom, EndOf;
    var word := if s[0] == 't' then "true" else if s[0] == 'f' then "false" else "null";
    var t := if s[0] == 't' then TrueTree else if s[0] == 'f' then FalseTree else NullTree;
    var scalar := if s[0] == 't' then TrueType else if s[0] == 'f' then FalseType else NullType;
    RunWord(m, s, word, t, scalar);
    if Word(s, word, t).Found? {
      RunEnd(Noted(m, OK, scalar, word), Word(s, word, t).rest);
    }
  }

  /** A value inside a container: the run goes on after it with the events of its tree to deliver. */
  lemma {:induction false} RunValue(m: Machine, s: string)
    requires BeforeValueState(m) && m.stack != [] && InsideValue(m) && Fits(m)
    requires s != "" ==> !BlankChar(s[0]) && (m.state.AR? ==> s[0] != ']')
    ensures RunFrom(m, s)
         == match Value(s, m.depth, |m.stack|)
            case NotFound => Refused
            case Found(t, rest) => EndOf(m.depth, m.stack, TreeEvents(t), SkipBlanks(rest))
    decreases |s|, 0, 1
  {
    hide Char, RunFrom, EndOf, Number, TreeEvents, SkipBlanks;
    if s == "" { Exhausted(m); return; }
    match s[0]
    case '{' => RunObject(m, s);
      if Value(s, m.depth, |m.stack|).Found? {
        AfterContainer(m, TreeEvents(Value(s, m.depth, |m.stack|).value), Value(s, m.depth, |m.stack|).rest);
      }
    case '[' => RunArray(m, s);
      if Value(s, m.depth, |m.stack|).Found? {
        AfterContainer(m, TreeEvents(Value(s, m.depth, |m.stack|).value), Value(s, m.depth, |m.stack|).rest);
      }
    case '"' => RunStringValue(m, s);
    case 't' => RunWordValue(m, s);
    case 'f' => RunWordValue(m, s);
    case 'n' => RunWordValue(m, s);
    case _ =>
      if NumberStart(s[0]) { RunNumber(m, s); } else { NotAValue(m, s); NoNumber(s); }
  }

  lemma NoNumber(s: string)
    requires s != "" && !NumberStart(s[0])
    ensures Number(s) == NotFound
  {
  }

  // ---- The whole text

  lemma NothingAfter(m: Machine, s: string)
    requires m == Idle(m.depth, OK, [InDone]) && (s != "" ==> !BlankChar(s[0]))
    ensures RunFrom(m, s) == if s == "" then Accepted([]) else Refused
  {
    hide Next, Classify, Char;
    if s != "" { NothingCloses(m, s[0]); }
  }

  lemma NothingCloses(m: Machine, ch: char)
    requires m == Idle(m.depth, OK, [InDone]) && !BlankChar(ch)
    ensures Char(m, ch).Rejected?
  {
    hide Next, Classify, AddChar;
    NothingElse(m, [ch]);
    if Classify(ch).Known? && AddChar(m, ch, Classify(ch).kind).Go? {
      var m1 := AddChar(m, ch, Classify(ch).kind).m;
      assert m1.stack == [InDone] && Top(m1) == InDone by { BufferKeepsStack(m, ch, Classify(ch).kind); }
      NoMode(m1);
    }
  }

  lemma BufferKeepsStack(m: Machine, ch: char, k: Kind)
    ensures AddChar(m, ch, k).Go? ==> AddChar(m, ch, k).m.stack == m.stack
  {
  }

  /** With no container open, nothing closes one and no comma may come. */
  lemma NoMode(m: Machine)
    requires m.stack == [InDone]
    ensures CloseContainer(m, InObject).Rejected? && CloseContainer(m, InArray).Rejected? && Perform(m, Comma).Rejected?
  {
    hide ScalarEvents, OpenContainer, DecodeUnicode;
  }

  lemma NotAContainer(m: Machine, s: string)
    requires m == Idle(m.depth, GO, [InDone]) && (s != "" ==> !BlankChar(s[0]) && s[0] != '{' && s[0] != '[')
    ensures RunFrom(m, s) == Refused
  {
    hide Next, Classify, RunFrom;
    NothingElse(m, s);
    NoWay(m, s);
  }

  /** The parser accepts exactly the legal texts, and then its callbacks are the events of the tree. */
  lemma AcceptsExactlyTheGrammar(depth: int, s: string)
    ensures RunFrom(Initial(depth), s)
         == match ParseText(s, Initial(depth).depth)
            case NotLegal => Refused
            case Legal(t) => Accepted(TreeEvents(t))
  {
    hide Char, RunFrom, Value, TreeEvents, SkipBlanks;
    var m := Initial(depth);
    RunBlanks(m, s);
    var a := SkipBlanks(s);
    if StartsWith(a, '{') { RunObject(m, a); }
    else if StartsWith(a, '[') { RunArray(m, a); }
    else { NotAContainer(m, a); return; }
    match Value(a, m.depth, 1)
    case NotFound =>
    case Found(t, rest) =>
      RunBlanks(Idle(m.depth, OK, [InDone]), rest);
      NothingAfter(Idle(m.depth, OK, [InDone]), SkipBlanks(rest));
      assert TreeEvents(t) + [] == TreeEvents(t);
  }

  // ---- The limit on nesting

  function Nesting(t: Tree): nat
    decreases t, 0
  {
    match t
    case ArrayTree(es) => 1 + ElementsNesting(es)
    case ObjectTree(ms) => 1 + MembersNesting(ms)
    case _ => 0
  }

  function Max(a: nat, b: nat): nat {
    if a < b then b else a
  }

  function ElementsNesting(es: seq<Tree>): nat
    decreases es, 1
  {
    if es == [] then 0 else Max(Nesting(es[0]), ElementsNesting(es[1..]))
  }

  function MembersNesting(ms: seq<TreeMember>): nat
    decreases ms, 1
  {
    if ms == [] then 0 else Max(Nesting(ms[0].value), MembersNesting(ms[1..]))
  }

  lemma {:induction false} ValueLimit(s: string, depth: int, open: nat)
    requires 0 < depth && open <= depth
    ensures Value(s, depth, open)
         == var r := Value(s, -1, open); if r.Found? && open + Nesting(r.value) <= depth then r else NotFound
    decreases |s|, 0
  {
    hide Number, StringBody, Word;
    if s != "" && open < depth {
      if s[0] == '{' { MembersLimit(s[1..], depth, open + 1, true); }
      if s[0] == '[' { ElementsLimit(s[1..], depth, open + 1, true); }
    }
    if s != "" && s[0] != '{' && s[0] != '[' { ScalarNesting(s, open); }
  }

  lemma ScalarNesting(s: string, open: nat)
    requires s != "" && s[0] != '{' && s[0] != '['
    ensures Value(s, -1, open).Found? ==> Nesting(Value(s, -1, open).value) == 0
  {
    hide StringBody;
  }

  lemma {:induction false} ElementsLimit(s: string, depth: int, open: nat, first: bool)
    requires 0 < depth && open <= depth
    ensures Elements(s, depth, open, first)
         == var r := Elements(s, -1, open, first); if r.Found? && open + ElementsNesting(r.value) <= depth then r
           else NotFound
    decreases |s|, 1
  {
    hide Value, SkipBlanks;
    var a := SkipBlanks(s);
    if first && StartsWith(a, ']') { return; }
    ValueLimit(a, depth, open);
    match Value(a, -1, open)
    case NotFound =>
    case Found(e, rest) =>
      var b := SkipBlanks(rest);
      assert [e] + [] == [e];
      FirstNesting(e, []);
      if StartsWith(b, ',') {
        ElementsLimit(b[1..], depth, open, false);
        if Elements(b[1..], -1, open, false).Found? { FirstNesting(e, Elements(b[1..], -1, open, false).value); }
      }
  }

  lemma FirstNesting(e: Tree, es: seq<Tree>)
    ensures ElementsNesting([e] + es) == Max(Nesting(e), ElementsNesting(es))
  {
    assert ([e] + es)[1..] == es;
  }

  lemma FirstMemberNesting(m: TreeMember, ms: seq<TreeMember>)
    ensures MembersNesting([m] + ms) == Max(Nesting(m.value), MembersNesting(ms))
  {
    assert ([m] + ms)[1..] == ms;
  }

  lemma {:induction false} MembersLimit(s: string, depth: int, open: nat, first: bool)
    requires 0 < depth && open <= depth
    ensures Members(s, depth, open, first)
         == var r := Members(s, -1, open, first); if r.Found? && open + MembersNesting(r.value) <= depth then r
           else NotFound
    decreases |s|, 2
  {
    hide Value, SkipBlanks, StringBody, MoreMembers;
    var a := SkipBlanks(s);
    if (first && StartsWith(a, '}')) || !StartsWith(a, '"') || StringBody(a[1..]).NotFound? { return; }
    var b := SkipBlanks(StringBody(a[1..]).rest);
    if !StartsWith(b, ':') { return; }
    var c := SkipBlanks(b[1..]);
    ValueLimit(c, depth, open);
    match Value(c, -1, open)
    case NotFound =>
    case Found(v, rest) => MoreMembersLimit(TreeMember(StringBody(a[1..]).value, v), SkipBlanks(rest), depth, open);
  }

  lemma {:induction false} MoreMembersLimit(m: TreeMember, s: string, depth: int, open: nat)
    requires 0 < depth && open <= depth
    ensures open + Nesting(m.value) <= depth ==>
      MoreMembers(m, s, depth, open)
      == var r := MoreMembers(m, s, -1, open); if r.Found? && open + MembersNesting(r.value) <= depth then r
        else NotFound
    ensures open + Nesting(m.value) > depth && MoreMembers(m, s, -1, open).Found? ==>
      open + MembersNesting(MoreMembers(m, s, -1, open).value) > depth
    decreases |s|, 1
  {
    hide Members;
    assert [m] + [] == [m];
    FirstMemberNesting(m, []);
    if StartsWith(s, ',') {
      MembersLimit(s[1..], depth, open, false);
      if Members(s[1..], -1, open, false).Found? { FirstMemberNesting(m, Members(s[1..], -1, open, false).value); }
    }
  }

  /** A positive depth only refuses the trees with more than depth - 1 containers inside one another. */
  lemma DepthLimitsNesting(s: string, depth: int)
    requires 0 < depth
    ensures ParseText(s, depth)
         == match ParseText(s, -1)
            case NotLegal => NotLegal
            case Legal(t) => if Nesting(t) <= depth - 1 then Legal(t) else NotLegal
  {
    hide Value, SkipBlanks;
    ValueLimit(SkipBlanks(s), depth, 1);
  }
}
