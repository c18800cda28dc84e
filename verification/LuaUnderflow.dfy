/** When decoding comes to a closing bracket with nothing to close, said of the text alone. */
module LuaUnderflow {
  import opened JsonParserTable
  import opened JsonParserStep
  import opened JsonGrammar
  import opened JsonParserTokens
  import opened JsonParserProof
  import opened LuaTables
  import opened LuaBuilding
  import opened LuaDecode

  // ---- The condition on the text

  /** The brackets a text leaves open, whether it ends inside a string and behind a backslash there, and whether the
      last thing in it is the opening bracket of an object. */
  datatype Scan = Scan(open: string, inString: bool, escaped: bool, begun: bool)

  function ScanChar(c: Scan, ch: char): Scan {
    if c.inString then
      if c.escaped then c.(escaped := false)
      else if ch == '\\' then c.(escaped := true)
      else if ch == '"' then c.(inString := false)
      else c
    else if BlankChar(ch) then c
    else if ch == '"' then Scan(c.open, true, false, false)
    else if ch == '{' || ch == '[' then Scan(c.open + [ch], false, false, ch == '{')
    else if (ch == '}' || ch == ']') && c.open != "" then Scan(c.open[..|c.open| - 1], false, false, false)
    else c.(begun := false)
  }

  function Scanned(s: string): Scan {
    if s == "" then Scan("", false, false, false) else ScanChar(Scanned(s[..|s| - 1]), s[|s| - 1])
  }

  /** The brackets that close the open ones. */
  function Closing(open: string): string {
    if open == "" then ""
    else [if open[|open| - 1] == '[' then ']' else '}'] + Closing(open[..|open| - 1])
  }

  /** A text that a value has just ended in: closing what is open makes it legal, and it does not end in an opening
      bracket of an object. */
  predicate ValueEnds(s: string) {
    ParseText(s + Closing(Scanned(s).open), -1).Legal? && !Scanned(s).begun
  }

  /** Behind such a text, a square bracket with no array open, or a curly one with nothing open. */
  predicate ClosesNothing(s: string, ch: char) {
    ValueEnds(s) && ((ch == ']' && '[' !in Scanned(s).open) || (ch == '}' && Scanned(s).open == ""))
  }

  /** Whether some character up to the first that is not positive closes nothing. */
  predicate Overcloses(done: string, s: string)
    decreases |s|
  {
    s != "" && !Stops(s[0]) && (ClosesNothing(done, s[0]) || Overcloses(done + [s[0]], s[1..]))
  }

  // ---- The parser follows the scan

  predicate ModeIs(mode: Mode, bracket: char) {
    if bracket == '[' then mode == InArray else bracket == '{' && (mode == InKey || mode == InObject)
  }

  predicate Follows(m: Machine, c: Scan) {
    && |m.stack| == |c.open| + 1
    && (forall i :: 0 <= i < |c.open| ==> ModeIs(m.stack[i + 1], c.open[i]))
    && (c.inString <==> StringState(m.state))
    && (c.escaped <==> m.state.ES? || m.state.D2?)
    && (c.begun <==> m.state.OB?)
  }

  lemma ToFollows(m: Machine, c: Scan, ch: char, k: Kind, t: State)
    requires Follows(m, c) && Classify(ch) == Known(k) && Next(m.state, k) == To(t)
    ensures Follows(m.(state := t), ScanChar(c, ch))
  {
    hide Next, Classify;
    KindChars(ch, k);
    if StringState(m.state) { StringMoves(m.state, k); }
    else if NumberState(m.state) || WordState(m.state) { PlainTo(m.state, k); }
    else { BetweenMoves(m.state, k); }
  }

  /** What an action does to the modes and the state. */
  lemma Effects(m: Machine, a: Action)
    requires m.stack != [] && Perform(m, a).Go?
    ensures var m' := Perform(m, a).m;
      match a
      case ObjectBegin => m'.stack == m.stack + [InKey] && m'.state.OB?
      case ArrayBegin => m'.stack == m.stack + [InArray] && m'.state.AR?
      case ObjectEnd => Top(m) == InObject && m'.stack == m.stack[..|m.stack| - 1] && m'.state.OK?
      case ArrayEnd => Top(m) == InArray && m'.stack == m.stack[..|m.stack| - 1] && m'.state.OK?
      case EmptyObjectEnd => Top(m) == InKey && m'.stack == m.stack[..|m.stack| - 1] && m'.state.OK?
      case Comma =>
        && !m'.state.OB? && !StringState(m'.state)
        && (m'.stack == m.stack || (Top(m) == InObject && m'.stack == m.stack[..|m.stack| - 1] + [InKey]))
      case Colon => Top(m) == InKey && m'.stack == m.stack[..|m.stack| - 1] + [InObject] && m'.state.VA?
      case StringBegin => m'.stack == m.stack && m'.state.ST?
      case StringEnd => m'.stack == m.stack && (m'.state.CO? || m'.state.OK?)
      case Escape => m'.stack == m.stack && m'.state.ES?
      case UnicodeRead => m'.stack == m.stack && (m'.state.ST? || m'.state.D1?)
      case CommentBegin => false
      case _ => m'.stack == m.stack && (NumberState(m'.state) || WordState(m'.state))
  {
    hide ScalarEvents, Encode, CodeUnit;
  }

  lemma SameModes(m: Machine, ch: char, k: Kind)
    ensures AddChar(m, ch, k).Go? ==> AddChar(m, ch, k).m.stack == m.stack && AddChar(m, ch, k).m.state == m.state
  {
    hide Escaped;
  }

  lemma FlipFollows(stack: seq<Mode>, open: string, mode: Mode)
    requires |stack| == |open| + 1 && (forall i :: 0 <= i < |open| ==> ModeIs(stack[i + 1], open[i]))
    requires (stack[|stack| - 1] == InKey || stack[|stack| - 1] == InObject) && open != ""
      && (mode == InKey || mode == InObject)
    ensures var stack' := stack[..|stack| - 1] + [mode];
      forall i :: 0 <= i < |open| ==> ModeIs(stack'[i + 1], open[i])
  {
  }

  lemma ActFollows(m: Machine, c: Scan, ch: char, k: Kind, a: Action, m1: Machine)
    requires StackOk(m) && Follows(m, c) && Classify(ch) == Known(k) && Next(m.state, k) == Act(a)
    requires m1.stack == m.stack && m1.state == m.state && Perform(m1, a).Go?
    requires a.UnicodeRead? ==> ch != '\\' && ch != '"'
    ensures Follows(Perform(m1, a).m, ScanChar(c, ch))
  {
    hide Next, Classify, Perform;
    KindChars(ch, k);
    ActionKinds(m.state, k, a);
    ActionStates(m.state, k, a);
    QuietStates(m.state, k, a);
    Effects(m1, a);
    if ScalarAction(a) { ScalarKinds(m.state, k, a); }
    if a.Comma? || a.Colon? {
      if |m.stack| > 1 && (Top(m) == InKey || Top(m) == InObject) {
        FlipFollows(m.stack, c.open, if a.Comma? then InKey else InObject);
      }
    }
  }

  /** Every character that is accepted keeps parser and scan together. */
  lemma CharFollows(m: Machine, c: Scan, ch: char)
    requires Invariant(m) && Follows(m, c) && Char(m, ch).Go?
    ensures Follows(Char(m, ch).m, ScanChar(c, ch)) && Char(m, ch).m.depth == m.depth
  {
    hide Next, Classify, Perform, AddChar, Invariant, Follows;
    InvariantStackOk(m);
    var k := Classify(ch).kind;
    var m1 := AddChar(m, ch, k).m;
    SameModes(m, ch, k);
    SameDepth(m, ch, k);
    match Next(m.state, k)
    case To(t) =>
      ToFollows(m, c, ch, k, t);
      SameFollows(m.(state := t), m1.(state := t), ScanChar(c, ch));
    case Act(a) =>
      PerformKeepsDepth(m1, a);
      if a.UnicodeRead? { HexIsNoQuote(m, ch, k); }
      ActFollows(m, c, ch, k, a, m1);
  }

  lemma SameFollows(m: Machine, m1: Machine, c: Scan)
    requires Follows(m, c) && m1.stack == m.stack && m1.state == m.state
    ensures Follows(m1, c)
  {
  }

  lemma InvariantStackOk(m: Machine)
    requires Invariant(m)
    ensures StackOk(m)
  {
  }

  lemma SameDepth(m: Machine, ch: char, k: Kind)
    ensures AddChar(m, ch, k).Go? ==> AddChar(m, ch, k).m.depth == m.depth
  {
    hide Escaped;
  }

  lemma PerformKeepsDepth(m: Machine, a: Action)
    ensures Perform(m, a).Go? ==> Perform(m, a).m.depth == m.depth
  {
    hide ScalarEvents, Encode, CodeUnit;
  }

  lemma HexIsNoQuote(m: Machine, ch: char, k: Kind)
    requires Classify(ch) == Known(k) && Next(m.state, k) == Act(UnicodeRead)
    ensures ch != '\\' && ch != '"'
  {
    hide Next, Classify;
    KindChars(ch, k);
    QuietStates(m.state, k, UnicodeRead);
    UnicodeMoves(m.state, k);
  }

  // ---- Closing what is open

  lemma OpenModes(m: Machine, c: Scan)
    requires Follows(m, c) && StackOk(m)
    ensures m.stack[0] == InDone && (c.open == "" <==> |m.stack| == 1)
    ensures c.open != "" ==> (Top(m) == InArray <==> c.open[|c.open| - 1] == '[') && Top(m) != InDone
    ensures InArray in m.stack <==> '[' in c.open
  {
    if '[' in c.open {
      var i :| 0 <= i < |c.open| && c.open[i] == '[';
      assert ModeIs(m.stack[i + 1], c.open[i]);
    }
    if InArray in m.stack {
      var j :| 0 <= j < |m.stack| && m.stack[j] == InArray;
      assert ModeIs(m.stack[j - 1 + 1], c.open[j - 1]);
    }
    if c.open != "" { assert ModeIs(m.stack[|c.open| - 1 + 1], c.open[|c.open| - 1]); }
  }

  /** Where a value may have ended, closing what is open ends the text. */
  lemma {:induction false} ClosingIsAccepted(m: Machine, c: Scan)
    requires Invariant(m) && Follows(m, c) && MayEnd(m.state) && m.depth < 0
    ensures RunFrom(m, Closing(c.open)).Accepted?
    decreases |c.open|
  {
    hide Invariant, Char, Follows;
    InvariantStackOk(m);
    OpenModes(m, c);
    EndedFacts(m);
    if c.open != "" {
      var ch := Closing(c.open)[0];
      DelimiterStep(m, ch);
      var m1 := Char(m, ch).m;
      CharFollows(m, c, ch);
      CharKeepsInvariant(m, ch);
      NotInString(m, c);
      assert ScanChar(c, ch).open == c.open[..|c.open| - 1];
      ClosingIsAccepted(m1, ScanChar(c, ch));
      assert Closing(c.open)[1..] == Closing(c.open[..|c.open| - 1]);
    }
  }

  lemma NotInString(m: Machine, c: Scan)
    requires Follows(m, c) && MayEnd(m.state)
    ensures !c.inString && !c.begun
  {
  }

  lemma EndedFacts(m: Machine)
    requires Invariant(m) && MayEnd(m.state) && m.depth < 0
    ensures |m.stack| == 1 ==> Finished(m)
    ensures |m.stack| > 1 ==> Ended(m)
  {
  }

  /** Inside a string closing brackets are text, and the run ends in the string. */
  lemma {:induction false} StringNeverEnds(m: Machine, s: string)
    requires StringState(m.state) && forall i :: 0 <= i < |s| ==> s[i] == ']' || s[i] == '}'
    ensures RunFrom(m, s).Refused?
    decreases |s|
  {
    hide Char;
    if s != "" {
      BracketInString(m, s[0]);
      if Char(m, s[0]).Go? { StringNeverEnds(Char(m, s[0]).m, s[1..]); }
    }
  }

  lemma BracketInString(m: Machine, ch: char)
    requires StringState(m.state) && (ch == ']' || ch == '}')
    ensures Char(m, ch).Go? ==> StringState(Char(m, ch).m.state)
  {
    hide Next, Classify, Perform, Escaped;
    if Classify(ch).Known? {
      var k := Classify(ch).kind;
      KindChars(ch, k);
      CloseMoves(m.state, k);
    }
  }

  lemma {:induction false} ClosingBrackets(open: string)
    ensures forall i :: 0 <= i < |Closing(open)| ==> Closing(open)[i] == ']' || Closing(open)[i] == '}'
    decreases |open|
  {
    if open != "" { ClosingBrackets(open[..|open| - 1]); }
  }

  /** If closing the open brackets ends the text and no array is open, a value has ended or an object has just begun. */
  lemma AcceptedMayEnd(m: Machine, c: Scan)
    requires Invariant(m) && Follows(m, c) && RunFrom(m, Closing(c.open)).Accepted?
    requires '[' !in c.open && !c.begun
    ensures MayEnd(m.state) && (c.open == "" ==> m.state.OK?)
  {
    hide Invariant, Next, Classify, AddChar, Perform;
    if c.open != "" {
      assert c.open[|c.open| - 1] != '[';
      ClosingBrackets(c.open);
      if StringState(m.state) { StringNeverEnds(m, Closing(c.open)); }
      BracketKinds();
      CloseMoves(m.state, RCurb);
    }
  }

  lemma BracketKinds()
    ensures Classify('}') == Known(RCurb) && Classify(']') == Known(RSqrb)
  {
  }

  // ---- The condition is the one on the run

  /** At any point of a run the next bracket takes from an empty stack if and only if it closes nothing. */
  lemma UnderflowIffClosesNothing(done: string, m: Machine, ch: char)
    requires Invariant(m) && Follows(m, Scanned(done)) && m.depth < 0
    requires RunFrom(Initial(-1), done + Closing(Scanned(done).open)).Accepted?
        <==> RunFrom(m, Closing(Scanned(done).open)).Accepted?
    ensures Underflow(m, ch) <==> ClosesNothing(done, ch)
  {
    hide Invariant, Follows, RunFrom, ParseText, Classify, Next, Closing;
    var c := Scanned(done);
    AcceptsExactlyTheGrammar(-1, done + Closing(c.open));
    InvariantStackOk(m);
    OpenModes(m, c);
    ArrayStateIsOpen(m);
    BracketKinds();
    CloseMoves(m.state, RSqrb);
    CloseMoves(m.state, RCurb);
    if Underflow(m, ch) {
      UnderflowChars(m, ch);
      assert MayEnd(m.state);
      NotInString(m, c);
      ClosingIsAccepted(m, c);
    }
    if ClosesNothing(done, ch) {
      assert '[' !in c.open;
      AcceptedMayEnd(m, c);
    }
  }

  lemma ArrayStateIsOpen(m: Machine)
    requires Invariant(m)
    ensures m.state.AR? ==> InArray in m.stack
  {
  }

  lemma UnderflowChars(m: Machine, ch: char)
    requires Underflow(m, ch)
    ensures if InArray !in m.stack && Next(m.state, Classify(ch).kind) == Act(ArrayEnd) then ch == ']' else ch == '}'
  {
    hide Next, Classify;
    var k := Classify(ch).kind;
    KindChars(ch, k);
    ActionKinds(m.state, k, Next(m.state, k).action);
  }

  /** A machine a text leads to: whatever follows, they accept it alike. */
  ghost predicate LeadsTo(done: string, m: Machine) {
    forall w: string :: RunFrom(Initial(-1), done + w).Accepted? <==> RunFrom(m, w).Accepted?
  }

  lemma LeadsOn(done: string, m: Machine, ch: char)
    requires LeadsTo(done, m)
    ensures Char(m, ch).Go? ==> LeadsTo(done + [ch], Char(m, ch).m)
    ensures Char(m, ch).Rejected? ==> LeadsNowhere(done + [ch])
  {
    hide Char;
    forall w: string
      ensures RunFrom(Initial(-1), done + [ch] + w).Accepted?
         <==> Char(m, ch).Go? && RunFrom(Char(m, ch).m, w).Accepted?
    {
      assert done + [ch] + w == done + ([ch] + w) && ([ch] + w)[1..] == w;
      assert RunFrom(Initial(-1), done + ([ch] + w)).Accepted? <==> RunFrom(m, [ch] + w).Accepted?;
    }
  }

  ghost predicate LeadsNowhere(done: string) {
    forall w: string :: !RunFrom(Initial(-1), done + w).Accepted?
  }

  /** Behind a character that was refused nothing ends a value any more. */
  lemma {:induction false} NowhereOvercloses(done: string, s: string)
    requires LeadsNowhere(done)
    ensures !Overcloses(done, s)
    decreases |s|
  {
    hide RunFrom, ParseText, Closing, Scanned;
    if s != "" {
      var w := Closing(Scanned(done).open);
      AcceptsExactlyTheGrammar(-1, done + w);
      assert !RunFrom(Initial(-1), done + w).Accepted?;
      StillNowhere(done, s[0]);
      NowhereOvercloses(done + [s[0]], s[1..]);
    }
  }

  lemma StillNowhere(done: string, ch: char)
    requires LeadsNowhere(done)
    ensures LeadsNowhere(done + [ch])
  {
    hide RunFrom;
    forall w: string ensures !RunFrom(Initial(-1), done + [ch] + w).Accepted? {
      assert done + [ch] + w == done + ([ch] + w);
      assert !RunFrom(Initial(-1), done + ([ch] + w)).Accepted?;
    }
  }

  lemma ScannedOneMore(done: string, ch: char)
    ensures Scanned(done + [ch]) == ScanChar(Scanned(done), ch)
  {
    hide ScanChar;
    assert (done + [ch])[..|done + [ch]| - 1] == done;
  }

  lemma {:induction false} RunOvercloses(done: string, m: Machine, s: string)
    requires Invariant(m) && Follows(m, Scanned(done)) && m.depth < 0 && LeadsTo(done, m)
    ensures Underflows(m, s) <==> Overcloses(done, s)
    decreases |s|
  {
    hide Invariant, Follows, RunFrom, ClosesNothing, Underflow, Char, Scanned, Closing;
    if s != "" && !Stops(s[0]) {
      var w := Closing(Scanned(done).open);
      assert RunFrom(Initial(-1), done + w).Accepted? <==> RunFrom(m, w).Accepted?;
      UnderflowIffClosesNothing(done, m, s[0]);
      LeadsOn(done, m, s[0]);
      if Char(m, s[0]).Go? {
        CharFollows(m, Scanned(done), s[0]);
        CharKeepsInvariant(m, s[0]);
        ScannedOneMore(done, s[0]);
        RunOvercloses(done + [s[0]], Char(m, s[0]).m, s[1..]);
      } else {
        NowhereOvercloses(done + [s[0]], s[1..]);
      }
    }
  }

  /** Decoding comes to a closing bracket with nothing to close exactly on the texts with a bracket that closes
      nothing. */
  lemma UnderflowsIffOvercloses(s: string)
    ensures Underflows(Initial(-1), s) <==> Overcloses("", s)
  {
    hide RunFrom, Underflows, Overcloses;
    InitialInvariant(-1);
    forall w: string ensures RunFrom(Initial(-1), "" + w).Accepted? <==> RunFrom(Initial(-1), w).Accepted? {
      assert "" + w == w;
    }
    RunOvercloses("", Initial(-1), s);
  }

  /** The outcome of decoding, said of the text alone. */
  lemma DecodeOutcomeByText(lua: seq<LuaValue>, s: string, f: FunctionReader)
    ensures Overcloses("", s) <==> Decode(lua, s, f).UndefinedRun?
    ensures !Overcloses("", s) ==> match ParseText(Positive(s), -1)
      case Legal(t) => Decode(lua, s, f) == Success(Fresh(lua + [Exact(t, f)]))
      case NotLegal => Decode(lua, s, f).Failure? && lua <= Decode(lua, s, f).lua
  {
    hide Decode, ParseText, Exact, Underflows, Overcloses;
    UnderflowsIffOvercloses(s);
    DecodeOutcome(lua, s, f);
  }
}
