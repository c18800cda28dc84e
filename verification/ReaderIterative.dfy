/** The table-driven form of `GenericReader`: tokens, the transition table, one transition, and the loop
    over an explicit stack of states and counts.  The second half proves it equal to the recursive form. */
module ReaderIterative {
  import opened JsonEvents
  import opened ReaderSpec

  datatype State =
    | Start | Finish | ErrorState
    | ObjectInitial | MemberKey | KeyValueDelimiter | MemberValue | MemberDelimiter | ObjectFinish
    | ArrayInitial | Element | ElementDelimiter | ArrayFinish
    | SingleValue

  datatype Token =
    | LeftBracket | RightBracket | LeftCurly | RightCurly | Comma | Colon
    | StringToken | FalseToken | TrueToken | NullToken | NumberToken

  /** The stack holds, for each open container, the state to return to and then a count. */
  datatype Cell = Saved(state: State) | Count(n: nat)

  function Tokenize(ch: char): Token {
    match ch
    case '[' => LeftBracket
    case ']' => RightBracket
    case '{' => LeftCurly
    case '}' => RightCurly
    case ',' => Comma
    case ':' => Colon
    case '"' => StringToken
    case 'f' => FalseToken
    case 't' => TrueToken
    case 'n' => NullToken
    case _ => NumberToken
  }

  predicate ScalarToken(t: Token) {
    t.StringToken? || t.FalseToken? || t.TrueToken? || t.NullToken? || t.NumberToken?
  }

  /** The transition table: current state and one token of lookahead give a candidate state. */
  function Predict(s: State, t: Token): State {
    match s
    case Start =>
      if t.LeftBracket? then ArrayInitial
      else if t.LeftCurly? then ObjectInitial
      else if ScalarToken(t) then SingleValue
      else ErrorState
    case ObjectInitial =>
      if t.RightCurly? then ObjectFinish else if t.StringToken? then MemberKey else ErrorState
    case MemberKey =>
      if t.Colon? then KeyValueDelimiter else ErrorState
    case KeyValueDelimiter =>
      if t.LeftBracket? then ArrayInitial
      else if t.LeftCurly? then ObjectInitial
      else if ScalarToken(t) then MemberValue
      else ErrorState
    case MemberValue =>
      if t.RightCurly? then ObjectFinish else if t.Comma? then MemberDelimiter else ErrorState
    case MemberDelimiter =>
      if t.RightCurly? then ObjectFinish else if t.StringToken? then MemberKey else ErrorState
    case ArrayInitial =>
      if t.LeftBracket? then ArrayInitial
      else if t.RightBracket? then ArrayFinish
      else if t.LeftCurly? then ObjectInitial
      else if ScalarToken(t) then Element
      else ErrorState
    case Element =>
      if t.RightBracket? then ArrayFinish else if t.Comma? then ElementDelimiter else ErrorState
    case ElementDelimiter =>
      if t.LeftBracket? then ArrayInitial
      else if t.RightBracket? then ArrayFinish
      else if t.LeftCurly? then ObjectInitial
      else if ScalarToken(t) then Element
      else ErrorState
    case Finish => ErrorState
    case ErrorState => ErrorState
    case ObjectFinish => ErrorState
    case ArrayFinish => ErrorState
    case SingleValue => ErrorState
  }

  /** What one transition leaves: the next state with the new stack, position and events; or an error,
      whose code is still to be chosen by `HandleError` when the transition itself set none. */
  datatype Transition =
    | Moved(state: State, stack: seq<Cell>, pos: nat, trace: seq<Event>)
    | Stuck(trace: seq<Event>)
    | Refused(trace: seq<Event>, code: ErrorCode)

  /** Whether the transition finds on the stack what it pops or updates. */
  predicate StackFits(dst: State, stack: seq<Cell>) {
    match dst
    case ObjectFinish => |stack| >= 2 && stack[|stack| - 1].Count? && stack[|stack| - 2].Saved?
    case ArrayFinish => |stack| >= 2 && stack[|stack| - 1].Count? && stack[|stack| - 2].Saved?
    case MemberDelimiter => |stack| >= 1 && stack[|stack| - 1].Count?
    case ElementDelimiter => |stack| >= 1 && stack[|stack| - 1].Count?
    case _ => true
  }

  /** The state saved when a container opens in state `src`: where its end must return to. */
  function ReturnState(src: State): State {
    if src.ArrayInitial? || src.ElementDelimiter? then Element
    else if src.KeyValueDelimiter? then MemberValue
    else src
  }

  /** The stack after a container opens: its return state, then a count of none. */
  function Opened(s: State, stack: seq<Cell>): seq<Cell> {
    stack + [Saved(ReturnState(s)), Count(0)]
  }

  /** The stack after a comma: one more in the innermost count. */
  function Bumped(stack: seq<Cell>): (r: seq<Cell>)
    requires |stack| >= 1 && stack[|stack| - 1].Count?
    ensures |r| == |stack| && r[|r| - 1] == Count(stack[|stack| - 1].n + 1)
    ensures |r| >= 2 ==> r[..|r| - 2] == stack[..|stack| - 2] && r[|r| - 2] == stack[|stack| - 2]
  {
    stack[..|stack| - 1] + [Count(stack[|stack| - 1].n + 1)]
  }

  function OfOutcome(o: Outcome, s: State, stack: seq<Cell>): Transition {
    match o
    case Done(pos, trace) => Moved(s, stack, pos, trace)
    case Fail(trace, code) => Refused(trace, code)
  }

  function Transit(c: Config, src: State, dst: State, stack: seq<Cell>, p: nat, tr: seq<Event>): (t: Transition)
    requires WellBehaved(c) && p < |c.text| && StackFits(dst, stack)
    ensures t.Moved? ==> p < t.pos <= |c.text|
  {
    match dst
    case ErrorState => Stuck(tr)
    case ObjectInitial =>
      OfOutcome(Emit(c, p + 1, tr, StartObject), dst, Opened(src, stack))
    case ArrayInitial =>
      OfOutcome(Emit(c, p + 1, tr, StartArray), dst, Opened(src, stack))
    case MemberKey => OfOutcome(Scalar(c, p, tr, true), dst, stack)
    case KeyValueDelimiter => Moved(dst, stack, p + 1, tr)
    case MemberValue => OfOutcome(Value(c, p, tr), dst, stack)
    case Element => OfOutcome(Value(c, p, tr), dst, stack)
    case MemberDelimiter => Moved(dst, Bumped(stack), p + 1, tr)
    case ElementDelimiter => Moved(dst, Bumped(stack), p + 1, tr)
    case ObjectFinish =>
      if !c.trailingCommas && src.MemberDelimiter? then Refused(tr, ObjectMissName) else
      var n := stack[|stack| - 1].n + (if src.MemberValue? then 1 else 0);
      OfOutcome(Emit(c, p + 1, tr, EndObject(n)), Popped(stack), stack[..|stack| - 2])
    case ArrayFinish =>
      if !c.trailingCommas && src.ElementDelimiter? then Refused(tr, ValueInvalid) else
      var n := stack[|stack| - 1].n + (if src.Element? then 1 else 0);
      OfOutcome(Emit(c, p + 1, tr, EndArray(n)), Popped(stack), stack[..|stack| - 2])
    case _ => OfOutcome(Value(c, p, tr), Finish, stack)
  }

  /** The state a closing bracket restores: the saved one, or `Finish` for the outermost container. */
  function Popped(stack: seq<Cell>): State
    requires |stack| >= 2 && stack[|stack| - 2].Saved?
  {
    if stack[|stack| - 2].state.Start? then Finish else stack[|stack| - 2].state
  }

  /** The error reported when the text cannot go on (or ends) in state `src`. */
  function HandleError(src: State): ErrorCode {
    match src
    case Start => DocumentEmpty
    case Finish => DocumentRootNotSingular
    case ObjectInitial => ObjectMissName
    case MemberDelimiter => ObjectMissName
    case MemberKey => ObjectMissColon
    case MemberValue => ObjectMissCommaOrCurlyBracket
    case KeyValueDelimiter => ValueInvalid
    case ArrayInitial => ValueInvalid
    case ElementDelimiter => ValueInvalid
    case _ => ArrayMissCommaOrSquareBracket
  }

  /** Every state saved on the stack is one a container can return to, and the innermost container is
      of the kind the current state belongs to. */
  predicate Consistent(s: State, stack: seq<Cell>)
    decreases |stack|
  {
    if s.Start? || s.Finish? then stack == []
    else
      && |stack| >= 2 && stack[|stack| - 1].Count? && stack[|stack| - 2].Saved?
      && (InObject(s) || InArray(s))
      && Consistent(Popped(stack), stack[..|stack| - 2])
      && !Popped(stack).Start?
  }

  predicate InObject(s: State) {
    s.ObjectInitial? || s.MemberKey? || s.KeyValueDelimiter? || s.MemberValue? || s.MemberDelimiter?
  }

  predicate InArray(s: State) {
    s.ArrayInitial? || s.Element? || s.ElementDelimiter?
  }

  predicate WantsValue(s: State) {
    s.Start? || s.KeyValueDelimiter? || s.ArrayInitial? || s.ElementDelimiter?
  }

  /** The state the loop is in once the value expected in state `s` has been read. */
  function AfterValue(s: State): State
    requires WantsValue(s)
  {
    if s.Start? then Finish else ReturnState(s)
  }

  lemma OpenedFits(s: State, stack: seq<Cell>, inner: State)
    requires Consistent(s, stack) && WantsValue(s) && (inner.ObjectInitial? || inner.ArrayInitial?)
    ensures Consistent(inner, Opened(s, stack)) && Consistent(AfterValue(s), stack)
    ensures Popped(Opened(s, stack)) == AfterValue(s) && Opened(s, stack)[..|stack|] == stack
  {
    assert Opened(s, stack)[..|Opened(s, stack)| - 2] == stack;
  }

  lemma BumpedFits(s: State, stack: seq<Cell>)
    requires Consistent(s, stack) && (s.MemberValue? || s.Element?)
    ensures Consistent(if s.MemberValue? then MemberDelimiter else ElementDelimiter, Bumped(stack))
  {
  }

  lemma SameLevelFits(s: State, t: State, stack: seq<Cell>)
    requires Consistent(s, stack) && (InObject(s) || InArray(s)) && (InObject(t) || InArray(t))
    ensures Consistent(t, stack)
  {
  }

  lemma PoppedFits(s: State, stack: seq<Cell>)
    requires Consistent(s, stack) && (InObject(s) || InArray(s))
    ensures |stack| >= 2 && stack[|stack| - 2].Saved? && Consistent(Popped(stack), stack[..|stack| - 2])
  {
  }

  lemma RootFits(s: State, stack: seq<Cell>)
    requires Consistent(s, stack)
    ensures s.Start? ==> Consistent(Finish, stack)
  {
  }

  /** What a transition makes of state and stack. */
  lemma TransitMoves(c: Config, s: State, n: State, stack: seq<Cell>, p: nat, tr: seq<Event>)
    requires WellBehaved(c) && p < |c.text| && StackFits(n, stack)
    ensures var t := Transit(c, s, n, stack, p, tr);
      t.Moved? ==>
        if n.ObjectInitial? || n.ArrayInitial? then t.state == n && t.stack == Opened(s, stack)
        else if n.MemberDelimiter? || n.ElementDelimiter? then t.state == n && t.stack == Bumped(stack)
        else if InObject(n) || InArray(n) then t.state == n && t.stack == stack
        else if n.ObjectFinish? || n.ArrayFinish? then t.state == Popped(stack) && t.stack == stack[..|stack| - 2]
        else !n.ErrorState? && t.state == Finish && t.stack == stack
  {
    hide Value, Scalar, Emit;
  }

  /** What a predicted state says of the one it is predicted in. */
  lemma PredictFits(s: State, token: Token, stack: seq<Cell>)
    requires Consistent(s, stack)
    ensures var n := Predict(s, token);
      && StackFits(n, stack)
      && (n.ObjectInitial? || n.ArrayInitial? ==> WantsValue(s))
      && (n.MemberDelimiter? ==> s.MemberValue?) && (n.ElementDelimiter? ==> s.Element?)
      && (n.ObjectFinish? ==> InObject(s)) && (n.ArrayFinish? ==> InArray(s))
      && (InObject(n) && !n.ObjectInitial? ==> InObject(s)) && (InArray(n) && !n.ArrayInitial? ==> InArray(s))
      && !n.Finish? && !n.Start? && (n.SingleValue? ==> s.Start?)
  {
  }

  lemma TransitKeepsConsistent(c: Config, s: State, stack: seq<Cell>, p: nat, tr: seq<Event>)
    requires WellBehaved(c) && p < |c.text| && Consistent(s, stack)
    ensures var n := Predict(s, Tokenize(c.text[p]));
      StackFits(n, stack) &&
      (var t := Transit(c, s, n, stack, p, tr); t.Moved? ==> Consistent(t.state, t.stack))
  {
    var n := Predict(s, Tokenize(c.text[p]));
    PredictFits(s, Tokenize(c.text[p]), stack);
    TransitMoves(c, s, n, stack, p, tr);
    hide Transit, Predict, Consistent, Tokenize, Popped;
    if n.ObjectInitial? || n.ArrayInitial? {
      OpenedFits(s, stack, n);
    } else if n.MemberDelimiter? || n.ElementDelimiter? {
      BumpedFits(s, stack);
    } else if InObject(n) || InArray(n) {
      SameLevelFits(s, n, stack);
    } else if n.ObjectFinish? || n.ArrayFinish? {
      PoppedFits(s, stack);
    } else {
      RootFits(s, stack);
    }
  }

  /** The parsing loop, from its head in the given state. */
  function Loop(c: Config, s: State, stack: seq<Cell>, p: nat, tr: seq<Event>): (o: Outcome)
    requires WellBehaved(c) && p <= |c.text| && Consistent(s, stack)
    decreases |c.text| - p, 0
  {
    if Peek(c.text, p) == '\0' then
      if s.Finish? then Done(p, tr) else Fail(tr, HandleError(s))
    else
      TransitKeepsConsistent(c, s, stack, p, tr);
      match Transit(c, s, Predict(s, Tokenize(c.text[p])), stack, p, tr)
      case Stuck(trace) => Fail(trace, HandleError(s))
      case Refused(trace, code) => Fail(trace, code)
      case Moved(state, stack', pos, trace) => Next(c, state, stack', pos, trace)
  }

  /** What the loop does after a transition: stop at the root's end if asked to, else skip and go on. */
  function Next(c: Config, s: State, stack: seq<Cell>, p: nat, tr: seq<Event>): (o: Outcome)
    requires WellBehaved(c) && p <= |c.text| && Consistent(s, stack)
    decreases |c.text| - p, 1
  {
    if c.stopWhenDone && s.Finish? then Done(p, tr) else
    var k := Skip(c, p);
    if k.BadComment? then Fail(tr, UnspecificSyntaxError) else Loop(c, s, stack, k.pos, tr)
  }

  function Iterative(c: Config): Outcome
    requires WellBehaved(c)
  {
    var k := Skip(c, 0);
    if k.BadComment? then Fail([], UnspecificSyntaxError) else Loop(c, Start, [], k.pos, [])
  }

  // ---- The two forms agree

  /** The rest of a parse after one of its parts. */
  function Then(c: Config, o: Outcome, s: State, stack: seq<Cell>): Outcome
    requires WellBehaved(c) && (o.Done? ==> o.pos <= |c.text|) && Consistent(s, stack)
  {
    match o
    case Fail(_, _) => o
    case Done(pos, trace) => Next(c, s, stack, pos, trace)
  }

  predicate StartsValue(c: Config, p: nat) {
    Peek(c.text, p) != '\0' && !Punctuation(Peek(c.text, p))
  }

  // One turn of the loop, by the kind of token it meets.

  function Inner(bracket: char): State {
    if bracket == '{' then ObjectInitial else ArrayInitial
  }

  lemma EmitMoves(c: Config, p: nat, tr: seq<Event>, ev: Event)
    ensures Emit(c, p, tr, ev).Done? ==> Emit(c, p, tr, ev).pos == p
  {
  }

  lemma PredictOpen(s: State, ch: char)
    requires WantsValue(s) && (ch == '{' || ch == '[')
    ensures Predict(s, Tokenize(ch)) == Inner(ch)
  {
  }

  lemma TransitOpen(c: Config, s: State, stack: seq<Cell>, p: nat, tr: seq<Event>)
    requires WellBehaved(c) && p < |c.text| && (c.text[p] == '{' || c.text[p] == '[')
    ensures Transit(c, s, Inner(c.text[p]), stack, p, tr)
         == OfOutcome(Emit(c, p + 1, tr, if c.text[p] == '{' then StartObject else StartArray), Inner(c.text[p]),
           Opened(s, stack))
  {
    hide Value, Scalar, Emit;
  }

  lemma StepOpen(c: Config, s: State, stack: seq<Cell>, p: nat, tr: seq<Event>)
    requires WellBehaved(c) && p < |c.text| && Consistent(s, stack) && WantsValue(s)
    requires c.text[p] == '{' || c.text[p] == '['
    ensures Consistent(Inner(c.text[p]), Opened(s, stack))
    ensures Loop(c, s, stack, p, tr)
         == Then(c, Emit(c, p + 1, tr, if c.text[p] == '{' then StartObject else StartArray),
                 Inner(c.text[p]), Opened(s, stack))
  {
    hide Value, Skip, Scalar, Consistent, Transit, Predict, Emit, Next, Opened;
    OpenedFits(s, stack, Inner(c.text[p]));
    PredictOpen(s, c.text[p]);
    TransitOpen(c, s, stack, p, tr);
    EmitMoves(c, p + 1, tr, if c.text[p] == '{' then StartObject else StartArray);
  }

  lemma StepScalar(c: Config, s: State, stack: seq<Cell>, p: nat, tr: seq<Event>)
    requires WellBehaved(c) && p < |c.text| && Consistent(s, stack) && WantsValue(s) && StartsValue(c, p)
    requires c.text[p] != '{' && c.text[p] != '['
    ensures Consistent(AfterValue(s), stack)
    ensures Loop(c, s, stack, p, tr) == Then(c, Scalar(c, p, tr, false), AfterValue(s), stack)
  {
  }

  lemma StepKey(c: Config, s: State, stack: seq<Cell>, p: nat, tr: seq<Event>)
    requires WellBehaved(c) && p <= |c.text| && Consistent(s, stack) && (s.ObjectInitial? || s.MemberDelimiter?)
    requires Peek(c.text, p) == '}' ==> s.MemberDelimiter? && !c.trailingCommas
    ensures Loop(c, s, stack, p, tr)
         == if Peek(c.text, p) == '"' then Then(c, Scalar(c, p, tr, true), MemberKey, stack)
            else Fail(tr, ObjectMissName)
  {
  }

  lemma StepColon(c: Config, stack: seq<Cell>, p: nat, tr: seq<Event>)
    requires WellBehaved(c) && p <= |c.text| && Consistent(MemberKey, stack)
    ensures Loop(c, MemberKey, stack, p, tr)
         == if Peek(c.text, p) == ':' then Next(c, KeyValueDelimiter, stack, p + 1, tr)
            else Fail(tr, ObjectMissColon)
  {
  }

  lemma StepComma(c: Config, s: State, stack: seq<Cell>, p: nat, tr: seq<Event>)
    requires WellBehaved(c) && p < |c.text| && Consistent(s, stack) && c.text[p] == ','
    requires s.MemberValue? || s.Element?
    ensures var next := if s.MemberValue? then MemberDelimiter else ElementDelimiter;
            Consistent(next, Bumped(stack)) &&
            Loop(c, s, stack, p, tr) == Next(c, next, Bumped(stack), p + 1, tr)
  {
  }

  function Closing(s: State, stack: seq<Cell>): Event
    requires Consistent(s, stack) && (InObject(s) || InArray(s))
  {
    var n := stack[|stack| - 1].n + (if s.MemberValue? || s.Element? then 1 else 0);
    if InObject(s) then EndObject(n) else EndArray(n)
  }

  /** A closing bracket reports the count on the stack, and one more after a value. */
  lemma StepClose(c: Config, s: State, stack: seq<Cell>, p: nat, tr: seq<Event>)
    requires WellBehaved(c) && p < |c.text| && Consistent(s, stack) && (InObject(s) || InArray(s))
    requires c.text[p] == if InObject(s) then '}' else ']'
    requires s.ObjectInitial? || s.MemberValue? || s.ArrayInitial? || s.Element?
          || ((s.MemberDelimiter? || s.ElementDelimiter?) && c.trailingCommas)
    ensures Loop(c, s, stack, p, tr)
         == Then(c, Emit(c, p + 1, tr, Closing(s, stack)), Popped(stack), stack[..|stack| - 2])
  {
  }

  /** A value that cannot start where one is expected is the same error in both forms. */
  lemma NoValue(c: Config, s: State, stack: seq<Cell>, p: nat, tr: seq<Event>)
    requires WellBehaved(c) && p <= |c.text| && Consistent(s, stack) && !StartsValue(c, p)
    requires s.KeyValueDelimiter? || s.ArrayInitial? || s.ElementDelimiter?
    requires Peek(c.text, p) == ']' ==> s.KeyValueDelimiter? || (s.ElementDelimiter? && !c.trailingCommas)
    ensures Loop(c, s, stack, p, tr) == Fail(tr, ValueInvalid) == Value(c, p, tr)
  {
  }

  /** A container after its opening bracket, in the recursive form. */
  lemma ContainerValue(c: Config, p: nat, tr: seq<Event>)
    requires WellBehaved(c) && p < |c.text| && (c.text[p] == '{' || c.text[p] == '[')
    ensures var open := Emit(c, p + 1, tr, if c.text[p] == '{' then StartObject else StartArray);
      var k := Skip(c, p + 1);
      Value(c, p, tr)
      == if open.Fail? then open
         else if k.BadComment? then Fail(open.trace, UnspecificSyntaxError)
         else if c.text[p] == '{' then
           if Peek(c.text, k.pos) == '}' then Emit(c, k.pos + 1, open.trace, EndObject(0))
             else Members(c, k.pos, open.trace, 0)
         else
           if Peek(c.text, k.pos) == ']' then Emit(c, k.pos + 1, open.trace, EndArray(0))
             else Elements(c, k.pos, open.trace, 0)
  {
    hide Members, Elements, Skip;
  }

  /** After an opening bracket the loop skips and goes on, if the event was taken. */
  lemma ThenInner(c: Config, o: Outcome, s: State, stack: seq<Cell>)
    requires WellBehaved(c) && (o.Done? ==> o.pos <= |c.text|) && Consistent(s, stack) && !s.Finish?
    ensures Then(c, o, s, stack)
         == if o.Fail? then o
            else match Skip(c, o.pos)
              case BadComment => Fail(o.trace, UnspecificSyntaxError)
              case At(pos) => Loop(c, s, stack, pos, o.trace)
  {
    hide Loop, Skip, Consistent;
  }

  lemma ThenFailed(c: Config, o: Outcome, s: State, stack: seq<Cell>)
    requires WellBehaved(c) && o.Fail? && Consistent(s, stack)
    ensures Then(c, o, s, stack) == o
  {
  }

  lemma ScalarIsValue(c: Config, p: nat, tr: seq<Event>)
    requires WellBehaved(c) && p < |c.text| && c.text[p] != '{' && c.text[p] != '['
    ensures Value(c, p, tr) == Scalar(c, p, tr, false)
  {
  }

  /** A container, from its opening bracket on. */
  lemma {:induction false} ContainerSimulation(c: Config, s: State, stack: seq<Cell>, p: nat, tr: seq<Event>)
    requires WellBehaved(c) && p < |c.text| && Consistent(s, stack) && WantsValue(s)
    requires c.text[p] == '{' || c.text[p] == '['
    ensures Consistent(AfterValue(s), stack)
    ensures Loop(c, s, stack, p, tr) == Then(c, Value(c, p, tr), AfterValue(s), stack)
    decreases |c.text| - p, 0
  {
    hide Loop, Members, Elements, Skip, Transit, Consistent, Value, Emit, Then, Next, AfterValue, Opened, Popped;
    var ch := c.text[p];
    StepOpen(c, s, stack, p, tr);
    OpenedFits(s, stack, Inner(ch));
    OpenedLength(s, stack);
    ContainerValue(c, p, tr);
    var event := if ch == '{' then StartObject else StartArray;
    var open := Emit(c, p + 1, tr, event);
    EmitMoves(c, p + 1, tr, event);
    ThenInner(c, open, Inner(ch), Opened(s, stack));
    if open.Fail? || Skip(c, open.pos).BadComment? {
      ThenFailed(c, Value(c, p, tr), AfterValue(s), stack);
    } else if ch == '{' {
      ObjectSimulation(c, Opened(s, stack), Skip(c, open.pos).pos, open.trace);
    } else {
      ArraySimulation(c, Opened(s, stack), Skip(c, open.pos).pos, open.trace);
    }
  }

  /** From a state that expects a value, the loop reads exactly the value the recursive form reads,
      whatever is on the stack, and goes on from there. */
  lemma {:induction false} ValueSimulation(c: Config, s: State, stack: seq<Cell>, p: nat, tr: seq<Event>)
    requires WellBehaved(c) && p <= |c.text| && Consistent(s, stack) && WantsValue(s) && StartsValue(c, p)
    ensures Consistent(AfterValue(s), stack)
    ensures Loop(c, s, stack, p, tr) == Then(c, Value(c, p, tr), AfterValue(s), stack)
    decreases |c.text| - p, 1
  {
    hide Loop, Value, Scalar, Then, Consistent, AfterValue;
    if c.text[p] == '{' || c.text[p] == '[' {
      ContainerSimulation(c, s, stack, p, tr);
    } else {
      StepScalar(c, s, stack, p, tr);
      ScalarIsValue(c, p, tr);
    }
  }

  lemma OpenedLength(s: State, stack: seq<Cell>)
    ensures |Opened(s, stack)| == |stack| + 2 && Opened(s, stack)[|stack| + 1] == Count(0)
    ensures Opened(s, stack)[|stack|].Saved?
  {
  }

  lemma {:induction false} ObjectSimulation(c: Config, stack: seq<Cell>, p: nat, tr: seq<Event>)
    requires WellBehaved(c) && p <= |c.text| && Consistent(ObjectInitial, stack) && stack[|stack| - 1].n == 0
    ensures Loop(c, ObjectInitial, stack, p, tr)
         == Then(c, if Peek(c.text, p) == '}' then Emit(c, p + 1, tr, EndObject(0)) else Members(c, p, tr, 0),
                 Popped(stack), stack[..|stack| - 2])
    decreases |c.text| - p, 4
  {
    if Peek(c.text, p) == '}' {
      StepClose(c, ObjectInitial, stack, p, tr);
    } else {
      MembersSimulation(c, ObjectInitial, stack, p, tr);
    }
  }

  lemma {:induction false} ArraySimulation(c: Config, stack: seq<Cell>, p: nat, tr: seq<Event>)
    requires WellBehaved(c) && p <= |c.text| && Consistent(ArrayInitial, stack) && stack[|stack| - 1].n == 0
    ensures Loop(c, ArrayInitial, stack, p, tr)
         == Then(c, if Peek(c.text, p) == ']' then Emit(c, p + 1, tr, EndArray(0)) else Elements(c, p, tr, 0),
                 Popped(stack), stack[..|stack| - 2])
    decreases |c.text| - p, 4
  {
    if Peek(c.text, p) == ']' {
      StepClose(c, ArrayInitial, stack, p, tr);
    } else {
      ElementsSimulation(c, ArrayInitial, stack, p, tr);
    }
  }

  /** One member: after it, the loop stands at the end of the member's value. */
  lemma {:induction false} MemberSimulation(c: Config, s: State, stack: seq<Cell>, p: nat, tr: seq<Event>)
    requires WellBehaved(c) && p <= |c.text| && Consistent(s, stack)
    requires s.ObjectInitial? || s.MemberDelimiter?
    requires Peek(c.text, p) == '}' ==> s.MemberDelimiter? && !c.trailingCommas
    ensures Loop(c, s, stack, p, tr) == Then(c, Member(c, p, tr), MemberValue, stack)
    decreases |c.text| - p, 2
  {
    hide Loop, Transit, Value, Skip, Scalar;
    StepKey(c, s, stack, p, tr);
    if Peek(c.text, p) != '"' { return; }
    var key := Scalar(c, p, tr, true);
    if key.Fail? { return; }
    var k := Skip(c, key.pos);
    if k.BadComment? { return; }
    StepColon(c, stack, k.pos, key.trace);
    if Peek(c.text, k.pos) != ':' { return; }
    var t := Skip(c, k.pos + 1);
    if t.BadComment? { return; }
    if StartsValue(c, t.pos) {
      ValueSimulation(c, KeyValueDelimiter, stack, t.pos, key.trace);
    } else {
      NoValue(c, KeyValueDelimiter, stack, t.pos, key.trace);
    }
  }

  /** A comma changes nothing in the enclosing containers. */
  lemma BumpedKeeps(s: State, stack: seq<Cell>)
    requires Consistent(s, stack) && (InObject(s) || InArray(s))
    ensures |stack| >= 2 && stack[|stack| - 1].Count? && stack[|stack| - 2].Saved?
    ensures var r := Bumped(stack);
      && |r| >= 2 && r[|r| - 1] == Count(stack[|stack| - 1].n + 1) && r[|r| - 2].Saved?
      && Popped(r) == Popped(stack) && r[..|r| - 2] == stack[..|stack| - 2]
  {
  }

  /** Between members, the count on the stack is the number of members already read. */
  lemma {:induction false} MembersSimulation(c: Config, s: State, stack: seq<Cell>, p: nat, tr: seq<Event>)
    requires WellBehaved(c) && p <= |c.text| && Consistent(s, stack)
    requires s.ObjectInitial? || s.MemberDelimiter?
    requires Peek(c.text, p) == '}' ==> s.MemberDelimiter? && !c.trailingCommas
    ensures Loop(c, s, stack, p, tr)
         == Then(c, Members(c, p, tr, stack[|stack| - 1].n), Popped(stack), stack[..|stack| - 2])
    decreases |c.text| - p, 3
  {
    hide Loop, Transit, Value, Skip, Member, Popped, Consistent, Bumped, Predict;
    BumpedKeeps(s, stack);
    SameLevelFits(s, MemberValue, stack);
    MemberSimulation(c, s, stack, p, tr);
    var v := Member(c, p, tr);
    if v.Fail? { return; }
    var u := Skip(c, v.pos);
    if u.BadComment? { return; }
    if Peek(c.text, u.pos) == '}' {
      StepClose(c, MemberValue, stack, u.pos, v.trace);
    } else if Peek(c.text, u.pos) == ',' {
      StepComma(c, MemberValue, stack, u.pos, v.trace);
      var w := Skip(c, u.pos + 1);
      if w.BadComment? { return; }
      if c.trailingCommas && Peek(c.text, w.pos) == '}' {
        StepClose(c, MemberDelimiter, Bumped(stack), w.pos, v.trace);
      } else {
        MembersSimulation(c, MemberDelimiter, Bumped(stack), w.pos, v.trace);
      }
    } else {
      StepStuck(c, MemberValue, stack, u.pos, v.trace);
    }
  }

  lemma StepStuck(c: Config, s: State, stack: seq<Cell>, p: nat, tr: seq<Event>)
    requires WellBehaved(c) && p <= |c.text| && Consistent(s, stack) && (s.MemberValue? || s.Element?)
    requires Peek(c.text, p) != ',' && Peek(c.text, p) != if s.MemberValue? then '}' else ']'
    ensures Loop(c, s, stack, p, tr) == Fail(tr, HandleError(s))
  {
  }

  /** One element: after it, the loop stands at the end of the element. */
  lemma {:induction false} ElementSimulation(c: Config, s: State, stack: seq<Cell>, p: nat, tr: seq<Event>)
    requires WellBehaved(c) && p <= |c.text| && Consistent(s, stack)
    requires s.ArrayInitial? || s.ElementDelimiter?
    requires Peek(c.text, p) == ']' ==> s.ElementDelimiter? && !c.trailingCommas
    ensures Consistent(Element, stack) && Loop(c, s, stack, p, tr) == Then(c, Value(c, p, tr), Element, stack)
    decreases |c.text| - p, 2
  {
    hide Loop, Transit, Value, Skip, Consistent;
    SameLevelFits(s, Element, stack);
    if StartsValue(c, p) {
      ValueSimulation(c, s, stack, p, tr);
    } else {
      NoValue(c, s, stack, p, tr);
    }
  }

  /** Between elements, the count on the stack is the number of elements already read. */
  lemma {:induction false} ElementsSimulation(c: Config, s: State, stack: seq<Cell>, p: nat, tr: seq<Event>)
    requires WellBehaved(c) && p <= |c.text| && Consistent(s, stack)
    requires s.ArrayInitial? || s.ElementDelimiter?
    requires Peek(c.text, p) == ']' ==> s.ElementDelimiter? && !c.trailingCommas
    ensures Loop(c, s, stack, p, tr)
         == Then(c, Elements(c, p, tr, stack[|stack| - 1].n), Popped(stack), stack[..|stack| - 2])
    decreases |c.text| - p, 3
  {
    hide Loop, Transit, Value, Skip, Popped, Consistent, Bumped, Predict, StartsValue, Punctuation, Emit, Members;
    BumpedKeeps(s, stack);
    SameLevelFits(s, Element, stack);
    ElementSimulation(c, s, stack, p, tr);
    var v := Value(c, p, tr);
    if v.Fail? { return; }
    var u := Skip(c, v.pos);
    if u.BadComment? { return; }
    if Peek(c.text, u.pos) == ']' {
      StepClose(c, Element, stack, u.pos, v.trace);
    } else if Peek(c.text, u.pos) == ',' {
      StepComma(c, Element, stack, u.pos, v.trace);
      var w := Skip(c, u.pos + 1);
      if w.BadComment? { return; }
      if c.trailingCommas && Peek(c.text, w.pos) == ']' {
        StepClose(c, ElementDelimiter, Bumped(stack), w.pos, v.trace);
      } else {
        ElementsSimulation(c, ElementDelimiter, Bumped(stack), w.pos, v.trace);
      }
    } else {
      StepStuck(c, Element, stack, u.pos, v.trace);
    }
  }

  /** Whether the first thing in the text that is not white space or a comment is a punctuation mark
      that cannot start a value. */
  predicate RootIsPunctuation(c: Config) {
    var s := Skip(c, 0);
    s.At? && Punctuation(Peek(c.text, s.pos))
  }

  /** For every text, flag set and handler the two forms of the reader deliver the same events, accept
      the same texts and stop at the same place; their error codes differ exactly on texts whose root
      would start with a closing bracket, a comma or a colon. */
  lemma {:induction false} IterativeEqualsRecursive(c: Config)
    requires WellBehaved(c)
    ensures Iterative(c).trace == Recursive(c).trace
    ensures Iterative(c).Done? <==> Recursive(c).Done?
    ensures Iterative(c).Done? ==> Iterative(c).pos == Recursive(c).pos
    ensures Iterative(c) == Recursive(c) <==> !RootIsPunctuation(c)
    ensures RootIsPunctuation(c) ==> Iterative(c) == Fail([], DocumentEmpty) && Recursive(c) == Fail([], ValueInvalid)
  {
    hide Loop, Transit, Value, Skip;
    var k := Skip(c, 0);
    if k.BadComment? { return; }
    if StartsValue(c, k.pos) {
      ValueSimulation(c, Start, [], k.pos, []);
      var v := Value(c, k.pos, []);
      if v.Done? {
        RootEnds(c, v.pos, v.trace);
      }
    } else {
      NoRoot(c, k.pos);
    }
  }

  lemma RootEnds(c: Config, p: nat, tr: seq<Event>)
    requires WellBehaved(c) && p <= |c.text|
    ensures Next(c, Finish, [], p, tr) == AfterRoot(c, Done(p, tr))
  {
  }

  lemma NoRoot(c: Config, p: nat)
    requires WellBehaved(c) && p <= |c.text| && !StartsValue(c, p)
    ensures Loop(c, Start, [], p, []) == Fail([], DocumentEmpty)
    ensures Value(c, p, []) == Fail([], ValueInvalid)
  {
  }
}
