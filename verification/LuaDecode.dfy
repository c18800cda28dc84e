/** Decoding a JSON text into a Lua table: the parser and its callback run together, character by character. */
module LuaDecode {
  import opened JsonParserTable
  import opened JsonParserStep
  import opened JsonGrammar
  import opened JsonParserTokens
  import opened JsonParserProof
  import opened LuaTables
  import opened LuaBuilding

  // ---- The callbacks of one character, whether or not it is refused after them

  function Pending(m: Machine): seq<ParseEvent> {
    ScalarEvents(m.scalar, PopChar(m).buffer)
  }

  function AttemptedBy(m: Machine, a: Action): seq<ParseEvent> {
    match a
    case ArrayEnd => Pending(m) + [ArrayStop]
    case ObjectEnd => Pending(m) + [ObjectStop]
    case EmptyObjectEnd => [ObjectStop]
    case ObjectBegin => [ObjectStart]
    case ArrayBegin => [ArrayStart]
    case Comma => Pending(m)
    case StringEnd =>
      if Top(m) == InKey then [KeyText(PopChar(m).buffer)] else if Top(m) == InDone then [] else Pending(m)
    case _ => []
  }

  function Attempted(m: Machine, ch: char): seq<ParseEvent> {
    match Classify(ch)
    case Illegal => []
    case Known(k) =>
      match AddChar(m, ch, k)
      case Rejected => []
      case Go(m1, _) =>
        match Next(m.state, k)
        case Act(a) => AttemptedBy(m1, a)
        case _ => []
  }

  lemma PerformDelivers(m: Machine, a: Action)
    ensures Perform(m, a).Go? ==> Perform(m, a).events == AttemptedBy(m, a)
  {
    hide ScalarEvents, DecodeUnicode;
  }

  lemma DeliversAttempted(m: Machine, ch: char)
    ensures Char(m, ch).Go? ==> Char(m, ch).events == Attempted(m, ch)
  {
    hide Perform, AttemptedBy, Next, Classify;
    if Classify(ch).Known? {
      var k := Classify(ch).kind;
      if AddChar(m, ch, k).Go? && Next(m.state, k).Act? {
        PerformDelivers(AddChar(m, ch, k).m, Next(m.state, k).action);
      }
    }
  }

  // ---- The run

  datatype Outcome = Success(b: Builder) | Failure(lua: seq<LuaValue>) | UndefinedRun

  /** The loop stops at the first byte that is not positive as a signed character. */
  predicate Stops(ch: char) {
    ch as int == 0 || ch as int >= 128
  }

  function DecodeFrom(m: Machine, b: Builder, s: string, f: FunctionReader): Outcome
    decreases |s|
  {
    if s == "" || Stops(s[0]) then if Finished(m) then Success(b) else Failure(b.lua)
    else match BuildAll(b, Attempted(m, s[0]), f)
      case Undefined => UndefinedRun
      case Turned => Failure(b.lua)
      case Built(b1) =>
        match Char(m, s[0])
        case Rejected => Failure(b1.lua)
        case Go(m1, _) => DecodeFrom(m1, b1, s[1..], f)
  }

  function Decode(lua: seq<LuaValue>, s: string, f: FunctionReader): Outcome {
    DecodeFrom(Initial(-1), Fresh(lua), s, f)
  }

  function Positive(s: string): string {
    if s == "" || Stops(s[0]) then "" else [s[0]] + Positive(s[1..])
  }

  /** A run of the parser alone that accepts delivers to the builder all its events in turn. */
  lemma {:induction false} DecodeAccepted(m: Machine, b: Builder, s: string, f: FunctionReader)
    ensures match RunFrom(m, Positive(s))
      case Accepted(evs) =>
        DecodeFrom(m, b, s, f).Success? || BuildAll(b, evs, f).Built? ==>
          BuildAll(b, evs, f).Built? && DecodeFrom(m, b, s, f) == Success(BuildAll(b, evs, f).b)
      case Refused => !DecodeFrom(m, b, s, f).Success?
    decreases |s|
  {
    hide Char, Attempted, Build;
    if s != "" && !Stops(s[0]) {
      DeliversAttempted(m, s[0]);
      assert Positive(s)[0] == s[0] && Positive(s)[1..] == Positive(s[1..]);
      match Char(m, s[0])
      case Rejected =>
      case Go(m1, evs) =>
        match RunFrom(m1, Positive(s[1..]))
        case Refused =>
          if BuildAll(b, evs, f).Built? { DecodeAccepted(m1, BuildAll(b, evs, f).b, s[1..], f); }
        case Accepted(more) =>
          BuildTwice(b, evs, more, f);
          if BuildAll(b, evs, f).Built? { DecodeAccepted(m1, BuildAll(b, evs, f).b, s[1..], f); }
    }
  }

  /** A legal text leaves one more value on the Lua stack, and the builder as it began; no other text succeeds. */
  lemma DecodeSucceedsExactlyOnLegalTexts(lua: seq<LuaValue>, s: string, f: FunctionReader)
    ensures match ParseText(Positive(s), -1)
      case Legal(t) => Decode(lua, s, f) == Success(Fresh(lua + [Exact(t, f)]))
      case NotLegal => !Decode(lua, s, f).Success?
  {
    hide RunFrom, ParseText, Value, Exact, BuildAll, DecodeFrom, TreeEvents;
    AcceptsExactlyTheGrammar(-1, Positive(s));
    DecodeAccepted(Initial(-1), Fresh(lua), s, f);
    match ParseText(Positive(s), -1)
    case NotLegal =>
    case Legal(t) =>
      LegalIsContainer(Positive(s));
      BuildTree(Fresh(lua), t, f);
  }

  lemma LegalIsContainer(s: string)
    ensures match ParseText(s, -1)
      case Legal(t) => t.ArrayTree? || t.ObjectTree?
      case NotLegal => true
  {
    hide SkipBlanks, Elements, Members;
  }

  // ---- What holds of the builder between characters

  /** The container on top is open with `keyed` saying whether a key waits in it, and every container around it
      waits for it under a key. */
  predicate Open(b: Builder, modes: seq<Mode>, keyed: bool, base: seq<LuaValue>)
    decreases |modes|
  {
    b.keyLevel >= 0 &&
    if modes == [] then b == Fresh(base).(index := b.index) else
    var ofArray := modes[|modes| - 1] == InArray;
    && b.place == (if ofArray then InsideArray else InsideTable)
    && b.places != [] && (ofArray ==> b.indexes != [])
    && Topped(b, ofArray, keyed)
    && Open(Around(b, ofArray, keyed), modes[..|modes| - 1], true, base)
  }

  predicate Topped(b: Builder, ofArray: bool, keyed: bool) {
    var n := |b.lua|;
    if keyed then
      n >= 2 && b.lua[n - 2].Table? && (if ofArray then b.lua[n - 1].Integer? else b.lua[n - 1].Text? && b.keyLevel > 0)
    else n >= 1 && b.lua[n - 1].Table?
  }

  /** The builder without the container on top. */
  function Around(b: Builder, ofArray: bool, keyed: bool): Builder
    requires Topped(b, ofArray, keyed) && b.places != [] && (ofArray ==> b.indexes != [])
  {
    var n := |b.lua|;
    Builder(b.lua[..if keyed then n - 2 else n - 1],
            if keyed && !ofArray then b.keyLevel - 1 else b.keyLevel,
            b.places[|b.places| - 1], b.places[..|b.places| - 1],
            if ofArray then b.indexes[|b.indexes| - 1] else b.index,
            if ofArray then b.indexes[..|b.indexes| - 1] else b.indexes)
  }

  /** Whether a key waits for its value in the innermost container. */
  predicate Keyed(m: Machine) {
    || (Top(m) == InKey && m.state.CO?)
    || (Top(m) == InObject && (m.state.VA? || !m.scalar.NoType?))
  }

  /** The builder while the parser has modes above the first one, before the root begins, and after it ended. */
  predicate Related(m: Machine, b: Builder, base: seq<LuaValue>)
    requires m.stack != []
  {
    if |m.stack| == 1 && m.state.OK? then base <= b.lua && |b.lua| == |base| + 1 && b == Fresh(b.lua).(index := b.index)
    else Open(b, m.stack[1..], Keyed(m), base)
  }

  /** A closing bracket that makes the builder take from an empty stack: a square one with no array open, or a
      curly one after the whole text. */
  predicate Underflow(m: Machine, ch: char) {
    && Classify(ch).Known?
    && var move := Next(m.state, Classify(ch).kind);
       || (move == Act(ArrayEnd) && InArray !in m.stack)
       || (move == Act(ObjectEnd) && |m.stack| == 1)
  }

  /** What an open container on top means, and no more. */
  lemma OpenTop(b: Builder, modes: seq<Mode>, keyed: bool, base: seq<LuaValue>)
    requires modes != []
    ensures var ofArray := modes[|modes| - 1] == InArray;
      Open(b, modes, keyed, base) <==>
        && b.keyLevel >= 0
        && b.place == (if ofArray then InsideArray else InsideTable)
        && b.places != [] && (ofArray ==> b.indexes != [])
        && Topped(b, ofArray, keyed)
        && Open(Around(b, ofArray, keyed), modes[..|modes| - 1], true, base)
  {
  }

  lemma OpenNothing(b: Builder, keyed: bool, base: seq<LuaValue>)
    ensures Open(b, [], keyed, base) <==> b == Fresh(base).(index := b.index)
  {
  }

  /** The index that counts only matters inside an array. */
  lemma {:induction false} OpenAnyIndex(b: Builder, modes: seq<Mode>, keyed: bool, base: seq<LuaValue>, index: int)
    requires Open(b, modes, keyed, base)
    ensures Open(b.(index := index), modes, keyed, base)
    decreases |modes|
  {
    if modes != [] {
      var ofArray := modes[|modes| - 1] == InArray;
      var b' := b.(index := index);
      assert Topped(b', ofArray, keyed);
      if !ofArray { OpenAnyIndex(Around(b, ofArray, keyed), modes[..|modes| - 1], true, base, index); }
      assert Around(b', ofArray, keyed) == if ofArray then Around(b, ofArray, keyed)
        else Around(b, ofArray, keyed).(index := index);
    }
  }

  lemma {:induction false} OpenKeepsBase(b: Builder, modes: seq<Mode>, keyed: bool, base: seq<LuaValue>)
    requires Open(b, modes, keyed, base)
    ensures base <= b.lua
    decreases |modes|
  {
    if modes != [] {
      OpenKeepsBase(Around(b, modes[|modes| - 1] == InArray, keyed), modes[..|modes| - 1], true, base);
    }
  }

  lemma {:induction false} ArraysAreSaved(b: Builder, modes: seq<Mode>, keyed: bool, base: seq<LuaValue>)
    requires Open(b, modes, keyed, base)
    ensures b.indexes != [] <==> InArray in modes
    decreases |modes|
  {
    if modes != [] {
      var rest := modes[..|modes| - 1];
      assert modes == rest + [modes[|modes| - 1]];
      ArraysAreSaved(Around(b, modes[|modes| - 1] == InArray, keyed), rest, true, base);
    }
  }

  /** Key mode and object mode are alike to the builder. */
  lemma OpenFlip(b: Builder, below: seq<Mode>, mode: Mode, other: Mode, keyed: bool, base: seq<LuaValue>)
    requires Open(b, below + [mode], keyed, base) && (mode == InArray <==> other == InArray)
    ensures Open(b, below + [other], keyed, base)
  {
    assert (below + [mode])[..|below|] == below && (below + [other])[..|below|] == below;
  }

  /** A container that can take a value has it stored, with no key left to wait. */
  lemma ScalarKeepsOpen(b: Builder, v: LuaValue, modes: seq<Mode>, base: seq<LuaValue>)
    requires modes != [] && Open(b, modes, modes[|modes| - 1] != InArray, base)
    ensures Scalar(b, v).Built? && Open(Scalar(b, v).b, modes, false, base)
  {
    hide Store;
    var ofArray := modes[|modes| - 1] == InArray;
    ScalarTakes(b, v);
    var b1 := Taken(b, v, false);
    if ofArray {
      assert b1.lua[..|b1.lua| - 1] == b.lua[..|b.lua| - 1];
      assert Around(b1, true, false) == Around(b, true, false);
    } else {
      assert b1.lua[..|b1.lua| - 1] == b.lua[..|b.lua| - 2];
      assert Around(b1, false, false) == Around(b, false, true);
    }
  }

  lemma KeyKeepsOpen(b: Builder, name: string, modes: seq<Mode>, base: seq<LuaValue>)
    requires modes != [] && modes[|modes| - 1] != InArray && Open(b, modes, false, base)
    ensures Open(PushValue(b, Text(name)).(keyLevel := b.keyLevel + 1), modes, true, base)
  {
    var b1 := PushValue(b, Text(name)).(keyLevel := b.keyLevel + 1);
    assert b1.lua[..|b1.lua| - 2] == b.lua[..|b.lua| - 1];
    assert Around(b1, false, true) == Around(b, false, false);
  }

  /** A container can begin where a value can be taken, and at the start. */
  predicate MayBegin(modes: seq<Mode>, keyed: bool) {
    modes == [] || keyed == (modes[|modes| - 1] != InArray)
  }

  lemma PushIndexKeepsOpen(b: Builder, modes: seq<Mode>, keyed: bool, base: seq<LuaValue>)
    requires Open(b, modes, keyed, base) && MayBegin(modes, keyed)
    ensures Open(PushIndex(b), modes, true, base)
  {
    if modes != [] && modes[|modes| - 1] == InArray {
      var b1 := PushIndex(b);
      assert b1.lua[..|b1.lua| - 2] == b.lua[..|b.lua| - 1];
      assert Around(b1, true, true) == Around(b, true, false);
    }
  }

  lemma BeginKeepsOpen(b: Builder, modes: seq<Mode>, keyed: bool, base: seq<LuaValue>)
    requires Open(b, modes, keyed, base) && MayBegin(modes, keyed)
    ensures Open(BeginArray(b), modes + [InArray], false, base)
    ensures Open(BeginObject(b), modes + [InKey], false, base)
  {
    hide PushIndex, Open;
    PushIndexKeepsOpen(b, modes, keyed, base);
    KeepsPlaces(b);
    var b0 := PushIndex(b);
    assert (modes + [InArray])[..|modes|] == modes && (modes + [InKey])[..|modes|] == modes;
    var b1, b2 := BeginArray(b), BeginObject(b);
    assert b1.lua[..|b1.lua| - 1] == b0.lua && b2.lua[..|b2.lua| - 1] == b0.lua;
    assert Around(b1, true, false) == b0.(index := SignedChar(b0.index));
    OpenAnyIndex(b0, modes, true, base, SignedChar(b0.index));
    assert Around(b2, false, false) == b0;
    OpenLevel(b0, modes, true, base);
    OpenTop(b1, modes + [InArray], false, base);
    OpenTop(b2, modes + [InKey], false, base);
  }

  lemma OpenLevel(b: Builder, modes: seq<Mode>, keyed: bool, base: seq<LuaValue>)
    requires Open(b, modes, keyed, base)
    ensures b.keyLevel >= 0
  {
  }

  /** The end of the innermost container stores it in the one around it; an index may have been restored that is
      not its own. */
  lemma StopStores(b: Builder, modes: seq<Mode>, base: seq<LuaValue>, index: int, indexes: seq<int>)
    requires modes != [] && Open(b, modes, false, base)
    ensures var r := Store(PopPlace(b).(index := index, indexes := indexes));
      && r.Built? && base <= r.b.lua
      && (indexes == (if modes[|modes| - 1] == InArray then b.indexes[..|b.indexes| - 1] else b.indexes) ==>
          Open(r.b, modes[..|modes| - 1], false, base) || |modes| == 1)
      && (|modes| == 1 ==> r.b == Fresh(base + [b.lua[|b.lua| - 1]]).(index := index, indexes := indexes))
  {
    hide Open;
    var ofArray := modes[|modes| - 1] == InArray;
    var rest := modes[..|modes| - 1];
    OpenTop(b, modes, false, base);
    var outer := Around(b, ofArray, false);
    var b0 := PopPlace(b).(index := index, indexes := indexes);
    assert b0 == PushValue(outer, b.lua[|b.lua| - 1]).(index := index, indexes := indexes);
    if rest == [] {
      OpenNothing(outer, true, base);
      OpenNothing(b0, false, base + [b.lua[|b.lua| - 1]]);
    } else {
      OpenTop(outer, rest, true, base);
      StoreInOuter(outer, rest, b.lua[|b.lua| - 1], base, index, indexes);
    }
  }

  /** What storing in a container whose key waits makes of it. */
  function Stored(outer: Builder, inArray: bool, v: LuaValue): Builder
    requires Topped(outer, inArray, true)
  {
    var n := |outer.lua|;
    outer.(lua := outer.lua[..n - 2] + [Table(Set(outer.lua[n - 2].fields, KeyOf(outer.lua[n - 1]), v))],
           keyLevel := if inArray then outer.keyLevel else outer.keyLevel - 1)
  }

  lemma StoreIsStored(outer: Builder, inArray: bool, v: LuaValue, index: int, indexes: seq<int>)
    requires Topped(outer, inArray, true) && outer.place == (if inArray then InsideArray else InsideTable)
    ensures Store(PushValue(outer, v).(index := index, indexes := indexes))
         == Built(Stored(outer, inArray, v).(index := index, indexes := indexes))
  {
    var b0 := PushValue(outer, v).(index := index, indexes := indexes);
    assert b0.lua[..|b0.lua| - 3] == outer.lua[..|outer.lua| - 2];
  }

  /** The container that took the value has no key left to wait in it. */
  lemma StoredIsOpen(outer: Builder, rest: seq<Mode>, v: LuaValue, base: seq<LuaValue>, index: int)
    requires rest != [] && Open(outer, rest, true, base)
    ensures base <= Stored(outer, rest[|rest| - 1] == InArray, v).lua
    ensures Open(Stored(outer, rest[|rest| - 1] == InArray, v).(index := index), rest, false, base)
  {
    hide Open, Set, KeyOf;
    var inArray := rest[|rest| - 1] == InArray;
    OpenTop(outer, rest, true, base);
    var around := Around(outer, inArray, true);
    OpenKeepsBase(around, rest[..|rest| - 1], true, base);
    var r := Stored(outer, inArray, v).(index := index);
    assert r.lua == around.lua + [r.lua[|r.lua| - 1]];
    assert r.lua[..|r.lua| - 1] == around.lua;
    var i := if inArray then around.index else index;
    assert Around(r, inArray, false) == around.(index := i);
    OpenAnyIndex(around, rest[..|rest| - 1], true, base, i);
    OpenLevel(around, rest[..|rest| - 1], true, base);
    OpenTop(r, rest, false, base);
  }

  lemma StoreInOuter(outer: Builder, rest: seq<Mode>, v: LuaValue, base: seq<LuaValue>, index: int, indexes: seq<int>)
    requires rest != [] && Open(outer, rest, true, base)
    ensures var r := Store(PushValue(outer, v).(index := index, indexes := indexes));
      && r.Built? && base <= r.b.lua
      && (indexes == outer.indexes ==> Open(r.b, rest, false, base))
  {
    hide Open, Store, PushValue, Stored;
    OpenTop(outer, rest, true, base);
    StoredIsOpen(outer, rest, v, base, index);
    StoreIsStored(outer, rest[|rest| - 1] == InArray, v, index, indexes);
    StoredIndexes(outer, rest[|rest| - 1] == InArray, v);
  }

  lemma StoredIndexes(outer: Builder, inArray: bool, v: LuaValue)
    requires Topped(outer, inArray, true)
    ensures Stored(outer, inArray, v).indexes == outer.indexes
  {
  }

  // ---- One character

  /** What the builder must do with the callbacks of one character. */
  predicate Handles(m: Machine, b: Builder, evs: seq<ParseEvent>, next: Step, underflow: bool, f: FunctionReader,
      base: seq<LuaValue>) {
    match BuildAll(b, evs, f)
    case Undefined => underflow
    case Turned => false
    case Built(b1) => !underflow && base <= b1.lua && (next.Go? ==> next.m.stack != [] && Related(next.m, b1, base))
  }

  lemma RelatedKeepsBase(m: Machine, b: Builder, base: seq<LuaValue>)
    requires m.stack != [] && Related(m, b, base)
    ensures base <= b.lua
  {
    if !(|m.stack| == 1 && m.state.OK?) { OpenKeepsBase(b, m.stack[1..], Keyed(m), base); }
  }

  /** No callback: the container on top and its waiting key stay as they are. */
  predicate Quiet(m: Machine, m1: Machine) {
    && m.stack != [] && m1.stack != [] && Keyed(m1) == Keyed(m)
    && ((|m.stack| == 1 && m.state.OK?) <==> (|m1.stack| == 1 && m1.state.OK?))
    && (m1.stack == m.stack
        || (|m.stack| > 1 && Top(m) == InKey && m1.stack == m.stack[..|m.stack| - 1] + [InObject]))
  }

  lemma QuietHandles(m: Machine, b: Builder, next: Step, f: FunctionReader, base: seq<LuaValue>)
    requires m.stack != [] && Related(m, b, base) && (next.Go? ==> Quiet(m, next.m))
    ensures Handles(m, b, [], next, false, f, base)
  {
    hide Open;
    RelatedKeepsBase(m, b, base);
    if next.Go? && next.m.stack != m.stack {
      var below := m.stack[1..|m.stack| - 1];
      assert m.stack[1..] == below + [InKey] && next.m.stack[1..] == below + [InObject];
      OpenFlip(b, below, InKey, InObject, Keyed(m), base);
    }
  }

  predicate QuietAction(a: Action) {
    !(a.ArrayEnd? || a.ObjectEnd? || a.EmptyObjectEnd? || a.ObjectBegin? || a.ArrayBegin? || a.Comma? || a.StringEnd?)
  }

  /** The machine once the character has been buffered. */
  predicate Buffered(m: Machine, m1: Machine) {
    m1 == m.(escaped := false, buffer := m1.buffer)
  }

  lemma AddCharBuffers(m: Machine, ch: char, k: Kind)
    ensures AddChar(m, ch, k).Go? ==> Buffered(m, AddChar(m, ch, k).m)
  {
    hide Escaped;
  }

  lemma InsideStates(m: Machine)
    requires Invariant(m) && (NumberState(m.state) || WordState(m.state))
    ensures |m.stack| > 1
  {
  }

  lemma QuietMoves(m: Machine, k: Kind, s: State)
    requires Invariant(m) && Next(m.state, k) == To(s)
    ensures (Top(m) == InKey && m.state.CO? <==> Top(m) == InKey && s.CO?)
    ensures Top(m) == InObject && m.scalar.NoType? ==> (m.state.VA? <==> s.VA?)
    ensures |m.stack| == 1 ==> (m.state.OK? <==> s.OK?)
  {
    hide Next, Invariant;
    ToMoves(m.state, k, s);
    if NumberState(m.state) || WordState(m.state) { InsideStates(m); }
  }

  lemma QuietActions(m: Machine, k: Kind, m1: Machine, a: Action)
    requires Invariant(m) && Next(m.state, k) == Act(a) && QuietAction(a) && Buffered(m, m1)
    ensures Perform(m1, a).Go? ==> Quiet(m, Perform(m1, a).m)
  {
    hide ScalarEvents, CloseContainer, OpenContainer, Next, DecodeUnicode;
    QuietStates(m.state, k, a);
    if a.UnicodeRead? { DecodeKeeps(m1); }
  }

  lemma DecodeKeeps(m: Machine)
    ensures DecodeUnicode(m).Go? ==> DecodeUnicode(m).m.stack == m.stack && DecodeUnicode(m).m.scalar == m.scalar
  {
    hide CodeUnit, Encode;
  }

  lemma QuietStep(m: Machine, k: Kind, m1: Machine)
    requires Invariant(m) && Buffered(m, m1) && (Next(m.state, k).Act? ==> QuietAction(Next(m.state, k).action))
    ensures JsonParserStep.Move(m1, Next(m.state, k)).Go? ==> Quiet(m, JsonParserStep.Move(m1, Next(m.state, k)).m)
  {
    hide Perform, Next;
    match Next(m.state, k)
    case To(s) => QuietMoves(m, k, s);
    case Act(a) => QuietActions(m, k, m1, a);
    case Bad =>
  }

  lemma {:induction false} ScalarIsOne(m: Machine, b: Builder, f: FunctionReader) returns (v: LuaValue)
    ensures !m.scalar.NoType? ==> BuildAll(b, ScalarEvents(m.scalar, m.buffer), f) == Scalar(b, v)
  {
    hide Scalar, BuildAll;
    v := Nil;
    if !m.scalar.NoType? {
      var ev := ScalarEvents(m.scalar, m.buffer)[0];
      BuildOne(b, ev, f);
      v := match ev
        case IntegerText(text) => Integer(ReadInteger(text))
        case FloatText(text) => Number(text)
        case StringText(s) => StringValue(s, f)
        case TrueEvent => Boolean(true)
        case FalseEvent => Boolean(false)
        case _ => Nil;
    }
  }

  predicate InEnd(m: Machine) {
    Invariant(m) && |m.stack| > 1 && (m.state.OK? || m.state.AR? || NumberState(m.state))
  }

  /** The scalar under way, if any, goes where its key waits. */
  lemma PendingKeepsOpen(m: Machine, m1: Machine, b: Builder, f: FunctionReader, base: seq<LuaValue>)
    returns (b1: Builder)
    requires InEnd(m) && Buffered(m, m1) && Open(b, m.stack[1..], Keyed(m), base)
    ensures BuildAll(b, Pending(m1), f) == Built(b1) && Open(b1, m.stack[1..], false, base)
  {
    hide Open, Scalar, BuildAll;
    var modes := m.stack[1..];
    assert modes[|modes| - 1] == Top(m);
    assert m.scalar == m1.scalar;
    if m.scalar.NoType? {
      b1 := b;
      NothingBuilt(b, f);
    } else {
      var v := ScalarIsOne(PopChar(m1), b, f);
      ScalarKeepsOpen(b, v, modes, base);
      b1 := Scalar(b, v).b;
    }
  }

  lemma OpenFacts(b: Builder, modes: seq<Mode>, keyed: bool, base: seq<LuaValue>)
    requires modes != [] && Open(b, modes, keyed, base)
    ensures b.places != []
    ensures |modes| == 1 ==> (if modes[0] == InArray then b.indexes[..|b.indexes| - 1] == [] else b.indexes == [])
  {
    hide Open;
    OpenTop(b, modes, keyed, base);
    if |modes| == 1 { OpenNothing(Around(b, modes[0] == InArray, keyed), true, base); }
  }

  /** The end of a container, matched with its beginning or not. */
  lemma StopHandles(m: Machine, b: Builder, arrayStop: bool, next: Step, f: FunctionReader, base: seq<LuaValue>)
    requires |m.stack| > 1 && m.stack[0] == InDone && Open(b, m.stack[1..], false, base)
    requires next.Go? ==>
      && (arrayStop <==> Top(m) == InArray) && next.m.stack == m.stack[..|m.stack| - 1]
      && next.m.state.OK? && next.m.scalar.NoType?
    ensures Handles(m, b, [if arrayStop then ArrayStop else ObjectStop], next,
                    arrayStop && InArray !in m.stack, f, base)
  {
    hide Open, Store, BuildAll;
    var modes := m.stack[1..];
    assert m.stack == [InDone] + modes;
    var ev := if arrayStop then ArrayStop else ObjectStop;
    BuildOne(b, ev, f);
    OpenFacts(b, modes, false, base);
    ArraysAreSaved(b, modes, false, base);
    if arrayStop && b.indexes == [] { return; }
    var index := if arrayStop then b.indexes[|b.indexes| - 1] else b.index;
    var indexes := if arrayStop then b.indexes[..|b.indexes| - 1] else b.indexes;
    StopStores(b, modes, base, index, indexes);
    if next.Go? {
      assert next.m.stack[1..] == modes[..|modes| - 1];
      assert !Keyed(next.m);
    }
  }

  lemma TwoPhases(m: Machine, b: Builder, evs: seq<ParseEvent>, more: seq<ParseEvent>, b1: Builder, next: Step,
                  underflow: bool, f: FunctionReader, base: seq<LuaValue>)
    requires BuildAll(b, evs, f) == Built(b1) && Handles(m, b1, more, next, underflow, f, base)
    ensures Handles(m, b, evs + more, next, underflow, f, base)
  {
    hide BuildAll, Related;
    BuildTwice(b, evs, more, f);
  }

  lemma ClosesTo(m: Machine, m1: Machine, mode: Mode)
    requires m1.stack == m.stack
    ensures CloseContainer(m1, mode).Go? ==>
      && Top(m) == mode && m.stack != [] && CloseContainer(m1, mode).m.stack == m.stack[..|m.stack| - 1]
      && CloseContainer(m1, mode).m.state.OK? && CloseContainer(m1, mode).m.scalar.NoType?
  {
    hide ScalarEvents;
  }

  lemma CloseHandles(m: Machine, m1: Machine, b: Builder, arrayStop: bool, f: FunctionReader, base: seq<LuaValue>)
    requires Invariant(m) && Related(m, b, base) && Buffered(m, m1)
    requires m.state.OK? || NumberState(m.state) || (m.state.AR? && arrayStop)
    ensures Handles(m, b, Pending(m1) + [if arrayStop then ArrayStop else ObjectStop],
                    CloseContainer(m1, if arrayStop then InArray else InObject),
                    if arrayStop then InArray !in m.stack else |m.stack| == 1, f, base)
  {
    hide Open, BuildAll, CloseContainer, Store;
    var mode := if arrayStop then InArray else InObject;
    var evs := [if arrayStop then ArrayStop else ObjectStop];
    ClosesTo(m, m1, mode);
    if |m.stack| == 1 {
      assert Pending(m1) == [];
      assert [] + evs == evs;
      BuildOne(b, evs[0], f);
    } else {
      var b1 := PendingKeepsOpen(m, m1, b, f, base);
      StopHandles(m, b1, arrayStop, CloseContainer(m1, mode), f, base);
      TwoPhases(m, b, Pending(m1), evs, b1, CloseContainer(m1, mode), arrayStop && InArray !in m.stack, f, base);
    }
  }

  /** What a comma leaves when a scalar before it has been taken. */
  lemma CommaStack(m: Machine, m1: Machine)
    requires Buffered(m, m1) && m.stack != []
    ensures var r := Perform(m1, Comma);
      r.Go? ==>
        && |m.stack| > 0 && !Keyed(r.m) && !r.m.state.OK?
        && (r.m.stack == m.stack || (Top(m) == InObject && r.m.stack == m.stack[..|m.stack| - 1] + [InKey]))
    ensures Top(m) == InDone ==> Perform(m1, Comma).Rejected?
  {
    hide CloseContainer, OpenContainer, DecodeUnicode, ScalarEvents;
  }

  lemma CommaHandles(m: Machine, m1: Machine, b: Builder, f: FunctionReader, base: seq<LuaValue>)
    requires Invariant(m) && Related(m, b, base) && Buffered(m, m1) && (m.state.OK? || NumberState(m.state))
    ensures Handles(m, b, Pending(m1), Perform(m1, Comma), false, f, base)
  {
    hide Open, BuildAll, Perform, ScalarEvents;
    CommaStack(m, m1);
    if |m.stack| == 1 {
      assert Pending(m1) == [] by { NothingPending(PopChar(m1).buffer); }
      NothingBuilt(b, f);
    } else {
      var b1 := PendingKeepsOpen(m, m1, b, f, base);
      OpenKeepsBase(b1, m.stack[1..], false, base);
      if Top(m) == InObject {
        var below := m.stack[1..|m.stack| - 1];
        assert m.stack[1..] == below + [InObject] && (m.stack[..|m.stack| - 1] + [InKey])[1..] == below + [InKey];
        OpenFlip(b1, below, InObject, InKey, false, base);
      }
    }
  }

  lemma NothingPending(buffer: string)
    ensures ScalarEvents(NoType, buffer) == []
  {
  }

  /** Where a container may begin. */
  lemma InFront(m: Machine)
    requires Invariant(m) && (m.state.GO? || m.state.VA? || m.state.AR?)
    ensures m.stack != [] && MayBegin(m.stack[1..], Keyed(m))
    ensures m.scalar.NoType?
  {
    hide HighSurrogate, EscapeBuffered, EndsWith;
  }

  /** What an opening bracket makes of the modes. */
  lemma ContainerOpens(m: Machine, mode: Mode)
    requires m.stack != [] && (mode == InArray || mode == InKey) && m.scalar.NoType?
    ensures var r := OpenContainer(m, mode);
      r.Go? ==> r.m.stack == m.stack + [mode] && !r.m.state.OK? && !Keyed(r.m)
  {
  }

  lemma BeginHandles(m: Machine, m1: Machine, b: Builder, ofArray: bool, f: FunctionReader, base: seq<LuaValue>)
    requires Invariant(m) && Related(m, b, base) && Buffered(m, m1) && (m.state.GO? || m.state.VA? || m.state.AR?)
    ensures Handles(m, b, [if ofArray then ArrayStart else ObjectStart],
                    OpenContainer(m1, if ofArray then InArray else InKey), false, f, base)
  {
    hide Invariant, Open, BuildAll, BeginArray, BeginObject, MayBegin, OpenContainer, Keyed;
    InFront(m);
    var mode := if ofArray then InArray else InKey;
    ContainerOpens(m1, mode);
    BuildOne(b, if ofArray then ArrayStart else ObjectStart, f);
    var modes := m.stack[1..];
    BeginKeepsOpen(b, modes, Keyed(m), base);
    var b1 := if ofArray then BeginArray(b) else BeginObject(b);
    OpenKeepsBase(b1, modes + [mode], false, base);
    assert (m.stack + [mode])[1..] == modes + [mode];
  }

  /** What a closing quote does to a machine in a string. */
  lemma StringEndStep(m: Machine)
    requires m.scalar.StringType? && m.stack != []
    ensures var m1 := PopChar(m);
      var text := m1.buffer;
      match m.stack[|m.stack| - 1]
      case InKey =>
        && Perform(m, StringEnd) == Go(m1.(scalar := NoType, state := CO, buffer := ""), [KeyText(text)])
        && AttemptedBy(m, StringEnd) == [KeyText(text)]
      case InDone => Perform(m, StringEnd) == Rejected && AttemptedBy(m, StringEnd) == []
      case _ =>
        && Perform(m, StringEnd) == Go(m1.(scalar := NoType, state := OK, buffer := ""), ScalarEvents(StringType, text))
        && AttemptedBy(m, StringEnd) == ScalarEvents(StringType, text)
    ensures PopChar(m).stack == m.stack && PopChar(m).scalar == m.scalar
  {
    hide CloseContainer, OpenContainer, DecodeUnicode;
  }

  lemma InString(m: Machine)
    requires Invariant(m) && m.state.ST?
    ensures |m.stack| > 1 && m.scalar.StringType? && (Top(m) == InKey || Top(m) == InObject || Top(m) == InArray)
  {
  }

  lemma StringEndHandles(m: Machine, m1: Machine, b: Builder, f: FunctionReader, base: seq<LuaValue>)
    requires Invariant(m) && Related(m, b, base) && Buffered(m, m1) && m.state.ST?
    ensures Handles(m, b, AttemptedBy(m1, StringEnd), Perform(m1, StringEnd), false, f, base)
  {
    hide Invariant, Open, BuildAll, Perform, AttemptedBy, PopChar, Scalar;
    InString(m);
    StringEndStep(m1);
    var modes := m.stack[1..];
    var text := PopChar(m1).buffer;
    assert modes[|modes| - 1] == Top(m);
    if Top(m) == InKey {
      BuildOne(b, KeyText(text), f);
      KeyKeepsOpen(b, text, modes, base);
      OpenKeepsBase(PushValue(b, Text(text)).(keyLevel := b.keyLevel + 1), modes, true, base);
    } else {
      BuildOne(b, StringText(text), f);
      ScalarKeepsOpen(b, StringValue(text, f), modes, base);
      OpenKeepsBase(Scalar(b, StringValue(text, f)).b, modes, false, base);
    }
  }

  lemma EmptyObjectHandles(m: Machine, m1: Machine, b: Builder, f: FunctionReader, base: seq<LuaValue>)
    requires Invariant(m) && Related(m, b, base) && Buffered(m, m1) && m.state.OB?
    ensures Handles(m, b, [ObjectStop], Perform(m1, EmptyObjectEnd), false, f, base)
  {
    hide Open, BuildAll, CloseContainer, OpenContainer, DecodeUnicode;
    StopHandles(m, b, false, Perform(m1, EmptyObjectEnd), f, base);
  }

  lemma LoudHandles(m: Machine, b: Builder, ch: char, k: Kind, m1: Machine, a: Action, f: FunctionReader,
      base: seq<LuaValue>)
    requires Invariant(m) && Related(m, b, base) && Buffered(m, m1) && Next(m.state, k) == Act(a) && !QuietAction(a)
    ensures Handles(m, b, AttemptedBy(m1, a), Perform(m1, a),
      (a.ArrayEnd? && InArray !in m.stack) || (a.ObjectEnd? && |m.stack| == 1), f, base)
  {
    hide Handles, Perform, Next, Invariant, Related, Pending, CloseContainer, OpenContainer, PopChar;
    ActionStates(m.state, k, a);
    OpensBy(m1);
    ClosesBy(m1);
    match a
    case ArrayEnd => CloseHandles(m, m1, b, true, f, base);
    case ObjectEnd => CloseHandles(m, m1, b, false, f, base);
    case EmptyObjectEnd => EmptyObjectHandles(m, m1, b, f, base);
    case ObjectBegin => BeginHandles(m, m1, b, false, f, base);
    case ArrayBegin => BeginHandles(m, m1, b, true, f, base);
    case Comma => CommaHandles(m, m1, b, f, base);
    case StringEnd => StringEndHandles(m, m1, b, f, base);
  }

  /** The callbacks of one character never find a value without a key; they underflow exactly at a closing bracket
      with nothing to close; otherwise the builder stays in step with the parser. */
  lemma CharHandles(m: Machine, b: Builder, ch: char, f: FunctionReader, base: seq<LuaValue>)
    requires Invariant(m) && Related(m, b, base)
    ensures Handles(m, b, Attempted(m, ch), Char(m, ch), Underflow(m, ch), f, base)
  {
    hide Handles, Perform, Next, Classify, Invariant, Related, Escaped, AddChar, AttemptedBy;
    InvariantStack(m);
    if Classify(ch).Illegal? || AddChar(m, ch, Classify(ch).kind).Rejected? {
      NoUnderflow(m, ch);
      QuietHandles(m, b, Rejected, f, base);
      return;
    }
    var k := Classify(ch).kind;
    var m1 := AddChar(m, ch, k).m;
    AddCharBuffers(m, ch, k);
    if Next(m.state, k).Act? && !QuietAction(Next(m.state, k).action) {
      LoudHandles(m, b, ch, k, m1, Next(m.state, k).action, f, base);
    } else {
      if Next(m.state, k).Act? { QuietAttempts(m1, Next(m.state, k).action); }
      QuietStep(m, k, m1);
      QuietHandles(m, b, JsonParserStep.Move(m1, Next(m.state, k)), f, base);
    }
  }

  lemma QuietAttempts(m: Machine, a: Action)
    requires QuietAction(a)
    ensures AttemptedBy(m, a) == []
  {
  }

  lemma InvariantStack(m: Machine)
    requires Invariant(m)
    ensures m.stack != []
  {
  }

  lemma NoUnderflow(m: Machine, ch: char)
    requires Invariant(m) && (Classify(ch).Illegal? || AddChar(m, ch, Classify(ch).kind).Rejected?)
    ensures !Underflow(m, ch)
  {
    hide Escaped;
  }

  // ---- The whole run

  /** Whether the run comes to a closing bracket with nothing to close. */
  predicate Underflows(m: Machine, s: string)
    decreases |s|
  {
    && s != "" && !Stops(s[0])
    && (Underflow(m, s[0]) || (Char(m, s[0]).Go? && Underflows(Char(m, s[0]).m, s[1..])))
  }

  lemma {:induction false} DecodeFromOutcome(m: Machine, b: Builder, s: string, f: FunctionReader, base: seq<LuaValue>)
    requires Invariant(m) && Related(m, b, base)
    ensures DecodeFrom(m, b, s, f).UndefinedRun? <==> Underflows(m, s)
    ensures DecodeFrom(m, b, s, f).Failure? ==> base <= DecodeFrom(m, b, s, f).lua
    decreases |s|
  {
    hide Invariant, Related, Char, Attempted, BuildAll, Underflow, Finished;
    InvariantStack(m);
    RelatedKeepsBase(m, b, base);
    if s != "" && !Stops(s[0]) {
      CharHandles(m, b, s[0], f, base);
      CharKeepsInvariant(m, s[0]);
      match BuildAll(b, Attempted(m, s[0]), f)
      case Built(b1) =>
        if Char(m, s[0]).Go? { DecodeFromOutcome(Char(m, s[0]).m, b1, s[1..], f, base); }
        if Underflow(m, s[0]) { assert false; }
      case _ =>
    }
  }

  /** Decoding: a legal text leaves one more value; a run that is not defined comes to a closing bracket with
      nothing to close; any other text fails and leaves what was on the Lua stack before. */
  lemma DecodeOutcome(lua: seq<LuaValue>, s: string, f: FunctionReader)
    ensures match ParseText(Positive(s), -1)
      case Legal(t) => !Underflows(Initial(-1), s) && Decode(lua, s, f) == Success(Fresh(lua + [Exact(t, f)]))
      case NotLegal =>
        if Underflows(Initial(-1), s) then Decode(lua, s, f).UndefinedRun?
        else Decode(lua, s, f).Failure? && lua <= Decode(lua, s, f).lua
  {
    hide DecodeFrom, ParseText, Underflows, Exact;
    DecodeSucceedsExactlyOnLegalTexts(lua, s, f);
    InitialInvariant(-1);
    OpenNothing(Fresh(lua), false, lua);
    DecodeFromOutcome(Initial(-1), Fresh(lua), s, f, lua);
  }

  /** One closing bracket too many after a whole text is enough for a run that is not defined. */
  lemma OneBracketTooMany(lua: seq<LuaValue>, f: FunctionReader)
    ensures Decode(lua, "[]]", f).UndefinedRun?
  {
    hide ParseText, Exact, DecodeFrom, Char, Next, Classify;
    OpenStep(Initial(-1), '[');
    var m1 := Idle(-1, AR, [InDone] + [InArray]);
    EmptyArrayStep(m1);
    var m2 := Idle(-1, OK, [InDone]);
    assert m1.stack[..1] == [InDone];
    assert "[]]"[1..] == "]]" && "]]"[1..] == "]";
    BracketMove();
    assert Underflows(m2, "]");
    assert Underflows(m1, "]]");
    DecodeOutcome(lua, "[]]", f);
  }

  lemma BracketMove()
    ensures Classify(']').Known? && Next(OK, Classify(']').kind) == Act(ArrayEnd)
  {
  }
}
