/** The parser, its callback and the Lua stack as objects that change in place, each method proved against the
    functions of one character and of one callback. */
module JsonParserObjects {
  import opened JsonParserTable
  import opened JsonParserStep
  import opened JsonGrammar
  import opened LuaTables
  import opened LuaBuilding
  import opened LuaDecode
  import opened LuaUnderflow

  /** The stack of a Lua state. */
  class LuaState {
    var stack: seq<LuaValue>

    constructor ()
      ensures stack == []
    {
      stack := [];
    }

    method Push(v: LuaValue)
      modifies this
      ensures stack == old(stack) + [v]
    {
      stack := stack + [v];
    }

    /** `lua_settable(L, -3)`. */
    method SetTable()
      requires CanSetTable(stack)
      modifies this
      ensures var was := old(stack);
        stack == was[..|was| - 3] + [Table(Set(was[|was| - 3].fields, KeyOf(was[|was| - 2]), was[|was| - 1]))]
    {
      var n := |stack|;
      stack := stack[..n - 3] + [Table(Set(stack[n - 3].fields, KeyOf(stack[n - 2]), stack[n - 1]))];
    }

    method SetTop(top: nat)
      requires top <= |stack|
      modifies this
      ensures stack == old(stack)[..top]
    {
      stack := stack[..top];
    }
  }

  /** The context of the callback. */
  class Context {
    const L: LuaState
    const functions: FunctionReader
    var keyLevel: int
    var place: Place
    var places: seq<Place>
    var index: int
    var indexes: seq<int>

    constructor (L: LuaState, functions: FunctionReader)
      ensures this.L == L && this.functions == functions && View() == Fresh(L.stack)
    {
      this.L := L;
      this.functions := functions;
      keyLevel, place, places, index, indexes := 0, Nowhere, [], 1, [];
    }

    function View(): Builder
      reads this, L
    {
      Builder(L.stack, keyLevel, place, places, index, indexes)
    }

    method BeginContainer(inner: Place)
      requires inner == InsideArray || inner == InsideTable
      modifies this, L
      ensures View() == if inner == InsideArray then BeginArray(old(View())) else BeginObject(old(View()))
    {
      if place == InsideArray {
        L.Push(Integer(index));
        index := index + 1;
      }
      L.Push(Table(map[]));
      places := places + [place];
      place := inner;
      if inner == InsideArray {
        indexes := indexes + [SignedChar(index)];
        index := 1;
      }
    }

    /** What both ends of containers do once the place around them has been restored. */
    method StoreContainer() returns (ret: bool)
      requires !Store(View()).Undefined?
      modifies this, L
      ensures ret <==> Store(old(View())).Built?
      ensures ret ==> View() == Store(old(View())).b
    {
      ret := true;
      if place == InsideTable {
        if keyLevel > 0 {
          L.SetTable();
          keyLevel := keyLevel - 1;
        } else {
          ret := false;
        }
      } else if place == InsideArray {
        L.SetTable();
      }
    }

    method TakeScalar(v: LuaValue) returns (ret: bool)
      requires !Scalar(View(), v).Undefined?
      modifies this, L
      ensures ret <==> Scalar(old(View()), v).Built?
      ensures ret ==> View() == Scalar(old(View()), v).b
    {
      ret := true;
      if place == InsideTable {
        if keyLevel > 0 {
          L.Push(v);
          L.SetTable();
          keyLevel := keyLevel - 1;
        } else {
          ret := false;
        }
      } else if place == InsideArray {
        L.Push(Integer(index));
        index := index + 1;
        L.Push(v);
        L.SetTable();
      } else {
        ret := false;
      }
    }

    /** `_json_parser_cb`. */
    method Callback(ev: ParseEvent) returns (ret: bool)
      requires !Build(View(), ev, functions).Undefined?
      modifies this, L
      ensures ret <==> Build(old(View()), ev, functions).Built?
      ensures ret ==> View() == Build(old(View()), ev, functions).b
    {
      hide Scalar, Store;
      ret := true;
      match ev
      case ArrayStart => BeginContainer(InsideArray);
      case ArrayStop =>
        place, places := places[|places| - 1], places[..|places| - 1];
        index, indexes := indexes[|indexes| - 1], indexes[..|indexes| - 1];
        ret := StoreContainer();
      case ObjectStart => BeginContainer(InsideTable);
      case ObjectStop =>
        place, places := places[|places| - 1], places[..|places| - 1];
        ret := StoreContainer();
      case IntegerText(text) => ret := TakeScalar(Integer(ReadInteger(text)));
      case FloatText(text) => ret := TakeScalar(Number(text));
      case NullEvent => ret := TakeScalar(Nil);
      case TrueEvent => ret := TakeScalar(Boolean(true));
      case FalseEvent => ret := TakeScalar(Boolean(false));
      case StringText(s) => ret := TakeScalar(StringValue(s, functions));
      case KeyText(k) =>
        L.Push(Text(k));
        keyLevel := keyLevel + 1;
    }
  }

  const STACK_SIZE := 128
  const BUFFER_SIZE := 3500

  /** The answer of a call that makes callbacks: yes if none is turned down and the step is not refused; in any
      case the builder has had the callbacks. */
  predicate Answers(ok: bool, built: Built, step: Step, b: Builder) {
    && (ok <==> built.Built? && step.Go?)
    && (built.Built? ==> b == built.b)
  }

  // ---- Bits

  /** What a digit contributes at each of the four places of a code unit. */
  function Place16(j: nat): nat {
    match j
    case 0 => 0x1000
    case 1 => 0x100
    case 2 => 0x10
    case _ => 1
  }

  function FirstDigits(h: string, j: nat): nat
    requires |h| == 4 && j <= 4
  {
    if j == 0 then 0 else FirstDigits(h, j - 1) + HexValue(h[j - 1]) * Place16(j - 1)
  }

  lemma AllHexDigits(h: string)
    requires |h| == 4
    ensures FirstDigits(h, 4) == CodeUnit(h)
  {
    hide HexValue;
    assert FirstDigits(h, 2) == FirstDigits(h, 1) + HexValue(h[1]) * 0x100;
    assert FirstDigits(h, 3) == FirstDigits(h, 2) + HexValue(h[2]) * 0x10;
  }

  function Shifted(uc: nat, sextets: nat): nat {
    match sextets
    case 0 => uc
    case 1 => uc / 0x40
    case 2 => uc / 0x1000
    case _ => uc / 0x40000
  }

  function LeadBits(trail: nat): nat {
    match trail
    case 0 => 0
    case 1 => 0xC0
    case 2 => 0xE0
    case _ => 0xF0
  }

  lemma EncodedBytes(uc: nat, trail: nat, k: nat)
    requires k <= trail <= 3
    ensures |Encode(uc, trail)| == trail + 1
    ensures Encode(uc, trail)[trail - k]
         == if k == trail then ByteChar(LeadBits(trail) + Shifted(uc, trail))
           else ByteChar(0x80 + Shifted(uc, k) % 0x40)
  {
  }

  // ---- What the invariant gives the actions

  predicate TakesChar(a: Action) {
    !(a.UnicodeRead? || a.CommentBegin?)
  }

  /** What holds of the machine, the character buffered, when an action is performed. */
  lemma ActionFacts(m: Machine, ch: char, k: Kind, m1: Machine, a: Action)
    requires Invariant(m) && Classify(ch) == Known(k) && AddChar(m, ch, k).Go? && AddChar(m, ch, k).m == m1
    requires Next(m.state, k) == Act(a)
    ensures m1.stack == m.stack && m1.scalar == m.scalar && m1.state == m.state
    ensures TakesChar(a) ==> m1.buffer != ""
    ensures a.ObjectBegin? || a.ArrayBegin? || a.Colon? || a.StringBegin? || a.True? || a.False? || a.Null? ==>
      m.scalar.NoType?
    ensures a.StringEnd? ==> m.scalar.StringType?
    ensures a.Comma? || a.ArrayEnd? || a.ObjectEnd? ==> !m.scalar.StringType?
    ensures a.DoubleByExponent? || a.DoubleByFraction? ==> m.scalar.IntegerType?
    ensures a.DoubleByFraction? ==> m1.buffer[|m1.buffer| - 1] == '.'
  {
    hide Escaped;
    ActionStates(m.state, k, a);
    QuietStates(m.state, k, a);
    if a == DoubleByFraction { PointMove(m.state, k, ch); }
    NotBlankMove(m.state, k);
  }

  /** What a comma does to the modes and the state. */
  function AfterComma(m: Machine): Step {
    match Top(m)
    case InObject =>
      (match Flip(m, InObject, InKey)
       case Rejected => Rejected
       case Go(m1, _) => Go(m1.(scalar := NoType, state := KE), []))
    case InArray => Go(m.(scalar := NoType, state := VA), [])
    case _ => Rejected
  }

  /** What a closing bracket does to the modes and the state. */
  function AfterClose(m: Machine, mode: Mode): Step {
    match JsonParserStep.Pop(m, mode)
    case Rejected => Rejected
    case Go(m1, _) => Go(m1.(scalar := NoType, state := OK), [])
  }

  lemma CloseStep(m: Machine, mode: Mode)
    ensures var r := AfterClose(PopChar(m).(buffer := ""), mode);
      && (CloseContainer(m, mode).Go? <==> r.Go?)
      && (r.Go? ==> CloseContainer(m, mode).m == r.m)
  {
  }

  lemma CommaStep(m: Machine)
    ensures var r := AfterComma(PopChar(m).(buffer := ""));
      && (Perform(m, Comma).Go? <==> r.Go?)
      && (r.Go? ==> Perform(m, Comma).m == r.m)
  {
    hide ScalarEvents, CloseContainer, OpenContainer, DecodeUnicode;
  }

  lemma UnicodeFacts(m: Machine, ch: char, k: Kind, m1: Machine)
    requires Invariant(m) && Classify(ch) == Known(k) && AddChar(m, ch, k).Go? && AddChar(m, ch, k).m == m1
    requires Next(m.state, k) == Act(UnicodeRead)
    ensures |m1.buffer| >= 6 && forall i :: |m1.buffer| - 4 <= i < |m1.buffer| ==> HexChar(m1.buffer[i])
  {
    hide Escaped, Classify;
    QuietStates(m.state, k, UnicodeRead);
    HexClasses(ch, k);
  }

  class JsonParser {
    const depth: int
    const ctx: Context
    var state: State
    var scalar: ScalarType
    var escaped: bool
    var highSurrogate: nat
    var stack: array<Mode>
    var top: int
    var buffer: array<char>
    var count: nat

    ghost predicate Valid()
      reads this, stack, buffer
    {
      && depth != 0 && depth >= -1
      && 0 < stack.Length && -1 <= top < stack.Length && (depth >= 0 ==> stack.Length == depth)
      && count < buffer.Length && buffer[count] == '\0'
    }

    function View(): Machine
      requires -1 <= top < stack.Length && count <= buffer.Length
      reads this, stack, buffer
    {
      Machine(depth, state, scalar, escaped, highSurrogate, stack[..top + 1], buffer[..count])
    }

    twostate predicate OwnArrays()
      reads this
    {
      && (stack == old(stack) || fresh(stack))
      && (buffer == old(buffer) || fresh(buffer))
    }

    /** `new_JSON_parser`. */
    constructor (depth: int, ctx: Context)
      ensures Valid() && View() == Initial(depth) && this.ctx == ctx && fresh(stack) && fresh(buffer)
    {
      this.ctx := ctx;
      var d := if depth == 0 then 1 else if depth < 0 then -1 else depth;
      this.depth := d;
      state, scalar, escaped, highSurrogate := GO, NoType, false, 0;
      var modes := new Mode[if d > 0 then d else STACK_SIZE](_ => InDone);
      stack, top := modes, 0;
      var chars := new char[BUFFER_SIZE](_ => '\0');
      buffer, count := chars, 0;
      new;
      assert stack[..1] == [InDone];
      assert buffer[..0] == "";
    }

    // ---- The stack of modes

    method GrowStack()
      requires 0 < stack.Length
      modifies this
      ensures fresh(stack) && stack.Length == 2 * old(stack.Length) && stack[..old(stack.Length)] == old(stack[..])
      ensures unchanged(this`state, this`scalar, this`escaped, this`highSurrogate, this`top, this`buffer, this`count)
    {
      var was := stack;
      var bigger := new Mode[2 * was.Length](_ => InDone);
      forall i | 0 <= i < was.Length { bigger[i] := was[i]; }
      stack := bigger;
    }

    method Push(mode: Mode) returns (ok: bool)
      requires Valid()
      modifies this, stack
      ensures ok <==> JsonParserStep.Push(old(View()), mode).Go?
      ensures ok ==> Valid() && View() == JsonParserStep.Push(old(View()), mode).m
      ensures OwnArrays() && buffer == old(buffer) && scalar == old(scalar)
    {
      ghost var was := stack[..top + 1];
      top := top + 1;
      if depth < 0 {
        if top >= stack.Length { GrowStack(); }
      } else if top >= depth {
        return false;
      }
      assert stack[..top] == was;
      stack[top] := mode;
      assert stack[..top + 1] == was + [mode];
      ok := true;
    }

    method Pop(mode: Mode) returns (ok: bool)
      requires Valid()
      modifies this
      ensures ok <==> JsonParserStep.Pop(old(View()), mode).Go?
      ensures ok ==> Valid() && View() == JsonParserStep.Pop(old(View()), mode).m
      ensures stack == old(stack) && buffer == old(buffer) && scalar == old(scalar)
    {
      if top < 0 || stack[top] != mode { return false; }
      top := top - 1;
      assert stack[..top + 1] == old(stack[..top + 1])[..top + 1];
      ok := true;
    }

    /** One mode on top for another. */
    method FlipMode(from: Mode, to: Mode) returns (ok: bool)
      requires Valid()
      modifies this, stack
      ensures ok <==> Flip(old(View()), from, to).Go?
      ensures ok ==> Valid() && View() == Flip(old(View()), from, to).m
      ensures OwnArrays() && scalar == old(scalar)
    {
      ok := Pop(from);
      if ok { ok := Push(to); }
    }

    // ---- The parse buffer

    method GrowBuffer()
      requires 0 < buffer.Length && count <= buffer.Length
      modifies this
      ensures unchanged(this`state, this`scalar, this`escaped, this`highSurrogate, this`top, this`stack, this`count)
      ensures fresh(buffer) && buffer.Length == 2 * old(buffer.Length) && buffer[..count] == old(buffer[..count])
    {
      var was := buffer;
      var bigger := new char[2 * was.Length](_ => '\0');
      forall i | 0 <= i < count { bigger[i] := was[i]; }
      buffer := bigger;
    }

    method PushBack(c: char)
      requires Valid()
      modifies this, buffer
      ensures Valid() && View() == old(View()).(buffer := old(View()).buffer + [c])
      ensures OwnArrays() && stack == old(stack)
    {
      if count + 1 >= buffer.Length { GrowBuffer(); }
      buffer[count] := c;
      count := count + 1;
      buffer[count] := '\0';
      assert buffer[..count] == old(buffer[..count]) + [c];
    }

    method PopBack()
      requires Valid()
      requires count >= 1
      modifies this, buffer
      ensures Valid() && View() == PopChar(old(View()))
      ensures stack == old(stack) && buffer == old(buffer)
    {
      count := count - 1;
      buffer[count] := '\0';
      assert buffer[..count] == old(buffer[..count])[..count];
    }

    method ClearBuffer()
      requires Valid()
      modifies this, buffer
      ensures Valid() && View() == old(View()).(buffer := "")
      ensures stack == old(stack) && buffer == old(buffer)
    {
      count := 0;
      buffer[0] := '\0';
    }

    /** `parse_parse_buffer`: the scalar under way goes to the callback, as text or as the number it spells. */
    method ParseBuffer() returns (ok: bool)
      requires Valid() && !BuildAll(ctx.View(), ScalarEvents(scalar, View().buffer), ctx.functions).Undefined?
      modifies this, buffer, ctx, ctx.L
      ensures ok <==> BuildAll(old(ctx.View()), ScalarEvents(old(scalar), old(View()).buffer), ctx.functions).Built?
      ensures ok ==>
        ctx.View() == BuildAll(old(ctx.View()), ScalarEvents(old(scalar), old(View()).buffer), ctx.functions).b
      ensures ok ==> Valid() && View() == old(View()).(buffer := "")
      ensures stack == old(stack) && buffer == old(buffer)
    {
      hide Build, BuildAll;
      NothingBuilt(ctx.View(), ctx.functions);
      if scalar != NoType {
        var text := buffer[..count];
        var ev := match scalar
          case IntegerType => IntegerText(TrimRight(text))
          case FloatType => FloatText(TrimRight(text))
          case StringType => StringText(text)
          case NullType => NullEvent
          case TrueType => TrueEvent
          case _ => FalseEvent;
        BuildOne(ctx.View(), ev, ctx.functions);
        ok := ctx.Callback(ev);
        if !ok { return; }
      }
      ClearBuffer();
      ok := true;
    }
  
    /** `add_escaped_char_to_parse_buffer`. */
    method AddEscapedChar(ch: char) returns (ok: bool)
      requires Valid() && count >= 1
      modifies this, buffer
      ensures ok <==> Escaped(ch) != ""
      ensures ok ==>
        Valid() && View() == old(View()).(escaped := false, buffer := PopChar(old(View())).buffer + Escaped(ch))
      ensures OwnArrays() && stack == old(stack)
    {
      escaped := false;
      PopBack();
      ok := true;
      match ch
      case 'b' => PushBack('\U{0008}');
      case 'f' => PushBack('\U{000C}');
      case 'n' => PushBack('\n');
      case 'r' => PushBack('\r');
      case 't' => PushBack('\t');
      case '"' => PushBack('"');
      case '\\' => PushBack('\\');
      case '/' => PushBack('/');
      case 'u' =>
        PushBack('\\');
        PushBack('u');
        assert PopChar(old(View())).buffer + ['\\'] + ['u'] == PopChar(old(View())).buffer + "\\u";
      case _ => ok := false;
    }

    method AddCharToBuffer(ch: char, k: Kind) returns (ok: bool)
      requires Valid() && (escaped ==> count >= 1)
      modifies this, buffer
      ensures ok <==> AddChar(old(View()), ch, k).Go?
      ensures ok ==> Valid() && View() == AddChar(old(View()), ch, k).m
      ensures OwnArrays() && stack == old(stack)
    {
      ok := true;
      if escaped {
        ok := AddEscapedChar(ch);
      } else if scalar != NoType || !(k.Space? || k.White?) {
        PushBack(ch);
      }
    }

    /** The code unit spelled by the last four characters. */
    method ReadCodeUnit() returns (uc: nat)
      requires Valid() && count >= 6 && forall i :: count - 4 <= i < count ==> HexChar(buffer[i])
      ensures uc == CodeUnit(buffer[count - 4..count])
    {
      ghost var h := buffer[count - 4..count];
      uc := 0;
      var j := 0;
      while j < 4
        invariant j <= 4 && uc == FirstDigits(h, j)
      {
        var x := buffer[count - 4 + j] as int;
        if x >= 'a' as int { x := x - ('a' as int - 10); }
        else if x >= 'A' as int { x := x - ('A' as int - 10); }
        else { x := x - 0x30; }
        assert HexChar(h[j]);
        assert 0 <= x < 16;
        uc := uc + x * Place16(j);
        j := j + 1;
      }
      AllHexDigits(h);
    }

    /** The bytes of a code point go where its escape sequence was, without a check of the capacity. */
    method WriteBytes(uc: nat, trail: nat)
      requires Valid() && trail <= 3 && count + 4 < buffer.Length
      modifies this, buffer
      ensures Valid() && View() == old(View()).(buffer := old(View()).buffer + Encode(uc, trail))
      ensures stack == old(stack) && buffer == old(buffer)
    {
      ghost var kept := buffer[..count];
      ghost var bytes := Encode(uc, trail);
      EncodedBytes(uc, trail, trail);
      buffer[count] := ByteChar(LeadBits(trail) + Shifted(uc, trail));
      count := count + 1;
      var k := trail;
      assert buffer[..count] == kept + bytes[..1];
      while k > 0
        invariant 0 <= k <= trail && |bytes| == trail + 1 && count == |kept| + 1 + trail - k
          && count < old(buffer.Length)
        invariant unchanged(this`state, this`scalar, this`escaped, this`highSurrogate, this`top, this`stack,
          this`buffer)
        invariant buffer[..count] == kept + bytes[..1 + trail - k]
      {
        k := k - 1;
        EncodedBytes(uc, trail, k);
        buffer[count] := ByteChar(0x80 + Shifted(uc, k) % 0x40);
        count := count + 1;
        assert bytes[..1 + trail - k] == bytes[..trail - k] + [bytes[trail - k]];
      }
      buffer[count] := '\0';
      assert bytes[..1 + trail] == bytes;
    }

    /** `decode_unicode_char`. */
    method DecodeUnicodeChar() returns (ok: bool)
      requires Valid() && count >= 6 && forall i :: count - 4 <= i < count ==> HexChar(buffer[i])
      modifies this, buffer
      ensures ok <==> DecodeUnicode(old(View())).Go?
      ensures ok ==> Valid() && View() == DecodeUnicode(old(View())).m
      ensures stack == old(stack) && buffer == old(buffer)
    {
      hide CodeUnit, Encode;
      ghost var m := View();
      var uc := ReadCodeUnit();
      assert m.buffer[|m.buffer| - 4..] == buffer[count - 4..count];
      count := count - 6;
      buffer[count] := '\0';
      assert buffer[..count] == m.buffer[..|m.buffer| - 6];
      var trail;
      if highSurrogate != 0 {
        if 0xDC00 <= uc < 0xE000 {
          uc := (highSurrogate % 0x400) * 0x400 + uc % 0x400 + 0x10000;
          trail := 3;
          highSurrogate := 0;
        } else {
          return false;
        }
      } else if uc < 0x80 {
        trail := 0;
      } else if uc < 0x800 {
        trail := 1;
      } else if 0xD800 <= uc < 0xDC00 {
        highSurrogate := uc;
        return true;
      } else if 0xDC00 <= uc < 0xE000 {
        return false;
      } else {
        trail := 2;
      }
      WriteBytes(uc, trail);
      ok := true;
    }

    // ---- The actions

    /** What a closing bracket does once the container has been delivered. */
    method LeaveContainer(mode: Mode) returns (ok: bool)
      requires Valid()
      modifies this
      ensures ok <==> AfterClose(old(View()), mode).Go?
      ensures ok ==> Valid() && View() == AfterClose(old(View()), mode).m
      ensures stack == old(stack) && buffer == old(buffer)
    {
      ok := Pop(mode);
      if !ok { return; }
      scalar := NoType;
      state := OK;
    }

    method EndContainer(mode: Mode) returns (ok: bool)
      requires Valid() && count >= 1 && (mode == InArray || mode == InObject)
      requires !BuildAll(ctx.View(), Pending(View()) + [if mode == InArray then ArrayStop else ObjectStop],
        ctx.functions).Undefined?
      modifies this, buffer, ctx, ctx.L
      ensures Answers(ok,
        BuildAll(old(ctx.View()), Pending(old(View())) + [if mode == InArray then ArrayStop else ObjectStop],
          ctx.functions),
        CloseContainer(old(View()), mode), ctx.View())
      ensures ok ==> Valid() && View() == CloseContainer(old(View()), mode).m
      ensures OwnArrays()
    {
      hide Build, BuildAll, ScalarEvents, CloseContainer, AfterClose;
      var stop := if mode == InArray then ArrayStop else ObjectStop;
      CloseStep(View(), mode);
      BuildTwice(ctx.View(), Pending(View()), [stop], ctx.functions);
      PopBack();
      ok := ParseBuffer();
      if !ok { return; }
      BuildOne(ctx.View(), stop, ctx.functions);
      ok := ctx.Callback(stop);
      if !ok { return; }
      ok := LeaveContainer(mode);
    }

    method EndEmptyObject() returns (ok: bool)
      requires Valid() && !BuildAll(ctx.View(), [ObjectStop], ctx.functions).Undefined?
      modifies this, buffer, ctx, ctx.L
      ensures Answers(ok, BuildAll(old(ctx.View()), [ObjectStop], ctx.functions),
        Perform(old(View()), EmptyObjectEnd), ctx.View())
      ensures ok ==> Valid() && View() == Perform(old(View()), EmptyObjectEnd).m
      ensures OwnArrays()
    {
      hide Build, BuildAll, ScalarEvents;
      ClearBuffer();
      BuildOne(ctx.View(), ObjectStop, ctx.functions);
      ok := ctx.Callback(ObjectStop);
      if !ok { return; }
      ok := Pop(InKey);
      if !ok { return; }
      state := OK;
    }

    method BeginContainer(mode: Mode) returns (ok: bool)
      requires Valid() && count >= 1 && scalar.NoType? && (mode == InArray || mode == InKey)
      modifies this, stack, buffer, ctx, ctx.L
      ensures Answers(ok,
        BuildAll(old(ctx.View()), [if mode == InArray then ArrayStart else ObjectStart], ctx.functions),
                      OpenContainer(old(View()), mode), ctx.View())
      ensures ok ==> Valid() && View() == OpenContainer(old(View()), mode).m
      ensures OwnArrays()
    {
      hide BuildAll;
      var start := if mode == InArray then ArrayStart else ObjectStart;
      PopBack();
      BuildOne(ctx.View(), start, ctx.functions);
      ok := ctx.Callback(start);
      if !ok { return; }
      ok := Push(mode);
      if !ok { return; }
      assert scalar == NoType;
      state := if mode == InArray then AR else OB;
    }

    /** A key has ended, its closing quote removed. */
    method EndKey() returns (ok: bool)
      requires Valid() && scalar.StringType?
      requires !BuildAll(ctx.View(), [KeyText(View().buffer)], ctx.functions).Undefined?
      modifies this, buffer, ctx, ctx.L
      ensures ok <==> BuildAll(old(ctx.View()), [KeyText(old(View()).buffer)], ctx.functions).Built?
      ensures ok ==> ctx.View() == BuildAll(old(ctx.View()), [KeyText(old(View()).buffer)], ctx.functions).b
      ensures ok ==> Valid() && View() == old(View()).(scalar := NoType, state := CO, buffer := "")
      ensures OwnArrays()
    {
      hide BuildAll;
      assert scalar == StringType;
      scalar := NoType;
      state := CO;
      BuildOne(ctx.View(), KeyText(buffer[..count]), ctx.functions);
      ok := ctx.Callback(KeyText(buffer[..count]));
      if !ok { return; }
      ClearBuffer();
    }

    method EndString() returns (ok: bool)
      requires Valid() && count >= 1 && top >= 0 && scalar.StringType?
      requires !BuildAll(ctx.View(), AttemptedBy(View(), StringEnd), ctx.functions).Undefined?
      modifies this, buffer, ctx, ctx.L
      ensures Answers(ok, BuildAll(old(ctx.View()), AttemptedBy(old(View()), StringEnd), ctx.functions),
                      Perform(old(View()), StringEnd), ctx.View())
      ensures ok ==> Valid() && View() == Perform(old(View()), StringEnd).m
      ensures OwnArrays()
    {
      hide Build, BuildAll, ScalarEvents, Perform, AttemptedBy, PopChar;
      StringEndStep(View());
      PopBack();
      match stack[top]
      case InKey => ok := EndKey();
      case InDone =>
        NothingBuilt(ctx.View(), ctx.functions);
        ok := false;
      case _ =>
        assert scalar == StringType;
        ok := ParseBuffer();
        if !ok { return; }
        scalar := NoType;
        state := OK;
    }

    /** What a comma does once the scalar before it has been delivered. */
    method NextItem() returns (ok: bool)
      requires Valid() && top >= 0 && !scalar.StringType?
      modifies this, stack
      ensures ok <==> AfterComma(old(View())).Go?
      ensures ok ==> Valid() && View() == AfterComma(old(View())).m
      ensures OwnArrays()
    {
      hide Flip;
      match stack[top]
      case InObject =>
        ok := FlipMode(InObject, InKey);
        if !ok { return; }
        assert scalar != StringType;
        scalar := NoType;
        state := KE;
      case InArray =>
        assert scalar != StringType;
        scalar := NoType;
        state := VA;
        ok := true;
      case _ => ok := false;
    }

    method TakeComma() returns (ok: bool)
      requires Valid() && count >= 1 && top >= 0 && !scalar.StringType?
      requires !BuildAll(ctx.View(), Pending(View()), ctx.functions).Undefined?
      modifies this, stack, buffer, ctx, ctx.L
      ensures Answers(ok, BuildAll(old(ctx.View()), Pending(old(View())), ctx.functions), Perform(old(View()), Comma),
        ctx.View())
      ensures ok ==> Valid() && View() == Perform(old(View()), Comma).m
      ensures OwnArrays()
    {
      hide Build, BuildAll, ScalarEvents, CloseContainer, OpenContainer, DecodeUnicode, Perform, AfterComma;
      CommaStep(View());
      PopBack();
      ok := ParseBuffer();
      if !ok { return; }
      ok := NextItem();
    }

    method TakeColon() returns (ok: bool)
      requires Valid() && count >= 1 && scalar.NoType?
      modifies this, stack, buffer
      ensures ok <==> Perform(old(View()), Colon).Go?
      ensures ok ==> Valid() && View() == Perform(old(View()), Colon).m
      ensures OwnArrays()
    {
      hide ScalarEvents, CloseContainer, OpenContainer, DecodeUnicode, Flip;
      PopBack();
      ok := FlipMode(InKey, InObject);
      if !ok { return; }
      assert scalar == NoType;
      state := VA;
    }
  
    /** The first character of a word. */
    method BeginWord(a: Action)
      requires Valid() && (a.True? || a.False? || a.Null?) && scalar.NoType?
      modifies this
      ensures Perform(old(View()), a).Go? && Valid() && View() == Perform(old(View()), a).m
      ensures stack == old(stack) && buffer == old(buffer)
    {
      hide ScalarEvents, CloseContainer, OpenContainer, DecodeUnicode, Flip, Flush;
      assert scalar == NoType;
      match a
      case Null => scalar, state := NullType, N1;
      case False => scalar, state := FalseType, F1;
      case True => scalar, state := TrueType, T1;
    }

    /** The character that begins a number, its fraction or its exponent. */
    method BeginNumber(a: Action)
      requires Valid() && count >= 1
      requires a.IntegerByMinus? || a.IntegerByZero? || a.IntegerByDigit? || a.DoubleByExponent? || a.DoubleByFraction?
      requires a.DoubleByExponent? || a.DoubleByFraction? ==> scalar.IntegerType?
      requires a.DoubleByFraction? ==> buffer[count - 1] == '.'
      modifies this
      ensures Perform(old(View()), a).Go? && Valid() && View() == Perform(old(View()), a).m
      ensures stack == old(stack) && buffer == old(buffer)
    {
      hide ScalarEvents, CloseContainer, OpenContainer, DecodeUnicode, Flip, Flush;
      match a
      case IntegerByMinus => scalar, state := IntegerType, MI;
      case IntegerByZero => scalar, state := IntegerType, ZE;
      case IntegerByDigit => scalar, state := IntegerType, IT;
      case DoubleByExponent =>
        assert scalar != FalseType && scalar != TrueType && scalar != NullType && scalar != StringType;
        scalar, state := FloatType, E1;
      case DoubleByFraction =>
        assert scalar != FalseType && scalar != TrueType && scalar != NullType && scalar != StringType;
        assert buffer[count - 1] == '.';
        scalar, state := FloatType, FX;
    }

    /** The actions that make no callbacks. */
    method PerformQuiet(a: Action) returns (ok: bool)
      requires Valid() && count >= 1 && QuietAction(a) && !a.UnicodeRead?
      requires a.Colon? || a.StringBegin? || a.True? || a.False? || a.Null? ==> scalar.NoType?
      requires a.DoubleByExponent? || a.DoubleByFraction? ==> scalar.IntegerType?
      requires a.DoubleByFraction? ==> buffer[count - 1] == '.'
      modifies this, stack, buffer
      ensures ok <==> Perform(old(View()), a).Go?
      ensures ok ==> Valid() && View() == Perform(old(View()), a).m
      ensures OwnArrays()
    {
      hide ScalarEvents, CloseContainer, OpenContainer, DecodeUnicode, Flip, Flush;
      ok := true;
      match a
      case CommentBegin => ok := false;
      case Escape =>
        escaped := true;
        state := ES;
      case StringBegin =>
        ClearBuffer();
        assert scalar == NoType;
        scalar, state := StringType, ST;
      case Colon => ok := TakeColon();
      case Null => BeginWord(a);
      case False => BeginWord(a);
      case True => BeginWord(a);
      case IntegerByMinus => BeginNumber(a);
      case IntegerByZero => BeginNumber(a);
      case IntegerByDigit => BeginNumber(a);
      case DoubleByExponent => BeginNumber(a);
      case DoubleByFraction => BeginNumber(a);
    }

    method ReadUnicode() returns (ok: bool)
      requires Valid() && count >= 6 && forall i :: count - 4 <= i < count ==> HexChar(buffer[i])
      modifies this, buffer
      ensures ok <==> Perform(old(View()), UnicodeRead).Go?
      ensures ok ==> Valid() && View() == Perform(old(View()), UnicodeRead).m
      ensures OwnArrays()
    {
      hide ScalarEvents, CloseContainer, OpenContainer, DecodeUnicode;
      ok := DecodeUnicodeChar();
      if !ok { return; }
      state := if highSurrogate != 0 then D1 else ST;
    }

    /** The actions that make callbacks. */
    method PerformLoud(a: Action) returns (ok: bool)
      requires Valid() && count >= 1 && top >= 0 && !QuietAction(a)
      requires a.ObjectBegin? || a.ArrayBegin? ==> scalar.NoType?
      requires a.StringEnd? ==> scalar.StringType?
      requires a.Comma? ==> !scalar.StringType?
      requires !BuildAll(ctx.View(), AttemptedBy(View(), a), ctx.functions).Undefined?
      modifies this, stack, buffer, ctx, ctx.L
      ensures Answers(ok, BuildAll(old(ctx.View()), AttemptedBy(old(View()), a), ctx.functions),
        Perform(old(View()), a), ctx.View())
      ensures ok ==> Valid() && View() == Perform(old(View()), a).m
      ensures OwnArrays()
    {
      hide BuildAll, Perform, Pending;
      OpensBy(View());
      ClosesBy(View());
      match a
      case EmptyObjectEnd => ok := EndEmptyObject();
      case ObjectEnd => ok := EndContainer(InObject);
      case ArrayEnd => ok := EndContainer(InArray);
      case ObjectBegin => ok := BeginContainer(InKey);
      case ArrayBegin => ok := BeginContainer(InArray);
      case StringEnd => ok := EndString();
      case Comma => ok := TakeComma();
    }

    /** Any action, when what it needs holds. */
    method PerformAction(a: Action) returns (ok: bool)
      requires Valid() && top >= 0 && (TakesChar(a) ==> count >= 1)
      requires a.ObjectBegin? || a.ArrayBegin? || a.Colon? || a.StringBegin? || a.True? || a.False? || a.Null? ==>
        scalar.NoType?
      requires a.StringEnd? ==> scalar.StringType?
      requires a.Comma? || a.ArrayEnd? || a.ObjectEnd? ==> !scalar.StringType?
      requires a.DoubleByExponent? || a.DoubleByFraction? ==> scalar.IntegerType?
      requires a.DoubleByFraction? ==> buffer[count - 1] == '.'
      requires a.UnicodeRead? ==> count >= 6 && forall i :: count - 4 <= i < count ==> HexChar(buffer[i])
      requires !BuildAll(ctx.View(), AttemptedBy(View(), a), ctx.functions).Undefined?
      modifies this, stack, buffer, ctx, ctx.L
      ensures Answers(ok, BuildAll(old(ctx.View()), AttemptedBy(old(View()), a), ctx.functions),
        Perform(old(View()), a), ctx.View())
      ensures ok ==> Valid() && View() == Perform(old(View()), a).m
      ensures OwnArrays()
    {
      hide BuildAll, Perform, AttemptedBy;
      NothingBuilt(ctx.View(), ctx.functions);
      if a == UnicodeRead {
        QuietAttempts(View(), a);
        ok := ReadUnicode();
      } else if a == CommentBegin {
        NoComments(View());
        QuietAttempts(View(), a);
        ok := false;
      } else if QuietAction(a) {
        QuietAttempts(View(), a);
        ok := PerformQuiet(a);
      } else {
        ok := PerformLoud(a);
      }
    }

    /** `JSON_parser_char`: true when the character is legal here and no callback turned its event down. */
    method Char(ch: char) returns (ok: bool)
      requires Valid() && Invariant(View())
      requires !BuildAll(ctx.View(), Attempted(View(), ch), ctx.functions).Undefined?
      modifies this, stack, buffer, ctx, ctx.L
      ensures Answers(ok, BuildAll(old(ctx.View()), Attempted(old(View()), ch), ctx.functions),
                      JsonParserStep.Char(old(View()), ch), ctx.View())
      ensures ok ==> Valid() && Invariant(View()) && View() == JsonParserStep.Char(old(View()), ch).m
      ensures OwnArrays()
    {
      hide BuildAll, Perform, AttemptedBy, Invariant, Next, AddChar, Classify;
      ghost var m := View();
      NothingBuilt(ctx.View(), ctx.functions);
      if Classify(ch).Illegal? { return false; }
      var k := Classify(ch).kind;
      EscapedIsBuffered(m);
      ok := AddCharToBuffer(ch, k);
      if !ok { return; }
      ghost var m1 := View();
      AddCharBuffers(m, ch, k);
      CharKeepsInvariant(m, ch);
      match Next(state, k)
      case To(s) => state := s;
      case Bad => ok := false;
      case Act(a) =>
        ActionFacts(m, ch, k, m1, a);
        InvariantStack(m);
        if a == UnicodeRead { UnicodeFacts(m, ch, k, m1); }
        ok := PerformAction(a);
    }

    /** `JSON_parser_done`. */
    method Done() returns (ok: bool)
      requires Valid()
      modifies this
      ensures ok <==> Finished(old(View()))
    {
      ok := state == OK;
      if ok { ok := Pop(InDone); }
    }
  }

  /** `luaT_json_parser_decode`: a legal text leaves the table made of its tree on the Lua stack; after any other
      text the stack is what it was.  Where a bracket closes nothing the code is not defined: the method says so and
      stops. */
  method DecodeText(L: LuaState, text: string, functions: FunctionReader) returns (defined: bool, ok: bool)
    modifies L
    ensures defined <==> !Overcloses("", text)
    ensures defined ==> match ParseText(Positive(text), -1)
      case Legal(t) => ok && L.stack == old(L.stack) + [Exact(t, functions)]
      case NotLegal => !ok && L.stack == old(L.stack)
  {
    hide Invariant, Related, JsonParserStep.Char, Attempted, BuildAll, Underflow, ParseText, Exact, Finished,
      Overcloses;
    ghost var base := L.stack;
    var oldtop := |L.stack|;
    var ctx := new Context(L, functions);
    var jc := new JsonParser(-1, ctx);
    DecodeOutcome(base, text, functions);
    UnderflowsIffOvercloses(text);
    InitialRelated(base);
    defined, ok := true, false;
    var i := 0;
    while i < |text| && !Stops(text[i])
      invariant i <= |text| && jc.ctx == ctx && ctx.L == L && ctx.functions == functions
      invariant fresh(ctx) && fresh(jc) && fresh(jc.stack) && fresh(jc.buffer)
      invariant jc.Valid() && Invariant(jc.View()) && jc.View().stack != [] && Related(jc.View(), ctx.View(), base)
      invariant Underflows(jc.View(), text[i..]) <==> Underflows(Initial(-1), text)
      invariant Decode(base, text, functions) == DecodeFrom(jc.View(), ctx.View(), text[i..], functions)
    {
      ghost var m, b, s := jc.View(), ctx.View(), text[i..];
      assert s[0] == text[i] && s[1..] == text[i + 1..];
      if Underflow(jc.View(), text[i]) { return false, false; }
      CharHandles(m, b, text[i], functions, base);
      ok := jc.Char(text[i]);
      if !ok {
        KeepsStack(base, oldtop, L.stack);
        L.SetTop(oldtop);
        return;
      }
      i := i + 1;
    }
    ghost var m, b := jc.View(), ctx.View();
    RelatedKeepsBase(m, b, base);
    ok := jc.Done();
    if !ok {
      KeepsStack(base, oldtop, L.stack);
      L.SetTop(oldtop);
    }
  }

  lemma InitialRelated(base: seq<LuaValue>)
    ensures Invariant(Initial(-1)) && Initial(-1).stack != [] && Related(Initial(-1), Fresh(base), base)
  {
  }

  lemma KeepsStack(base: seq<LuaValue>, oldtop: nat, lua: seq<LuaValue>)
    requires oldtop == |base| && base <= lua
    ensures oldtop <= |lua| && lua[..oldtop] == base
  {
  }

  lemma EscapedIsBuffered(m: Machine)
    requires Invariant(m)
    ensures m.escaped ==> m.buffer != ""
  {
  }
}
