/** The callback that turns parse events into a Lua table, as a function of the builder's state, and what it
    makes of the events of a whole tree. */
module LuaBuilding {
  import opened JsonParserStep
  import opened JsonGrammar
  import opened LuaTables

  datatype Place = Nowhere | InsideArray | InsideTable

  /** The state of the builder: the Lua stack, the keys waiting for a value, the container being filled and the
      ones around it, the next array index and the saved ones. */
  datatype Builder = Builder(
    lua: seq<LuaValue>,
    keyLevel: int,
    place: Place,
    places: seq<Place>,
    index: int,
    indexes: seq<int>)

  function Fresh(lua: seq<LuaValue>): Builder {
    Builder(lua, 0, Nowhere, [], 1, [])
  }

  /** The outcome of a callback.  `Undefined` is what the code does not define: taking from an empty stack, or
      assigning a field of what is not a table. */
  datatype Built = Built(b: Builder) | Turned | Undefined

  predicate KeyValue(v: LuaValue) {
    v.Integer? || v.Text?
  }

  function KeyOf(v: LuaValue): LuaKey
    requires KeyValue(v)
  {
    if v.Integer? then IntegerKey(v.i) else NameKey(v.s)
  }

  function PushValue(b: Builder, v: LuaValue): Builder {
    b.(lua := b.lua + [v])
  }

  predicate CanSetTable(lua: seq<LuaValue>) {
    |lua| >= 3 && lua[|lua| - 3].Table? && KeyValue(lua[|lua| - 2])
  }

  /** The value on top of the Lua stack becomes a field of the table two below it; it and its key are popped. */
  function SetTable(b: Builder): Built {
    if !CanSetTable(b.lua) then Undefined else
    var n := |b.lua|;
    var fields := Set(b.lua[n - 3].fields, KeyOf(b.lua[n - 2]), b.lua[n - 1]);
    Built(b.(lua := b.lua[..n - 3] + [Table(fields)]))
  }

  /** The value on top of the Lua stack is stored under the key below it, which is a waiting one in a table. */
  function Store(b: Builder): Built {
    match b.place
    case InsideTable =>
      if b.keyLevel > 0 then
        match SetTable(b)
        case Built(b1) => Built(b1.(keyLevel := b1.keyLevel - 1))
        case other => other
      else Turned
    case InsideArray => SetTable(b)
    case Nowhere => Built(b)
  }

  function PushIndex(b: Builder): Builder {
    if b.place.InsideArray? then PushValue(b, Integer(b.index)).(index := b.index + 1) else b
  }

  function Scalar(b: Builder, v: LuaValue): Built {
    match b.place
    case InsideTable => if b.keyLevel > 0 then Store(PushValue(b, v)) else Turned
    case InsideArray => Store(PushValue(PushIndex(b), v))
    case Nowhere => Turned
  }

  function BeginArray(b: Builder): Builder {
    var b1 := PushValue(PushIndex(b), Table(map[]));
    b1.(places := b1.places + [b1.place], place := InsideArray, indexes := b1.indexes + [SignedChar(b1.index)],
      index := 1)
  }

  function BeginObject(b: Builder): Builder {
    var b1 := PushValue(PushIndex(b), Table(map[]));
    b1.(places := b1.places + [b1.place], place := InsideTable)
  }

  function PopPlace(b: Builder): Builder
    requires b.places != []
  {
    b.(place := b.places[|b.places| - 1], places := b.places[..|b.places| - 1])
  }

  function PopIndex(b: Builder): Builder
    requires b.indexes != []
  {
    b.(index := b.indexes[|b.indexes| - 1], indexes := b.indexes[..|b.indexes| - 1])
  }

  function Build(b: Builder, ev: ParseEvent, f: FunctionReader): Built {
    match ev
    case ArrayStart => Built(BeginArray(b))
    case ArrayStop => if b.places == [] || b.indexes == [] then Undefined else Store(PopIndex(PopPlace(b)))
    case ObjectStart => Built(BeginObject(b))
    case ObjectStop => if b.places == [] then Undefined else Store(PopPlace(b))
    case IntegerText(text) => Scalar(b, Integer(ReadInteger(text)))
    case FloatText(text) => Scalar(b, Number(text))
    case NullEvent => Scalar(b, Nil)
    case TrueEvent => Scalar(b, Boolean(true))
    case FalseEvent => Scalar(b, Boolean(false))
    case StringText(s) => Scalar(b, StringValue(s, f))
    case KeyText(k) => Built(PushValue(b, Text(k)).(keyLevel := b.keyLevel + 1))
  }

  function BuildAll(b: Builder, evs: seq<ParseEvent>, f: FunctionReader): Built
    decreases |evs|
  {
    if evs == [] then Built(b)
    else match Build(b, evs[0], f)
      case Built(b1) => BuildAll(b1, evs[1..], f)
      case other => other
  }

  lemma {:induction false} BuildTwice(b: Builder, evs: seq<ParseEvent>, more: seq<ParseEvent>, f: FunctionReader)
    ensures BuildAll(b, evs + more, f)
         == match BuildAll(b, evs, f)
            case Built(b1) => BuildAll(b1, more, f)
            case other => other
    decreases |evs|
  {
    hide Build;
    if evs == [] {
      assert evs + more == more;
    } else {
      assert (evs + more)[0] == evs[0] && (evs + more)[1..] == evs[1..] + more;
      match Build(b, evs[0], f)
      case Built(b1) => BuildTwice(b1, evs[1..], more, f);
      case _ =>
    }
  }

  lemma BuildOne(b: Builder, ev: ParseEvent, f: FunctionReader)
    ensures BuildAll(b, [ev], f) == Build(b, ev, f)
  {
    assert [ev][1..] == [];
    if Build(b, ev, f).Built? { assert BuildAll(Build(b, ev, f).b, [], f) == Built(Build(b, ev, f).b); }
  }

  // ---- A whole tree

  /** The Lua stack of a builder that can take a value where it is. */
  predicate Ready(b: Builder) {
    b.keyLevel >= 0 &&
    match b.place
    case Nowhere => true
    case InsideArray => b.lua != [] && b.lua[|b.lua| - 1].Table?
    case InsideTable => |b.lua| >= 2 && b.lua[|b.lua| - 1].Text? && b.lua[|b.lua| - 2].Table? && b.keyLevel > 0
  }

  /** What taking a value does: it goes to the next index, under the waiting key, or on the Lua stack. */
  function Taken(b: Builder, v: LuaValue, saved: bool): Builder
    requires Ready(b)
  {
    var n := |b.lua|;
    match b.place
    case Nowhere => b.(lua := b.lua + [v], index := IndexAfter(saved, b.index))
    case InsideArray =>
      b.(lua := b.lua[..n - 1] + [Table(Set(b.lua[n - 1].fields, IntegerKey(b.index), v))],
         index := IndexAfter(saved, b.index + 1))
    case InsideTable =>
      b.(lua := b.lua[..n - 2] + [Table(Set(b.lua[n - 2].fields, NameKey(b.lua[n - 1].s), v))],
         keyLevel := b.keyLevel - 1, index := IndexAfter(saved, b.index))
  }

  /** Storing a value that has been pushed, possibly after an index, is taking it. */
  lemma StoreTakes(b: Builder, v: LuaValue, index: int)
    requires Ready(b)
    ensures Store(PushValue(PushIndex(b), v).(index := index)) == Built(Taken(b, v, false).(index := index))
  {
    var n := |b.lua|;
    var b1 := PushValue(PushIndex(b), v).(index := index);
    match b.place
    case Nowhere =>
    case InsideArray =>
      assert b1.lua[..|b1.lua| - 3] == b.lua[..n - 1];
    case InsideTable =>
      assert b1.lua[..|b1.lua| - 3] == b.lua[..n - 2];
  }

  lemma ScalarTakes(b: Builder, v: LuaValue)
    requires Ready(b) && !b.place.Nowhere?
    ensures Scalar(b, v) == Built(Taken(b, v, false))
  {
    StoreTakes(b, v, PushIndex(b).index);
  }

  lemma SignedCharTwice(x: int)
    ensures SignedChar(SignedChar(x)) == SignedChar(x)
  {
  }

  /** The builder takes from the events of a tree the value `Exact` says, whatever it is in the middle of. */
  lemma {:induction false} BuildTree(b: Builder, t: Tree, f: FunctionReader)
    requires Ready(b) && (b.place.Nowhere? ==> t.ArrayTree? || t.ObjectTree?)
    ensures BuildAll(b, TreeEvents(t), f) == Built(Taken(b, Exact(t, f), SavesIndex(t)))
    decreases t, 0
  {
    hide Scalar, Store, Taken, BuildAll;
    match t
    case ArrayTree(es) => BuildArray(b, es, f);
    case ObjectTree(ms) => BuildObject(b, ms, f);
    case _ =>
      BuildOne(b, TreeEvents(t)[0], f);
      ScalarTakes(b, Exact(t, f));
  }

  lemma {:induction false} BuildArray(b: Builder, es: seq<Tree>, f: FunctionReader)
    requires Ready(b)
    ensures BuildAll(b, TreeEvents(ArrayTree(es)), f) == Built(Taken(b, Exact(ArrayTree(es), f), true))
    decreases es, 1
  {
    hide Store, Taken, BuildAll, PushIndex, ExactElements;
    var b1 := BeginArray(b);
    KeepsPlaces(b);
    BuildOne(b, ArrayStart, f);
    BuildTwice(b, [ArrayStart] + ElementsEvents(es), [ArrayStop], f);
    BuildTwice(b, [ArrayStart], ElementsEvents(es), f);
    NoElements(f);
    assert es[..0] == [] && es[0..] == es;
    BuildElements(b1, es, 0, f);
    var b2 := b1.(lua := b1.lua[..|b1.lua| - 1] + [Table(ExactElements(es, f))], index := NextIndex(es));
    assert BuildAll(b1, ElementsEvents(es), f) == Built(b2);
    BuildOne(b2, ArrayStop, f);
    assert PopIndex(PopPlace(b2))
        == PushValue(PushIndex(b), Table(ExactElements(es, f))).(index := SignedChar(PushIndex(b).index)) by {
      assert b1.lua[..|b1.lua| - 1] == PushIndex(b).lua;
    }
    StoreTakes(b, Table(ExactElements(es, f)), SignedChar(PushIndex(b).index));
    TakenSaved(b, Table(ExactElements(es, f)));
  }

  lemma NoElements(f: FunctionReader)
    ensures ExactElements([], f) == map[]
  {
  }

  lemma KeepsPlaces(b: Builder)
    ensures PushIndex(b) == b.(lua := PushIndex(b).lua, index := PushIndex(b).index)
  {
  }

  lemma TakenSaved(b: Builder, v: LuaValue)
    requires Ready(b)
    ensures Taken(b, v, false).(index := SignedChar(PushIndex(b).index)) == Taken(b, v, true)
    ensures Taken(b, v, false).(index := PushIndex(b).index) == Taken(b, v, false)
  {
  }

  /** The elements from position `k` on, when those before it have been taken. */
  lemma {:induction false} BuildElements(b: Builder, es: seq<Tree>, k: nat, f: FunctionReader)
    requires k <= |es| && b.place.InsideArray? && b.lua != [] && b.keyLevel >= 0
    requires b.lua[|b.lua| - 1] == Table(ExactElements(es[..k], f)) && b.index == NextIndex(es[..k])
    ensures BuildAll(b, ElementsEvents(es[k..]), f)
         == Built(b.(lua := b.lua[..|b.lua| - 1] + [Table(ExactElements(es, f))], index := NextIndex(es)))
    decreases es, 0, |es| - k
  {
    hide BuildAll, Exact, TreeEvents;
    var n := |b.lua|;
    if k == |es| {
      assert es[..k] == es && es[k..] == [];
      assert b.lua == b.lua[..n - 1] + [b.lua[n - 1]];
      NothingBuilt(b, f);
    } else {
      assert es[k..][0] == es[k] && es[k..][1..] == es[k + 1..];
      BuildTree(b, es[k], f);
      BuildTwice(b, TreeEvents(es[k]), ElementsEvents(es[k + 1..]), f);
      assert es[..k + 1][..k] == es[..k] && es[..k + 1][k] == es[k];
      var b1 := Taken(b, Exact(es[k], f), SavesIndex(es[k]));
      assert b1.lua[..|b1.lua| - 1] == b.lua[..n - 1];
      BuildElements(b1, es, k + 1, f);
    }
  }

  lemma NothingBuilt(b: Builder, f: FunctionReader)
    ensures BuildAll(b, [], f) == Built(b)
  {
  }

  lemma {:induction false} BuildObject(b: Builder, ms: seq<TreeMember>, f: FunctionReader)
    requires Ready(b)
    ensures BuildAll(b, TreeEvents(ObjectTree(ms)), f)
         == Built(Taken(b, Exact(ObjectTree(ms), f), MembersSaveIndex(ms)))
    decreases ms, 1
  {
    hide Store, Taken, BuildAll, PushIndex, ExactMembers, MembersSaveIndex;
    var b1 := BeginObject(b);
    KeepsPlaces(b);
    BuildOne(b, ObjectStart, f);
    BuildTwice(b, [ObjectStart] + MembersEvents(ms), [ObjectStop], f);
    BuildTwice(b, [ObjectStart], MembersEvents(ms), f);
    NoMembers(f);
    assert ms[..0] == [] && ms[0..] == ms;
    BuildMembers(b1, b1.index, ms, 0, f);
    var index := IndexAfter(MembersSaveIndex(ms), b1.index);
    var b2 := b1.(lua := b1.lua[..|b1.lua| - 1] + [Table(ExactMembers(ms, f))], index := index);
    assert BuildAll(b1, MembersEvents(ms), f) == Built(b2);
    BuildOne(b2, ObjectStop, f);
    assert PopPlace(b2) == PushValue(PushIndex(b), Table(ExactMembers(ms, f))).(index := index) by {
      assert b1.lua[..|b1.lua| - 1] == PushIndex(b).lua;
    }
    StoreTakes(b, Table(ExactMembers(ms, f)), index);
    TakenSaved(b, Table(ExactMembers(ms, f)));
  }

  lemma NoMembers(f: FunctionReader)
    ensures ExactMembers([], f) == map[] && !MembersSaveIndex([])
  {
  }

  /** A builder in an object of which the members before position `k` have been taken. */
  predicate HasMembers(b: Builder, index: int, ms: seq<TreeMember>, k: nat, f: FunctionReader)
    requires k <= |ms|
  {
    && b.place.InsideTable? && b.lua != [] && b.keyLevel >= 0
    && b.lua[|b.lua| - 1] == Table(ExactMembers(ms[..k], f))
    && b.index == IndexAfter(MembersSaveIndex(ms[..k]), index)
  }

  /** One member is taken. */
  lemma MemberTaken(b: Builder, index: int, ms: seq<TreeMember>, k: nat, f: FunctionReader)
    requires k < |ms| && HasMembers(b, index, ms, k, f)
    ensures var m := ms[k];
      var b1 := PushValue(b, Text(m.name)).(keyLevel := b.keyLevel + 1);
      && Ready(b1)
      && var b2 := Taken(b1, Exact(m.value, f), SavesIndex(m.value));
         && HasMembers(b2, index, ms, k + 1, f)
         && b2 == b.(lua := b.lua[..|b.lua| - 1] + [Table(ExactMembers(ms[..k + 1], f))], index := b2.index)
  {
    hide Exact, SavesIndex;
    assert ms[..k + 1][..k] == ms[..k] && ms[..k + 1][k] == ms[k];
    SignedCharTwice(index);
    var b1 := PushValue(b, Text(ms[k].name)).(keyLevel := b.keyLevel + 1);
    assert b1.lua[..|b1.lua| - 2] == b.lua[..|b.lua| - 1];
  }

  /** The members from position `k` on, when those before it have been taken and the index was `index` at first. */
  lemma {:induction false} BuildMembers(b: Builder, index: int, ms: seq<TreeMember>, k: nat, f: FunctionReader)
    requires k <= |ms| && HasMembers(b, index, ms, k, f)
    ensures BuildAll(b, MembersEvents(ms[k..]), f)
         == Built(b.(lua := b.lua[..|b.lua| - 1] + [Table(ExactMembers(ms, f))],
                     index := IndexAfter(MembersSaveIndex(ms), index)))
    decreases ms, 0, |ms| - k
  {
    hide BuildAll, Exact, TreeEvents, SavesIndex, Taken, ExactMembers, MembersSaveIndex;
    if k == |ms| {
      assert ms[..k] == ms && ms[k..] == [];
      assert b.lua == b.lua[..|b.lua| - 1] + [b.lua[|b.lua| - 1]];
      NothingBuilt(b, f);
    } else {
      assert ms[k..][0] == ms[k] && ms[k..][1..] == ms[k + 1..];
      var key, value := [KeyText(ms[k].name)], TreeEvents(ms[k].value);
      var b1 := PushValue(b, Text(ms[k].name)).(keyLevel := b.keyLevel + 1);
      BuildOne(b, KeyText(ms[k].name), f);
      BuildTwice(b, key + value, MembersEvents(ms[k + 1..]), f);
      BuildTwice(b, key, value, f);
      MemberTaken(b, index, ms, k, f);
      BuildTree(b1, ms[k].value, f);
      var b2 := Taken(b1, Exact(ms[k].value, f), SavesIndex(ms[k].value));
      assert b2.lua[..|b2.lua| - 1] == b.lua[..|b.lua| - 1];
      BuildMembers(b2, index, ms, k + 1, f);
    }
  }
}
