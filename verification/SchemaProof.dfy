/** The streaming validator decides conformance. */
module SchemaProof {
  import opened JsonEvents
  import opened JsonValues
  import opened SchemaModel
  import opened SchemaStream

  // ---- Sequences of events

  lemma {:induction false} FeedAllAppend(v: Validator, a: seq<Event>, b: seq<Event>)
    ensures FeedAll(v, a + b) == FeedAll(FeedAll(v, a), b)
    decreases |a|
  {
    if a == [] {
      assert a + b == b;
    } else {
      assert (a + b)[1..] == a[1..] + b;
      FeedAllAppend(Feed(v, a[0]), a[1..], b);
    }
  }

  lemma {:induction false} InvalidStays(v: Validator, evs: seq<Event>)
    requires !v.valid
    ensures FeedAll(v, evs) == v
    decreases |evs|
  {
    if evs != [] { InvalidStays(v, evs[1..]); }
  }

  /** A context whose parallel validators have received a sequence of events. */
  function AdvanceAll(ctx: Context, evs: seq<Event>): Context {
    ctx.(validators := seq(|ctx.validators|, i requires 0 <= i < |ctx.validators| => FeedAll(ctx.validators[i], evs)))
  }

  function ForwardAll(stack: seq<Context>, evs: seq<Event>): (r: seq<Context>)
    ensures |r| == |stack|
  {
    seq(|stack|, i requires 0 <= i < |stack| => AdvanceAll(stack[i], evs))
  }

  lemma AdvanceOne(ctx: Context, ev: Event)
    ensures Advance(ctx, ev) == AdvanceAll(ctx, [ev])
  {
    forall i | 0 <= i < |ctx.validators| ensures FeedAll(ctx.validators[i], [ev]) == Feed(ctx.validators[i], ev) {
      assert [ev][1..] == [];
    }
    assert Advance(ctx, ev).validators == AdvanceAll(ctx, [ev]).validators;
  }

  lemma ForwardOne(stack: seq<Context>, ev: Event)
    ensures Forward(stack, ev) == ForwardAll(stack, [ev])
  {
    forall i | 0 <= i < |stack| ensures Forward(stack, ev)[i] == ForwardAll(stack, [ev])[i] {
      AdvanceOne(stack[i], ev);
    }
  }

  lemma AdvanceAppend(ctx: Context, a: seq<Event>, b: seq<Event>)
    ensures AdvanceAll(AdvanceAll(ctx, a), b) == AdvanceAll(ctx, a + b)
  {
    forall i | 0 <= i < |ctx.validators|
      ensures FeedAll(FeedAll(ctx.validators[i], a), b) == FeedAll(ctx.validators[i], a + b)
    {
      FeedAllAppend(ctx.validators[i], a, b);
    }
    assert AdvanceAll(AdvanceAll(ctx, a), b).validators == AdvanceAll(ctx, a + b).validators;
  }

  lemma ForwardAppend(stack: seq<Context>, a: seq<Event>, b: seq<Event>)
    ensures ForwardAll(ForwardAll(stack, a), b) == ForwardAll(stack, a + b)
  {
    forall i | 0 <= i < |stack|
      ensures ForwardAll(ForwardAll(stack, a), b)[i] == ForwardAll(stack, a + b)[i]
    {
      AdvanceAppend(stack[i], a, b);
    }
  }

  lemma ForwardNothing(stack: seq<Context>)
    ensures ForwardAll(stack, []) == stack
  {
    forall i | 0 <= i < |stack| ensures AdvanceAll(stack[i], []) == stack[i] {
      AdvanceNothing(stack[i]);
    }
  }

  lemma AdvanceNothing(ctx: Context)
    ensures AdvanceAll(ctx, []) == ctx
  {
    assert AdvanceAll(ctx, []).validators == ctx.validators;
  }

  lemma ForwardSplit(below: seq<Context>, top: Context, evs: seq<Event>)
    ensures ForwardAll(below + [top], evs) == ForwardAll(below, evs) + [AdvanceAll(top, evs)]
  {
  }

  /** Choosing the schema of the next value commutes with handing events to the parallel validators. */
  lemma BeginForward(root: Schema, stack: seq<Context>, evs: seq<Event>)
    ensures BeginValue(root, ForwardAll(stack, evs))
         == match BeginValue(root, stack)
            case None => None
            case Some(begun) => Some((ForwardAll(begun.0, evs), begun.1))
  {
    if stack != [] && Top(stack).inArray && BeginValue(root, stack).Some? {
      var begun := BeginValue(root, stack).value;
      assert begun.0 == Below(stack) + [Top(begun.0)];
      ForwardSplit(Below(stack), Top(begun.0), evs);
      ForwardSplit(Below(stack), Top(stack), evs);
      assert stack == Below(stack) + [Top(stack)];
      assert BeginValue(root, ForwardAll(stack, evs)).value.0 == ForwardAll(begun.0, evs);
    } else if stack == [] {
      assert ForwardAll(stack, evs) == [];
    }
  }

  // ---- Values

  /** What a validator becomes after a whole value that schema `t` judges; `stack` is its stack at the
      value's beginning. */
  ghost function Judged(root: Schema, stack: seq<Context>, t: Schema, j: Json): Validator {
    if Conforms(t, j) then Validator(root, ForwardAll(stack, Events(j)), true) else Invalid(root)
  }

  predicate Begins(ev: Event) {
    !ev.Key? && !ev.EndObject? && !ev.EndArray?
  }

  lemma FirstIsFed(s: Schema, ev: Event)
    requires Begins(ev)
    ensures First(s, ev) == FeedAll(Fresh(s), [ev])
  {
    assert [ev][1..] == [];
    assert Forward([], ev) == [];
  }

  lemma BeginOkMeaning(s: Schema, j: Json)
    ensures BeginOk(s, Events(j)[0]) == OwnOk(s, j)
  {
  }

  /** Every parallel validator holds the verdict of its schema on the value. */
  ghost predicate HoldsVerdicts(ctx: Context, j: Json) {
    && |ctx.validators| == |Subschemas(ctx.schema)|
    && forall i :: 0 <= i < |ctx.validators| ==> ctx.validators[i].valid == Conforms(Subschemas(ctx.schema)[i], j)
  }

  lemma SlotMeaning(ctx: Context, j: Json, k: nat)
    requires HoldsVerdicts(ctx, j) && k < |Subschemas(ctx.schema)|
    ensures SlotOk(ctx, k) == Conforms(Subschemas(ctx.schema)[k], j)
  {
    hide Conforms, Subschemas;
  }

  lemma SlotsMeaning(ctx: Context, j: Json, begin: nat, ss: seq<Schema>)
    requires HoldsVerdicts(ctx, j)
    requires begin + |ss| <= |Subschemas(ctx.schema)| && Subschemas(ctx.schema)[begin..begin + |ss|] == ss
    ensures Slots(ctx, begin, |ss|) == Verdicts(ss, j)
  {
    hide Conforms, Subschemas, HoldsVerdicts, SlotOk;
    var all := Subschemas(ctx.schema);
    forall i | 0 <= i < |ss| ensures SlotOk(ctx, begin + i) == Conforms(ss[i], j) {
      SlotMeaning(ctx, j, begin + i);
      assert ss[i] == all[begin..begin + |ss|][i] == all[begin + i];
    }
  }

  /** The combining keywords see exactly the verdicts of the parallel validators. */
  lemma EndOkMeaning(ctx: Context, j: Json)
    requires HoldsVerdicts(ctx, j)
    ensures EndOk(ctx) == CombinedOk(ctx.schema, j)
  {
    hide Conforms, Slots, Verdicts, SlotOk;
    var s := ctx.schema;
    SlotsMeaning(ctx, j, 0, s.allOf);
    SlotsMeaning(ctx, j, AnyOfBegin(s), s.anyOf);
    SlotsMeaning(ctx, j, OneOfBegin(s), s.oneOf);
    if s.negated.Some? { NotMeaning(ctx, j); }
  }

  lemma NotMeaning(ctx: Context, j: Json)
    requires HoldsVerdicts(ctx, j) && ctx.schema.negated.Some?
    ensures SlotOk(ctx, NotIndex(ctx.schema)) == Conforms(ctx.schema.negated.value, j)
  {
    hide Conforms;
    assert Subschemas(ctx.schema)[NotIndex(ctx.schema)] == ctx.schema.negated.value;
  }

  // ---- Arrays

  ghost predicate ItemOk(s: Schema, k: nat, e: Json) {
    ItemSchema(s, k).Some? && Conforms(ItemSchema(s, k).value, e)
  }

  ghost predicate ItemsOk(s: Schema, from: nat, es: seq<Json>) {
    forall i :: 0 <= i < |es| ==> ItemOk(s, from + i, es[i])
  }

  /** An array's context after some of its elements, as far as its own fields go. */
  function AfterElements(ctx: Context, es: seq<Json>): Context {
    if es == [] then ctx
    else ctx.(arrayElementIndex := ctx.arrayElementIndex + |es|,
              valueSchema := ItemSchema(ctx.schema, ctx.arrayElementIndex + |es| - 1))
  }

  lemma AfterOneMore(ctx: Context, es: seq<Json>)
    requires es != []
    ensures AfterElements(AfterElements(ctx, es[..1]), es[1..]) == AfterElements(ctx, es)
  {
  }

  lemma ItemsSplit(s: Schema, from: nat, es: seq<Json>)
    requires es != []
    ensures ItemsOk(s, from, es) <==> ItemOk(s, from, es[0]) && ItemsOk(s, from + 1, es[1..])
  {
    hide ItemOk;
    assert forall i :: 0 <= i < |es[1..]| ==> es[1..][i] == es[i + 1];
    if ItemsOk(s, from, es) {
      forall i | 0 <= i < |es[1..]| ensures ItemOk(s, from + 1 + i, es[1..][i]) {
        assert ItemOk(s, from + (i + 1), es[i + 1]);
      }
      assert ItemOk(s, from + 0, es[0]);
    }
    if ItemOk(s, from, es[0]) && ItemsOk(s, from + 1, es[1..]) {
      forall i | 0 <= i < |es| ensures ItemOk(s, from + i, es[i]) {
        if i > 0 { assert ItemOk(s, from + 1 + (i - 1), es[1..][i - 1]); }
      }
    }
  }

  /** The stack of an open container after more events, all forwarded. */
  function Open(root: Schema, below: seq<Context>, ctx: Context, evs: seq<Event>): Validator {
    Validator(root, ForwardAll(below, evs) + [AdvanceAll(ctx, evs)], true)
  }

  lemma OpenAppend(root: Schema, below: seq<Context>, ctx: Context, ctx': Context, a: seq<Event>, b: seq<Event>)
    requires ctx' == AdvanceAll(ctx, a)
    ensures Open(root, ForwardAll(below, a), ctx', b) == Open(root, below, ctx, a + b)
  {
    ForwardAppend(below, a, b);
    AdvanceAppend(ctx, a, b);
  }

  /** Reading the elements of an array: the validator stays valid exactly while each element conforms to
      the schema for its index. */
  lemma {:induction false} FeedElements(root: Schema, below: seq<Context>, ctx: Context, es: seq<Json>)
    requires ctx.inArray
    ensures FeedAll(Validator(root, below + [ctx], true), ElementEvents(es))
         == if ItemsOk(ctx.schema, ctx.arrayElementIndex, es)
            then Open(root, below, AfterElements(ctx, es), ElementEvents(es))
            else Invalid(root)
    decreases es, ctx.schema, 0
  {
    hide Conforms, Feed, ItemSchema, Events, ForwardAll, AdvanceAll, ItemsOk;
    var v := Validator(root, below + [ctx], true);
    if es == [] {
      ForwardNothing(below);
      AdvanceNothing(ctx);
      assert ItemsOk(ctx.schema, ctx.arrayElementIndex, es) by { ItemsNone(ctx.schema, ctx.arrayElementIndex); }
      return;
    }
    var t := ItemSchema(ctx.schema, ctx.arrayElementIndex);
    ItemsSplit(ctx.schema, ctx.arrayElementIndex, es);
    FeedAllAppend(v, Events(es[0]), ElementEvents(es[1..]));
    assert Below(v.stack) == below;
    if t.None? {
      NoSchema(v, es[0]);
      InvalidStays(Invalid(root), ElementEvents(es[1..]));
      return;
    }
    var ctx1 := AfterElements(ctx, es[..1]);
    assert BeginValue(root, v.stack) == Some((below + [ctx1], t.value));
    FeedValue(v, below + [ctx1], t.value, es[0]);
    if !Conforms(t.value, es[0]) {
      InvalidStays(Invalid(root), ElementEvents(es[1..]));
      return;
    }
    ForwardSplit(below, ctx1, Events(es[0]));
    var ctx2 := AdvanceAll(ctx1, Events(es[0]));
    SameFields(ctx1, Events(es[0]));
    FeedElements(root, ForwardAll(below, Events(es[0])), ctx2, es[1..]);
    AfterOneMore(ctx, es);
    AdvanceKeepsElements(ctx1, es[1..], Events(es[0]));
    OpenAppend(root, below, AfterElements(ctx, es), AfterElements(ctx2, es[1..]), Events(es[0]),
      ElementEvents(es[1..]));
  }

  lemma ItemsNone(s: Schema, from: nat)
    ensures ItemsOk(s, from, [])
  {
  }

  lemma SameFields(ctx: Context, evs: seq<Event>)
    ensures AdvanceAll(ctx, evs) == ctx.(validators := AdvanceAll(ctx, evs).validators)
  {
  }

  lemma AdvanceKeepsElements(ctx: Context, es: seq<Json>, evs: seq<Event>)
    ensures AfterElements(AdvanceAll(ctx, evs), es) == AdvanceAll(AfterElements(ctx, es), evs)
  {
  }

  /** A value that may not be where it is makes the validator invalid at its first event. */
  lemma NoSchema(v: Validator, j: Json)
    requires v.valid && BeginValue(v.root, v.stack).None?
    ensures FeedAll(v, Events(j)) == Invalid(v.root)
  {
    var evs := Events(j);
    ForwardOne(v.stack, evs[0]);
    BeginForward(v.root, v.stack, [evs[0]]);
    InvalidStays(Invalid(v.root), evs[1..]);
  }

  // ---- Objects

  ghost predicate EachMemberOk(s: Schema, ms: seq<Member>) {
    forall k :: 0 <= k < |ms| ==>
      MemberSchema(s, ms[k].name).Some? && Conforms(MemberSchema(s, ms[k].name).value, ms[k].value)
  }

  lemma EachMemberSplit(s: Schema, ms: seq<Member>)
    requires ms != []
    ensures EachMemberOk(s, ms)
        <==> MemberSchema(s, ms[0].name).Some? && Conforms(MemberSchema(s, ms[0].name).value, ms[0].value)
             && EachMemberOk(s, ms[1..])
  {
    hide Conforms, MemberSchema;
    if EachMemberOk(s, ms[1..]) {
      assert forall k :: 1 <= k < |ms| ==> ms[k] == ms[1..][k - 1];
    }
  }

  /** An object's context after some of its members, as far as its own fields go. */
  function AfterMembers(ctx: Context, ms: seq<Member>): Context
    decreases |ms|
  {
    if ms == [] then ctx
    else match KeySeen(ctx, ms[0].name)
      case None => ctx
      case Some(ctx') => AfterMembers(ctx', ms[1..])
  }

  lemma {:induction false} AdvanceKeepsMembers(ctx: Context, ms: seq<Member>, evs: seq<Event>)
    ensures AfterMembers(AdvanceAll(ctx, evs), ms) == AdvanceAll(AfterMembers(ctx, ms), evs)
    decreases |ms|
  {
    if ms != [] {
      match KeySeen(ctx, ms[0].name)
      case None =>
      case Some(ctx') =>
        assert KeySeen(AdvanceAll(ctx, evs), ms[0].name) == Some(AdvanceAll(ctx', evs));
        AdvanceKeepsMembers(ctx', ms[1..], evs);
    }
  }

  /** Reading the members of an object: the validator stays valid exactly while each member is allowed
      and its value conforms to the schema for its name. */
  lemma {:induction false} FeedMembers(root: Schema, below: seq<Context>, ctx: Context, ms: seq<Member>)
    requires !ctx.inArray
    ensures FeedAll(Validator(root, below + [ctx], true), MemberEvents(ms))
         == if EachMemberOk(ctx.schema, ms)
            then Open(root, below, AfterMembers(ctx, ms), MemberEvents(ms))
            else Invalid(root)
    decreases ms, ctx.schema, 0
  {
    hide Conforms, Feed, MemberSchema, Events, ForwardAll, AdvanceAll, EachMemberOk, KeySeen;
    var v := Validator(root, below + [ctx], true);
    if ms == [] {
      ForwardNothing(below);
      AdvanceNothing(ctx);
      assert EachMemberOk(ctx.schema, ms) by { NoMembers(ctx.schema); }
      return;
    }
    var key := [Key(ms[0].name)];
    var value := Events(ms[0].value);
    var rest := MemberEvents(ms[1..]);
    EachMemberSplit(ctx.schema, ms);
    FeedAllAppend(v, key + value, rest);
    FeedAllAppend(v, key, value);
    FeedOneKey(root, below, ctx, ms[0].name);
    if KeySeen(ctx, ms[0].name).None? {
      InvalidStays(Invalid(root), value);
      InvalidStays(Invalid(root), rest);
      return;
    }
    var ctx1 := KeySeen(ctx, ms[0].name).value;
    var ctx2 := AdvanceAll(ctx1, key);
    var below2 := ForwardAll(below, key);
    KeySeenFields(ctx, ms[0].name);
    SameFields(ctx1, key);
    var t := ctx2.valueSchema.value;
    assert BeginValue(root, below2 + [ctx2]) == Some((below2 + [ctx2], t));
    FeedValue(Validator(root, below2 + [ctx2], true), below2 + [ctx2], t, ms[0].value);
    if !Conforms(t, ms[0].value) {
      InvalidStays(Invalid(root), rest);
      return;
    }
    ForwardSplit(below2, ctx2, value);
    ForwardAppend(below, key, value);
    AdvanceAppend(ctx1, key, value);
    var ctx3 := AdvanceAll(ctx1, key + value);
    SameFields(ctx1, key + value);
    FeedMembers(root, ForwardAll(below, key + value), ctx3, ms[1..]);
    AdvanceKeepsMembers(ctx1, ms[1..], key + value);
    OpenAppend(root, below, AfterMembers(ctx, ms), AfterMembers(ctx3, ms[1..]), key + value, rest);
  }

  lemma NoMembers(s: Schema)
    ensures EachMemberOk(s, [])
  {
  }

  lemma KeySeenFields(ctx: Context, name: string)
    ensures KeySeen(ctx, name).Some? == MemberSchema(ctx.schema, name).Some?
    ensures KeySeen(ctx, name).Some? ==>
      var c := KeySeen(ctx, name).value;
      c.schema == ctx.schema && c.valueSchema == MemberSchema(ctx.schema, name) && c.inArray == ctx.inArray
      && c.validators == ctx.validators
  {
  }

  lemma FeedOneKey(root: Schema, below: seq<Context>, ctx: Context, name: string)
    ensures KeySeen(ctx, name).Some? == MemberSchema(ctx.schema, name).Some?
    ensures FeedAll(Validator(root, below + [ctx], true), [Key(name)])
         == match KeySeen(ctx, name)
            case None => Invalid(root)
            case Some(ctx') => Open(root, below, ctx', [Key(name)])
  {
    var v := Validator(root, below + [ctx], true);
    assert [Key(name)][1..] == [];
    ForwardOne(v.stack, Key(name));
    ForwardSplit(below, ctx, [Key(name)]);
    var stack := Forward(v.stack, Key(name));
    assert Below(stack) == ForwardAll(below, [Key(name)]) && Top(stack) == AdvanceAll(ctx, [Key(name)]);
  }

  /** What has been recorded about the properties is what the members read so far show. */
  lemma {:induction false} RecordedMeaning(ctx: Context, ms: seq<Member>, i: nat)
    requires EachMemberOk(ctx.schema, ms)
    requires i < |ctx.propertyExist| == |ctx.schema.properties|
    ensures AfterMembers(ctx, ms).schema == ctx.schema && |AfterMembers(ctx, ms).propertyExist| == |ctx.propertyExist|
    ensures Recorded(AfterMembers(ctx, ms), i) <==> Recorded(ctx, i) || Present(ctx.schema, ms, i)
    decreases |ms|
  {
    hide Conforms;
    if ms != [] {
      var ctx' := KeySeen(ctx, ms[0].name).value;
      assert EachMemberOk(ctx.schema, ms[1..]) by {
        assert forall k :: 0 <= k < |ms[1..]| ==> ms[1..][k] == ms[k + 1];
      }
      RecordedMeaning(ctx', ms[1..], i);
      if k :| 0 <= k < |ms| && FindProperty(ctx.schema.properties, ms[k].name) == Some(i) {
        if k > 0 {
          assert ms[1..][k - 1] == ms[k];
          assert Present(ctx.schema, ms[1..], i);
        }
      }
      if k :| 0 <= k < |ms[1..]| && FindProperty(ctx.schema.properties, ms[1..][k].name) == Some(i) {
        assert ms[k + 1] == ms[1..][k];
      }
    }
  }

  lemma {:induction false} AfterMembersFields(ctx: Context, ms: seq<Member>)
    ensures AfterMembers(ctx, ms).schema == ctx.schema && AfterMembers(ctx, ms).validators == ctx.validators
    decreases |ms|
  {
    if ms != [] && KeySeen(ctx, ms[0].name).Some? {
      AfterMembersFields(KeySeen(ctx, ms[0].name).value, ms[1..]);
    }
  }

  /** The checks at the end of an object are the object keywords. */
  lemma EndObjectMeaning(ctx: Context, j: Json)
    requires j.JObject? && HoldsVerdicts(ctx, j)
    requires TracksProperties(ctx.schema) ==>
      forall i :: 0 <= i < |ctx.schema.properties| ==> Recorded(ctx, i) == Present(ctx.schema, j.members, i)
    requires !TracksProperties(ctx.schema) ==> ctx.propertyExist == []
    requires EachMemberOk(ctx.schema, j.members)
    ensures EndObjectOk(ctx, |j.members|) == (MembersOk(ctx.schema, j.members) && DependenciesOk(ctx.schema, j))
  {
    hide Conforms, Present, Subschemas, DependencyIndex, Recorded;
    var s := ctx.schema;
    if TracksProperties(s) {
      forall i | 0 <= i < |s.properties| && s.properties[i].dependency.OnSchema?
        ensures SlotOk(ctx, DependencyIndex(s, i)) == Conforms(s.properties[i].dependency.schema, j)
      {
        DependencyMeaning(ctx, j, i);
      }
    } else {
      assert forall i :: 0 <= i < |s.properties| ==>
        !s.properties[i].required && s.properties[i].dependency.Independent?;
    }
  }

  lemma DependencyMeaning(ctx: Context, j: Json, i: nat)
    requires HoldsVerdicts(ctx, j)
    requires i < |ctx.schema.properties| && ctx.schema.properties[i].dependency.OnSchema?
    ensures SlotOk(ctx, DependencyIndex(ctx.schema, i)) == Conforms(ctx.schema.properties[i].dependency.schema, j)
  {
    hide Conforms;
    DependencySlots(ctx.schema.properties, i);
    assert Subschemas(ctx.schema)[DependencyIndex(ctx.schema, i)] == ctx.schema.properties[i].dependency.schema;
  }

  // ---- Whole values

  /** The first event of a value, seen by a validator whose next value has schema `t`. */
  lemma FeedFirst(v: Validator, stack: seq<Context>, t: Schema, ev: Event)
    requires v.valid && BeginValue(v.root, v.stack) == Some((stack, t)) && Begins(ev)
    ensures Feed(v, ev)
         == if BeginOk(t, ev) then Begun(v.root, ForwardAll(stack, [ev]), NewContext(t, ev), ev) else Invalid(v.root)
  {
    ForwardOne(v.stack, ev);
    BeginForward(v.root, v.stack, [ev]);
  }

  /** At a value's end the parallel validators have seen all its events, so they hold its verdicts. */
  lemma {:induction false} ParallelVerdicts(t: Schema, j: Json, ctx: Context)
    requires ctx.schema == t
    requires ctx.validators == AdvanceAll(NewContext(t, Events(j)[0]), Events(j)[1..]).validators
    ensures HoldsVerdicts(ctx, j)
    decreases j, t, 1
  {
    hide Conforms, Subschemas;
    var subs := Subschemas(t);
    forall i | 0 <= i < |subs| ensures ctx.validators[i].valid == Conforms(subs[i], j) {
      SubschemaSmaller(t, i);
      FirstIsFed(subs[i], Events(j)[0]);
      FeedAllAppend(Fresh(subs[i]), [Events(j)[0]], Events(j)[1..]);
      assert [Events(j)[0]] + Events(j)[1..] == Events(j);
      assert ctx.validators[i] == FeedAll(Fresh(subs[i]), Events(j));
      FeedValue(Fresh(subs[i]), [], subs[i], j);
    }
  }

  /** A valid validator that is fed a whole value stays valid exactly if the value conforms to the schema
      due; the contexts below have then handed every event of the value to their parallel validators. */
  lemma {:induction false} FeedValue(v: Validator, stack: seq<Context>, t: Schema, j: Json)
    requires v.valid && BeginValue(v.root, v.stack) == Some((stack, t))
    ensures FeedAll(v, Events(j)) == Judged(v.root, stack, t, j)
    decreases j, t, 3
  {
    hide Feed, ForwardAll, BeginOk, NewContext, EndOk;
    var evs := Events(j);
    FeedFirst(v, stack, t, evs[0]);
    BeginOkMeaning(t, j);
    if !OwnOk(t, j) {
      InvalidStays(Invalid(v.root), evs[1..]);
    } else if j.JArray? {
      FeedArray(v.root, ForwardAll(stack, [StartArray]), t, j);
      ForwardAppend(stack, [StartArray], evs[1..]);
      assert [StartArray] + evs[1..] == evs;
    } else if j.JObject? {
      FeedObject(v.root, ForwardAll(stack, [StartObject]), t, j);
      ForwardAppend(stack, [StartObject], evs[1..]);
      assert [StartObject] + evs[1..] == evs;
    } else {
      var ctx := NewContext(t, evs[0]);
      AdvanceNothing(ctx);
      NewContextSchema(t, evs[0]);
      ParallelVerdicts(t, j, ctx);
      EndOkMeaning(ctx, j);
    }
  }

  lemma NewContextSchema(t: Schema, ev: Event)
    ensures NewContext(t, ev).schema == t && NewContext(t, ev).inArray == ev.StartArray?
    ensures NewContext(t, ev).arrayElementIndex == 0
    ensures NewContext(t, ev).propertyExist
         == if ev.StartObject? && TracksProperties(t) then seq(|t.properties|, i => false) else []
  {
  }

  /** The rest of an array, after its first event. */
  lemma {:induction false} FeedArray(root: Schema, below: seq<Context>, t: Schema, j: Json)
    requires j.JArray? && OwnOk(t, j)
    ensures FeedAll(Validator(root, below + [NewContext(t, StartArray)], true), Events(j)[1..])
         == if Conforms(t, j) then Validator(root, ForwardAll(below, Events(j)[1..]), true) else Invalid(root)
    decreases j, t, 2
  {
    hide Feed, ForwardAll, AdvanceAll, NewContext, EndOk, ItemsOk;
    var ctx0 := NewContext(t, StartArray);
    NewContextSchema(t, StartArray);
    var end := [EndArray(|j.elements|)];
    var inner := ElementEvents(j.elements);
    assert Events(j)[1..] == inner + end;
    FeedAllAppend(Validator(root, below + [ctx0], true), inner, end);
    FeedElements(root, below, ctx0, j.elements);
    if !ItemsOk(t, 0, j.elements) {
      InvalidStays(Invalid(root), end);
      assert !ElementsOk(t, j.elements) by { ItemsMeaning(t, j.elements); }
      return;
    }
    ItemsMeaning(t, j.elements);
    var ctx1 := AfterElements(ctx0, j.elements);
    FeedEnd(root, below, ctx1, inner, end[0]);
    var top := AdvanceAll(ctx1, inner + end);
    SameFields(ctx1, inner + end);
    AdvanceKeepsElements(ctx0, j.elements, inner + end);
    ParallelVerdicts(t, j, top);
    EndOkMeaning(top, j);
  }

  lemma ItemsMeaning(t: Schema, es: seq<Json>)
    ensures ElementsOk(t, es) == (ItemsOk(t, 0, es) && t.minItems <= |es| && AtMost(|es|, t.maxItems))
  {
    hide Conforms, ItemSchema;
    if ItemsOk(t, 0, es) {
      forall k | 0 <= k < |es| ensures ItemSchema(t, k).Some? && Conforms(ItemSchema(t, k).value, es[k]) {
        assert ItemOk(t, 0 + k, es[k]);
      }
    }
  }

  /** The event that ends a container. */
  lemma FeedEnd(root: Schema, below: seq<Context>, ctx: Context, evs: seq<Event>, ev: Event)
    requires ev.EndArray? || ev.EndObject?
    ensures FeedAll(Open(root, below, ctx, evs), [ev])
         == (var top := AdvanceAll(ctx, evs + [ev]);
             if (if ev.EndArray? then EndArrayOk(top, ev.elementCount) else EndObjectOk(top, ev.memberCount))
             then Settle(root, ForwardAll(below, evs + [ev]), top) else Invalid(root))
  {
    hide EndOk, EndObjectOk, AdvanceAll, ForwardAll;
    var v := Open(root, below, ctx, evs);
    assert [ev][1..] == [];
    ForwardOne(v.stack, ev);
    ForwardSplit(ForwardAll(below, evs), AdvanceAll(ctx, evs), [ev]);
    ForwardAppend(below, evs, [ev]);
    AdvanceAppend(ctx, evs, [ev]);
    var stack := Forward(v.stack, ev);
    assert Below(stack) == ForwardAll(below, evs + [ev]) && Top(stack) == AdvanceAll(ctx, evs + [ev]);
  }

  /** The rest of an object, after its first event. */
  lemma {:induction false} FeedObject(root: Schema, below: seq<Context>, t: Schema, j: Json)
    requires j.JObject? && OwnOk(t, j)
    ensures FeedAll(Validator(root, below + [NewContext(t, StartObject)], true), Events(j)[1..])
         == if Conforms(t, j) then Validator(root, ForwardAll(below, Events(j)[1..]), true) else Invalid(root)
    decreases j, t, 2
  {
    hide Feed, ForwardAll, AdvanceAll, NewContext, EndOk, EachMemberOk, EndObjectOk, Recorded, Present;
    var ctx0 := NewContext(t, StartObject);
    NewContextSchema(t, StartObject);
    var end := [EndObject(|j.members|)];
    var inner := MemberEvents(j.members);
    assert Events(j)[1..] == inner + end;
    FeedAllAppend(Validator(root, below + [ctx0], true), inner, end);
    FeedMembers(root, below, ctx0, j.members);
    if !EachMemberOk(t, j.members) {
      InvalidStays(Invalid(root), end);
      assert !MembersOk(t, j.members) by { MembersMeaning(t, j.members); }
      return;
    }
    var ctx1 := AfterMembers(ctx0, j.members);
    FeedEnd(root, below, ctx1, inner, end[0]);
    var top := AdvanceAll(ctx1, inner + end);
    SameFields(ctx1, inner + end);
    AfterMembersFields(ctx0, j.members);
    AdvanceValidators(ctx1, ctx0, inner + end);
    ParallelVerdicts(t, j, top);
    EndOkMeaning(top, j);
    RecordedAtEnd(t, j.members, top);
    EndObjectMeaning(top, j);
  }

  lemma MembersMeaning(t: Schema, ms: seq<Member>)
    ensures MembersOk(t, ms) ==> EachMemberOk(t, ms)
  {
    hide Conforms;
  }

  lemma AdvanceValidators(a: Context, b: Context, evs: seq<Event>)
    requires a.validators == b.validators
    ensures AdvanceAll(a, evs).validators == AdvanceAll(b, evs).validators
  {
  }

  lemma RecordedAtEnd(t: Schema, ms: seq<Member>, top: Context)
    requires EachMemberOk(t, ms)
    requires top.propertyExist == AfterMembers(NewContext(t, StartObject), ms).propertyExist
    ensures TracksProperties(t) ==>
      forall i :: 0 <= i < |t.properties| ==> Recorded(top, i) == Present(t, ms, i)
    ensures !TracksProperties(t) ==> top.propertyExist == []
  {
    hide Conforms, NewContext, EachMemberOk;
    var ctx0 := NewContext(t, StartObject);
    NewContextSchema(t, StartObject);
    if TracksProperties(t) {
      forall i | 0 <= i < |t.properties| ensures Recorded(top, i) == Present(t, ms, i) {
        RecordedMeaning(ctx0, ms, i);
      }
    } else {
      NothingRecorded(ctx0, ms);
    }
  }

  lemma {:induction false} NothingRecorded(ctx: Context, ms: seq<Member>)
    requires ctx.propertyExist == []
    ensures AfterMembers(ctx, ms).propertyExist == []
    decreases |ms|
  {
    if ms != [] && KeySeen(ctx, ms[0].name).Some? {
      NothingRecorded(KeySeen(ctx, ms[0].name).value, ms[1..]);
    }
  }

  /** Streaming validation of a whole document: for every schema and every value, however deeply parallel
      validators are nested in one another, the verdict is that of the recursive check; and a valid run
      leaves no context behind. */
  lemma StreamingDecidesConformance(s: Schema, j: Json)
    ensures FeedAll(Fresh(s), Events(j)) == if Conforms(s, j) then Fresh(s) else Invalid(s)
  {
    FeedValue(Fresh(s), [], s, j);
    assert ForwardAll([], Events(j)) == [];
  }
}
