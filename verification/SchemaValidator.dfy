/** `GenericSchemaValidator` as an object: a schema stack and a validity flag updated by each event.  The
    parallel validators inside a context have one owner and are values of the same shape (`Validator`). */
module SchemaValidators {
  import opened JsonEvents
  import opened JsonValues
  import opened SchemaModel
  import opened SchemaStream
  import opened SchemaProof

  class GenericSchemaValidator {
    const root: Schema
    var schemaStack: seq<Context>
    var valid: bool

    constructor (s: Schema)
      ensures root == s && View() == Fresh(s)
    {
      root := s;
      schemaStack, valid := [], true;
    }

    /** The validator as a value; what a failed one has on its stack no longer matters. */
    function View(): Validator
      reads this
    {
      if valid then Validator(root, schemaStack, true) else Invalid(root)
    }

    /** The order of events a reader keeps to: a value comes first, in an array, or after its name. */
    predicate ValueMayBegin()
      reads this
    {
      schemaStack == [] || Top(schemaStack).inArray || Top(schemaStack).valueSchema.Some?
    }

    // ---- The schema's part: keywords of the current context

    method FindPropertyIndex(s: Schema, name: string) returns (index: nat, found: bool)
      ensures FindProperty(s.properties, name) == if found then Some(index) else None
    {
      index := 0;
      while index < |s.properties|
        invariant index <= |s.properties|
        invariant FindProperty(s.properties, name)
               == match FindProperty(s.properties[index..], name) case None => None case Some(i) => Some(index + i)
      {
        if s.properties[index].name == name { return index, true; }
        assert s.properties[index..][1..] == s.properties[index + 1..];
        index := index + 1;
      }
      found := false;
    }

    /** `Schema::BeginValue`: an array gives its next item a schema. */
    method ChooseItemSchema() returns (ok: bool)
      requires schemaStack != []
      modifies this`schemaStack
      ensures var top := Top(old(schemaStack));
        if !top.inArray then ok && schemaStack == old(schemaStack)
        else match ItemSchema(top.schema, top.arrayElementIndex)
          case None => !ok && schemaStack == old(schemaStack)
          case Some(t) =>
            ok && schemaStack == Below(old(schemaStack))
                              + [top.(valueSchema := Some(t), arrayElementIndex := top.arrayElementIndex + 1)]
    {
      var top := Top(schemaStack);
      if top.inArray {
        match top.schema.items {
          case ListItems(each) => top := top.(valueSchema := Some(each));
          case AnyItems => top := top.(valueSchema := Some(TYPELESS));
          case TupleItems(first, rest) =>
            if top.arrayElementIndex < |first| {
              top := top.(valueSchema := Some(first[top.arrayElementIndex]));
            } else {
              match rest {
                case Matching(t) => top := top.(valueSchema := Some(t));
                case Allowed => top := top.(valueSchema := Some(TYPELESS));
                case Forbidden => return false;
              }
            }
        }
        top := top.(arrayElementIndex := top.arrayElementIndex + 1);
        schemaStack := Below(schemaStack) + [top];
      }
      ok := true;
    }

    static lemma FreshSubschemas(s: Schema)
      ensures FreshAll(Subschemas(s)) == FreshAll(s.allOf) + FreshAll(s.anyOf) + FreshAll(s.oneOf)
        + FreshAll(OfOption(s.negated)) + FreshAll(DependencySchemas(s.properties))
    {
    }

    /** One validator for each dependency that is a schema, in property order. */
    static method CreateDependencyValidators(before: seq<Validator>, ps: seq<Property>) returns (vs: seq<Validator>)
      ensures vs == before + FreshAll(DependencySchemas(ps))
    {
      hide FreshAll;
      vs := before;
      var i := 0;
      assert ps[0..] == ps;
      while i < |ps|
        invariant i <= |ps| && vs + FreshAll(DependencySchemas(ps[i..])) == before + FreshAll(DependencySchemas(ps))
      {
        NextDependency(ps, i);
        ghost var was, rest := vs, FreshAll(DependencySchemas(ps[i + 1..]));
        if ps[i].dependency.OnSchema? {
          vs := vs + [Fresh(ps[i].dependency.schema)];
          assert was + ([Fresh(ps[i].dependency.schema)] + rest) == vs + rest;
        }
        i := i + 1;
      }
      NoDependencies();
      assert ps[i..] == [] && vs + [] == vs;
    }

    static lemma NoDependencies()
      ensures FreshAll(DependencySchemas([])) == []
    {
    }

    static lemma NextDependency(ps: seq<Property>, i: nat)
      requires i < |ps|
      ensures FreshAll(DependencySchemas(ps[i..]))
           == (if ps[i].dependency.OnSchema? then [Fresh(ps[i].dependency.schema)] else [])
            + FreshAll(DependencySchemas(ps[i + 1..]))
    {
      assert ps[i..][1..] == ps[i + 1..];
    }

    method CreateParallelValidators()
      requires schemaStack != []
      modifies this`schemaStack
      ensures schemaStack == Below(old(schemaStack))
           + [Top(old(schemaStack)).(validators := FreshAll(Subschemas(Top(old(schemaStack)).schema)))]
    {
      hide FreshAll, Subschemas;
      var s := Top(schemaStack).schema;
      FreshSubschemas(s);
      var vs := CreateSchemaValidators([], s.allOf);
      vs := CreateSchemaValidators(vs, s.anyOf);
      vs := CreateSchemaValidators(vs, s.oneOf);
      vs := CreateSchemaValidators(vs, OfOption(s.negated));
      vs := CreateDependencyValidators(vs, s.properties);
      assert [] + FreshAll(s.allOf) == FreshAll(s.allOf);
      schemaStack := Below(schemaStack) + [Top(schemaStack).(validators := vs)];
    }

    static function FreshAll(ss: seq<Schema>): (vs: seq<Validator>)
      ensures |vs| == |ss|
    {
      seq(|ss|, i requires 0 <= i < |ss| => Fresh(ss[i]))
    }

    static method CreateSchemaValidators(before: seq<Validator>, ss: seq<Schema>) returns (vs: seq<Validator>)
      ensures vs == before + FreshAll(ss)
    {
      vs := before;
      for i := 0 to |ss|
        invariant vs == before + FreshAll(ss[..i])
      {
        vs := vs + [Fresh(ss[i])];
      }
      assert ss[..|ss|] == ss;
    }

    /** `Schema::EndValue`: the combining keywords ask the parallel validators. */
    method CombiningKeywordsHold() returns (ok: bool)
      requires schemaStack != []
      ensures ok == EndOk(Top(schemaStack))
    {
      var ctx := Top(schemaStack);
      var s := ctx.schema;
      var all := Slots(ctx, 0, |s.allOf|);
      for i := 0 to |s.allOf|
        invariant forall k :: 0 <= k < i ==> all[k]
      {
        if !SlotOk(ctx, i) {
          assert !all[i];
          return false;
        }
      }
      if s.anyOf != [] {
        var any := AnyValid(ctx, AnyOfBegin(s), |s.anyOf|);
        if !any { return false; }
      }
      if s.oneOf != [] {
        var one := OneValid(ctx, OneOfBegin(s), |s.oneOf|);
        if !one { return false; }
      }
      ok := !(s.negated.Some? && SlotOk(ctx, NotIndex(s)));
    }

    static method AnyValid(ctx: Context, begin: nat, count: nat) returns (ok: bool)
      ensures ok == AnyTrue(Slots(ctx, begin, count))
    {
      for i := 0 to count
        invariant forall k :: 0 <= k < i ==> !Slots(ctx, begin, count)[k]
      {
        if SlotOk(ctx, begin + i) {
          assert Slots(ctx, begin, count)[i];
          return true;
        }
      }
      ok := false;
    }

    static method OneValid(ctx: Context, begin: nat, count: nat) returns (oneValid: bool)
      ensures oneValid == OneTrue(Slots(ctx, begin, count))
    {
      ghost var oks := Slots(ctx, begin, count);
      ghost var first := 0;
      oneValid := false;
      for i := 0 to count
        invariant oneValid ==> first < i && oks[first] && forall k :: 0 <= k < i && oks[k] ==> k == first
        invariant !oneValid ==> forall k :: 0 <= k < i ==> !oks[k]
      {
        if SlotOk(ctx, begin + i) {
          assert oks[i];
          if oneValid { return false; }
          oneValid := true;
          first := i;
        }
      }
    }

    method RequiredPropertiesExist() returns (ok: bool)
      requires schemaStack != []
      ensures var ctx := Top(schemaStack);
        ok == forall i :: 0 <= i < |ctx.schema.properties| && ctx.schema.properties[i].required ==> Recorded(ctx, i)
    {
      var ctx := Top(schemaStack);
      for i := 0 to |ctx.schema.properties|
        invariant forall k :: 0 <= k < i && ctx.schema.properties[k].required ==> Recorded(ctx, k)
      {
        if ctx.schema.properties[i].required && !Recorded(ctx, i) { return false; }
      }
      ok := true;
    }

    /** One property's dependency, asked about when the property is there. */
    static predicate DependencyMet(ctx: Context, i: nat)
      requires i < |ctx.schema.properties|
    {
      match ctx.schema.properties[i].dependency
      case Independent => true
      case OnProperties(targets) => forall t <- targets :: t < |ctx.schema.properties| ==> Recorded(ctx, t)
      case OnSchema(_) => SlotOk(ctx, DependencyIndex(ctx.schema, i))
    }

    method DependenciesMet() returns (ok: bool)
      requires schemaStack != []
      ensures var ctx := Top(schemaStack);
        ok == forall i :: 0 <= i < |ctx.schema.properties| && Recorded(ctx, i) ==> DependencyMet(ctx, i)
    {
      var ctx := Top(schemaStack);
      var s := ctx.schema;
      for i := 0 to |s.properties|
        invariant forall k :: 0 <= k < i && Recorded(ctx, k) ==> DependencyMet(ctx, k)
      {
        if Recorded(ctx, i) {
          match s.properties[i].dependency
          case Independent =>
          case OnProperties(targets) =>
            for t := 0 to |s.properties|
              invariant forall k <- targets :: k < t ==> Recorded(ctx, k)
            {
              if t in targets && !Recorded(ctx, t) {
                assert !DependencyMet(ctx, i);
                return false;
              }
            }
          case OnSchema(_) =>
            if !SlotOk(ctx, DependencyIndex(s, i)) {
              assert !DependencyMet(ctx, i);
              return false;
            }
        }
      }
      ok := true;
    }

    // ---- The validator's part: the stack, and the parallel validators of every context

    method BeginTheValue() returns (ok: bool)
      requires ValueMayBegin()
      modifies this`schemaStack
      ensures match BeginValue(root, old(schemaStack))
        case None => !ok
        case Some(begun) => ok && schemaStack == begun.0 + [Context(begun.1, None, [], 0, false, [])]
    {
      ok := true;
      if schemaStack == [] {
        PushSchema(root);
      } else {
        ok := ChooseItemSchema();
        if ok {
          PushSchema(Top(schemaStack).valueSchema.value);
        }
      }
    }

    method PushSchema(s: Schema)
      modifies this`schemaStack
      ensures schemaStack == old(schemaStack) + [Context(s, None, [], 0, false, [])]
    {
      schemaStack := schemaStack + [Context(s, None, [], 0, false, [])];
    }

    /** Hand an event to the parallel validators of every context. */
    method HandleParallel(ev: Event)
      modifies this`schemaStack
      ensures schemaStack == Forward(old(schemaStack), ev)
    {
      ghost var before := schemaStack;
      for i := 0 to |schemaStack|
        invariant |schemaStack| == |before| && schemaStack[i..] == before[i..]
        invariant forall k :: 0 <= k < i ==> schemaStack[k] == Advance(before[k], ev)
      {
        assert schemaStack[i] == schemaStack[i..][0] == before[i];
        var vs := schemaStack[i].validators;
        for k := 0 to |vs|
          invariant |vs| == |before[i].validators| && vs[k..] == before[i].validators[k..]
          invariant forall m :: 0 <= m < k ==> vs[m] == Feed(before[i].validators[m], ev)
        {
          assert vs[k] == vs[k..][0] == before[i].validators[k];
          vs := vs[k := Feed(vs[k], ev)];
        }
        assert vs == Advance(before[i], ev).validators;
        schemaStack := schemaStack[i := schemaStack[i].(validators := vs)];
      }
      assert schemaStack == Forward(before, ev);
    }

    /** `EndValue`: check the combining keywords and leave the value's context. */
    method EndTheValue() returns (ok: bool)
      requires schemaStack != []
      modifies this`schemaStack
      ensures ok == EndOk(Top(old(schemaStack)))
      ensures ok ==> schemaStack == Below(old(schemaStack))
    {
      ok := CombiningKeywordsHold();
      if ok { schemaStack := Below(schemaStack); }
    }

    /** The context of a value that may begin is set up and its parallel validators are made and fed. */
    method SetUpContext(ev: Event)
      requires schemaStack != [] && Begins(ev)
      requires Top(schemaStack) == Context(Top(schemaStack).schema, None, [], 0, false, [])
      modifies this`schemaStack
      ensures schemaStack == ForwardAll(Below(old(schemaStack)), [ev]) + [NewContext(Top(old(schemaStack)).schema, ev)]
    {
      hide Forward, ForwardAll, AdvanceAll, FreshAll, Subschemas;
      ghost var below := Below(schemaStack);
      var ctx := Top(schemaStack);
      if ev.StartObject? && TracksProperties(ctx.schema) {
        ctx := ctx.(propertyExist := seq(|ctx.schema.properties|, i => false));
      } else if ev.StartArray? {
        ctx := ctx.(arrayElementIndex := 0, inArray := true);
      }
      schemaStack := Below(schemaStack) + [ctx];
      CreateParallelValidators();
      ghost var withFresh := Top(schemaStack);
      assert schemaStack == below + [withFresh];
      HandleParallel(ev);
      ForwardOne(below + [withFresh], ev);
      ForwardSplit(below, withFresh, [ev]);
      NewContextFields(ctx.schema, ev);
      NewContextIsFed(withFresh, ev);
    }

    static lemma NewContextFields(s: Schema, ev: Event)
      ensures NewContext(s, ev).schema == s && NewContext(s, ev).valueSchema == None
      ensures NewContext(s, ev).propertyExist
        == if ev.StartObject? && TracksProperties(s) then seq(|s.properties|, i => false) else []
      ensures NewContext(s, ev).arrayElementIndex == 0 && NewContext(s, ev).inArray == ev.StartArray?
    {
    }

    /** The common beginning of a value's handler, up to the parallel validators. */
    method HandleBegin(ev: Event) returns (ok: bool)
      requires valid && ValueMayBegin() && Begins(ev)
      modifies this
      ensures valid == ok
      ensures match BeginValue(root, old(schemaStack))
        case None => !ok
        case Some(begun) =>
          && ok == BeginOk(begun.1, ev)
          && (ok ==> schemaStack == ForwardAll(begun.0, [ev]) + [NewContext(begun.1, ev)])
    {
      hide BeginOk, NewContext, ForwardAll, BeginValue;
      ok := BeginTheValue();
      if !ok {
        valid := false;
        return;
      }
      ok := BeginOk(Top(schemaStack).schema, ev);
      if !ok {
        valid := false;
        return;
      }
      SetUpContext(ev);
    }

    static lemma NewContextIsFed(ctx: Context, ev: Event)
      requires Begins(ev) && ctx.validators == FreshAll(Subschemas(ctx.schema))
      requires ctx == NewContext(ctx.schema, ev).(validators := ctx.validators)
      ensures AdvanceAll(ctx, [ev]) == NewContext(ctx.schema, ev)
    {
      hide BeginOk, FeedAll, First;
      var subs := Subschemas(ctx.schema);
      forall i | 0 <= i < |subs| ensures AdvanceAll(ctx, [ev]).validators[i]
        == NewContext(ctx.schema, ev).validators[i] {
        FirstIsFed(subs[i], ev);
      }
      assert AdvanceAll(ctx, [ev]).validators == NewContext(ctx.schema, ev).validators;
    }

    /** `Null`, `Bool`, `Int`, `Uint`, `Int64`, `Uint64`, `Double`, `RawNumber` and `String`. */
    method ScalarValue(ev: Event) returns (ok: bool)
      requires valid ==> ValueMayBegin()
      requires Begins(ev) && !ev.StartObject? && !ev.StartArray?
      modifies this
      ensures View() == Feed(old(View()), ev) && ok == valid
    {
      if !valid { return false; }
      BeginsAs(View(), ev);
      ok := HandleBegin(ev);
      if ok {
        ok := EndTheValue();
        valid := ok;
      }
    }

    static lemma BeginsAs(v: Validator, ev: Event)
      requires v.valid && Begins(ev)
      ensures Feed(v, ev)
           == match BeginValue(v.root, v.stack)
              case None => Invalid(v.root)
              case Some(begun) =>
                if BeginOk(begun.1, ev)
                then Begun(v.root, ForwardAll(begun.0, [ev]), NewContext(begun.1, ev), ev)
                else Invalid(v.root)
    {
      hide NewContext, BeginOk, ForwardAll, Forward, BeginValue;
      ForwardOne(v.stack, ev);
      BeginForward(v.root, v.stack, [ev]);
    }

    /** `StartObject` and `StartArray`. */
    method Start(ev: Event) returns (ok: bool)
      requires valid ==> ValueMayBegin()
      requires ev.StartObject? || ev.StartArray?
      modifies this
      ensures View() == Feed(old(View()), ev) && ok == valid
    {
      if !valid { return false; }
      BeginsAs(View(), ev);
      ok := HandleBegin(ev);
    }

    /** What a key does to the context of its object. */
    method SelectMember(ctx: Context, name: string) returns (ok: bool, top: Context)
      ensures ok <==> KeySeen(ctx, name).Some?
      ensures ok ==> top == KeySeen(ctx, name).value
    {
      ok, top := true, ctx;
      var index, found := FindPropertyIndex(ctx.schema, name);
      if found {
        top := top.(valueSchema := Some(ctx.schema.properties[index].schema));
        if index < |top.propertyExist| {
          top := top.(propertyExist := top.propertyExist[index := true]);
        }
      } else {
        match ctx.schema.additionalProperties
        case Matching(t) => top := top.(valueSchema := Some(t));
        case Allowed => top := top.(valueSchema := Some(TYPELESS));
        case Forbidden => ok := false;
      }
    }

    method KeyName(name: string) returns (ok: bool)
      requires valid ==> schemaStack != []
      modifies this
      ensures View() == Feed(old(View()), Key(name)) && ok == valid
    {
      hide KeySeen, Forward;
      if !valid { return false; }
      ghost var before := schemaStack;
      var top;
      KeyCommutes(before, name);
      ok, top := SelectMember(Top(schemaStack), name);
      if !ok {
        valid := false;
        return;
      }
      schemaStack := Below(schemaStack) + [top];
      HandleParallel(Key(name));
    }

    static lemma KeyCommutes(stack: seq<Context>, name: string)
      requires stack != []
      ensures KeySeen(Top(stack), name).None? <==> KeySeen(Top(Forward(stack, Key(name))), name).None?
      ensures KeySeen(Top(stack), name).Some? ==>
        Forward(Below(stack) + [KeySeen(Top(stack), name).value], Key(name))
        == Below(Forward(stack, Key(name))) + [KeySeen(Top(Forward(stack, Key(name))), name).value]
    {
      hide Feed;
    }

    method EndObjectValue(memberCount: nat) returns (ok: bool)
      requires valid ==> schemaStack != []
      modifies this
      ensures View() == Feed(old(View()), EndObject(memberCount)) && ok == valid
    {
      hide EndOk, Forward, DependencyIndex;
      if !valid { return false; }
      HandleParallel(EndObject(memberCount));
      var s := Top(schemaStack).schema;
      var required := RequiredPropertiesExist();
      if !required || memberCount < s.minProperties || !AtMost(memberCount, s.maxProperties) {
        valid := false;
        return false;
      }
      var dependencies := DependenciesMet();
      if !dependencies {
        valid := false;
        return false;
      }
      ok := EndTheValue();
      valid := ok;
    }

    method EndArrayValue(elementCount: nat) returns (ok: bool)
      requires valid ==> schemaStack != []
      modifies this
      ensures View() == Feed(old(View()), EndArray(elementCount)) && ok == valid
    {
      hide EndOk, Forward;
      if !valid { return false; }
      HandleParallel(EndArray(elementCount));
      var s := Top(schemaStack).schema;
      if elementCount < s.minItems || !AtMost(elementCount, s.maxItems) {
        valid := false;
        return false;
      }
      ok := EndTheValue();
      valid := ok;
    }
  }
}
