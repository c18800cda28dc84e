/** `GenericSchemaValidator` on values: a stack of contexts, one per open value, each holding the validators
    that run in parallel for its combining keywords and its schema dependencies; and the proof that feeding
    it the events of a value decides exactly whether the value conforms. */
module SchemaStream {
  import opened JsonEvents
  import opened JsonValues
  import opened SchemaModel

  datatype Validator = Validator(root: Schema, stack: seq<Context>, valid: bool)

  datatype Context = Context(
    schema: Schema,
    valueSchema: Option<Schema>,
    validators: seq<Validator>,
    arrayElementIndex: nat,
    inArray: bool,
    propertyExist: seq<bool>)

  function Fresh(s: Schema): Validator {
    Validator(s, [], true)
  }

  /** A validator that has failed; it ignores all further events. */
  function Invalid(root: Schema): Validator {
    Validator(root, [], false)
  }

  // ---- The keywords checked when a value begins

  /** `CheckInt`, for a value known to fit a signed 64-bit integer. */
  predicate CheckInt(s: Schema, i: int) {
    && (IntegerType in s.types || NumberType in s.types)
    && (s.minimum.Some? ==>
          if s.minimum.value < INT64_LIMIT
          then !(if s.exclusiveMinimum then i <= s.minimum.value else i < s.minimum.value)
          else false)
    && (s.maximum.Some? ==>
          if s.maximum.value < INT64_LIMIT
          then !(if s.exclusiveMaximum then i >= s.maximum.value else i > s.maximum.value)
          else true)
    && (s.multipleOf.Some? && s.multipleOf.value > 0 ==> (if i >= 0 then i else -i) % s.multipleOf.value == 0)
  }

  /** `CheckUint`, for a value known to fit an unsigned 64-bit integer. */
  predicate CheckUint(s: Schema, u: nat) {
    && (IntegerType in s.types || NumberType in s.types)
    && (s.minimum.Some? ==>
          if s.minimum.value >= 0
          then !(if s.exclusiveMinimum then u <= s.minimum.value else u < s.minimum.value)
          else true)
    && (s.maximum.Some? ==>
          if s.maximum.value >= 0
          then !(if s.exclusiveMaximum then u >= s.maximum.value else u > s.maximum.value)
          else false)
    && (s.multipleOf.Some? && s.multipleOf.value > 0 ==> u % s.multipleOf.value == 0)
  }

  predicate BeginOk(s: Schema, ev: Event) {
    match ev
    case Null => NullType in s.types
    case Bool(_) => BooleanType in s.types
    case Int(i) => CheckInt(s, i)
    case Int64(i) => CheckInt(s, i)
    case Uint(u) => CheckUint(s, u)
    case Uint64(u) => CheckUint(s, u)
    case Double(literal) => NumberType in s.types && s.acceptsDouble(literal)
    case RawNumber(digits) => StringType in s.types && s.acceptsString(digits)
    case Str(str) => StringType in s.types && s.acceptsString(str)
    case StartObject => ObjectType in s.types
    case StartArray => ArrayType in s.types
    case _ => false
  }

  // ---- Parallel validators

  function OfOption(o: Option<Schema>): seq<Schema> {
    if o.Some? then [o.value] else []
  }

  function DependencySchemas(ps: seq<Property>): (r: seq<Schema>) {
    if ps == [] then []
    else (if ps[0].dependency.OnSchema? then [ps[0].dependency.schema] else []) + DependencySchemas(ps[1..])
  }

  /** The schemas that need a validator of their own, in slot order. */
  function Subschemas(s: Schema): seq<Schema> {
    s.allOf + s.anyOf + s.oneOf + OfOption(s.negated) + DependencySchemas(s.properties)
  }

  function AnyOfBegin(s: Schema): nat { |s.allOf| }
  function OneOfBegin(s: Schema): nat { AnyOfBegin(s) + |s.anyOf| }
  function NotIndex(s: Schema): nat { OneOfBegin(s) + |s.oneOf| }

  /** The slot of the schema that property `i` depends on. */
  function DependencyIndex(s: Schema, i: nat): nat
    requires i <= |s.properties|
  {
    NotIndex(s) + |OfOption(s.negated)| + |DependencySchemas(s.properties[..i])|
  }

  lemma {:induction false} DependencySlots(ps: seq<Property>, i: nat)
    requires i < |ps| && ps[i].dependency.OnSchema?
    ensures |DependencySchemas(ps[..i])| < |DependencySchemas(ps)|
    ensures DependencySchemas(ps)[|DependencySchemas(ps[..i])|] == ps[i].dependency.schema
  {
    if i > 0 {
      assert ps[..i][1..] == ps[1..][..i - 1];
      DependencySlots(ps[1..], i - 1);
    }
  }

  lemma {:induction false} DependencySmaller(ps: seq<Property>, k: nat)
    requires k < |DependencySchemas(ps)|
    ensures exists i :: 0 <= i < |ps| && ps[i].dependency == OnSchema(DependencySchemas(ps)[k])
  {
    var n := if ps[0].dependency.OnSchema? then 1 else 0;
    if k < n {
      assert ps[0].dependency == OnSchema(DependencySchemas(ps)[k]);
    } else {
      DependencySmaller(ps[1..], k - n);
      var i :| 0 <= i < |ps[1..]| && ps[1..][i].dependency == OnSchema(DependencySchemas(ps[1..])[k - n]);
      assert ps[i + 1].dependency == OnSchema(DependencySchemas(ps)[k]);
    }
  }

  lemma SubschemaSmaller(s: Schema, k: nat)
    requires k < |Subschemas(s)|
    ensures s decreases to Subschemas(s)[k]
  {
    var d := NotIndex(s) + |OfOption(s.negated)|;
    if k >= d {
      DependencySmaller(s.properties, k - d);
      assert Subschemas(s)[k] == DependencySchemas(s.properties)[k - d];
      var i :| 0 <= i < |s.properties| && s.properties[i].dependency == OnSchema(Subschemas(s)[k]);
    } else if k == NotIndex(s) && s.negated.Some? {
      assert Subschemas(s)[k] == s.negated.value;
    } else if k < |s.allOf| {
      assert Subschemas(s)[k] == s.allOf[k];
    } else if k < OneOfBegin(s) {
      assert Subschemas(s)[k] == s.anyOf[k - AnyOfBegin(s)];
    } else {
      assert Subschemas(s)[k] == s.oneOf[k - OneOfBegin(s)];
    }
  }

  /** Whether the presence of properties is recorded. */
  predicate TracksProperties(s: Schema) {
    exists i :: 0 <= i < |s.properties| && (s.properties[i].required || !s.properties[i].dependency.Independent?)
  }

  /** The context of a value that has just begun with `ev`: its parallel validators have seen `ev` too. */
  function NewContext(s: Schema, ev: Event): Context
    decreases s, 1
  {
    var subs := Subschemas(s);
    Context(s, None,
            seq(|subs|, i requires 0 <= i < |subs| => SubschemaSmaller(s, i); First(subs[i], ev)),
            0, ev.StartArray?,
            if ev.StartObject? && TracksProperties(s) then seq(|s.properties|, i => false) else [])
  }

  /** A new validator after its first event. */
  function First(s: Schema, ev: Event): Validator
    decreases s, 2
  {
    if !BeginOk(s, ev) then Invalid(s) else Begun(s, [], NewContext(s, ev), ev)
  }

  /** The validator once a value has begun: a container stays open, a scalar ends at once. */
  function Begun(root: Schema, below: seq<Context>, ctx: Context, ev: Event): Validator {
    if ev.StartObject? || ev.StartArray? then Validator(root, below + [ctx], true)
    else Settle(root, below, ctx)
  }

  // ---- The keywords checked when a value ends

  predicate SlotOk(ctx: Context, i: nat) {
    i < |ctx.validators| && ctx.validators[i].valid
  }

  /** The verdicts in a range of slots. */
  function Slots(ctx: Context, begin: nat, count: nat): (oks: seq<bool>)
    ensures |oks| == count
  {
    seq(count, (i: nat) => SlotOk(ctx, begin + i))
  }

  predicate EndOk(ctx: Context) {
    var s := ctx.schema;
    && AllTrue(Slots(ctx, 0, |s.allOf|))
    && (s.anyOf != [] ==> AnyTrue(Slots(ctx, AnyOfBegin(s), |s.anyOf|)))
    && (s.oneOf != [] ==> OneTrue(Slots(ctx, OneOfBegin(s), |s.oneOf|)))
    && (s.negated.Some? ==> !SlotOk(ctx, NotIndex(s)))
  }

  /** A value ends: its context is popped if its combining keywords are satisfied. */
  function Settle(root: Schema, below: seq<Context>, ctx: Context): Validator {
    if EndOk(ctx) then Validator(root, below, true) else Invalid(root)
  }

  predicate Recorded(ctx: Context, i: nat) {
    i < |ctx.propertyExist| && ctx.propertyExist[i]
  }

  predicate EndObjectOk(ctx: Context, memberCount: nat) {
    var s := ctx.schema;
    && (forall i :: 0 <= i < |s.properties| && s.properties[i].required ==> Recorded(ctx, i))
    && s.minProperties <= memberCount && AtMost(memberCount, s.maxProperties)
    && (forall i :: 0 <= i < |s.properties| && Recorded(ctx, i) ==>
          match s.properties[i].dependency
          case Independent => true
          case OnProperties(targets) => forall t <- targets :: t < |s.properties| ==> Recorded(ctx, t)
          case OnSchema(_) => SlotOk(ctx, DependencyIndex(s, i)))
  }

  predicate EndArrayOk(ctx: Context, elementCount: nat) {
    ctx.schema.minItems <= elementCount && AtMost(elementCount, ctx.schema.maxItems)
  }

  // ---- One event

  /** The stack once the value about to begin has been given a schema, and that schema; none if the
      innermost array admits no further item. */
  function BeginValue(root: Schema, stack: seq<Context>): Option<(seq<Context>, Schema)> {
    if stack == [] then Some(([], root)) else
    var top := stack[|stack| - 1];
    if top.inArray then
      match ItemSchema(top.schema, top.arrayElementIndex)
      case None => None
      case Some(t) =>
        var top' := top.(valueSchema := Some(t), arrayElementIndex := top.arrayElementIndex + 1);
        Some((stack[..|stack| - 1] + [top'], t))
    else if top.valueSchema.Some? then Some((stack, top.valueSchema.value))
    else None
  }

  function KeySeen(ctx: Context, name: string): Option<Context> {
    match MemberSchema(ctx.schema, name)
    case None => None
    case Some(t) =>
      var found := FindProperty(ctx.schema.properties, name);
      Some(ctx.(valueSchema := Some(t),
                propertyExist := if found.Some? && found.value < |ctx.propertyExist|
                                 then ctx.propertyExist[found.value := true] else ctx.propertyExist))
  }

  /** The stack with an event handed to every parallel validator of every context. */
  function Forward(stack: seq<Context>, ev: Event): (r: seq<Context>)
    ensures |r| == |stack|
    decreases stack
  {
    seq(|stack|, i requires 0 <= i < |stack| => Advance(stack[i], ev))
  }

  function Advance(ctx: Context, ev: Event): Context
    decreases ctx
  {
    ctx.(validators := seq(|ctx.validators|, i requires 0 <= i < |ctx.validators| => Feed(ctx.validators[i], ev)))
  }

  /** One event.  Handing it to the parallel validators touches only them, and the validator's own work
      only the rest of the contexts, so the order of the two does not matter. */
  function Feed(v: Validator, ev: Event): (r: Validator)
    decreases v
  {
    if !v.valid then v else
    var stack := Forward(v.stack, ev);
    match ev
    case Key(name) => FeedKey(v.root, stack, name)
    case EndObject(memberCount) => FeedEndObject(v.root, stack, memberCount)
    case EndArray(elementCount) => FeedEndArray(v.root, stack, elementCount)
    case _ => FeedBegin(v.root, stack, ev)
  }

  function Below(stack: seq<Context>): seq<Context>
    requires stack != []
  {
    stack[..|stack| - 1]
  }

  function Top(stack: seq<Context>): Context
    requires stack != []
  {
    stack[|stack| - 1]
  }

  function FeedKey(root: Schema, stack: seq<Context>, name: string): Validator {
    if stack == [] then Invalid(root)
    else match KeySeen(Top(stack), name)
      case None => Invalid(root)
      case Some(top) => Validator(root, Below(stack) + [top], true)
  }

  function FeedEndObject(root: Schema, stack: seq<Context>, memberCount: nat): Validator {
    if stack == [] || !EndObjectOk(Top(stack), memberCount) then Invalid(root)
    else Settle(root, Below(stack), Top(stack))
  }

  function FeedEndArray(root: Schema, stack: seq<Context>, elementCount: nat): Validator {
    if stack == [] || !EndArrayOk(Top(stack), elementCount) then Invalid(root)
    else Settle(root, Below(stack), Top(stack))
  }

  function FeedBegin(root: Schema, stack: seq<Context>, ev: Event): Validator {
    match BeginValue(root, stack)
    case None => Invalid(root)
    case Some(begun) =>
      if BeginOk(begun.1, ev) then Begun(root, begun.0, NewContext(begun.1, ev), ev) else Invalid(root)
  }

  /** A sequence of events. */
  function FeedAll(v: Validator, evs: seq<Event>): Validator
    decreases |evs|
  {
    if evs == [] then v else FeedAll(Feed(v, evs[0]), evs[1..])
  }
}
