/** JSON Schema validation: compiled schemas, what it means for a value to conform to one, and the
    streaming validator that must decide the same thing from the events alone. */
module SchemaModel {
  import opened JsonEvents
  import opened JsonValues

  datatype JsonType = NullType | BooleanType | ObjectType | ArrayType | StringType | NumberType | IntegerType

  /** A compiled schema.  The property table holds every name that occurs in `properties`, `required` or
      `dependencies`; a name that is only required or depended on has the schema that accepts anything. */
  datatype Schema = Schema(
    types: set<JsonType>,
    allOf: seq<Schema>,
    anyOf: seq<Schema>,
    oneOf: seq<Schema>,
    negated: Option<Schema>,
    properties: seq<Property>,
    additionalProperties: Additional,
    minProperties: nat,
    maxProperties: Option<nat>,
    items: Items,
    minItems: nat,
    maxItems: Option<nat>,
    minimum: Option<Integer>,
    maximum: Option<Integer>,
    exclusiveMinimum: bool,
    exclusiveMaximum: bool,
    multipleOf: Option<nat>,
    acceptsDouble: string -> bool,  // what the comparisons of doubles decide
    acceptsString: string -> bool)  // what the length limits and the pattern decide

  /** What the schema says of members or items it does not list. */
  datatype Additional = Allowed | Forbidden | Matching(schema: Schema)

  datatype Items = AnyItems | ListItems(each: Schema) | TupleItems(first: seq<Schema>, rest: Additional)

  datatype Property = Property(name: string, schema: Schema, required: bool, dependency: Dependency)

  /** What the presence of a property asks for: other properties, by index, or a schema for the whole object. */
  datatype Dependency = Independent | OnProperties(targets: set<nat>) | OnSchema(schema: Schema)

  const ALL_TYPES: set<JsonType> :=
    {NullType, BooleanType, ObjectType, ArrayType, StringType, NumberType, IntegerType}

  /** The schema that accepts every value. */
  const TYPELESS: Schema :=
    Schema(ALL_TYPES, [], [], [], None, [], Allowed, 0, None, AnyItems, 0, None, None, None, false, false, None,
           _ => true, _ => true)

  // ---- Conformance, by recursion over the whole value

  /** The keywords that look at the value itself: its type and, for scalars, its limits. */
  predicate OwnOk(s: Schema, v: Json) {
    match v
    case JNull => NullType in s.types
    case JBool(_) => BooleanType in s.types
    case JInt(i) => (IntegerType in s.types || NumberType in s.types) && InRange(s, i)
    case JDouble(literal) => NumberType in s.types && s.acceptsDouble(literal)
    case JString(str) => StringType in s.types && s.acceptsString(str)
    case JArray(_) => ArrayType in s.types
    case JObject(_) => ObjectType in s.types
  }

  predicate InRange(s: Schema, i: int) {
    && (s.minimum.Some? ==> if s.exclusiveMinimum then s.minimum.value < i else s.minimum.value <= i)
    && (s.maximum.Some? ==> if s.exclusiveMaximum then i < s.maximum.value else i <= s.maximum.value)
    && (s.multipleOf.Some? && s.multipleOf.value > 0 ==> (if i >= 0 then i else -i) % s.multipleOf.value == 0)
  }

  predicate AtMost(n: nat, limit: Option<nat>) {
    limit.Some? ==> n <= limit.value
  }

  /** The first index with the given property name. */
  function FindProperty(ps: seq<Property>, name: string): (r: Option<nat>)
    ensures r.Some? ==> r.value < |ps| && ps[r.value].name == name
    ensures r.None? ==> forall i :: 0 <= i < |ps| ==> ps[i].name != name
  {
    if ps == [] then None
    else if ps[0].name == name then Some(0)
    else match FindProperty(ps[1..], name)
      case None => None
      case Some(i) => Some(i + 1)
  }

  /** The schema for a member with the given name; none if such a member is not allowed. */
  function MemberSchema(s: Schema, name: string): Option<Schema> {
    match FindProperty(s.properties, name)
    case Some(i) => Some(s.properties[i].schema)
    case None => AdditionalSchema(s.additionalProperties)
  }

  function AdditionalSchema(a: Additional): Option<Schema> {
    match a
    case Allowed => Some(TYPELESS)
    case Forbidden => None
    case Matching(t) => Some(t)
  }

  /** The schema for the item at index `i`; none if such an item is not allowed. */
  function ItemSchema(s: Schema, i: nat): Option<Schema> {
    match s.items
    case AnyItems => Some(TYPELESS)
    case ListItems(each) => Some(each)
    case TupleItems(first, rest) => if i < |first| then Some(first[i]) else AdditionalSchema(rest)
  }

  /** Whether an object has a member that the schema's property table lists at index `i`. */
  predicate Present(s: Schema, members: seq<Member>, i: nat) {
    exists k :: 0 <= k < |members| && FindProperty(s.properties, members[k].name) == Some(i)
  }

  predicate AllTrue(oks: seq<bool>) {
    forall i :: 0 <= i < |oks| ==> oks[i]
  }

  predicate AnyTrue(oks: seq<bool>) {
    exists i :: 0 <= i < |oks| && oks[i]
  }

  predicate OneTrue(oks: seq<bool>) {
    exists i :: 0 <= i < |oks| && oks[i] && (forall k :: 0 <= k < |oks| && oks[k] ==> k == i)
  }

  /** What each of several schemas says of a value. */
  ghost function Verdicts(ss: seq<Schema>, v: Json): (oks: seq<bool>)
    ensures |oks| == |ss|
    decreases v, ss
  {
    seq(|ss|, i requires 0 <= i < |ss| => Conforms(ss[i], v))
  }

  /** The keywords that combine the verdicts of other schemas on the same value. */
  ghost predicate CombinedOk(s: Schema, v: Json)
    decreases v, s, 0
  {
    && AllTrue(Verdicts(s.allOf, v))
    && (s.anyOf != [] ==> AnyTrue(Verdicts(s.anyOf, v)))
    && (s.oneOf != [] ==> OneTrue(Verdicts(s.oneOf, v)))
    && (s.negated.Some? ==> !Conforms(s.negated.value, v))
  }

  ghost predicate ElementsOk(s: Schema, elements: seq<Json>)
    decreases elements, s, 0
  {
    && (forall k :: 0 <= k < |elements| ==>
          ItemSchema(s, k).Some? && Conforms(ItemSchema(s, k).value, elements[k]))
    && s.minItems <= |elements| && AtMost(|elements|, s.maxItems)
  }

  ghost predicate MembersOk(s: Schema, members: seq<Member>)
    decreases members, s, 0
  {
    && (forall k :: 0 <= k < |members| ==>
          MemberSchema(s, members[k].name).Some? &&
          Conforms(MemberSchema(s, members[k].name).value, members[k].value))
    && s.minProperties <= |members| && AtMost(|members|, s.maxProperties)
    && (forall i :: 0 <= i < |s.properties| && s.properties[i].required ==> Present(s, members, i))
  }

  /** Every property that is present has what it depends on. */
  ghost predicate DependenciesOk(s: Schema, v: Json)
    requires v.JObject?
    decreases v, s, 0
  {
    forall i :: 0 <= i < |s.properties| && Present(s, v.members, i) ==>
      match s.properties[i].dependency
      case Independent => true
      case OnProperties(targets) => forall t <- targets :: t < |s.properties| ==> Present(s, v.members, t)
      case OnSchema(d) => Conforms(d, v)
  }

  ghost predicate Conforms(s: Schema, v: Json)
    decreases v, s, 1
  {
    && OwnOk(s, v)
    && CombinedOk(s, v)
    && (v.JArray? ==> ElementsOk(s, v.elements))
    && (v.JObject? ==> MembersOk(s, v.members) && DependenciesOk(s, v))
  }
}
