/** What each keyword of a schema asks for, written out: the comparisons, which property a member belongs to and which
    schema an item gets. */
module SchemaMeaning {
  import opened JsonEvents
  import opened JsonValues
  import opened SchemaModel
  import opened SchemaStream
  import opened SchemaReader
  import opened JsonParsedTree

  // ---- The keywords, each by itself

  /** The type, and the limits of integers. */
  predicate ScalarMeets(s: Schema, v: Json) {
    match v
    case JNull => NullType in s.types
    case JBool(_) => BooleanType in s.types
    case JDouble(literal) => NumberType in s.types && s.acceptsDouble(literal)
    case JString(str) => StringType in s.types && s.acceptsString(str)
    case JArray(_) => ArrayType in s.types
    case JObject(_) => ObjectType in s.types
    case JInt(i) =>
      && (IntegerType in s.types || NumberType in s.types)
      && (s.minimum.Some? && !s.exclusiveMinimum ==> s.minimum.value <= i)
      && (s.minimum.Some? && s.exclusiveMinimum ==> s.minimum.value < i)
      && (s.maximum.Some? && !s.exclusiveMaximum ==> i <= s.maximum.value)
      && (s.maximum.Some? && s.exclusiveMaximum ==> i < s.maximum.value)
      && (s.multipleOf.Some? && s.multipleOf.value > 0 ==> i % s.multipleOf.value == 0)
  }

  /** `allOf`, `anyOf`, `oneOf` and `not`. */
  ghost predicate CombinedMeets(s: Schema, v: Json) {
    && (forall i :: 0 <= i < |s.allOf| ==> Conforms(s.allOf[i], v))
    && (s.anyOf == [] || exists i :: 0 <= i < |s.anyOf| && Conforms(s.anyOf[i], v))
    && (s.oneOf == []
        || exists i :: 0 <= i < |s.oneOf| && Conforms(s.oneOf[i], v)
                       && forall k :: 0 <= k < |s.oneOf| && k != i ==> !Conforms(s.oneOf[k], v))
    && (s.negated.Some? ==> !Conforms(s.negated.value, v))
  }

  /** What `additionalItems` and `additionalProperties` ask of a value that nothing else speaks of. */
  ghost predicate AdditionalMeets(a: Additional, v: Json) {
    a.Allowed? || (a.Matching? && Conforms(a.schema, v))
  }

  ghost predicate ItemMeets(s: Schema, k: nat, v: Json) {
    match s.items
    case AnyItems => true
    case ListItems(each) => Conforms(each, v)
    case TupleItems(first, rest) => if k < |first| then Conforms(first[k], v) else AdditionalMeets(rest, v)
  }

  ghost predicate ArrayMeets(s: Schema, es: seq<Json>) {
    && s.minItems <= |es| && (s.maxItems.Some? ==> |es| <= s.maxItems.value)
    && (forall k :: 0 <= k < |es| ==> ItemMeets(s, k, es[k]))
  }

  /** Whether a property is the first of its name, and some member has that name. */
  predicate IsThere(s: Schema, ms: seq<Member>, i: nat)
    requires i < |s.properties|
  {
    && (forall j :: 0 <= j < i ==> s.properties[j].name != s.properties[i].name)
    && (exists k :: 0 <= k < |ms| && ms[k].name == s.properties[i].name)
  }

  /** A member conforms to the first property of its name, or to what is asked of additional ones. */
  ghost predicate MemberMeets(s: Schema, m: Member) {
    var ps := s.properties;
    && (forall i :: 0 <= i < |ps| && ps[i].name == m.name && (forall j :: 0 <= j < i ==> ps[j].name != m.name) ==>
          Conforms(ps[i].schema, m.value))
    && ((forall i :: 0 <= i < |ps| ==> ps[i].name != m.name) ==> AdditionalMeets(s.additionalProperties, m.value))
  }

  ghost predicate ObjectMeets(s: Schema, ms: seq<Member>) {
    var ps := s.properties;
    && s.minProperties <= |ms| && (s.maxProperties.Some? ==> |ms| <= s.maxProperties.value)
    && (forall k :: 0 <= k < |ms| ==> MemberMeets(s, ms[k]))
    && (forall i :: 0 <= i < |ps| && ps[i].required ==> IsThere(s, ms, i))
    && (forall i, t
          | 0 <= i < |ps| && IsThere(s, ms, i) && ps[i].dependency.OnProperties? && t in ps[i].dependency.targets
          :: t < |ps| ==> IsThere(s, ms, t))
    && (forall i :: 0 <= i < |ps| && IsThere(s, ms, i) && ps[i].dependency.OnSchema? ==>
          Conforms(ps[i].dependency.schema, JObject(ms)))
  }

  ghost predicate Meets(s: Schema, v: Json) {
    && ScalarMeets(s, v) && CombinedMeets(s, v)
    && (v.JArray? ==> ArrayMeets(s, v.elements))
    && (v.JObject? ==> ObjectMeets(s, v.members))
  }

  // ---- They are what conformance is

  /** The schema that asks for nothing accepts every value. */
  lemma {:induction false} TypelessAccepts(v: Json)
    ensures Conforms(TYPELESS, v)
    decreases v
  {
    match v
    case JArray(es) => forall k | 0 <= k < |es| ensures Conforms(TYPELESS, es[k]) { TypelessAccepts(es[k]); }
    case JObject(ms) =>
      forall k | 0 <= k < |ms| ensures Conforms(TYPELESS, ms[k].value) { TypelessAccepts(ms[k].value); }
    case _ =>
  }

  lemma ScalarMeaning(s: Schema, v: Json)
    ensures OwnOk(s, v) <==> ScalarMeets(s, v)
  {
    if v.JInt? && s.multipleOf.Some? && s.multipleOf.value > 0 { NegatedMultiple(v.i, s.multipleOf.value); }
  }

  lemma NegatedMultiple(i: int, m: nat)
    requires m > 0
    ensures i % m == 0 <==> -i % m == 0
  {
    var a, b := i / m, -i / m;
    assert i == a * m + i % m && -i == b * m + -i % m;
    assert (a + b) * m == a * m + b * m;
    NoMultiple(a + b, m, i % m + -i % m);
  }

  /** Two remainders that together are a multiple are both zero or neither is. */
  lemma NoMultiple(k: int, m: nat, r: int)
    requires m > 0 && k * m + r == 0 && 0 <= r < 2 * m
    ensures r == 0 || r == m
  {
    Grows(k, m);
  }

  lemma Grows(k: int, m: nat)
    ensures k >= 1 ==> k * m >= m
    ensures k <= -2 ==> k * m <= -2 * m
  {
  }

  lemma CombinedMeaning(s: Schema, v: Json)
    ensures CombinedOk(s, v) <==> CombinedMeets(s, v)
  {
    hide Conforms, AllTrue, AnyTrue, OneTrue;
    AllMeaning(s.allOf, v);
    AnyMeaning(s.anyOf, v);
    OneMeaning(s.oneOf, v);
  }

  lemma AllMeaning(ss: seq<Schema>, v: Json)
    ensures AllTrue(Verdicts(ss, v)) <==> forall i :: 0 <= i < |ss| ==> Conforms(ss[i], v)
  {
    hide Conforms;
    assert forall i :: 0 <= i < |ss| ==> Verdicts(ss, v)[i] == Conforms(ss[i], v);
  }

  lemma AnyMeaning(ss: seq<Schema>, v: Json)
    ensures AnyTrue(Verdicts(ss, v)) <==> exists i :: 0 <= i < |ss| && Conforms(ss[i], v)
  {
    hide Conforms;
    assert forall i :: 0 <= i < |ss| ==> Verdicts(ss, v)[i] == Conforms(ss[i], v);
  }

  lemma OneMeaning(ss: seq<Schema>, v: Json)
    ensures OneTrue(Verdicts(ss, v))
       <==> exists i :: 0 <= i < |ss| && Conforms(ss[i], v)
                        && forall k :: 0 <= k < |ss| && k != i ==> !Conforms(ss[k], v)
  {
    hide Conforms;
    assert forall i :: 0 <= i < |ss| ==> Verdicts(ss, v)[i] == Conforms(ss[i], v);
  }

  lemma AdditionalMeaning(a: Additional, v: Json)
    ensures AdditionalMeets(a, v) <==> AdditionalSchema(a).Some? && Conforms(AdditionalSchema(a).value, v)
  {
    hide Conforms;
    TypelessAccepts(v);
  }

  lemma ArrayMeaning(s: Schema, es: seq<Json>)
    ensures ElementsOk(s, es) <==> ArrayMeets(s, es)
  {
    hide Conforms;
    forall k | 0 <= k < |es|
      ensures ItemMeets(s, k, es[k]) <==> ItemSchema(s, k).Some? && Conforms(ItemSchema(s, k).value, es[k])
    {
      TypelessAccepts(es[k]);
      if s.items.TupleItems? { AdditionalMeaning(s.items.rest, es[k]); }
    }
  }

  lemma FirstProperty(ps: seq<Property>, name: string, i: nat)
    requires i < |ps|
    ensures FindProperty(ps, name) == Some(i)
       <==> ps[i].name == name && forall j :: 0 <= j < i ==> ps[j].name != name
  {
    if i > 0 && ps[0].name != name {
      FirstProperty(ps[1..], name, i - 1);
    }
  }

  lemma MemberMeaning(s: Schema, m: Member)
    ensures MemberMeets(s, m) <==> MemberSchema(s, m.name).Some? && Conforms(MemberSchema(s, m.name).value, m.value)
  {
    hide Conforms, FindProperty;
    AdditionalMeaning(s.additionalProperties, m.value);
    forall i | 0 <= i < |s.properties|
      ensures FindProperty(s.properties, m.name) == Some(i)
         <==> s.properties[i].name == m.name && forall j :: 0 <= j < i ==> s.properties[j].name != m.name
    {
      FirstProperty(s.properties, m.name, i);
    }
  }

  lemma PresentMeaning(s: Schema, ms: seq<Member>, i: nat)
    requires i < |s.properties|
    ensures Present(s, ms, i) <==> IsThere(s, ms, i)
  {
    hide FindProperty;
    forall k | 0 <= k < |ms|
      ensures FindProperty(s.properties, ms[k].name) == Some(i)
         <==> s.properties[i].name == ms[k].name && forall j :: 0 <= j < i ==> s.properties[j].name != ms[k].name
    {
      FirstProperty(s.properties, ms[k].name, i);
    }
    if IsThere(s, ms, i) {
      var k :| 0 <= k < |ms| && ms[k].name == s.properties[i].name;
      assert FindProperty(s.properties, ms[k].name) == Some(i);
    }
  }

  lemma ObjectMeaning(s: Schema, ms: seq<Member>)
    ensures MembersOk(s, ms) && DependenciesOk(s, JObject(ms)) <==> ObjectMeets(s, ms)
  {
    hide Conforms, MemberSchema, MemberMeets, Present, IsThere;
    forall k | 0 <= k < |ms|
      ensures MemberMeets(s, ms[k])
         <==> MemberSchema(s, ms[k].name).Some? && Conforms(MemberSchema(s, ms[k].name).value, ms[k].value)
    {
      MemberMeaning(s, ms[k]);
    }
    forall i | 0 <= i < |s.properties| ensures Present(s, ms, i) <==> IsThere(s, ms, i) { PresentMeaning(s, ms, i); }
  }

  /** A value conforms to a schema if and only if it meets every keyword, as written out above. */
  lemma ConformsMeans(s: Schema, v: Json)
    ensures Conforms(s, v) <==> Meets(s, v)
  {
    ScalarMeaning(s, v);
    CombinedMeaning(s, v);
    if v.JArray? { ArrayMeaning(s, v.elements); }
    if v.JObject? { ObjectMeaning(s, v.members); }
    hide OwnOk, ScalarMeets, CombinedOk, CombinedMeets, ElementsOk, ArrayMeets, MembersOk, DependenciesOk, ObjectMeets;
  }

  /** So the streaming validator decides the keywords, on every trace that reports a value. */
  lemma TraceMeets(s: Schema, trace: seq<Event>, j: Json)
    requires Reports(trace, j)
    ensures FeedAll(Fresh(s), trace) == if Meets(s, j) then Fresh(s) else Invalid(s)
  {
    hide FeedAll, Reports, Conforms, Meets;
    TraceDecidesConformance(s, trace, j);
    ConformsMeans(s, j);
  }

  // ---- Schemas of one keyword

  lemma ArrayLimits(least: nat, greatest: nat, es: seq<Json>)
    ensures Conforms(TYPELESS.(maxItems := Some(greatest)), JArray(es)) <==> |es| <= greatest
    ensures Conforms(TYPELESS.(minItems := least), JArray(es)) <==> least <= |es|
  {
    hide Conforms;
    ConformsMeans(TYPELESS.(maxItems := Some(greatest)), JArray(es));
    ConformsMeans(TYPELESS.(minItems := least), JArray(es));
  }

  lemma ObjectLimits(least: nat, greatest: nat, ms: seq<Member>)
    ensures Conforms(TYPELESS.(maxProperties := Some(greatest)), JObject(ms)) <==> |ms| <= greatest
    ensures Conforms(TYPELESS.(minProperties := least), JObject(ms)) <==> least <= |ms|
  {
    hide Conforms;
    ConformsMeans(TYPELESS.(maxProperties := Some(greatest)), JObject(ms));
    ConformsMeans(TYPELESS.(minProperties := least), JObject(ms));
  }

  lemma IntegerLimits(least: Integer, greatest: Integer, i: Integer)
    ensures Conforms(TYPELESS.(minimum := Some(least)), JInt(i)) <==> least <= i
    ensures Conforms(TYPELESS.(maximum := Some(greatest)), JInt(i)) <==> i <= greatest
  {
    hide Conforms;
    ConformsMeans(TYPELESS.(minimum := Some(least)), JInt(i));
    ConformsMeans(TYPELESS.(maximum := Some(greatest)), JInt(i));
  }
}
