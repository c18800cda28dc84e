/** JSON values and the events that announce them. */
module JsonValues {
  import opened JsonEvents

  datatype Option<+T> = None | Some(value: T)

  const INT32_LIMIT: int := 0x8000_0000
  const UINT32_LIMIT: int := 0x1_0000_0000
  const INT64_LIMIT: int := 0x8000_0000_0000_0000
  const UINT64_LIMIT: int := 0x1_0000_0000_0000_0000

  /** The integers a number can hold exactly. */
  predicate Representable(i: int) {
    -INT64_LIMIT <= i < UINT64_LIMIT
  }

  type Integer = i: int | Representable(i)

  datatype Json =
    | JNull
    | JBool(b: bool)
    | JInt(i: Integer)
    | JDouble(literal: string)
    | JString(s: string)
    | JArray(elements: seq<Json>)
    | JObject(members: seq<Member>)

  datatype Member = Member(name: string, value: Json)

  /** The event that carries an integer: the narrowest that fits, signed before unsigned. */
  function IntEvent(i: Integer): Event {
    if -INT32_LIMIT <= i < INT32_LIMIT then Int(i)
    else if 0 <= i < UINT32_LIMIT then Uint(i)
    else if i < INT64_LIMIT then Int64(i)
    else Uint64(i)
  }

  predicate Scalar(v: Json) {
    !v.JArray? && !v.JObject?
  }

  function ScalarEvent(v: Json): Event
    requires Scalar(v)
  {
    match v
    case JNull => Null
    case JBool(b) => Bool(b)
    case JInt(i) => IntEvent(i)
    case JDouble(literal) => Double(literal)
    case JString(s) => Str(s)
  }

  /** The events of a value: its scalars in order, each container between its start and its end. */
  function Events(v: Json): (evs: seq<Event>)
    decreases v, 0
  {
    match v
    case JArray(elements) => [StartArray] + ElementEvents(elements) + [EndArray(|elements|)]
    case JObject(members) => [StartObject] + MemberEvents(members) + [EndObject(|members|)]
    case _ => [ScalarEvent(v)]
  }

  function ElementEvents(elements: seq<Json>): (evs: seq<Event>)
    decreases elements, 1
  {
    if elements == [] then [] else Events(elements[0]) + ElementEvents(elements[1..])
  }

  function MemberEvents(members: seq<Member>): (evs: seq<Event>)
    decreases members, 1
  {
    if members == [] then []
    else [Key(members[0].name)] + Events(members[0].value) + MemberEvents(members[1..])
  }
}
