/** Documents: values as they are stored, and building them from events. */
module JsonDocument {
  import opened JsonEvents
  import opened JsonValues

  // ---- Integers, by the type they were given in

  datatype Flag = IntFlag | UintFlag | Int64Flag | Uint64Flag

  /** The flags of a number, and its 64 bits. */
  datatype NumberData = NumberData(flags: set<Flag>, bits: nat)

  /** Two's complement in 64 bits. */
  function Bits(i: int): nat {
    i % UINT64_LIMIT
  }

  function OfInt(i: int): NumberData {
    NumberData(if i >= 0 then {IntFlag, Int64Flag, UintFlag, Uint64Flag} else {IntFlag, Int64Flag}, Bits(i))
  }

  /** A mask over the high bits tests whether anything is left above the low ones. */
  predicate Above(bits: nat, low: nat)
    requires low > 0
  {
    bits / low != 0
  }

  function OfUint(u: nat): NumberData {
    NumberData(if u / INT32_LIMIT % 2 == 1 then {UintFlag, Uint64Flag, Int64Flag}
               else {UintFlag, Uint64Flag, Int64Flag, IntFlag}, Bits(u))
  }

  function OfInt64(i: int): NumberData {
    var bits := Bits(i);
    NumberData(
      if i >= 0 then
        {Int64Flag, Uint64Flag}
        + (if Above(bits, UINT32_LIMIT) then {} else {UintFlag})
        + (if Above(bits, INT32_LIMIT) then {} else {IntFlag})
      else if i >= -INT32_LIMIT then {Int64Flag, IntFlag}
      else {Int64Flag},
      bits)
  }

  function OfUint64(u: nat): NumberData {
    NumberData(
      {Uint64Flag}
      + (if Above(u, INT64_LIMIT) then {} else {Int64Flag})
      + (if Above(u, UINT32_LIMIT) then {} else {UintFlag})
      + (if Above(u, INT32_LIMIT) then {} else {IntFlag}),
      Bits(u))
  }

  predicate Fits(i: int, f: Flag) {
    match f
    case IntFlag => -INT32_LIMIT <= i < INT32_LIMIT
    case UintFlag => 0 <= i < UINT32_LIMIT
    case Int64Flag => -INT64_LIMIT <= i < INT64_LIMIT
    case Uint64Flag => 0 <= i < UINT64_LIMIT
  }

  /** An integer as it is stored: with a flag for every type that holds it. */
  function NumberOf(i: Integer): (d: NumberData)
    ensures forall f :: f in d.flags <==> Fits(i, f)
    ensures d.bits == Bits(i) < UINT64_LIMIT
  {
    NumberData((if Fits(i, IntFlag) then {IntFlag} else {}) + (if Fits(i, UintFlag) then {UintFlag} else {})
               + (if Fits(i, Int64Flag) then {Int64Flag} else {}) + (if Fits(i, Uint64Flag) then {Uint64Flag} else {}),
               Bits(i))
  }

  /** All four constructors store an integer in the same way. */
  lemma ConstructorsAgree(i: Integer)
    ensures Fits(i, IntFlag) ==> OfInt(i) == NumberOf(i)
    ensures Fits(i, UintFlag) ==> OfUint(i) == NumberOf(i)
    ensures Fits(i, Int64Flag) ==> OfInt64(i) == NumberOf(i)
    ensures Fits(i, Uint64Flag) ==> OfUint64(i) == NumberOf(i)
  {
  }

  /** The low half of 64 bits, with its sign. */
  function Low32(bits: nat): int {
    var low := bits % UINT32_LIMIT;
    if low < INT32_LIMIT then low else low - UINT32_LIMIT
  }

  /** The event by which `Accept` reports a number. */
  function NumberEvent(d: NumberData): Event {
    if IntFlag in d.flags then Int(Low32(d.bits))
    else if UintFlag in d.flags then Uint(d.bits % UINT32_LIMIT)
    else if Int64Flag in d.flags then Int64(if d.bits < INT64_LIMIT then d.bits else d.bits - UINT64_LIMIT)
    else Uint64(d.bits)
  }

  lemma WrapOnce(i: int, m: int)
    requires -m <= i < 0
    ensures i % m == i + m
  {
    assert i == -1 * m + (i + m);
  }

  /** A stored integer is reported by the narrowest type that holds it, unchanged. */
  lemma StoredIsReported(i: Integer)
    ensures NumberEvent(NumberOf(i)) == IntEvent(i)
  {
    assert Representable(i);
    if i < 0 {
      WrapOnce(i, UINT64_LIMIT);
      if i >= -INT32_LIMIT { assert (i + UINT64_LIMIT) % UINT32_LIMIT == i + UINT32_LIMIT; }
      assert Bits(i) >= INT64_LIMIT;
    } else {
      assert Bits(i) == i;
      if i < UINT32_LIMIT { assert i % UINT32_LIMIT == i; }
    }
    assert forall f :: f in NumberOf(i).flags <==> Fits(i, f);
  }

  // ---- Values

  datatype Node =
    | NodeNull
    | NodeBool(b: bool)
    | NodeNumber(data: NumberData)
    | NodeDouble(literal: string)
    | NodeString(s: string)
    | NodeArray(elements: seq<Node>)
    | NodeObject(members: seq<NodeMember>)

  datatype NodeMember = NodeMember(name: string, value: Node)

  function Stored(v: Json): Node
    decreases v, 0
  {
    match v
    case JNull => NodeNull
    case JBool(b) => NodeBool(b)
    case JInt(i) => NodeNumber(NumberOf(i))
    case JDouble(literal) => NodeDouble(literal)
    case JString(s) => NodeString(s)
    case JArray(elements) => NodeArray(StoredAll(elements))
    case JObject(members) => NodeObject(StoredMembers(members))
  }

  function StoredAll(elements: seq<Json>): (ns: seq<Node>)
    ensures |ns| == |elements|
    decreases elements, 1
  {
    if elements == [] then [] else [Stored(elements[0])] + StoredAll(elements[1..])
  }

  function StoredMembers(members: seq<Member>): (ns: seq<NodeMember>)
    ensures |ns| == |members|
    decreases members, 1
  {
    if members == [] then []
    else [NodeMember(members[0].name, Stored(members[0].value))] + StoredMembers(members[1..])
  }

  // ---- The handler that builds values on a stack

  datatype Built = Stack(nodes: seq<Node>) | Underflow

  /** Names and values alternate at the end of the stack when an object ends. */
  function Paired(nodes: seq<Node>): Option<seq<NodeMember>> {
    if |nodes| < 2 then Some([])
    else if !nodes[0].NodeString? then None
    else match Paired(nodes[2..])
      case None => None
      case Some(more) => Some([NodeMember(nodes[0].s, nodes[1])] + more)
  }

  function Handle(st: seq<Node>, ev: Event): Built {
    match ev
    case Null => Stack(st + [NodeNull])
    case Bool(b) => Stack(st + [NodeBool(b)])
    case Int(i) => Stack(st + [NodeNumber(OfInt(i))])
    case Uint(u) => Stack(st + [NodeNumber(OfUint(u))])
    case Int64(i) => Stack(st + [NodeNumber(OfInt64(i))])
    case Uint64(u) => Stack(st + [NodeNumber(OfUint64(u))])
    case Double(literal) => Stack(st + [NodeDouble(literal)])
    case RawNumber(digits) => Stack(st + [NodeString(digits)])
    case Str(s) => Stack(st + [NodeString(s)])
    case Key(k) => Stack(st + [NodeString(k)])
    case StartObject => Stack(st + [NodeObject([])])
    case StartArray => Stack(st + [NodeArray([])])
    case EndObject(n) => CloseObject(st, n)
    case EndArray(n) => CloseArray(st, n)
  }

  /** The members on top of the stack become the contents of the object below them. */
  function CloseObject(st: seq<Node>, n: nat): Built {
    if |st| < 2 * n + 1 then Underflow
    else
      var top := |st| - 2 * n;
      var members := Paired(st[top..]);
      if members.None? then Underflow else Stack(st[..top - 1] + [NodeObject(members.value)])
  }

  /** The elements on top of the stack become the contents of the array below them. */
  function CloseArray(st: seq<Node>, n: nat): Built {
    if |st| < n + 1 then Underflow
    else Stack(st[..|st| - n - 1] + [NodeArray(st[|st| - n..])])
  }

  function Feed(st: seq<Node>, evs: seq<Event>): Built
    decreases |evs|
  {
    if evs == [] then Stack(st)
    else match Handle(st, evs[0])
      case Underflow => Underflow
      case Stack(st') => Feed(st', evs[1..])
  }

  lemma {:induction false} FeedConcat(st: seq<Node>, a: seq<Event>, b: seq<Event>)
    ensures Feed(st, a + b) == match Feed(st, a) case Underflow => Underflow case Stack(st') => Feed(st', b)
    decreases |a|
  {
    hide Handle;
    if a == [] {
      assert [] + b == b;
    } else {
      assert (a + b)[1..] == a[1..] + b;
      if Handle(st, a[0]).Stack? { FeedConcat(Handle(st, a[0]).nodes, a[1..], b); }
    }
  }

  lemma FeedOne(st: seq<Node>, ev: Event)
    ensures Feed(st, [ev]) == Handle(st, ev)
  {
    hide Handle;
    if Handle(st, ev).Stack? { assert [ev][1..] == []; }
  }

  /** The names and values of members, as they lie on the stack. */
  function Alternating(members: seq<Member>): seq<Node> {
    if members == [] then []
    else [NodeString(members[0].name), Stored(members[0].value)] + Alternating(members[1..])
  }

  lemma {:induction false} PairedAlternating(members: seq<Member>)
    ensures |Alternating(members)| == 2 * |members|
    ensures Paired(Alternating(members)) == Some(StoredMembers(members))
    decreases |members|
  {
    if members != [] {
      PairedAlternating(members[1..]);
      assert Alternating(members)[2..] == Alternating(members[1..]);
    }
  }

  /** Replaying the events of a value pushes exactly that value. */
  lemma {:induction false} Rebuilds(v: Json, st: seq<Node>)
    ensures Feed(st, Events(v)) == Stack(st + [Stored(v)])
    decreases v, 0
  {
    hide Handle;
    match v
    case JArray(elements) =>
      var inside := st + [NodeArray([])];
      RebuildsAll(elements, inside);
      ArrayCloses(st, StoredAll(elements));
      Around(st, StartArray, ElementEvents(elements), EndArray(|elements|), inside, inside + StoredAll(elements));
    case JObject(members) =>
      var inside := st + [NodeObject([])];
      RebuildsMembers(members, inside);
      ObjectCloses(st, members);
      Around(st, StartObject, MemberEvents(members), EndObject(|members|), inside, inside + Alternating(members));
    case _ =>
      RebuildsScalar(v, st);
  }

  lemma RebuildsScalar(v: Json, st: seq<Node>)
    requires Scalar(v)
    ensures Feed(st, Events(v)) == Stack(st + [Stored(v)])
  {
    HandlesScalar(v, st);
    FeedOne(st, ScalarEvent(v));
  }

  lemma ArrayCloses(st: seq<Node>, ns: seq<Node>)
    ensures Handle(st, StartArray) == Stack(st + [NodeArray([])])
    ensures Handle(st + [NodeArray([])] + ns, EndArray(|ns|)) == Stack(st + [NodeArray(ns)])
  {
    hide CloseArray;
    FillsArray(st, ns);
  }

  lemma FillsArray(st: seq<Node>, ns: seq<Node>)
    ensures CloseArray(st + [NodeArray([])] + ns, |ns|) == Stack(st + [NodeArray(ns)])
  {
    var full := st + [NodeArray([])] + ns;
    assert full[..|full| - |ns| - 1] == st && full[|full| - |ns|..] == ns;
  }

  lemma ObjectCloses(st: seq<Node>, members: seq<Member>)
    ensures Handle(st, StartObject) == Stack(st + [NodeObject([])])
    ensures Handle(st + [NodeObject([])] + Alternating(members), EndObject(|members|))
            == Stack(st + [NodeObject(StoredMembers(members))])
  {
    hide CloseObject, Alternating, StoredMembers;
    FillsObject(st, members);
  }

  lemma FillsObject(st: seq<Node>, members: seq<Member>)
    ensures CloseObject(st + [NodeObject([])] + Alternating(members), |members|)
            == Stack(st + [NodeObject(StoredMembers(members))])
  {
    hide Paired, Alternating, StoredMembers;
    PairedAlternating(members);
    var full := st + [NodeObject([])] + Alternating(members);
    assert full[..|full| - 2 * |members| - 1] == st && full[|full| - 2 * |members|..] == Alternating(members);
  }

  lemma Around(st: seq<Node>, first: Event, evs: seq<Event>, last: Event, inside: seq<Node>, full: seq<Node>)
    requires Handle(st, first) == Stack(inside) && Feed(inside, evs) == Stack(full)
    ensures Feed(st, [first] + evs + [last]) == Handle(full, last)
  {
    hide Handle;
    FeedConcat(st, [first] + evs, [last]);
    FeedConcat(st, [first], evs);
    FeedOne(st, first);
    FeedOne(full, last);
  }

  lemma {:induction false} RebuildsAll(elements: seq<Json>, st: seq<Node>)
    ensures Feed(st, ElementEvents(elements)) == Stack(st + StoredAll(elements))
    decreases elements, 1
  {
    hide Handle;
    if elements == [] {
      assert st + [] == st;
    } else {
      Rebuilds(elements[0], st);
      var st' := st + [Stored(elements[0])];
      RebuildsAll(elements[1..], st');
      FeedConcat(st, Events(elements[0]), ElementEvents(elements[1..]));
      assert st' + StoredAll(elements[1..]) == st + StoredAll(elements);
    }
  }

  lemma HandlesName(st: seq<Node>, name: string)
    ensures Handle(st, Key(name)) == Stack(st + [NodeString(name)])
  {
  }

  lemma {:induction false} RebuildsMembers(members: seq<Member>, st: seq<Node>)
    ensures Feed(st, MemberEvents(members)) == Stack(st + Alternating(members))
    decreases members, 1
  {
    hide Handle, Events, Stored;
    if members == [] {
      assert st + [] == st;
    } else {
      var m := members[0];
      HandlesName(st, m.name);
      var named := st + [NodeString(m.name)];
      Rebuilds(m.value, named);
      RebuildsMembers(members[1..], named + [Stored(m.value)]);
      FeedOne(st, Key(m.name));
      FeedConcat(st, [Key(m.name)] + Events(m.value), MemberEvents(members[1..]));
      FeedConcat(st, [Key(m.name)], Events(m.value));
      assert named + [Stored(m.value)] + Alternating(members[1..]) == st + Alternating(members);
    }
  }

  // ---- The document as an object

  class Document {
    var stack: seq<Node>

    constructor ()
      ensures stack == []
    {
      stack := [];
    }

    /** The handler methods: each pushes a value, or pops the contents of a container into the value below them. */
    method On(ev: Event)
      requires Handle(stack, ev).Stack?
      modifies this
      ensures Stack(stack) == Handle(old(stack), ev)
    {
      match ev {
        case Null => stack := stack + [NodeNull];
        case Bool(b) => stack := stack + [NodeBool(b)];
        case Int(i) => stack := stack + [NodeNumber(OfInt(i))];
        case Uint(u) => stack := stack + [NodeNumber(OfUint(u))];
        case Int64(i) => stack := stack + [NodeNumber(OfInt64(i))];
        case Uint64(u) => stack := stack + [NodeNumber(OfUint64(u))];
        case Double(literal) => stack := stack + [NodeDouble(literal)];
        case RawNumber(digits) => stack := stack + [NodeString(digits)];
        case Str(s) => stack := stack + [NodeString(s)];
        case Key(k) => stack := stack + [NodeString(k)];
        case StartObject => stack := stack + [NodeObject([])];
        case StartArray => stack := stack + [NodeArray([])];
        case EndObject(n) =>
          var members := stack[|stack| - 2 * n..];
          stack := stack[..|stack| - 2 * n];
          stack := stack[..|stack| - 1] + [NodeObject(Paired(members).value)];
          assert old(stack)[..|old(stack)| - 2 * n][..|old(stack)| - 2 * n - 1]
            == old(stack)[..|old(stack)| - 2 * n - 1];
        case EndArray(n) =>
          var elements := stack[|stack| - n..];
          stack := stack[..|stack| - n];
          stack := stack[..|stack| - 1] + [NodeArray(elements)];
          assert old(stack)[..|old(stack)| - n][..|old(stack)| - n - 1] == old(stack)[..|old(stack)| - n - 1];
      }
    }

    /** `Accept` into this document: whatever the stack holds, exactly the value is pushed. */
    method Accept(node: Node, ghost v: Json)
      requires node == Stored(v)
      modifies this
      ensures stack == old(stack) + [node]
      decreases node
    {
      hide Handle;
      match node {
        case NodeArray(elements) =>
          AcceptArray(elements, v.elements);
        case NodeObject(members) =>
          AcceptObject(members, v.members);
        case NodeNumber(data) =>
          StoredIsReported(v.i);
          HandlesScalar(v, stack);
          On(NumberEvent(data));
        case NodeNull =>
          HandlesScalar(v, stack);
          On(Null);
        case NodeBool(b) =>
          HandlesScalar(v, stack);
          On(Bool(b));
        case NodeDouble(literal) =>
          HandlesScalar(v, stack);
          On(Double(literal));
        case NodeString(s) =>
          HandlesScalar(v, stack);
          On(Str(s));
      }
    }

    method AcceptArray(elements: seq<Node>, ghost vs: seq<Json>)
      requires elements == StoredAll(vs)
      modifies this
      ensures stack == old(stack) + [NodeArray(elements)]
      decreases elements, 0
    {
      hide Handle;
      ghost var before := stack;
      ArrayCloses(before, elements);
      On(StartArray);
      var k := 0;
      while k < |elements|
        invariant k <= |elements| && stack == before + [NodeArray([])] + elements[..k]
      {
        StoredAt(vs, k);
        Accept(elements[k], vs[k]);
        assert elements[..k + 1] == elements[..k] + [elements[k]];
        k := k + 1;
      }
      assert elements[..k] == elements;
      On(EndArray(|elements|));
    }

    method AcceptObject(members: seq<NodeMember>, ghost vs: seq<Member>)
      requires members == StoredMembers(vs)
      modifies this
      ensures stack == old(stack) + [NodeObject(members)]
      decreases members, 0
    {
      hide Handle;
      ghost var before := stack;
      ObjectCloses(before, vs);
      On(StartObject);
      var k := 0;
      assert vs[..0] == [];
      while k < |members|
        invariant k <= |members| && stack == before + [NodeObject([])] + Alternating(vs[..k])
      {
        StoredMemberAt(vs, k);
        AlternatingOneMore(vs, k);
        HandlesName(stack, members[k].name);
        On(Key(members[k].name));
        Accept(members[k].value, vs[k].value);
        k := k + 1;
      }
      assert vs[..k] == vs;
      On(EndObject(|members|));
    }

    /** The deep copy: the value is replayed into a fresh document and taken from its stack. */
    method DeepCopy(node: Node, ghost v: Json) returns (copy: Node)
      requires node == Stored(v)
      ensures copy == node
    {
      if node.NodeArray? || node.NodeObject? {
        var d := new Document();
        d.Accept(node, v);
        copy := d.stack[|d.stack| - 1];
      } else {
        copy := node;
      }
    }
  }

  lemma HandlesScalar(v: Json, st: seq<Node>)
    requires Scalar(v)
    ensures Handle(st, ScalarEvent(v)) == Stack(st + [Stored(v)])
  {
    if v.JInt? { ConstructorsAgree(v.i); }
  }

  lemma {:induction false} StoredAt(vs: seq<Json>, k: nat)
    requires k < |vs|
    ensures StoredAll(vs)[k] == Stored(vs[k])
    decreases k
  {
    if k > 0 { StoredAt(vs[1..], k - 1); }
  }

  lemma {:induction false} StoredMemberAt(vs: seq<Member>, k: nat)
    requires k < |vs|
    ensures StoredMembers(vs)[k] == NodeMember(vs[k].name, Stored(vs[k].value))
    decreases k
  {
    if k > 0 { StoredMemberAt(vs[1..], k - 1); }
  }

  lemma {:induction false} AlternatingOneMore(vs: seq<Member>, k: nat)
    requires k < |vs|
    ensures Alternating(vs[..k + 1]) == Alternating(vs[..k]) + [NodeString(vs[k].name), Stored(vs[k].value)]
    decreases k
  {
    assert vs[..k + 1][0] == vs[0];
    if k > 0 {
      AlternatingOneMore(vs[1..], k - 1);
      assert vs[..k + 1][1..] == vs[1..][..k] && vs[..k][1..] == vs[1..][..k - 1];
    } else {
      assert vs[..1][1..] == [] && vs[..0] == [];
    }
  }
}
