/** What a successful parse delivers is always one value, and a document builds that value of it. */
module JsonParsedTree {
  import opened JsonEvents
  import opened JsonValues
  import opened JsonDocument
  import R = ReaderSpec
  import ReaderIterative
  import N = JsonNumbers
  import T = JsonStrings

  /** An event as `Accept` would report it: integers by the narrowest type, raw numbers as strings. */
  function Normal(ev: Event): Event {
    match ev
    case Int(i) => if Fits(i, IntFlag) then IntEvent(i) else ev
    case Uint(u) => if Fits(u, UintFlag) then IntEvent(u) else ev
    case Int64(i) => if Fits(i, Int64Flag) then IntEvent(i) else ev
    case Uint64(u) => if Fits(u, Uint64Flag) then IntEvent(u) else ev
    case RawNumber(digits) => Str(digits)
    case _ => ev
  }

  function Normals(evs: seq<Event>): (r: seq<Event>) {
    seq(|evs|, i requires 0 <= i < |evs| => Normal(evs[i]))
  }

  lemma NormalsConcat(a: seq<Event>, b: seq<Event>)
    ensures Normals(a + b) == Normals(a) + Normals(b)
  {
  }

  /** An event of a scalar, an integer within the type it is reported by. */
  predicate ScalarReported(ev: Event) {
    match ev
    case Null => true
    case Bool(_) => true
    case Int(i) => Fits(i, IntFlag)
    case Uint(u) => Fits(u, UintFlag)
    case Int64(i) => Fits(i, Int64Flag)
    case Uint64(u) => Fits(u, Uint64Flag)
    case Double(_) => true
    case RawNumber(_) => true
    case Str(_) => true
    case _ => false
  }

  /** A scanner that reports scalars, and names as names. */
  ghost predicate ReportsScalars(c: R.Config) {
    forall p: nat, isKey: bool :: p <= |c.text| && c.leaf(p, isKey).LeafOk? ==>
      if isKey then c.leaf(p, isKey).ev.Key? else ScalarReported(c.leaf(p, isKey).ev)
  }

  /** The reader's own scanner is one. */
  lemma LeafReportsScalars(text: string, comments: bool, trailingCommas: bool, stopWhenDone: bool, big: N.Overflow,
                           handler: seq<Event> -> bool)
    ensures ReportsScalars(T.ReaderOf(text, comments, trailingCommas, stopWhenDone, big, handler))
  {
    forall p: nat | p <= |text| && N.NumberLeaf(text, p, big).LeafOk?
      ensures ScalarReported(N.NumberLeaf(text, p, big).ev)
    {
      NumberReported(text, p, big);
    }
    hide T.StringBody, T.LiteralLeaf, N.NumberLeaf;
  }

  lemma NumberReported(text: string, p: nat, big: N.Overflow)
    requires p <= |text| && N.NumberLeaf(text, p, big).LeafOk?
    ensures ScalarReported(N.NumberLeaf(text, p, big).ev)
  {
    hide N.DoubleOverflows, N.Magnitude, N.Kept;
  }

  /** The value a scalar event reports. */
  lemma ScalarOf(ev: Event) returns (v: Json)
    requires ScalarReported(ev)
    ensures Events(v) == [Normal(ev)]
  {
    match ev
    case Null => v := JNull;
    case Bool(b) => v := JBool(b);
    case Int(i) => v := JInt(i);
    case Uint(u) => v := JInt(u);
    case Int64(i) => v := JInt(i);
    case Uint64(u) => v := JInt(u);
    case Double(literal) => v := JDouble(literal);
    case RawNumber(digits) => v := JString(digits);
    case Str(s) => v := JString(s);
  }

  lemma NormalsOneMore(tr: seq<Event>, ev: Event)
    ensures Normals(tr + [ev]) == Normals(tr) + [Normal(ev)]
  {
  }

  /** Whatever value is read, its events are those of a tree. */
  lemma {:induction false} ValueIsTree(c: R.Config, p: nat, tr: seq<Event>) returns (v: Json)
    requires R.WellBehaved(c) && ReportsScalars(c) && p <= |c.text|
    requires R.Value(c, p, tr).Done?
    ensures Normals(R.Value(c, p, tr).trace) == Normals(tr) + Events(v)
    decreases |c.text| - p, 1
  {
    hide Normals, Normal;
    if R.Peek(c.text, p) == '{' {
      var members := ObjectIsTree(c, p, tr);
      v := JObject(members);
    } else if R.Peek(c.text, p) == '[' {
      var elements := ArrayIsTree(c, p, tr);
      v := JArray(elements);
    } else {
      var ev := c.leaf(p, false).ev;
      v := ScalarOf(ev);
      NormalsOneMore(tr, ev);
    }
  }

  lemma {:induction false} ArrayIsTree(c: R.Config, p: nat, tr: seq<Event>) returns (elements: seq<Json>)
    requires R.WellBehaved(c) && ReportsScalars(c) && p < |c.text|
    requires R.Array(c, p, tr).Done?
    ensures Normals(R.Array(c, p, tr).trace) == Normals(tr) + Events(JArray(elements))
    decreases |c.text| - p, 0
  {
    hide Normals, R.Skip, R.Elements;
    var open := tr + [StartArray];
    NormalsOneMore(tr, StartArray);
    var s := R.Skip(c, p + 1);
    if R.Peek(c.text, s.pos) == ']' {
      elements := [];
      NormalsOneMore(open, EndArray(0));
    } else {
      elements := ElementsAreTree(c, s.pos, open, 0);
    }
    Regroup(Normals(tr), [StartArray], ElementEvents(elements), [EndArray(|elements|)]);
  }

  lemma Regroup<T>(a: seq<T>, b: seq<T>, c: seq<T>, d: seq<T>)
    ensures a + b + c + d == a + (b + c + d)
  {
  }

  lemma {:induction false} ElementsAreTree(c: R.Config, p: nat, tr: seq<Event>, n: nat) returns (elements: seq<Json>)
    requires R.WellBehaved(c) && ReportsScalars(c) && p <= |c.text|
    requires R.Elements(c, p, tr, n).Done?
    ensures Normals(R.Elements(c, p, tr, n).trace)
            == Normals(tr) + ElementEvents(elements) + [EndArray(n + |elements|)]
    decreases |c.text| - p, 2
  {
    hide Normals, R.Skip, R.Value;
    var v := ValueIsTree(c, p, tr);
    var o := R.Value(c, p, tr);
    var u := R.Skip(c, o.pos);
    var more: seq<Json> := [];
    if R.Peek(c.text, u.pos) == ',' {
      var w := R.Skip(c, u.pos + 1);
      if !(c.trailingCommas && R.Peek(c.text, w.pos) == ']') {
        more := ElementsAreTree(c, w.pos, o.trace, n + 1);
      }
    }
    if more == [] { NormalsOneMore(o.trace, EndArray(n + 1)); }
    elements := [v] + more;
    assert elements[1..] == more;
    Regroup(Normals(tr), Events(v), ElementEvents(more), []);
  }

  lemma {:induction false} ObjectIsTree(c: R.Config, p: nat, tr: seq<Event>) returns (members: seq<Member>)
    requires R.WellBehaved(c) && ReportsScalars(c) && p < |c.text|
    requires R.Object(c, p, tr).Done?
    ensures Normals(R.Object(c, p, tr).trace) == Normals(tr) + Events(JObject(members))
    decreases |c.text| - p, 0
  {
    hide Normals, R.Skip, R.Members;
    var open := tr + [StartObject];
    NormalsOneMore(tr, StartObject);
    var s := R.Skip(c, p + 1);
    if R.Peek(c.text, s.pos) == '}' {
      members := [];
      NormalsOneMore(open, EndObject(0));
    } else {
      members := MembersAreTree(c, s.pos, open, 0);
    }
    Regroup(Normals(tr), [StartObject], MemberEvents(members), [EndObject(|members|)]);
  }

  lemma {:induction false} MemberIsTree(c: R.Config, p: nat, tr: seq<Event>) returns (m: Member)
    requires R.WellBehaved(c) && ReportsScalars(c) && p <= |c.text|
    requires R.Member(c, p, tr).Done?
    ensures Normals(R.Member(c, p, tr).trace) == Normals(tr) + ([Key(m.name)] + Events(m.value))
    decreases |c.text| - p, 2
  {
    hide Normals, R.Skip, R.Value;
    var key := R.Scalar(c, p, tr, true);
    var ev := c.leaf(p, true).ev;
    NormalsOneMore(tr, ev);
    var s := R.Skip(c, key.pos);
    var t := R.Skip(c, s.pos + 1);
    var v := ValueIsTree(c, t.pos, key.trace);
    m := Member(ev.k, v);
    Regroup(Normals(tr), [Key(m.name)], Events(v), []);
  }

  lemma {:induction false} MembersAreTree(c: R.Config, p: nat, tr: seq<Event>, n: nat) returns (members: seq<Member>)
    requires R.WellBehaved(c) && ReportsScalars(c) && p <= |c.text|
    requires R.Members(c, p, tr, n).Done?
    ensures Normals(R.Members(c, p, tr, n).trace)
            == Normals(tr) + MemberEvents(members) + [EndObject(n + |members|)]
    decreases |c.text| - p, 3
  {
    hide Normals, R.Skip, R.Member;
    var m := MemberIsTree(c, p, tr);
    var o := R.Member(c, p, tr);
    var u := R.Skip(c, o.pos);
    var more: seq<Member> := [];
    if R.Peek(c.text, u.pos) == ',' {
      var w := R.Skip(c, u.pos + 1);
      if !(c.trailingCommas && R.Peek(c.text, w.pos) == '}') {
        more := MembersAreTree(c, w.pos, o.trace, n + 1);
      }
    }
    if more == [] { NormalsOneMore(o.trace, EndObject(n + 1)); }
    members := [m] + more;
    assert members[1..] == more;
    Regroup(Normals(tr), [Key(m.name)] + Events(m.value), MemberEvents(more), []);
  }

  /** A document makes no difference between an event and its narrowest form. */
  lemma HandlesNormal(st: seq<Node>, ev: Event)
    ensures Handle(st, Normal(ev)) == Handle(st, ev)
  {
    hide OfInt, OfUint, OfInt64, OfUint64;
    match ev
    case Int(i) => if Fits(i, IntFlag) { ConstructorsAgree(i); }
    case Uint(u) => if Fits(u, UintFlag) { ConstructorsAgree(u); }
    case Int64(i) => if Fits(i, Int64Flag) { ConstructorsAgree(i); }
    case Uint64(u) => if Fits(u, Uint64Flag) { ConstructorsAgree(u); }
    case _ =>
  }

  lemma {:induction false} FeedsNormals(st: seq<Node>, evs: seq<Event>)
    ensures Feed(st, Normals(evs)) == Feed(st, evs)
    decreases |evs|
  {
    hide Handle, Normal;
    if evs != [] {
      HandlesNormal(st, evs[0]);
      assert Normals(evs)[1..] == Normals(evs[1..]);
      if Handle(st, evs[0]).Stack? { FeedsNormals(Handle(st, evs[0]).nodes, evs[1..]); }
    }
  }

  /** Whether a trace is that of a value: its events in order, each integer in some type that holds it. */
  predicate Reports(trace: seq<Event>, v: Json) {
    Normals(trace) == Events(v)
  }

  /** A trace that reports a value builds exactly that value, on any stack. */
  lemma ReportBuilds(st: seq<Node>, trace: seq<Event>, v: Json)
    requires Reports(trace, v)
    ensures Feed(st, trace) == Stack(st + [Stored(v)])
  {
    hide Normals, Feed;
    FeedsNormals(st, trace);
    Rebuilds(v, st);
  }

  lemma NoNormals()
    ensures Normals([]) == []
  {
  }

  /** Every successful parse, in either form of the reader, reports one value, and a document fed by it is left with
      that value and nothing else on its stack. */
  lemma ParseBuildsOneValue(c: R.Config)
    requires R.WellBehaved(c) && ReportsScalars(c)
    ensures R.Recursive(c).Done? ==> exists v ::
      Reports(R.Recursive(c).trace, v) && Feed([], R.Recursive(c).trace) == Stack([Stored(v)])
    ensures ReaderIterative.Iterative(c).Done? ==> ReaderIterative.Iterative(c) == R.Recursive(c)
  {
    hide Feed, Normals, R.Value;
    ReaderIterative.IterativeEqualsRecursive(c);
    if R.Recursive(c).Done? {
      var s := R.Skip(c, 0);
      var v := ValueIsTree(c, s.pos, []);
      var trace := R.Recursive(c).trace;
      NoNormals();
      assert Normals(trace) == [] + Events(v) == Events(v);
      ReportBuilds([], trace, v);
      assert [] + [Stored(v)] == [Stored(v)];
    }
  }

  /** A lone closing bracket: the two forms of the reader report different codes. */
  lemma ClosingBracketCodes(comments: bool, trailingCommas: bool, stopWhenDone: bool, big: N.Overflow,
                            handler: seq<Event> -> bool)
    ensures var c := T.ReaderOf("]", comments, trailingCommas, stopWhenDone, big, handler);
      && R.WellBehaved(c)
      && ReaderIterative.Iterative(c) == R.Fail([], R.DocumentEmpty) && R.Recursive(c) == R.Fail([], R.ValueInvalid)
  {
    hide R.Value, ReaderIterative.Iterative, R.Recursive, R.WellBehaved;
    var c := T.ReaderOf("]", comments, trailingCommas, stopWhenDone, big, handler);
    T.LeafIsWellBehaved("]", comments, trailingCommas, stopWhenDone, big, handler);
    ReaderIterative.IterativeEqualsRecursive(c);
    assert R.Skip(c, 0) == R.At(0);
  }
}
