/** A validator that is the handler of a reader: it gets integers in whatever type the reader reports them by, and a
    text is read to its end exactly if it is legal and its value conforms to the schema. */
module SchemaReader {
  import opened JsonEvents
  import opened JsonValues
  import opened SchemaModel
  import opened SchemaStream
  import opened SchemaProof
  import opened JsonParsedTree
  import D = JsonDocument
  import R = ReaderSpec
  import ReaderIterative

  // ---- The type an integer is reported by makes no difference

  lemma SameInteger(s: Schema, i: int)
    requires 0 <= i < INT64_LIMIT
    ensures CheckInt(s, i) <==> CheckUint(s, i)
  {
  }

  lemma BeginOkNormal(s: Schema, ev: Event)
    ensures BeginOk(s, Normal(ev)) <==> BeginOk(s, ev)
  {
    hide CheckInt, CheckUint;
    match ev
    case Int(i) => if 0 <= i < INT64_LIMIT { SameInteger(s, i); }
    case Uint(u) => if u < INT64_LIMIT { SameInteger(s, u); }
    case Int64(i) => if 0 <= i < INT64_LIMIT { SameInteger(s, i); }
    case Uint64(u) => if u < INT64_LIMIT { SameInteger(s, u); }
    case _ =>
  }

  lemma SameKind(ev: Event)
    ensures Normal(ev) == ev || (IsScalar(ev) && IsScalar(Normal(ev)))
  {
  }

  predicate IsScalar(ev: Event) {
    !ev.Key? && !ev.StartObject? && !ev.EndObject? && !ev.StartArray? && !ev.EndArray?
  }

  lemma {:induction false} NewContextNormal(s: Schema, ev: Event)
    requires IsScalar(ev) && IsScalar(Normal(ev))
    ensures NewContext(s, Normal(ev)) == NewContext(s, ev)
    decreases s, 1
  {
    hide Normal, First;
    var subs := Subschemas(s);
    forall i | 0 <= i < |subs| ensures First(subs[i], Normal(ev)) == First(subs[i], ev) {
      SubschemaSmaller(s, i);
      FirstNormal(subs[i], ev);
    }
  }

  lemma {:induction false} FirstNormal(s: Schema, ev: Event)
    requires IsScalar(ev) && IsScalar(Normal(ev))
    ensures First(s, Normal(ev)) == First(s, ev)
    decreases s, 2
  {
    hide Normal, NewContext, BeginOk;
    BeginOkNormal(s, ev);
    NewContextNormal(s, ev);
  }

  lemma {:induction false} FeedNormal(v: Validator, ev: Event)
    requires IsScalar(ev) && IsScalar(Normal(ev))
    ensures Feed(v, Normal(ev)) == Feed(v, ev)
    decreases v
  {
    hide Normal, NewContext, BeginOk, BeginValue, Forward;
    if v.valid {
      ForwardNormal(v.stack, ev);
      var stack := Forward(v.stack, ev);
      match BeginValue(v.root, stack)
      case None =>
      case Some(begun) =>
        BeginOkNormal(begun.1, ev);
        NewContextNormal(begun.1, ev);
    }
  }

  lemma {:induction false} ForwardNormal(stack: seq<Context>, ev: Event)
    requires IsScalar(ev) && IsScalar(Normal(ev))
    ensures Forward(stack, Normal(ev)) == Forward(stack, ev)
    decreases stack
  {
    hide Normal, Advance;
    forall i | 0 <= i < |stack| ensures Advance(stack[i], Normal(ev)) == Advance(stack[i], ev) {
      AdvanceNormal(stack[i], ev);
    }
  }

  lemma {:induction false} AdvanceNormal(ctx: Context, ev: Event)
    requires IsScalar(ev) && IsScalar(Normal(ev))
    ensures Advance(ctx, Normal(ev)) == Advance(ctx, ev)
    decreases ctx
  {
    hide Normal, Feed;
    forall i | 0 <= i < |ctx.validators| ensures Feed(ctx.validators[i], Normal(ev)) == Feed(ctx.validators[i], ev) {
      FeedNormal(ctx.validators[i], ev);
    }
  }

  lemma {:induction false} FeedAllNormals(v: Validator, evs: seq<Event>)
    ensures FeedAll(v, Normals(evs)) == FeedAll(v, evs)
    decreases |evs|
  {
    hide Feed, Normal;
    if evs != [] {
      SameKind(evs[0]);
      if Normal(evs[0]) != evs[0] { FeedNormal(v, evs[0]); }
      assert Normals(evs)[1..] == Normals(evs[1..]);
      FeedAllNormals(Feed(v, evs[0]), evs[1..]);
    }
  }

  /** Streaming validation of every trace that reports a value, its integers in any type that holds them. */
  lemma TraceDecidesConformance(s: Schema, trace: seq<Event>, j: Json)
    requires Reports(trace, j)
    ensures FeedAll(Fresh(s), trace) == if Conforms(s, j) then Fresh(s) else Invalid(s)
  {
    hide FeedAll, Normals, Conforms;
    FeedAllNormals(Fresh(s), trace);
    StreamingDecidesConformance(s, j);
  }

  // ---- A handler that refuses some event

  predicate Takes(h: seq<Event> -> bool, from: nat, trace: seq<Event>) {
    forall k :: from < k <= |trace| ==> h(trace[..k])
  }

  /** What a handler makes of a part of a parse, given what happens when every event is taken. */
  predicate Filters(h: seq<Event> -> bool, tr: seq<Event>, open: R.Outcome, o: R.Outcome) {
    && tr <= open.trace
    && (Takes(h, |tr|, open.trace) ==> o == open)
    && (!Takes(h, |tr|, open.trace) ==> o.Fail? && o.code == R.Termination && tr < o.trace && !h(o.trace))
  }

  function Open(c: R.Config): R.Config {
    c.(handler := _ => true)
  }

  lemma FiltersNothing(h: seq<Event> -> bool, tr: seq<Event>, o: R.Outcome)
    requires o.trace == tr
    ensures Filters(h, tr, o, o)
  {
  }

  lemma FiltersOne(c: R.Config, p: nat, tr: seq<Event>, ev: Event)
    ensures Filters(c.handler, tr, R.Emit(Open(c), p, tr, ev), R.Emit(c, p, tr, ev))
  {
    var t := tr + [ev];
    assert t[..|t|] == t;
  }

  /** One part after another. */
  lemma FiltersThen(h: seq<Event> -> bool, tr: seq<Event>, open1: R.Outcome, o1: R.Outcome, open: R.Outcome,
      o: R.Outcome)
    requires Filters(h, tr, open1, o1) && open1.Done? && open1.trace <= open.trace
    requires if o1.Done? then Filters(h, open1.trace, open, o) else o == o1
    ensures Filters(h, tr, open, o)
  {
    assert forall k :: 0 <= k <= |open1.trace| ==> open.trace[..k] == open1.trace[..k];
  }

  /** A part that fails, or goes on as it is. */
  lemma FiltersStill(h: seq<Event> -> bool, tr: seq<Event>, open: R.Outcome, o: R.Outcome)
    requires Filters(h, tr, open, o)
    ensures open.Fail? ==> o.Fail?
    ensures o.Done? ==> o == open
    ensures tr <= open.trace
  {
  }

  lemma SameSkip(c: R.Config, p: nat)
    requires p <= |c.text|
    ensures R.Skip(Open(c), p) == R.Skip(c, p)
  {
  }

  lemma SameBehaviour(c: R.Config)
    requires R.WellBehaved(c)
    ensures R.WellBehaved(Open(c))
  {
  }

  lemma ScalarFilters(c: R.Config, p: nat, tr: seq<Event>, isKey: bool)
    requires R.WellBehaved(c) && R.WellBehaved(Open(c)) && p <= |c.text|
    ensures Filters(c.handler, tr, R.Scalar(Open(c), p, tr, isKey), R.Scalar(c, p, tr, isKey))
  {
    hide R.WellBehaved, R.Emit, Filters;
    match c.leaf(p, isKey)
    case LeafErr(code) => FiltersNothing(c.handler, tr, R.Fail(tr, code));
    case LeafOk(ev, next) => FiltersOne(c, next, tr, ev);
  }

  lemma {:induction false} ValueFilters(c: R.Config, p: nat, tr: seq<Event>)
    requires R.WellBehaved(c) && R.WellBehaved(Open(c)) && p <= |c.text|
    ensures Filters(c.handler, tr, R.Value(Open(c), p, tr), R.Value(c, p, tr))
    decreases |c.text| - p, 1
  {
    hide R.WellBehaved, Filters, R.Object, R.Array, R.Scalar;
    if R.Peek(c.text, p) == '{' { ObjectFilters(c, p, tr); }
    else if R.Peek(c.text, p) == '[' { ArrayFilters(c, p, tr); }
    else { ScalarFilters(c, p, tr, false); }
  }

  lemma {:induction false} ObjectFilters(c: R.Config, p: nat, tr: seq<Event>)
    requires R.WellBehaved(c) && R.WellBehaved(Open(c)) && p < |c.text|
    ensures Filters(c.handler, tr, R.Object(Open(c), p, tr), R.Object(c, p, tr))
    decreases |c.text| - p, 0
  {
    hide R.WellBehaved, R.Skip, R.Members, R.Emit, Filters;
    var h := c.handler;
    var open1, o1 := R.Emit(Open(c), p + 1, tr, StartObject), R.Emit(c, p + 1, tr, StartObject);
    FiltersOne(c, p + 1, tr, StartObject);
    FiltersStill(h, tr, open1, o1);
    OpenEmits(c, p + 1, tr, StartObject);
    SameSkip(c, p + 1);
    var s := R.Skip(c, p + 1);
    var open, o := R.Object(Open(c), p, tr), R.Object(c, p, tr);
    if s.BadComment? {
      FiltersNothing(h, open1.trace, open);
    } else if R.Peek(c.text, s.pos) == '}' {
      FiltersOne(c, s.pos + 1, open1.trace, EndObject(0));
    } else {
      MembersFilters(c, s.pos, open1.trace, 0);
    }
    FiltersLast(h, tr, open1, o1, open, o);
  }

  lemma OpenEmits(c: R.Config, p: nat, tr: seq<Event>, ev: Event)
    ensures R.Emit(Open(c), p, tr, ev) == R.Done(p, tr + [ev])
  {
  }

  /** One part after another, when what comes next is filtered whichever way the first went. */
  lemma FiltersLast(h: seq<Event> -> bool, tr: seq<Event>, open1: R.Outcome, o1: R.Outcome, open: R.Outcome,
      o: R.Outcome)
    requires Filters(h, tr, open1, o1) && open1.Done?
    requires if o1.Done? then Filters(h, open1.trace, open, o)
      else o == o1 && exists x :: Filters(h, open1.trace, open, x)
    ensures Filters(h, tr, open, o)
  {
    hide Takes;
    FiltersThen(h, tr, open1, o1, open, o);
  }

  lemma {:induction false} MemberFilters(c: R.Config, p: nat, tr: seq<Event>)
    requires R.WellBehaved(c) && R.WellBehaved(Open(c)) && p <= |c.text|
    ensures Filters(c.handler, tr, R.Member(Open(c), p, tr), R.Member(c, p, tr))
    decreases |c.text| - p, 2
  {
    hide R.WellBehaved, R.Skip, R.Scalar, R.Value, Filters;
    var h := c.handler;
    var open, o := R.Member(Open(c), p, tr), R.Member(c, p, tr);
    if R.Peek(c.text, p) != '"' {
      FiltersNothing(h, tr, open);
      return;
    }
    var open1, o1 := R.Scalar(Open(c), p, tr, true), R.Scalar(c, p, tr, true);
    ScalarFilters(c, p, tr, true);
    FiltersStill(h, tr, open1, o1);
    if open1.Fail? { return; }
    SameSkip(c, open1.pos);
    var s := R.Skip(c, open1.pos);
    if s.BadComment? || R.Peek(c.text, s.pos) != ':' {
      FiltersNothing(h, open1.trace, open);
    } else {
      SameSkip(c, s.pos + 1);
      var t := R.Skip(c, s.pos + 1);
      if t.BadComment? { FiltersNothing(h, open1.trace, open); } else { ValueFilters(c, t.pos, open1.trace); }
    }
    FiltersLast(h, tr, open1, o1, open, o);
  }

  lemma {:induction false} MembersFilters(c: R.Config, p: nat, tr: seq<Event>, n: nat)
    requires R.WellBehaved(c) && R.WellBehaved(Open(c)) && p <= |c.text|
    ensures Filters(c.handler, tr, R.Members(Open(c), p, tr, n), R.Members(c, p, tr, n))
    decreases |c.text| - p, 3
  {
    hide R.WellBehaved, R.Skip, R.Member, R.Emit, Filters;
    var h := c.handler;
    var open, o := R.Members(Open(c), p, tr, n), R.Members(c, p, tr, n);
    var open1, o1 := R.Member(Open(c), p, tr), R.Member(c, p, tr);
    MemberFilters(c, p, tr);
    FiltersStill(h, tr, open1, o1);
    if open1.Fail? { return; }
    SameSkip(c, open1.pos);
    var u := R.Skip(c, open1.pos);
    if u.BadComment? {
      FiltersNothing(h, open1.trace, open);
    } else if R.Peek(c.text, u.pos) == '}' {
      FiltersOne(c, u.pos + 1, open1.trace, EndObject(n + 1));
    } else if R.Peek(c.text, u.pos) != ',' {
      FiltersNothing(h, open1.trace, open);
    } else {
      SameSkip(c, u.pos + 1);
      var w := R.Skip(c, u.pos + 1);
      if w.BadComment? {
        FiltersNothing(h, open1.trace, open);
      } else if c.trailingCommas && R.Peek(c.text, w.pos) == '}' {
        FiltersOne(c, w.pos + 1, open1.trace, EndObject(n + 1));
      } else {
        MembersFilters(c, w.pos, open1.trace, n + 1);
      }
    }
    FiltersLast(h, tr, open1, o1, open, o);
  }

  lemma {:induction false} ArrayFilters(c: R.Config, p: nat, tr: seq<Event>)
    requires R.WellBehaved(c) && R.WellBehaved(Open(c)) && p < |c.text|
    ensures Filters(c.handler, tr, R.Array(Open(c), p, tr), R.Array(c, p, tr))
    decreases |c.text| - p, 0
  {
    hide R.WellBehaved, R.Skip, R.Elements, R.Emit, Filters;
    var h := c.handler;
    var open1, o1 := R.Emit(Open(c), p + 1, tr, StartArray), R.Emit(c, p + 1, tr, StartArray);
    FiltersOne(c, p + 1, tr, StartArray);
    FiltersStill(h, tr, open1, o1);
    OpenEmits(c, p + 1, tr, StartArray);
    SameSkip(c, p + 1);
    var s := R.Skip(c, p + 1);
    var open, o := R.Array(Open(c), p, tr), R.Array(c, p, tr);
    if s.BadComment? {
      FiltersNothing(h, open1.trace, open);
    } else if R.Peek(c.text, s.pos) == ']' {
      FiltersOne(c, s.pos + 1, open1.trace, EndArray(0));
    } else {
      ElementsFilters(c, s.pos, open1.trace, 0);
    }
    FiltersLast(h, tr, open1, o1, open, o);
  }

  lemma {:induction false} ElementsFilters(c: R.Config, p: nat, tr: seq<Event>, n: nat)
    requires R.WellBehaved(c) && R.WellBehaved(Open(c)) && p <= |c.text|
    ensures Filters(c.handler, tr, R.Elements(Open(c), p, tr, n), R.Elements(c, p, tr, n))
    decreases |c.text| - p, 2
  {
    hide R.WellBehaved, R.Skip, R.Value, R.Emit, Filters;
    var h := c.handler;
    var open, o := R.Elements(Open(c), p, tr, n), R.Elements(c, p, tr, n);
    var open1, o1 := R.Value(Open(c), p, tr), R.Value(c, p, tr);
    ValueFilters(c, p, tr);
    FiltersStill(h, tr, open1, o1);
    if open1.Fail? { return; }
    SameSkip(c, open1.pos);
    var u := R.Skip(c, open1.pos);
    if u.BadComment? {
      FiltersNothing(h, open1.trace, open);
    } else if R.Peek(c.text, u.pos) == ']' {
      FiltersOne(c, u.pos + 1, open1.trace, EndArray(n + 1));
    } else if R.Peek(c.text, u.pos) != ',' {
      FiltersNothing(h, open1.trace, open);
    } else {
      SameSkip(c, u.pos + 1);
      var w := R.Skip(c, u.pos + 1);
      if w.BadComment? {
        FiltersNothing(h, open1.trace, open);
      } else if c.trailingCommas && R.Peek(c.text, w.pos) == ']' {
        FiltersOne(c, w.pos + 1, open1.trace, EndArray(n + 1));
      } else {
        ElementsFilters(c, w.pos, open1.trace, n + 1);
      }
    }
    FiltersLast(h, tr, open1, o1, open, o);
  }

  /** Whatever the handler, a parse is the one in which it takes every event, up to the first event it refuses: there it
      ends with that event and an error. */
  lemma ParseFilters(c: R.Config)
    requires R.WellBehaved(c)
    ensures R.WellBehaved(Open(c)) && Filters(c.handler, [], R.Recursive(Open(c)), R.Recursive(c))
  {
    SameBehaviour(c);
    hide R.WellBehaved, R.Skip, R.Value, Filters;
    var h := c.handler;
    var open, o := R.Recursive(Open(c)), R.Recursive(c);
    SameSkip(c, 0);
    var s := R.Skip(c, 0);
    if s.BadComment? || R.Peek(c.text, s.pos) == '\0' {
      FiltersNothing(h, [], open);
    } else {
      var open1, o1 := R.Value(Open(c), s.pos, []), R.Value(c, s.pos, []);
      ValueFilters(c, s.pos, []);
      FiltersStill(h, [], open1, o1);
      if open1.Fail? { return; }
      SameSkip(c, open1.pos);
      FiltersNothing(h, open1.trace, open);
      FiltersLast(h, [], open1, o1, open, o);
    }
  }

  // ---- The validating reader

  /** The validator as a handler. */
  ghost predicate Validates(h: seq<Event> -> bool, s: Schema) {
    forall evs :: h(evs) <==> FeedAll(Fresh(s), evs).valid
  }

  /** What is valid in the end was valid all along. */
  lemma ValidBefore(s: Schema, trace: seq<Event>, k: nat)
    requires k <= |trace| && FeedAll(Fresh(s), trace).valid
    ensures FeedAll(Fresh(s), trace[..k]).valid
  {
    hide FeedAll;
    assert trace == trace[..k] + trace[k..];
    FeedAllAppend(Fresh(s), trace[..k], trace[k..]);
    if !FeedAll(Fresh(s), trace[..k]).valid { InvalidStays(FeedAll(Fresh(s), trace[..k]), trace[k..]); }
  }

  /** Reading with a validator as the handler, whatever the flags: if the validator is valid in the end the parse is
      that of a handler that takes every event, and else it ends with an error of its own; and a text that can be read
      is read to its end exactly if its value conforms to the schema. */
  lemma ReaderDecidesConformance(c: R.Config, s: Schema)
    requires R.WellBehaved(c) && ReportsScalars(c) && Validates(c.handler, s)
    ensures R.WellBehaved(Open(c))
    ensures var open, o := R.Recursive(Open(c)), R.Recursive(c);
      && (if FeedAll(Fresh(s), o.trace).valid then o == open else o.Fail? && o.code == R.Termination)
      && (open.Done? ==> exists j :: Reports(open.trace, j) && (o == open <==> Conforms(s, j)))
    ensures ReaderIterative.Iterative(c).trace == R.Recursive(c).trace
    ensures ReaderIterative.Iterative(c).Done? <==> R.Recursive(c).Done?
  {
    ParseFilters(c);
    ReaderIterative.IterativeEqualsRecursive(c);
    var open, o := R.Recursive(Open(c)), R.Recursive(c);
    TakenIffValid(c, s, open, o);
    hide FeedAll, R.Recursive, Conforms, Filters, R.WellBehaved, Validates;
    if open.Done? {
      assert ReportsScalars(Open(c));
      ParseBuildsOneValue(Open(c));
      var j :| Reports(open.trace, j);
      TraceDecidesConformance(s, open.trace, j);
    }
  }

  lemma TakenIffValid(c: R.Config, s: Schema, open: R.Outcome, o: R.Outcome)
    requires Filters(c.handler, [], open, o) && Validates(c.handler, s)
    ensures if FeedAll(Fresh(s), o.trace).valid then o == open else o.Fail? && o.code == R.Termination
    ensures FeedAll(Fresh(s), o.trace).valid <==> FeedAll(Fresh(s), open.trace).valid
  {
    hide FeedAll;
    var h := c.handler;
    assert FeedAll(Fresh(s), []).valid by { NothingIsValid(s); }
    if FeedAll(Fresh(s), open.trace).valid {
      forall k | 0 < k <= |open.trace| ensures h(open.trace[..k]) { ValidBefore(s, open.trace, k); }
    } else {
      assert open.trace != [];
      assert open.trace[..|open.trace|] == open.trace && !h(open.trace);
      assert !Takes(h, 0, open.trace);
    }
  }

  lemma NothingIsValid(s: Schema)
    ensures FeedAll(Fresh(s), []).valid
  {
  }
}
