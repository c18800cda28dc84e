/** Resolving and creating the value a JSON pointer names. */
module JsonPointerTree {
  import opened JsonValues
  import opened JsonPointer
  import opened JsonGrammar

  datatype Resolution = Resolved(value: Json) | Unresolved(at: nat)

  /** The place of the first member of a name; the number of members if there is none. */
  function FindMember(members: seq<Member>, name: string): (k: nat)
    ensures k <= |members|
    ensures k < |members| ==> members[k].name == name
    ensures forall j :: 0 <= j < k ==> members[j].name != name
  {
    if members == [] || members[0].name == name then 0 else 1 + FindMember(members[1..], name)
  }

  function Later(r: Resolution): Resolution {
    match r
    case Resolved(v) => Resolved(v)
    case Unresolved(at) => Unresolved(at + 1)
  }

  /** `Get`: the value named by the tokens, or the place of the token that cannot be resolved. */
  function Get(v: Json, tokens: seq<PointerToken>): Resolution
    decreases |tokens|
  {
    if tokens == [] then Resolved(v)
    else
      var t := tokens[0];
      match v
      case JObject(members) =>
        var k := FindMember(members, t.name);
        if k == |members| then Unresolved(0) else Later(Get(members[k].value, tokens[1..]))
      case JArray(elements) =>
        if t.index == INVALID_INDEX || t.index >= |elements| then Unresolved(0)
        else Later(Get(elements[t.index], tokens[1..]))
      case _ => Unresolved(0)
  }

  /** An array with nulls at its end, long enough for an index. */
  function Padded(elements: seq<Json>, index: nat): (es: seq<Json>)
    ensures |es| >= |elements| && |es| > index
    ensures forall i :: 0 <= i < |elements| ==> es[i] == elements[i]
    ensures |elements| > index ==> es == elements
    ensures forall i :: |elements| <= i < |es| ==> es[i] == JNull
  {
    if |elements| > index then elements else elements + seq(index + 1 - |elements|, _ => JNull)
  }

  /** The container a token makes of a value. */
  function Retyped(v: Json, t: PointerToken): (c: Json)
    ensures c.JArray? || c.JObject?
    ensures c.JArray? ==> t.index != INVALID_INDEX
  {
    if t.index == INVALID_INDEX then (if v.JObject? then v else JObject([]))
    else if v.JArray? || v.JObject? then v else JArray([])
  }

  predicate Dash(t: PointerToken) {
    t.name == "-"
  }

  datatype Creation = Creation(root: Json, exist: bool)

  /** `Create`: the root with the named value in it, null if it is new, and whether it was there already. */
  function Create(v: Json, tokens: seq<PointerToken>): Creation
    decreases |tokens|
  {
    if tokens == [] then Creation(v, true)
    else
      var t := tokens[0];
      if v.JArray? && Dash(t) then
        Creation(JArray(v.elements + [Create(JNull, tokens[1..]).root]), false)
      else match Retyped(v, t)
        case JArray(elements) =>
          var es := Padded(elements, t.index);
          var c := Create(es[t.index], tokens[1..]);
          Creation(JArray(es[t.index := c.root]), c.exist && t.index < |elements|)
        case JObject(members) =>
          var k := FindMember(members, t.name);
          if k == |members| then
            Creation(JObject(members + [Member(t.name, Create(JNull, tokens[1..]).root)]), false)
          else
            var c := Create(members[k].value, tokens[1..]);
            Creation(JObject(members[k := Member(t.name, c.root)]), c.exist)
        case _ => Creation(v, false)
  }

  /** The value is reported as there already exactly when it resolves, and then nothing changes. */
  lemma {:induction false} ExistsIffResolves(v: Json, tokens: seq<PointerToken>)
    requires forall i :: 0 <= i < |tokens| ==> Dash(tokens[i]) ==> tokens[i].index == INVALID_INDEX
    ensures Create(v, tokens).exist <==> Get(v, tokens).Resolved?
    ensures Create(v, tokens).exist ==> Create(v, tokens).root == v
    decreases |tokens|
  {
    if tokens != [] && !(v.JArray? && Dash(tokens[0])) {
      var t := tokens[0];
      match Retyped(v, t)
      case JArray(elements) =>
        var es := Padded(elements, t.index);
        ExistsIffResolves(es[t.index], tokens[1..]);
        if v.JArray? && t.index < |elements| && Create(es[t.index], tokens[1..]).exist {
          assert es[t.index := es[t.index]] == elements;
        }
      case JObject(members) =>
        var k := FindMember(members, t.name);
        if k < |members| {
          ExistsIffResolves(members[k].value, tokens[1..]);
          assert members[k := Member(t.name, members[k].value)] == members;
        }
      case _ =>
    }
  }

  /** Whether on the way to be created a token "-" meets an array, to which it appends. */
  predicate Appends(v: Json, tokens: seq<PointerToken>)
    decreases |tokens|
  {
    tokens != [] &&
    var t := tokens[0];
    || (v.JArray? && Dash(t))
    || match Retyped(v, t)
       case JArray(elements) => Appends(Padded(elements, t.index)[t.index], tokens[1..])
       case JObject(members) =>
         var k := FindMember(members, t.name);
         Appends(if k < |members| then members[k].value else JNull, tokens[1..])
       case _ => false
  }

  lemma FindAppended(members: seq<Member>, m: Member)
    requires FindMember(members, m.name) == |members|
    ensures FindMember(members + [m], m.name) == |members|
  {
    assert (members + [m])[|members|] == m;
    assert forall i :: 0 <= i < |members| ==> (members + [m])[i] == members[i];
  }

  lemma FindReplaced(members: seq<Member>, k: nat, value: Json, name: string)
    requires k < |members|
    ensures FindMember(members[k := Member(members[k].name, value)], name) == FindMember(members, name)
  {
    var ms := members[k := Member(members[k].name, value)];
    assert forall i :: 0 <= i < |members| ==> ms[i].name == members[i].name;
  }

  /** After creating, the same pointer resolves, to what it resolved to before or else to null, exactly when it does
      not append. */
  lemma {:induction false} CreatedResolves(v: Json, tokens: seq<PointerToken>)
    requires forall i :: 0 <= i < |tokens| ==> Dash(tokens[i]) ==> tokens[i].index == INVALID_INDEX
    ensures var r := Get(Create(v, tokens).root, tokens);
      && (r.Resolved? <==> !Appends(v, tokens))
      && (r.Resolved? ==> r.value == if Get(v, tokens).Resolved? then Get(v, tokens).value else JNull)
    decreases |tokens|
  {
    if tokens != [] && !(v.JArray? && Dash(tokens[0])) {
      var t := tokens[0];
      match Retyped(v, t)
      case JArray(elements) =>
        var es := Padded(elements, t.index);
        CreatedResolves(es[t.index], tokens[1..]);
        NothingInNull(tokens[1..]);
      case JObject(members) =>
        var k := FindMember(members, t.name);
        CreatedResolves(if k < |members| then members[k].value else JNull, tokens[1..]);
        NothingInNull(tokens[1..]);
        if k < |members| {
          FindReplaced(members, k, Create(members[k].value, tokens[1..]).root, t.name);
        } else {
          FindAppended(members, Member(t.name, Create(JNull, tokens[1..]).root));
        }
      case _ =>
    }
  }

  lemma NothingInNull(tokens: seq<PointerToken>)
    ensures Get(JNull, tokens).Resolved? ==> Get(JNull, tokens) == Resolved(JNull)
  {
  }

  /** Creating a second time finds the value there and changes nothing. */
  lemma CreateTwice(v: Json, tokens: seq<PointerToken>)
    requires forall i :: 0 <= i < |tokens| ==> Dash(tokens[i]) ==> tokens[i].index == INVALID_INDEX
    requires !Appends(v, tokens)
    ensures Create(Create(v, tokens).root, tokens) == Creation(Create(v, tokens).root, true)
  {
    hide Create, Get, Appends;
    CreatedResolves(v, tokens);
    ExistsIffResolves(Create(v, tokens).root, tokens);
  }

  // ---- What creating leaves alone

  /** Which child of a value a token selects; -1 if none. */
  function Selected(v: Json, t: PointerToken): (k: int)
    ensures -1 <= k
  {
    match v
    case JObject(members) => if FindMember(members, t.name) == |members| then -1 else FindMember(members, t.name)
    case JArray(elements) => if t.index == INVALID_INDEX || t.index >= |elements| then -1 else t.index
    case _ => -1
  }

  /** The value of the child at a place. */
  function NthChild(v: Json, k: nat): Json
    requires (v.JArray? && k < |v.elements|) || (v.JObject? && k < |v.members|)
  {
    if v.JArray? then v.elements[k] else v.members[k].value
  }

  /** Two tokens that select the same child of a value: in an array by index, in an object by name. */
  predicate SameChild(v: Json, t: PointerToken, u: PointerToken) {
    Selected(v, t) >= 0 && Selected(v, t) == Selected(v, u)
  }

  /** A pointer to a node on the way to another. */
  predicate OnTheWay(v: Json, path: seq<PointerToken>, tokens: seq<PointerToken>)
    decreases |path|
  {
    || path == []
    || (tokens != [] && SameChild(v, path[0], tokens[0]) && !(v.JArray? && Dash(tokens[0]))
        && OnTheWay(NthChild(v, Selected(v, path[0])), path[1..], tokens[1..]))
  }

  /** Whether a pointer leads into an array that becomes an object on the way to another. */
  predicate IntoLost(v: Json, tokens: seq<PointerToken>, path: seq<PointerToken>)
    decreases |path|
  {
    && path != [] && tokens != [] && !(v.JArray? && Dash(tokens[0]))
    && ((v.JArray? && tokens[0].index == INVALID_INDEX)
        || (SameChild(v, path[0], tokens[0])
            && IntoLost(NthChild(v, Selected(v, path[0])), tokens[1..], path[1..])))
  }

  /** Whether an array with elements becomes an object on the way, and so loses them. */
  predicate LosesElements(v: Json, tokens: seq<PointerToken>)
    decreases |tokens|
  {
    tokens != [] &&
    var t := tokens[0];
    && !(v.JArray? && Dash(t))
    && if v.JArray? && t.index == INVALID_INDEX then v.elements != []
       else match Retyped(v, t)
         case JArray(elements) => LosesElements(Padded(elements, t.index)[t.index], tokens[1..])
         case JObject(members) =>
           var k := FindMember(members, t.name);
           k < |members| && LosesElements(members[k].value, tokens[1..])
         case _ => false
  }

  lemma FindOther(members: seq<Member>, m: Member, name: string)
    requires FindMember(members, name) < |members|
    ensures FindMember(members + [m], name) == FindMember(members, name)
  {
    assert forall i :: 0 <= i < |members| ==> (members + [m])[i] == members[i];
  }

  /** Every pointer that resolved and does not lead to a node on the way still resolves, to the same value, if and only
      if it does not lead into an array that becomes an object. */
  lemma {:induction false} OthersStay(v: Json, tokens: seq<PointerToken>, path: seq<PointerToken>)
    requires Get(v, path).Resolved? && !OnTheWay(v, path, tokens)
    ensures !IntoLost(v, tokens, path) ==> Get(Create(v, tokens).root, path) == Get(v, path)
    ensures IntoLost(v, tokens, path) && Indexed(tokens) && Indexed(path) ==>
      !Get(Create(v, tokens).root, path).Resolved?
    decreases |tokens|
  {
    if tokens == [] { return; }
    var t, p := tokens[0], path[0];
    if v.JArray? {
      if !Dash(t) {
        if t.index == INVALID_INDEX {
          if Indexed(tokens) && Indexed(path) { ElementIsLost(v, tokens, path); }
        } else if p.index == t.index {
          OthersStay(v.elements[t.index], tokens[1..], path[1..]);
        }
      }
    } else if v.JObject? {
      var k, j := FindMember(v.members, t.name), FindMember(v.members, p.name);
      if k == |v.members| {
        FindOther(v.members, Member(t.name, Create(JNull, tokens[1..]).root), p.name);
      } else {
        FindReplaced(v.members, k, Create(v.members[k].value, tokens[1..]).root, p.name);
        if j == k { OthersStay(v.members[k].value, tokens[1..], path[1..]); }
      }
    }
  }

  /** A pointer into the elements of an array that becomes an object. */
  lemma {:induction false} ElementIsLost(v: Json, tokens: seq<PointerToken>, path: seq<PointerToken>)
    requires tokens != [] && v.JArray? && !Dash(tokens[0]) && tokens[0].index == INVALID_INDEX
    requires path != [] && Get(v, path).Resolved? && path[0].name != tokens[0].name
    ensures !Get(Create(v, tokens).root, path).Resolved?
  {
    var m := Member(tokens[0].name, Create(JNull, tokens[1..]).root);
    assert [] + [m] == [m];
    assert FindMember([m], path[0].name) == 1;
  }

  /** A pointer that resolves, does not lead to a node on the way, and resolves to something else after creating. */
  predicate Lost(v: Json, tokens: seq<PointerToken>, path: seq<PointerToken>) {
    Get(v, path).Resolved? && !OnTheWay(v, path, tokens) && Get(Create(v, tokens).root, path) != Get(v, path)
  }

  /** The first element of the array that becomes an object. */
  function LostPath(v: Json, tokens: seq<PointerToken>): seq<PointerToken>
    requires LosesElements(v, tokens)
    decreases |tokens|
  {
    var t := tokens[0];
    if v.JArray? && t.index == INVALID_INDEX then [ElementZero(t)]
    else match Retyped(v, t)
      case JArray(elements) => [t] + LostPath(Padded(elements, t.index)[t.index], tokens[1..])
      case JObject(members) => [t] + LostPath(members[FindMember(members, t.name)].value, tokens[1..])
      case _ => []
  }

  /** A token for the first element of an array, under a name that is not another token's. */
  function ElementZero(t: PointerToken): (u: PointerToken)
    ensures u.index == 0 && u.name != t.name
  {
    PointerToken(if t.name == "0" then "1" else "0", 0)
  }

  lemma NullLosesNothing(tokens: seq<PointerToken>)
    ensures !LosesElements(JNull, tokens)
    decreases |tokens|
  {
    if tokens != [] && tokens[0].index != INVALID_INDEX { NullLosesNothing(tokens[1..]); }
  }

  lemma {:induction false} LostPathIsLost(v: Json, tokens: seq<PointerToken>)
    requires LosesElements(v, tokens)
    ensures Lost(v, tokens, LostPath(v, tokens))
    decreases |tokens|
  {
    var t, path := tokens[0], LostPath(v, tokens);
    if v.JArray? && t.index == INVALID_INDEX {
      ElementZeroIsLost(v, tokens);
    } else {
      assert path[0] == t;
      if !v.JArray? && !v.JObject? { NullLosesNothing(tokens[1..]); }
      if v.JArray? {
        if t.index >= |v.elements| { NullLosesNothing(tokens[1..]); }
        assert path[1..] == LostPath(v.elements[t.index], tokens[1..]);
        LostPathIsLost(v.elements[t.index], tokens[1..]);
      } else {
        var k := FindMember(v.members, t.name);
        assert path[1..] == LostPath(v.members[k].value, tokens[1..]);
        LostPathIsLost(v.members[k].value, tokens[1..]);
        FindReplaced(v.members, k, Create(v.members[k].value, tokens[1..]).root, t.name);
      }
    }
  }

  lemma ElementZeroIsLost(v: Json, tokens: seq<PointerToken>)
    requires tokens != [] && v.JArray? && v.elements != [] && !Dash(tokens[0]) && tokens[0].index == INVALID_INDEX
    ensures Lost(v, tokens, [ElementZero(tokens[0])])
  {
    var path := [ElementZero(tokens[0])];
    assert path[1..] == [];
    ElementIsLost(v, tokens, path);
  }

  lemma {:induction false} IntoLostLoses(v: Json, tokens: seq<PointerToken>, path: seq<PointerToken>)
    requires Get(v, path).Resolved? && IntoLost(v, tokens, path)
    ensures LosesElements(v, tokens)
    decreases |tokens|
  {
    if !(v.JArray? && tokens[0].index == INVALID_INDEX) {
      IntoLostLoses(NthChild(v, Selected(v, path[0])), tokens[1..], path[1..]);
    }
  }

  /** Creating loses a value off the way if and only if an array with elements becomes an object on the way. */
  lemma SomethingIsLost(v: Json, tokens: seq<PointerToken>)
    ensures (exists path :: Lost(v, tokens, path)) <==> LosesElements(v, tokens)
  {
    hide Get, Create, LosesElements, OnTheWay;
    if LosesElements(v, tokens) { LostPathIsLost(v, tokens); }
    forall path | Lost(v, tokens, path) ensures LosesElements(v, tokens) {
      OthersStay(v, tokens, path);
      IntoLostLoses(v, tokens, path);
    }
  }

  /** Tokens that have been read meet the requirement above: "-" is no index. */
  lemma DashIsNoIndex(tokens: seq<PointerToken>)
    requires Indexed(tokens)
    ensures forall i :: 0 <= i < |tokens| ==> Dash(tokens[i]) ==> tokens[i].index == INVALID_INDEX
  {
    forall i | 0 <= i < |tokens| && Dash(tokens[i]) ensures tokens[i].index == INVALID_INDEX {
      assert tokens[i].name[0] == '-';
    }
  }

  lemma ReadIsIndexed(source: string)
    ensures Parse(source).Tokens? ==> Indexed(Parse(source).tokens)
  {
    hide ParseTokens;
    ParsedAreIndexed(if Fragment(source) then source[1..] else source, Fragment(source));
  }

  /** What creating promises of every pointer that has been read: it reports what resolves and then changes nothing; the
      pointer resolves afterwards unless it appends, and then creating again changes nothing. */
  lemma CreateRead(v: Json, source: string)
    requires Parse(source).Tokens?
    ensures var tokens := Parse(source).tokens;
      var c := Create(v, tokens);
      var r := Get(c.root, tokens);
      && (c.exist <==> Get(v, tokens).Resolved?)
      && (c.exist ==> c.root == v)
      && (r.Resolved? <==> !Appends(v, tokens))
      && (r.Resolved? ==> r.value == if Get(v, tokens).Resolved? then Get(v, tokens).value else JNull)
      && (r.Resolved? ==> Create(c.root, tokens) == Creation(c.root, true))
  {
    hide Parse, Create, Get, Appends, Indexed, Dash;
    var tokens := Parse(source).tokens;
    ReadIsIndexed(source);
    DashIsNoIndex(tokens);
    ExistsIffResolves(v, tokens);
    CreatedResolves(v, tokens);
    if !Appends(v, tokens) { CreateTwice(v, tokens); }
  }

  /** And what it promises of every other pointer that has been read: resolved, and leading to no node on the way, it
      still resolves to the same value if and only if it does not lead into an array that becomes an object. */
  lemma OthersRead(v: Json, source: string, other: string)
    requires Parse(source).Tokens? && Parse(other).Tokens?
    requires Get(v, Parse(other).tokens).Resolved? && !OnTheWay(v, Parse(other).tokens, Parse(source).tokens)
    ensures var tokens, path := Parse(source).tokens, Parse(other).tokens;
      Get(Create(v, tokens).root, path) == Get(v, path) <==> !IntoLost(v, tokens, path)
  {
    hide Parse, Create, Get, Indexed, OnTheWay, IntoLost;
    ReadIsIndexed(source);
    ReadIsIndexed(other);
    OthersStay(v, Parse(source).tokens, Parse(other).tokens);
  }

  /** An array with one element that becomes an object: the pointer "/0" is lost. */
  lemma ArrayIsLost()
    ensures Parse("/a").Tokens? && Parse("/0").Tokens?
    ensures Lost(JArray([JInt(1)]), Parse("/a").tokens, Parse("/0").tokens)
  {
    hide Parse, Get, Create, OnTheWay;
    assert "/" + "a" == "/a" && "/" + "0" == "/0";
    OneToken("a");
    OneToken("0");
    OneElementIsLost();
  }

  lemma OneElementIsLost()
    ensures Lost(JArray([JInt(1)]), [TokenOf("a")], [TokenOf("0")])
  {
    NameAndIndex();
    assert [TokenOf("0")][1..] == [];
    ElementIsLost(JArray([JInt(1)]), [TokenOf("a")], [TokenOf("0")]);
  }

  lemma NameAndIndex()
    ensures IndexOf("a") == INVALID_INDEX && IndexOf("0") == 0 && IndexOf("-") == INVALID_INDEX
  {
    assert !DigitChar("a"[0]) && !DigitChar("-"[0]);
    assert "0"[1..] == "";
  }

  /** Appending to an empty array: the pointer "/-" does not find what it has created. */
  lemma AppendedIsNotFound()
    ensures Parse("/-").Tokens?
    ensures var tokens := Parse("/-").tokens;
      && Appends(JArray([]), tokens)
      && Create(JArray([]), tokens).root == JArray([JNull])
      && Get(Create(JArray([]), tokens).root, tokens) == Unresolved(0)
  {
    hide Parse;
    assert "/" + "-" == "/-";
    OneToken("-");
    NameAndIndex();
    assert [TokenOf("-")][1..] == [];
  }

  // ---- The loops that walk the tree

  /** A place in a value: which child to take at each level. */
  predicate HasPlace(v: Json, place: seq<nat>)
    decreases |place|
  {
    || place == []
    || (v.JArray? && place[0] < |v.elements| && HasPlace(v.elements[place[0]], place[1..]))
    || (v.JObject? && place[0] < |v.members| && HasPlace(v.members[place[0]].value, place[1..]))
  }

  function ValueAt(v: Json, place: seq<nat>): Json
    requires HasPlace(v, place)
    decreases |place|
  {
    if place == [] then v
    else if v.JArray? then ValueAt(v.elements[place[0]], place[1..])
    else ValueAt(v.members[place[0]].value, place[1..])
  }

  /** The value with another value put at a place. */
  function Put(v: Json, place: seq<nat>, w: Json): (r: Json)
    requires HasPlace(v, place)
    ensures HasPlace(r, place) && ValueAt(r, place) == w
    decreases |place|
  {
    if place == [] then w
    else if v.JArray? then JArray(v.elements[place[0] := Put(v.elements[place[0]], place[1..], w)])
    else
      var m := v.members[place[0]];
      JObject(v.members[place[0] := Member(m.name, Put(m.value, place[1..], w))])
  }

  /** Going one child further down. */
  lemma {:induction false} OneDown(v: Json, place: seq<nat>, k: nat, w: Json)
    requires HasPlace(v, place) && HasPlace(ValueAt(v, place), [k])
    ensures HasPlace(v, place + [k])
    ensures ValueAt(v, place + [k]) == ValueAt(ValueAt(v, place), [k])
    ensures Put(v, place + [k], w) == Put(v, place, Put(ValueAt(v, place), [k], w))
    decreases |place|
  {
    if place == [] {
      assert [] + [k] == [k];
    } else {
      assert (place + [k])[1..] == place[1..] + [k];
      OneDown(if v.JArray? then v.elements[place[0]] else v.members[place[0]].value, place[1..], k, w);
    }
  }

  lemma {:induction false} PutTwice(v: Json, place: seq<nat>, w: Json, w': Json)
    requires HasPlace(v, place)
    ensures Put(Put(v, place, w), place, w') == Put(v, place, w')
    ensures Put(v, place, ValueAt(v, place)) == v
    decreases |place|
  {
    if place != [] {
      var k := place[0];
      if v.JArray? {
        PutTwice(v.elements[k], place[1..], w, w');
        assert v.elements[k := Put(v.elements[k], place[1..], w)][k := Put(v.elements[k], place[1..], w')]
            == v.elements[k := Put(v.elements[k], place[1..], w')];
        assert v.elements[k := v.elements[k]] == v.elements;
      } else {
        PutTwice(v.members[k].value, place[1..], w, w');
        var m := v.members[k];
        assert v.members[k := Member(m.name, Put(m.value, place[1..], w))]
                        [k := Member(m.name, Put(m.value, place[1..], w'))]
            == v.members[k := Member(m.name, Put(m.value, place[1..], w'))];
        assert v.members[k := Member(m.name, m.value)] == v.members;
      }
    }
  }

  /** The child a token selects or makes in a value. */
  function Child(v: Json, t: PointerToken): Json {
    if v.JArray? && Dash(t) then JNull
    else match Retyped(v, t)
      case JArray(elements) => Padded(elements, t.index)[t.index]
      case JObject(members) =>
        var k := FindMember(members, t.name);
        if k == |members| then JNull else members[k].value
      case _ => v
  }

  /** The value with another child where the token selects one. */
  function WithChild(v: Json, t: PointerToken, c: Json): Json {
    if v.JArray? && Dash(t) then JArray(v.elements + [c])
    else match Retyped(v, t)
      case JArray(elements) => JArray(Padded(elements, t.index)[t.index := c])
      case JObject(members) =>
        var k := FindMember(members, t.name);
        JObject(if k == |members| then members + [Member(t.name, c)] else members[k := Member(t.name, c)])
      case _ => v
  }

  predicate HasChild(v: Json, t: PointerToken) {
    || (v.JArray? && !Dash(t) && t.index != INVALID_INDEX && t.index < |v.elements|)
    || (v.JObject? && FindMember(v.members, t.name) < |v.members|)
  }

  lemma CreateStep(v: Json, tokens: seq<PointerToken>)
    requires tokens != []
    ensures var c := Create(Child(v, tokens[0]), tokens[1..]);
      Create(v, tokens) == Creation(WithChild(v, tokens[0], c.root), HasChild(v, tokens[0]) && c.exist)
  {
  }

  /** The value `Create` returns. */
  function Target(v: Json, tokens: seq<PointerToken>): Json
    decreases |tokens|
  {
    if tokens == [] then v else Target(Child(v, tokens[0]), tokens[1..])
  }

  /** What `Create` returns is what was there, or null. */
  lemma {:induction false} TargetIsValueOrNull(v: Json, tokens: seq<PointerToken>)
    requires forall i :: 0 <= i < |tokens| ==> Dash(tokens[i]) ==> tokens[i].index == INVALID_INDEX
    ensures Target(v, tokens) == if Get(v, tokens).Resolved? then Get(v, tokens).value else JNull
    decreases |tokens|
  {
    if tokens != [] {
      TargetIsValueOrNull(Child(v, tokens[0]), tokens[1..]);
      NothingInNull(tokens[1..]);
    }
  }

  method FindChild(v: Json, t: PointerToken) returns (k: int)
    ensures k == Selected(v, t)
  {
    match v {
      case JObject(members) =>
        var m := FindMember(members, t.name);
        if m == |members| { return -1; }
        return m;
      case JArray(elements) =>
        if t.index == INVALID_INDEX || t.index >= |elements| { return -1; }
        return t.index;
      case _ => return -1;
    }
  }

  /** Resolving goes on in the child the first token selects. */
  lemma GetStep(v: Json, tokens: seq<PointerToken>)
    requires tokens != []
    ensures var k := Selected(v, tokens[0]);
      if k < 0 then Get(v, tokens) == Unresolved(0)
      else HasPlace(v, [k]) && Get(v, tokens) == Later(Get(ValueAt(v, [k]), tokens[1..]))
  {
    hide HasPlace, ValueAt, Put;
    var k := Selected(v, tokens[0]);
    if k >= 0 { OneLevel(v, k); }
  }

  function AfterTaking(n: nat, r: Resolution): Resolution {
    match r
    case Resolved(v) => Resolved(v)
    case Unresolved(at) => Unresolved(n + at)
  }

  /** A place one level down. */
  lemma OneLevel(v: Json, k: nat)
    requires (v.JArray? && k < |v.elements|) || (v.JObject? && k < |v.members|)
    ensures HasPlace(v, [k])
    ensures ValueAt(v, [k]) == if v.JArray? then v.elements[k] else v.members[k].value
    ensures v.JArray? ==> forall c :: Put(v, [k], c) == JArray(v.elements[k := c])
    ensures v.JObject? ==> forall c :: Put(v, [k], c) == JObject(v.members[k := Member(v.members[k].name, c)])
  {
    assert [k][1..] == [];
  }

  /** A value made the container a token asks for, with the child the token asks for where it lacked it, and the place
      of the child. */
  method MakeChild(value: Json, t: PointerToken) returns (v: Json, k: nat, there: bool)
    ensures HasPlace(v, [k]) && ValueAt(v, [k]) == Child(value, t)
    ensures there == HasChild(value, t)
    ensures forall c :: Put(v, [k], c) == WithChild(value, t, c)
  {
    hide HasPlace, ValueAt, Put;
    v, there := value, false;
    if v.JArray? && Dash(t) {
      k := |v.elements|;
      v := JArray(v.elements + [JNull]);
      OneLevel(v, k);
      assert forall c :: v.elements[k := c] == value.elements + [c];
      return;
    }
    if t.index == INVALID_INDEX {
      if !v.JObject? { v := JObject([]); }
    } else if !v.JArray? && !v.JObject? {
      v := JArray([]);
    }
    assert v == Retyped(value, t);
    if v.JArray? {
      there := t.index < |v.elements|;
      ghost var before := v.elements;
      while t.index >= |v.elements|
        invariant v.JArray? && |before| <= |v.elements|
        invariant if there then v.elements == before else |v.elements| <= t.index + 1
        invariant v.elements == before + seq(|v.elements| - |before|, _ => JNull)
      {
        v := JArray(v.elements + [JNull]);
      }
      assert v.elements == Padded(before, t.index);
      k := t.index;
    } else {
      k := FindMember(v.members, t.name);
      there := k < |v.members|;
      ghost var before := v.members;
      if !there { v := JObject(v.members + [Member(t.name, JNull)]); }
      assert !there ==> forall m :: v.members[k := m] == before + [m];
    }
    OneLevel(v, k);
  }

  /** A document whose root the walks go through; a reference into it is a place. */
  class RootedDocument {
    var root: Json

    constructor (v: Json)
      ensures root == v
    {
      root := v;
    }

    /** The loop of `Get`. */
    method Resolve(tokens: seq<PointerToken>) returns (found: bool, place: seq<nat>, unresolved: nat)
      ensures found <==> Get(root, tokens).Resolved?
      ensures found ==> HasPlace(root, place) && ValueAt(root, place) == Get(root, tokens).value
      ensures !found ==> unresolved == Get(root, tokens).at
    {
      place, unresolved, found := [], 0, false;
      assert tokens[0..] == tokens;
      while unresolved < |tokens|
        invariant HasPlace(root, place) && unresolved <= |tokens|
        invariant Get(root, tokens) == AfterTaking(unresolved, Get(ValueAt(root, place), tokens[unresolved..]))
      {
        hide HasPlace, ValueAt, Put, Get, Selected;
        var t, v := tokens[unresolved], ValueAt(root, place);
        assert tokens[unresolved..][0] == t && tokens[unresolved..][1..] == tokens[unresolved + 1..];
        GetStep(v, tokens[unresolved..]);
        var k := FindChild(v, t);
        if k < 0 { return; }
        OneDown(root, place, k, v);
        place, unresolved := place + [k], unresolved + 1;
      }
      assert tokens[unresolved..] == [];
      found := true;
    }

    /** One turn of the loop of `Create`: the value at a place gets the child the token asks for. */
    method Descend(t: PointerToken, place: seq<nat>) returns (child: seq<nat>, there: bool)
      requires HasPlace(root, place)
      modifies this
      ensures HasPlace(root, child)
      ensures ValueAt(root, child) == old(Child(ValueAt(root, place), t))
      ensures there == old(HasChild(ValueAt(root, place), t))
      ensures forall c :: Put(root, child, c) == old(Put(root, place, WithChild(ValueAt(root, place), t, c)))
    {
      hide Child, WithChild, HasChild, Put, ValueAt, HasPlace;
      var v, k;
      v, k, there := MakeChild(ValueAt(root, place), t);
      child := place + [k];
      OneDown(Put(root, place, v), place, k, v);
      forall c ensures Put(Put(root, place, v), child, c) == Put(root, place, WithChild(ValueAt(root, place), t, c)) {
        OneDown(Put(root, place, v), place, k, c);
        PutTwice(root, place, v, Put(v, [k], c));
      }
      root := Put(root, place, v);
    }

    /** The loop of `Create`: the new root is the one the function makes, and the place returned holds the value that
        was there, or null. */
    method CreateValue(tokens: seq<PointerToken>) returns (place: seq<nat>, exist: bool)
      modifies this
      ensures Creation(root, exist) == Create(old(root), tokens)
      ensures HasPlace(root, place)
      ensures ValueAt(root, place) == Target(old(root), tokens)
    {
      var i := 0;
      place, exist := [], true;
      while i < |tokens|
        invariant HasPlace(root, place) && i <= |tokens|
        invariant var c := Create(ValueAt(root, place), tokens[i..]);
          Create(old(root), tokens) == Creation(Put(root, place, c.root), exist && c.exist)
        invariant Target(old(root), tokens) == Target(ValueAt(root, place), tokens[i..])
      {
        hide Child, WithChild, HasChild, Put, ValueAt, HasPlace;
        CreateStep(ValueAt(root, place), tokens[i..]);
        assert tokens[i..][1..] == tokens[i + 1..];
        var there;
        place, there := Descend(tokens[i], place);
        exist := exist && there;
        i := i + 1;
      }
      PutTwice(root, place, JNull, JNull);
    }
  }
}
