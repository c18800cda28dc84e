/** The Lua value a JSON tree stands for, and the one the builder in fact makes of it: the builder keeps the
    position in an outer array as a signed character while an inner array is being built. */
module LuaTables {
  import opened JsonParserStep
  import opened JsonGrammar

  datatype LuaKey = IntegerKey(i: int) | NameKey(name: string)

  /** The Lua values of the builder.  A number keeps the text it was read from. */
  datatype LuaValue =
    | Nil | Boolean(b: bool) | Integer(i: int) | Number(text: string) | Text(s: string) | Function(address: nat)
    | Table(fields: Fields)

  type Fields = map<LuaKey, LuaValue>

  /** What is pushed for a string that begins with "function": a C function, or the string after all. */
  type FunctionReader = string -> LuaValue

  ghost predicate Reads(f: FunctionReader) {
    forall s :: !f(s).Nil?
  }

  /** An assignment to a field: a nil removes it. */
  function Set(fields: Fields, k: LuaKey, v: LuaValue): Fields {
    if v.Nil? then fields - {k} else fields[k := v]
  }

  function DigitValue(ch: char): int {
    if DigitChar(ch) then ch as int - '0' as int else 0
  }

  function DecimalValue(s: string): int {
    if s == "" then 0 else DecimalValue(s[..|s| - 1]) * 10 + DigitValue(s[|s| - 1])
  }

  function ReadInteger(text: string): int {
    if StartsWith(text, '-') then -DecimalValue(text[1..]) else DecimalValue(text)
  }

  function StringValue(s: string, f: FunctionReader): LuaValue {
    if "function" <= s then f(s) else Text(s)
  }

  // ---- What a tree stands for

  function Denote(t: Tree, f: FunctionReader): LuaValue
    decreases t, 0
  {
    match t
    case NullTree => Nil
    case TrueTree => Boolean(true)
    case FalseTree => Boolean(false)
    case IntegerTree(text) => Integer(ReadInteger(text))
    case FloatTree(text) => Number(text)
    case StringTree(s) => StringValue(s, f)
    case ArrayTree(es) => Table(DenoteElements(es, f))
    case ObjectTree(ms) => Table(DenoteMembers(ms, f))
  }

  function DenoteElements(es: seq<Tree>, f: FunctionReader): Fields
    decreases es, 1
  {
    if es == [] then map[]
    else Set(DenoteElements(es[..|es| - 1], f), IntegerKey(|es|), Denote(es[|es| - 1], f))
  }

  function DenoteMembers(ms: seq<TreeMember>, f: FunctionReader): Fields
    decreases ms, 1
  {
    if ms == [] then map[]
    else Set(DenoteMembers(ms[..|ms| - 1], f), NameKey(ms[|ms| - 1].name), Denote(ms[|ms| - 1].value, f))
  }

  lemma NilOnlyForNull(t: Tree, f: FunctionReader)
    requires Reads(f)
    ensures Denote(t, f).Nil? <==> t.NullTree?
    ensures Exact(t, f).Nil? <==> t.NullTree?
  {
  }

  /** An array stands for the table of its elements that are not null, counted from one. */
  lemma {:induction false} ElementsMeaning(es: seq<Tree>, f: FunctionReader, i: int)
    requires Reads(f)
    ensures IntegerKey(i) in DenoteElements(es, f) <==> 1 <= i <= |es| && !es[i - 1].NullTree?
    ensures IntegerKey(i) in DenoteElements(es, f) ==> DenoteElements(es, f)[IntegerKey(i)] == Denote(es[i - 1], f)
  {
    if es != [] {
      var rest := es[..|es| - 1];
      ElementsMeaning(rest, f, i);
      NilOnlyForNull(es[|es| - 1], f);
      assert 1 <= i <= |rest| ==> rest[i - 1] == es[i - 1];
    }
  }

  /** The position of the last member of a name; -1 if there is none. */
  function LastNamed(ms: seq<TreeMember>, name: string): (k: int)
    ensures -1 <= k < |ms|
    ensures k >= 0 ==> ms[k].name == name
    ensures forall j :: k < j < |ms| ==> ms[j].name != name
  {
    if ms == [] then -1
    else if ms[|ms| - 1].name == name then |ms| - 1
    else LastNamed(ms[..|ms| - 1], name)
  }

  /** An object stands for the table in which the last member of each name decides, a null by removing it. */
  lemma {:induction false} MembersMeaning(ms: seq<TreeMember>, f: FunctionReader, name: string)
    requires Reads(f)
    ensures var k := LastNamed(ms, name);
      && (NameKey(name) in DenoteMembers(ms, f) <==> k >= 0 && !ms[k].value.NullTree?)
      && (NameKey(name) in DenoteMembers(ms, f) ==> DenoteMembers(ms, f)[NameKey(name)] == Denote(ms[k].value, f))
  {
    if ms != [] {
      MembersMeaning(ms[..|ms| - 1], f, name);
      NilOnlyForNull(ms[|ms| - 1].value, f);
    }
  }

  // ---- What the builder makes of a tree

  /** An array index as a signed character holds it. */
  function SignedChar(x: int): int {
    (x + 128) % 256 - 128
  }

  /** Whether an array begins in the tree outside any array of it, so that the index around it is saved. */
  predicate SavesIndex(t: Tree)
    decreases t, 0
  {
    match t
    case ArrayTree(_) => true
    case ObjectTree(ms) => MembersSaveIndex(ms)
    case _ => false
  }

  predicate MembersSaveIndex(ms: seq<TreeMember>)
    decreases ms, 1
  {
    ms != [] && (MembersSaveIndex(ms[..|ms| - 1]) || SavesIndex(ms[|ms| - 1].value))
  }

  /** The index after a value has been built where it was `index` before. */
  function IndexAfter(saved: bool, index: int): int {
    if saved then SignedChar(index) else index
  }

  /** The key under which the builder would put the next element after these. */
  function NextIndex(es: seq<Tree>): int {
    if es == [] then 1
    else IndexAfter(SavesIndex(es[|es| - 1]), NextIndex(es[..|es| - 1]) + 1)
  }

  function Exact(t: Tree, f: FunctionReader): LuaValue
    decreases t, 0
  {
    match t
    case ArrayTree(es) => Table(ExactElements(es, f))
    case ObjectTree(ms) => Table(ExactMembers(ms, f))
    case _ => Denote(t, f)
  }

  function ExactElements(es: seq<Tree>, f: FunctionReader): Fields
    decreases es, 1
  {
    if es == [] then map[]
    else Set(ExactElements(es[..|es| - 1], f), IntegerKey(NextIndex(es[..|es| - 1])), Exact(es[|es| - 1], f))
  }

  function ExactMembers(ms: seq<TreeMember>, f: FunctionReader): Fields
    decreases ms, 1
  {
    if ms == [] then map[]
    else Set(ExactMembers(ms[..|ms| - 1], f), NameKey(ms[|ms| - 1].name), Exact(ms[|ms| - 1].value, f))
  }

  // ---- When the two agree

  /** An index goes wrong exactly when an element at position 127 or later has an array in it. */
  lemma {:induction false} IndexIsRight(es: seq<Tree>)
    ensures -128 <= NextIndex(es) <= |es| + 1
    ensures NextIndex(es) == |es| + 1 <==> forall i :: 126 <= i < |es| ==> !SavesIndex(es[i])
  {
    if es != [] {
      var rest := es[..|es| - 1];
      IndexIsRight(rest);
      assert forall i :: 0 <= i < |rest| ==> rest[i] == es[i];
    }
  }

  /** The element at `k` is put where it does not belong, and this shows: it is not null, or it removes another. */
  predicate MisplacedAt(es: seq<Tree>, k: nat)
    requires k < |es|
  {
    var p := NextIndex(es[..k]);
    p != k + 1 && (!es[k].NullTree? || (1 <= p <= k && !es[p - 1].NullTree?))
  }

  predicate Misplaces(es: seq<Tree>) {
    exists k :: 0 <= k < |es| && MisplacedAt(es, k)
  }

  /** No array that stays in the result has a misplaced element. */
  predicate Faithful(t: Tree)
    decreases t, 0
  {
    match t
    case ArrayTree(es) => !Misplaces(es) && forall i :: 0 <= i < |es| ==> Faithful(es[i])
    case ObjectTree(ms) => forall i :: 0 <= i < |ms| && LastNamed(ms, ms[i].name) == i ==> Faithful(ms[i].value)
    case _ => true
  }

  lemma ShorterMisplaces(es: seq<Tree>)
    requires es != []
    ensures Misplaces(es) <==> Misplaces(es[..|es| - 1]) || MisplacedAt(es, |es| - 1)
  {
    var rest := es[..|es| - 1];
    forall k | 0 <= k < |rest| ensures MisplacedAt(rest, k) == MisplacedAt(es, k) {
      assert rest[..k] == es[..k];
    }
    if Misplaces(rest) {
      var k :| 0 <= k < |rest| && MisplacedAt(rest, k);
      assert MisplacedAt(es, k);
    }
  }

  lemma {:induction false} KeysOfElements(es: seq<Tree>, f: FunctionReader, k: LuaKey)
    requires k in DenoteElements(es, f) || k in ExactElements(es, f)
    ensures k.IntegerKey? && k.i <= |es|
  {
    if es != [] {
      var rest := es[..|es| - 1];
      IndexIsRight(rest);
      if k in DenoteElements(rest, f) || k in ExactElements(rest, f) { KeysOfElements(rest, f, k); }
    }
  }

  /** Without misplaced elements every element is found at its own position. */
  lemma {:induction false} ExactElementsMeaning(es: seq<Tree>, f: FunctionReader, i: int)
    requires Reads(f) && !Misplaces(es)
    ensures IntegerKey(i) in ExactElements(es, f) <==> 1 <= i <= |es| && !es[i - 1].NullTree?
    ensures IntegerKey(i) in ExactElements(es, f) ==> ExactElements(es, f)[IntegerKey(i)] == Exact(es[i - 1], f)
  {
    if es != [] {
      var rest := es[..|es| - 1];
      ShorterMisplaces(es);
      ExactElementsMeaning(rest, f, i);
      NilOnlyForNull(es[|es| - 1], f);
      assert 1 <= i <= |rest| ==> rest[i - 1] == es[i - 1];
    }
  }

  /** A misplaced element loses some element of the array. */
  lemma {:induction false} MisplacedLoses(es: seq<Tree>, f: FunctionReader) returns (i: int)
    requires Reads(f) && Misplaces(es)
    ensures IntegerKey(i) in DenoteElements(es, f) && IntegerKey(i) !in ExactElements(es, f)
  {
    var k := |es| - 1;
    var rest := es[..k];
    ShorterMisplaces(es);
    IndexIsRight(rest);
    NilOnlyForNull(es[k], f);
    if !es[k].NullTree? {
      i := k + 1;
      if NextIndex(rest) == k + 1 { RightSoFar(es); }
      if IntegerKey(i) in ExactElements(rest, f) { KeysOfElements(rest, f, IntegerKey(i)); }
    } else if Misplaces(rest) {
      i := MisplacedLoses(rest, f);
      KeysOfElements(rest, f, IntegerKey(i));
    } else {
      i := NextIndex(rest);
      ElementsMeaning(rest, f, i);
    }
  }

  lemma RightSoFar(es: seq<Tree>)
    requires es != [] && NextIndex(es[..|es| - 1]) == |es|
    ensures !Misplaces(es)
  {
    IndexIsRight(es[..|es| - 1]);
    forall k | 0 <= k < |es| ensures !MisplacedAt(es, k) {
      IndexIsRight(es[..k]);
      assert forall i :: 0 <= i < k ==> es[..k][i] == es[..|es| - 1][i];
    }
  }

  lemma {:induction false} ExactMembersMeaning(ms: seq<TreeMember>, f: FunctionReader, name: string)
    requires Reads(f)
    ensures var k := LastNamed(ms, name);
      && (NameKey(name) in ExactMembers(ms, f) <==> k >= 0 && !ms[k].value.NullTree?)
      && (NameKey(name) in ExactMembers(ms, f) ==> ExactMembers(ms, f)[NameKey(name)] == Exact(ms[k].value, f))
  {
    if ms != [] {
      ExactMembersMeaning(ms[..|ms| - 1], f, name);
      NilOnlyForNull(ms[|ms| - 1].value, f);
    }
  }

  lemma {:induction false} KeysOfMembers(ms: seq<TreeMember>, f: FunctionReader, k: LuaKey)
    requires k in DenoteMembers(ms, f) || k in ExactMembers(ms, f)
    ensures k.NameKey?
  {
    if ms != [] {
      var rest := ms[..|ms| - 1];
      if k in DenoteMembers(rest, f) || k in ExactMembers(rest, f) { KeysOfMembers(rest, f, k); }
    }
  }

  lemma {:induction false} SameElements(es: seq<Tree>, f: FunctionReader)
    requires Reads(f) && !Misplaces(es)
    ensures ExactElements(es, f) == DenoteElements(es, f)
        <==> forall i :: 0 <= i < |es| ==> Exact(es[i], f) == Denote(es[i], f)
  {
    forall i | 0 <= i < |es|
      ensures IntegerKey(i + 1) in ExactElements(es, f) <==> !es[i].NullTree?
      ensures IntegerKey(i + 1) in DenoteElements(es, f) <==> !es[i].NullTree?
      ensures !es[i].NullTree? ==> ExactElements(es, f)[IntegerKey(i + 1)] == Exact(es[i], f)
      ensures !es[i].NullTree? ==> DenoteElements(es, f)[IntegerKey(i + 1)] == Denote(es[i], f)
      ensures es[i].NullTree? ==> Exact(es[i], f) == Denote(es[i], f)
    {
      ElementsMeaning(es, f, i + 1);
      ExactElementsMeaning(es, f, i + 1);
    }
    if forall i :: 0 <= i < |es| ==> Exact(es[i], f) == Denote(es[i], f) {
      forall k
        ensures k in ExactElements(es, f) <==> k in DenoteElements(es, f)
        ensures k in ExactElements(es, f) ==> ExactElements(es, f)[k] == DenoteElements(es, f)[k]
      {
        if k in ExactElements(es, f) || k in DenoteElements(es, f) {
          KeysOfElements(es, f, k);
          ElementsMeaning(es, f, k.i);
          ExactElementsMeaning(es, f, k.i);
        }
      }
    }
  }

  predicate Decides(ms: seq<TreeMember>, i: int) {
    0 <= i < |ms| && LastNamed(ms, ms[i].name) == i
  }

  lemma {:induction false} SameMembers(ms: seq<TreeMember>, f: FunctionReader)
    requires Reads(f)
    ensures ExactMembers(ms, f) == DenoteMembers(ms, f)
        <==> forall i :: Decides(ms, i) ==> Exact(ms[i].value, f) == Denote(ms[i].value, f)
  {
    forall i | Decides(ms, i)
      ensures NameKey(ms[i].name) in ExactMembers(ms, f) <==> !ms[i].value.NullTree?
      ensures NameKey(ms[i].name) in DenoteMembers(ms, f) <==> !ms[i].value.NullTree?
      ensures !ms[i].value.NullTree? ==> ExactMembers(ms, f)[NameKey(ms[i].name)] == Exact(ms[i].value, f)
      ensures !ms[i].value.NullTree? ==> DenoteMembers(ms, f)[NameKey(ms[i].name)] == Denote(ms[i].value, f)
      ensures ms[i].value.NullTree? ==> Exact(ms[i].value, f) == Denote(ms[i].value, f)
    {
      MembersMeaning(ms, f, ms[i].name);
      ExactMembersMeaning(ms, f, ms[i].name);
    }
    if forall i :: Decides(ms, i) ==> Exact(ms[i].value, f) == Denote(ms[i].value, f) {
      forall k
        ensures k in ExactMembers(ms, f) <==> k in DenoteMembers(ms, f)
        ensures k in ExactMembers(ms, f) ==> ExactMembers(ms, f)[k] == DenoteMembers(ms, f)[k]
      {
        if k in ExactMembers(ms, f) || k in DenoteMembers(ms, f) {
          KeysOfMembers(ms, f, k);
          MembersMeaning(ms, f, k.name);
          ExactMembersMeaning(ms, f, k.name);
          assert LastNamed(ms, k.name) >= 0 ==> Decides(ms, LastNamed(ms, k.name));
        }
      }
    }
  }

  /** The builder makes of a tree what it stands for exactly when it misplaces no element. */
  lemma {:induction false} ExactIffFaithful(t: Tree, f: FunctionReader)
    requires Reads(f)
    ensures Exact(t, f) == Denote(t, f) <==> Faithful(t)
    decreases t
  {
    match t
    case ArrayTree(es) =>
      forall i | 0 <= i < |es| ensures Exact(es[i], f) == Denote(es[i], f) <==> Faithful(es[i]) {
        ExactIffFaithful(es[i], f);
      }
      if Misplaces(es) { var i := MisplacedLoses(es, f); } else { SameElements(es, f); }
    case ObjectTree(ms) =>
      forall i | 0 <= i < |ms| ensures Exact(ms[i].value, f) == Denote(ms[i].value, f) <==> Faithful(ms[i].value) {
        ExactIffFaithful(ms[i].value, f);
      }
      SameMembers(ms, f);
      assert Faithful(t) <==> forall i :: Decides(ms, i) ==> Faithful(ms[i].value);
    case _ =>
  }

  /** A caller's check: nothing is misplaced when no element from position 127 on has an array in it. */
  lemma NoLateArrays(es: seq<Tree>)
    requires forall i :: 126 <= i < |es| ==> !SavesIndex(es[i])
    ensures !Misplaces(es)
  {
    forall k | 0 <= k < |es| ensures !MisplacedAt(es, k) { IndexIsRight(es[..k]); }
  }

  /** The 127th element an array, and one more: that last one is not where it belongs. */
  lemma LateArrayMisplaces(f: FunctionReader)
    requires Reads(f)
    ensures var t := ArrayTree(seq(126, _ => NullTree) + [ArrayTree([]), TrueTree]);
      Exact(t, f) != Denote(t, f)
  {
    var es := seq(126, _ => NullTree) + [ArrayTree([]), TrueTree];
    var before := es[..127];
    assert before[126] == ArrayTree([]) && SavesIndex(before[126]);
    IndexIsRight(before);
    assert MisplacedAt(es, 127);
    ExactIffFaithful(ArrayTree(es), f);
  }
}
