/** A text for which decoding leaves another table than the one it stands for: an array as its 127th element. */
module LuaMisplaced {
  import opened JsonParserStep
  import opened JsonGrammar
  import opened LuaTables
  import opened LuaBuilding
  import opened LuaDecode

  /** So many times "null,". */
  function NullsText(n: nat): string {
    if n == 0 then "" else "null," + NullsText(n - 1)
  }

  function NullElements(n: nat): seq<Tree> {
    seq(n, _ => NullTree)
  }

  /** 126 nulls, an empty array and one more element. */
  function LateArrayText(): string {
    "[" + NullsText(126) + "[],true]"
  }

  function LateArrayTree(): Tree {
    ArrayTree(NullElements(126) + [ArrayTree([]), TrueTree])
  }

  // ---- What it is read as

  lemma NoBlank(s: string)
    requires s != "" && !BlankChar(s[0])
    ensures SkipBlanks(s) == s
  {
  }

  /** A null and a comma before more elements. */
  lemma NullFirst(s: string, first: bool)
    ensures Elements("null," + s, -1, 2, first)
         == match Elements(s, -1, 2, false)
            case NotFound => NotFound
            case Found(es, rest) => Found([NullTree] + es, rest)
  {
    hide SkipBlanks;
    var a, b := "null," + s, "," + s;
    NoBlank(a);
    NoBlank(b);
    assert "null" <= a && a[4..] == b && b[1..] == s;
    assert Value(a, -1, 2) == Found(NullTree, b);
  }

  lemma {:induction false} NullsFirst(n: nat, s: string, es: seq<Tree>, first: bool)
    requires Elements(s, -1, 2, false) == Found(es, "") && (n == 0 ==> !first)
    ensures Elements(NullsText(n) + s, -1, 2, first) == Found(NullElements(n) + es, "")
    decreases n
  {
    hide Elements;
    if n == 0 {
      assert NullsText(0) + s == s && NullElements(0) + es == es;
    } else {
      NullsFirst(n - 1, s, es, false);
      NullFirst(NullsText(n - 1) + s, first);
      assert NullsText(n) + s == "null," + (NullsText(n - 1) + s);
      assert NullElements(n) + es == [NullTree] + (NullElements(n - 1) + es);
    }
  }

  lemma LastIsTrue()
    ensures Elements("true]", -1, 2, false) == Found([TrueTree], "")
  {
    hide SkipBlanks;
    var a := "true]";
    NoBlank(a);
    NoBlank("]");
    assert "true" <= a && a[4..] == "]" && "]"[1..] == "";
    assert Value(a, -1, 2) == Found(TrueTree, "]");
  }

  lemma EmptyArrayFirst()
    ensures Value("[],true]", -1, 2) == Found(ArrayTree([]), ",true]")
  {
    hide SkipBlanks;
    var a, b := "[],true]", "],true]";
    NoBlank(b);
    assert a[1..] == b && b[1..] == ",true]";
    assert Elements(b, -1, 3, true) == Found([], ",true]");
  }

  lemma LastTwo()
    ensures Elements("[],true]", -1, 2, false) == Found([ArrayTree([]), TrueTree], "")
  {
    hide SkipBlanks, Value;
    EmptyArrayFirst();
    LastIsTrue();
    NoBlank("[],true]");
    NoBlank(",true]");
    assert ",true]"[1..] == "true]";
    assert [ArrayTree([])] + [TrueTree] == [ArrayTree([]), TrueTree];
  }

  lemma TextIsTree()
    ensures ParseText(LateArrayText(), -1) == Legal(LateArrayTree())
  {
    hide Elements, SkipBlanks, NullsText;
    var text := LateArrayText();
    NoBlank(text);
    LastTwo();
    NullsFirst(126, "[],true]", [ArrayTree([]), TrueTree], true);
    assert text[1..] == NullsText(126) + "[],true]";
    NothingBehind();
  }

  lemma NothingBehind()
    ensures SkipBlanks("") == ""
  {
  }

  lemma {:induction false} AllPositive(s: string)
    requires forall i :: 0 <= i < |s| ==> !Stops(s[i])
    ensures Positive(s) == s
    decreases |s|
  {
    if s != "" {
      AllPositive(s[1..]);
      assert [s[0]] + s[1..] == s;
    }
  }

  lemma {:induction false} NullsPositive(n: nat)
    ensures forall i :: 0 <= i < |NullsText(n)| ==> !Stops(NullsText(n)[i])
    decreases n
  {
    if n > 0 { NullsPositive(n - 1); }
  }

  // ---- What decoding leaves

  lemma TreeIsMisplaced(f: FunctionReader)
    requires Reads(f)
    ensures Exact(LateArrayTree(), f) != Denote(LateArrayTree(), f)
  {
    hide Exact, Denote;
    LateArrayMisplaces(f);
    assert NullElements(126) == seq(126, _ => NullTree);
  }

  /** The text is legal, and the table decoding leaves for it is not the one it stands for. */
  lemma LateArrayIsMisplaced(lua: seq<LuaValue>, f: FunctionReader)
    requires Reads(f)
    ensures ParseText(LateArrayText(), -1) == Legal(LateArrayTree())
    ensures var left := Exact(LateArrayTree(), f);
      Decode(lua, LateArrayText(), f) == Success(Fresh(lua + [left])) && left != Denote(LateArrayTree(), f)
  {
    hide Decode, Exact, Denote, ParseText, LateArrayTree, NullsText, Positive;
    TextIsTree();
    NullsPositive(126);
    AllPositive(LateArrayText());
    DecodeOutcome(lua, LateArrayText(), f);
    TreeIsMisplaced(f);
  }
}
