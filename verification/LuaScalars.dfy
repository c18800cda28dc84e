/** What the scalars of a text become in the table decoding leaves for it. */
module LuaScalars {
  import opened JsonParserStep
  import opened JsonGrammar
  import opened LuaTables
  import opened LuaBuilding
  import opened LuaDecode
  import I = JsonItoa

  // ---- The digits of an integer

  /** The decimal text of an integer is read as that integer. */
  lemma IntegerIsRead(i: int)
    ensures ReadInteger(I.IntegerText(i)) == i
  {
    hide DecimalValue, I.Decimal;
    var n := if i < 0 then -i else i;
    DecimalIsRead(n);
    DecimalIsDigits(n);
    if i < 0 { assert ("-" + I.Decimal(n))[1..] == I.Decimal(n); }
  }

  lemma {:induction false} DecimalIsRead(n: nat)
    ensures DecimalValue(I.Decimal(n)) == n
    decreases n
  {
    var d := I.Decimal(n);
    if n >= 10 {
      DecimalIsRead(n / 10);
      assert d[..|d| - 1] == I.Decimal(n / 10);
    } else {
      assert d[..0] == "";
    }
  }

  lemma {:induction false} DecimalIsDigits(n: nat)
    ensures var d := I.Decimal(n);
      d != "" && (forall k :: 0 <= k < |d| ==> '0' <= d[k] <= '9') && (d[0] == '0' <==> n == 0) && (n == 0 ==> d == "0")
    decreases n
  {
    if n >= 10 { DecimalIsDigits(n / 10); }
  }

  // ---- Texts of one scalar

  /** A text of one value in brackets. */
  lemma OneElement(s: string, t: Tree)
    requires s != "" && s[0] !in " \t\r\n]" && Value(s + "]", -1, 2) == Found(t, "]")
    ensures ParseText("[" + s + "]", -1) == Legal(ArrayTree([t]))
  {
    hide Value;
    var text := "[" + s + "]";
    assert text[1..] == s + "]" && "]"[1..] == "";
    assert Elements(s + "]", -1, 2, true) == Found([t], "]"[1..]);
    BracketBegins(text, [t]);
  }

  lemma BracketBegins(text: string, es: seq<Tree>)
    requires text != "" && text[0] == '[' && Elements(text[1..], -1, 2, true) == Found(es, "")
    ensures ParseText(text, -1) == Legal(ArrayTree(es))
  {
    hide Elements;
    assert SkipBlanks("") == "";
  }

  /** What decoding leaves for such a text. */
  lemma OneDecodes(lua: seq<LuaValue>, s: string, t: Tree, v: LuaValue, f: FunctionReader)
    requires s != "" && s[0] !in " \t\r\n]" && Value(s + "]", -1, 2) == Found(t, "]")
    requires (forall k :: 0 <= k < |s| ==> 0 < s[k] as nat < 128) && Exact(t, f) == v && !v.Nil?
    ensures Decode(lua, "[" + s + "]", f) == Success(Fresh(lua + [Table(map[IntegerKey(1) := v])]))
  {
    hide Decode, ParseText, Value, Positive;
    OneElement(s, t);
    StaysPositive("[" + s + "]");
    DecodeOutcome(lua, "[" + s + "]", f);
    OneField(t, v, f);
  }

  lemma OneField(t: Tree, v: LuaValue, f: FunctionReader)
    requires Exact(t, f) == v && !v.Nil?
    ensures Exact(ArrayTree([t]), f) == Table(map[IntegerKey(1) := v])
  {
    assert [t][..0] == [];
    assert ExactElements([], f) == map[];
  }

  lemma {:induction false} StaysPositive(s: string)
    requires forall k :: 0 <= k < |s| ==> 0 < s[k] as nat < 128
    ensures Positive(s) == s
    decreases |s|
  {
    if s != "" {
      StaysPositive(s[1..]);
      assert [s[0]] + s[1..] == s;
    }
  }

  lemma {:induction false} AllDigitsCount(d: string, rest: string)
    requires (forall k :: 0 <= k < |d| ==> '0' <= d[k] <= '9') && (rest != "" ==> !('0' <= rest[0] <= '9'))
    ensures Digits(d + rest) == |d|
    decreases |d|
  {
    if d == "" {
      assert d + rest == rest;
    } else {
      assert (d + rest)[1..] == d[1..] + rest;
      AllDigitsCount(d[1..], rest);
    }
  }

  /** A sign, digits that begin with a zero only if that is alone, and a bracket. */
  lemma WholeIsNumber(sign: string, d: string)
    requires sign == "" || sign == "-"
    requires d != "" && (forall k :: 0 <= k < |d| ==> '0' <= d[k] <= '9') && (d[0] == '0' ==> d == "0")
    ensures JsonGrammar.Number(sign + d + "]") == Found(IntegerTree(sign + d), "]")
  {
    hide Digits, ExponentLength;
    AllDigitsCount(d, "]");
    var whole := sign + d + "]";
    assert SignLength(whole) == |sign| && whole[|sign|..] == d + "]";
    assert IntegerLength(d + "]") == |d|;
    assert WholeLength(whole) == |sign| + |d|;
    assert whole[|sign + d|..] == "]" && whole[..|sign + d|] == sign + d;
    hide WholeLength;
  }

  lemma IntegerIsValue(i: int)
    ensures var s := I.IntegerText(i);
      Value(s + "]", -1, 2) == Found(IntegerTree(s), "]") && s[0] !in " \t\r\n]"
  {
    hide I.Decimal, JsonGrammar.Number;
    var n := if i < 0 then -i else i;
    DecimalIsDigits(n);
    var sign := if i < 0 then "-" else "";
    assert I.IntegerText(i) == sign + I.Decimal(n);
    WholeIsNumber(sign, I.Decimal(n));
  }

  /** Every integer: its decimal text in brackets leaves the table of that integer. */
  lemma IntegerDecodes(lua: seq<LuaValue>, i: int, f: FunctionReader)
    ensures Decode(lua, "[" + I.IntegerText(i) + "]", f)
         == Success(Fresh(lua + [Table(map[IntegerKey(1) := Integer(i)])]))
  {
    hide Decode, ReadInteger, Value, I.Decimal;
    IntegerIsRead(i);
    IntegerIsValue(i);
    DecimalIsDigits(if i < 0 then -i else i);
    OneDecodes(lua, I.IntegerText(i), IntegerTree(I.IntegerText(i)), Integer(i), f);
  }

  lemma WordValue(word: string, t: Tree)
    requires (word == "true" && t == TrueTree) || (word == "false" && t == FalseTree)
          || (word == "null" && t == NullTree)
    ensures Value(word + "]", -1, 2) == Found(t, "]")
  {
    assert (word + "]")[..|word|] == word && (word + "]")[|word|..] == "]";
  }

  lemma WordDecodes(lua: seq<LuaValue>, word: string, t: Tree, v: LuaValue, f: FunctionReader)
    requires (word == "true" && t == TrueTree && v == Boolean(true))
          || (word == "false" && t == FalseTree && v == Boolean(false))
    ensures Decode(lua, "[" + word + "]", f) == Success(Fresh(lua + [Table(map[IntegerKey(1) := v])]))
  {
    hide Decode, Value;
    WordValue(word, t);
    OneDecodes(lua, word, t, v, f);
  }

  lemma NoField(f: FunctionReader)
    ensures Exact(ArrayTree([NullTree]), f) == Table(map[])
  {
    assert [NullTree][..0] == [];
    assert ExactElements([], f) == map[];
  }

  lemma NullDecodes(lua: seq<LuaValue>, f: FunctionReader)
    ensures Decode(lua, "[null]", f) == Success(Fresh(lua + [Table(map[])]))
  {
    hide Decode, Value, ParseText, Positive, Exact;
    WordValue("null", NullTree);
    OneElement("null", NullTree);
    StaysPositive("[null]");
    assert "[" + "null" + "]" == "[null]";
    DecodeOutcome(lua, "[null]", f);
    NoField(f);
  }

  /** The words: a null leaves no field. */
  lemma WordsDecode(lua: seq<LuaValue>, f: FunctionReader)
    ensures Decode(lua, "[true]", f) == Success(Fresh(lua + [Table(map[IntegerKey(1) := Boolean(true)])]))
    ensures Decode(lua, "[false]", f) == Success(Fresh(lua + [Table(map[IntegerKey(1) := Boolean(false)])]))
    ensures Decode(lua, "[null]", f) == Success(Fresh(lua + [Table(map[])]))
  {
    hide Decode;
    WordDecodes(lua, "true", TrueTree, Boolean(true), f);
    WordDecodes(lua, "false", FalseTree, Boolean(false), f);
    NullDecodes(lua, f);
    assert "[" + "true" + "]" == "[true]" && "[" + "false" + "]" == "[false]";
  }

  lemma {:induction false} PlainBody(s: string, rest: string)
    requires forall k :: 0 <= k < |s| ==> 0x20 <= s[k] as nat < 128 && s[k] != '"' && s[k] != '\\'
    ensures StringBody(s + ("\"" + rest)) == Found(s, rest)
    decreases |s|
  {
    var whole := s + ("\"" + rest);
    if s == "" {
      assert whole == "\"" + rest && ("\"" + rest)[1..] == rest;
    } else {
      assert whole[1..] == s[1..] + ("\"" + rest);
      PlainBody(s[1..], rest);
      assert [s[0]] + s[1..] == s;
    }
  }

  lemma QuotedIsValue(w: string, content: string, rest: string)
    requires w != "" && w[0] == '"' && StringBody(w[1..]) == Found(content, rest)
    ensures Value(w, -1, 2) == Found(StringTree(content), rest)
  {
  }

  lemma StringIsValue(s: string)
    requires forall k :: 0 <= k < |s| ==> 0x20 <= s[k] as nat < 128 && s[k] != '"' && s[k] != '\\'
    ensures Value("\"" + s + "\"" + "]", -1, 2) == Found(StringTree(s), "]")
  {
    hide StringBody, Value;
    var inner := s + ("\"" + "]");
    PlainBody(s, "]");
    assert "\"" + s + "\"" + "]" == "\"" + inner;
    assert ("\"" + inner)[1..] == inner;
    QuotedIsValue("\"" + inner, s, "]");
  }

  /** A string of characters that stand for themselves, unless it begins with "function". */
  lemma StringDecodes(lua: seq<LuaValue>, s: string, f: FunctionReader)
    requires forall k :: 0 <= k < |s| ==> 0x20 <= s[k] as nat < 128 && s[k] != '"' && s[k] != '\\'
    requires !(|s| >= 8 && s[..8] == "function")
    ensures Decode(lua, "[\"" + s + "\"]", f) == Success(Fresh(lua + [Table(map[IntegerKey(1) := Text(s)])]))
  {
    hide Decode, Value;
    var quoted := "\"" + s + "\"";
    StringIsValue(s);
    OneDecodes(lua, quoted, StringTree(s), Text(s), f);
    assert "[" + quoted + "]" == "[\"" + s + "\"]";
  }

  /** And one that does is what the reader of functions makes of it. */
  lemma FunctionDecodes(lua: seq<LuaValue>, s: string, f: FunctionReader)
    requires forall k :: 0 <= k < |s| ==> 0x20 <= s[k] as nat < 128 && s[k] != '"' && s[k] != '\\'
    requires |s| >= 8 && s[..8] == "function" && !f(s).Nil?
    ensures Decode(lua, "[\"" + s + "\"]", f) == Success(Fresh(lua + [Table(map[IntegerKey(1) := f(s)])]))
  {
    hide Decode, Value;
    var quoted := "\"" + s + "\"";
    StringIsValue(s);
    OneDecodes(lua, quoted, StringTree(s), f(s), f);
    assert "[" + quoted + "]" == "[\"" + s + "\"]";
  }
}
