/** What JSON pointers select, said of the names and places themselves. */
module JsonPointerPaths {
  import opened JsonValues
  import opened JsonPointer
  import opened JsonPointerTree
  import opened JsonItoa
  import G = JsonGrammar

  /** The text of a path: a solidus before each name, in which a tilde and a solidus are escaped. */
  function PathText(names: seq<string>): string {
    if names == [] then "" else "/" + NameText(names[0]) + PathText(names[1..])
  }

  function NameText(name: string): string {
    if name == "" then ""
    else (match name[0] case '~' => "~0" case '/' => "~1" case ch => [ch]) + NameText(name[1..])
  }

  /** Whether a path leads from a value to another: through the first member of each name, and through the element
      whose place the name spells in decimal digits. */
  ghost predicate Leads(v: Json, names: seq<string>, target: Json)
    decreases |names|
  {
    if names == [] then v == target
    else match v
      case JObject(members) =>
        exists k :: 0 <= k < |members| && members[k].name == names[0]
          && (forall j :: 0 <= j < k ==> members[j].name != names[0]) && Leads(members[k].value, names[1..], target)
      case JArray(elements) =>
        exists i :: 0 <= i < |elements| && i < 0xFFFF_FFFF && names[0] == Decimal(i)
          && Leads(elements[i], names[1..], target)
      case _ => false
  }

  function TokensOf(names: seq<string>): seq<PointerToken> {
    if names == [] then [] else [TokenOf(names[0])] + TokensOf(names[1..])
  }

  // ---- The text of a path is read as its names

  lemma {:induction false} NameIsPrinted(name: string)
    ensures PrintName(name, false) == Utf8Codec.Whole(NameText(name))
    decreases |name|
  {
    if name != "" { NameIsPrinted(name[1..]); }
  }

  lemma {:induction false} PathIsPrinted(names: seq<string>)
    ensures PrintTokens(TokensOf(names), false) == Utf8Codec.Whole(PathText(names)) && Indexed(TokensOf(names))
    decreases |names|
  {
    hide PrintName, NameText, IndexOf;
    if names != [] {
      NameIsPrinted(names[0]);
      PathIsPrinted(names[1..]);
      assert TokensOf(names)[1..] == TokensOf(names[1..]);
    }
  }

  lemma PathIsRead(names: seq<string>)
    ensures Parse(PathText(names)) == Tokens(TokensOf(names))
  {
    hide PrintTokens, Parse, Indexed;
    PathIsPrinted(names);
    PrintThenParse(TokensOf(names), false);
  }

  // ---- Indices

  lemma {:induction false} ValueOneMore(name: string, ch: char, n: nat)
    ensures Value(name + [ch], n) == Value(name, n) * 10 + DigitOf(ch)
    decreases |name|
  {
    if name == "" {
      assert (name + [ch])[1..] == "";
    } else {
      assert (name + [ch])[1..] == name[1..] + [ch];
      ValueOneMore(name[1..], ch, n * 10 + DigitOf(name[0]));
    }
  }

  lemma {:induction false} DecimalValue(i: nat)
    ensures var d := Decimal(i);
      OnlyDigits(d) && Value(d, 0) == i && (d[0] == '0' <==> i == 0) && (i == 0 ==> |d| == 1)
    decreases i
  {
    if i >= 10 {
      DecimalValue(i / 10);
      ValueOneMore(Decimal(i / 10), DigitChar(i % 10), 0);
    } else {
      assert Decimal(i)[1..] == "";
    }
  }

  lemma DecimalIndex(i: nat)
    requires i < 0xFFFF_FFFF
    ensures IndexOf(Decimal(i)) == i
  {
    hide Value, Accumulate;
    DecimalValue(i);
    IndexIsRight(Decimal(i));
  }

  /** Digits without a leading zero are the decimal digits of their value. */
  lemma {:induction false} DigitsAreDecimal(name: string)
    requires name != "" && OnlyDigits(name) && (|name| > 1 ==> name[0] != '0')
    ensures name == Decimal(Value(name, 0)) && (name[0] == '0' <==> Value(name, 0) == 0)
    decreases |name|
  {
    var front, last := name[..|name| - 1], name[|name| - 1];
    assert name == front + [last];
    ValueOneMore(front, last, 0);
    if front != "" { DigitsAreDecimal(front); }
  }

  function Power10(n: nat): nat {
    if n == 0 then 1 else Power10(n - 1) * 10
  }

  lemma {:induction false} ValueBelow(name: string)
    ensures Value(name, 0) < Power10(|name|)
    decreases |name|
  {
    if name != "" {
      var front, last := name[..|name| - 1], name[|name| - 1];
      assert name == front + [last];
      ValueOneMore(front, last, 0);
      ValueBelow(front);
    }
  }

  lemma {:induction false} PowerGrows(m: nat, n: nat)
    requires m <= n
    ensures Power10(m) <= Power10(n)
    decreases n
  {
    if m < n { PowerGrows(m, n - 1); }
  }

  /** A name of at most nine characters is an index exactly if it spells it. */
  lemma ShortIndex(name: string)
    requires |name| <= 9 && IndexOf(name) != INVALID_INDEX
    ensures name == Decimal(IndexOf(name)) && IndexOf(name) < 0xFFFF_FFFF
  {
    hide Accumulate, Value;
    ValueBelow(name);
    PowerGrows(|name|, 9);
    assert Power10(9) == 1_000_000_000 by { assert Power10(4) == 10_000; assert Power10(8) == 100_000_000; }
    IndexIsRight(name);
    DigitsAreDecimal(name);
  }

  // ---- What a path selects

  lemma {:induction false} LedIsSelected(v: Json, names: seq<string>, target: Json)
    requires Leads(v, names, target)
    ensures Get(v, TokensOf(names)) == Resolved(target)
    decreases |names|
  {
    hide IndexOf, Decimal;
    if names != [] {
      var name, more := names[0], names[1..];
      assert TokensOf(names)[0] == TokenOf(name) && TokensOf(names)[1..] == TokensOf(more);
      match v
      case JObject(members) =>
        var k :| 0 <= k < |members| && members[k].name == name
          && (forall j :: 0 <= j < k ==> members[j].name != name) && Leads(members[k].value, more, target);
        assert FindMember(members, name) == k;
        LedIsSelected(members[k].value, more, target);
      case JArray(elements) =>
        var i :| 0 <= i < |elements| && i < 0xFFFF_FFFF && name == Decimal(i) && Leads(elements[i], more, target);
        DecimalIndex(i);
        LedIsSelected(elements[i], more, target);
      case _ =>
    }
  }

  lemma {:induction false} SelectedIsLed(v: Json, names: seq<string>, target: Json)
    requires (forall i :: 0 <= i < |names| ==> |names[i]| <= 9) && Get(v, TokensOf(names)) == Resolved(target)
    ensures Leads(v, names, target)
    decreases |names|
  {
    hide IndexOf, Decimal;
    if names != [] {
      var t, more := TokenOf(names[0]), names[1..];
      assert TokensOf(names)[0] == t && TokensOf(names)[1..] == TokensOf(more);
      match v
      case JObject(members) => SelectedIsLed(members[FindMember(members, t.name)].value, more, target);
      case JArray(elements) =>
        SelectedIsLed(elements[t.index], more, target);
        ShortIndex(names[0]);
        assert names[0] == Decimal(t.index) && Leads(elements[t.index], more, target);
      case _ =>
    }
  }

  /** A pointer whose text is that of a path selects the value the path leads to; and none else, if its names have at
      most nine characters, so that no index is mistaken for another. */
  lemma PathSelects(v: Json, names: seq<string>, target: Json)
    ensures Parse(PathText(names)) == Tokens(TokensOf(names))
    ensures Leads(v, names, target) ==> Get(v, TokensOf(names)) == Resolved(target)
    ensures (forall i :: 0 <= i < |names| ==> |names[i]| <= 9) ==>
      (Leads(v, names, target) <==> Get(v, TokensOf(names)) == Resolved(target))
  {
    hide Parse, PathText, Leads, Get;
    PathIsRead(names);
    if Leads(v, names, target) { LedIsSelected(v, names, target); }
    if (forall i :: 0 <= i < |names| ==> |names[i]| <= 9) && Get(v, TokensOf(names)) == Resolved(target) {
      SelectedIsLed(v, names, target);
    }
  }

  /** The greatest number of 32 bits is no index: it selects nothing in an array, however long. */
  lemma GreatestIsNoIndex(elements: seq<Json>)
    ensures var names := [Decimal(0xFFFF_FFFF)];
      Parse(PathText(names)) == Tokens(TokensOf(names)) && Get(JArray(elements), TokensOf(names)) == Unresolved(0)
  {
    hide Parse, PathText, IndexOf, Decimal, Value;
    var names := [Decimal(0xFFFF_FFFF)];
    PathIsRead(names);
    DecimalValue(0xFFFF_FFFF);
    IndexIsRight(names[0]);
    assert TokensOf(names)[0] == TokenOf(names[0]);
  }

  /** The characters that stand for themselves in a fragment: letters, digits and three marks; any other but the escapes
      must be percent-encoded. */
  lemma FragmentCharacters(ch: char)
    requires ch != '%' && ch != '~' && ch != '/'
    ensures Parse("#/" + [ch])
         == if 'A' <= ch <= 'Z' || 'a' <= ch <= 'z' || '0' <= ch <= '9' || ch in ['-', '.', '_']
            then Tokens([TokenOf([ch])]) else Invalid(MustPercentEncode)
  {
    hide TokenOf;
    var s := "/" + [ch];
    assert ("#/" + [ch])[1..] == s;
    assert s[1..] == [ch] && [ch][1..] == "";
    assert ParseName("", true) == Name("", "") && ParseTokens("", true) == Tokens([]);
    assert [ch] + "" == [ch] && [TokenOf([ch])] + [] == [TokenOf([ch])];
  }
}
