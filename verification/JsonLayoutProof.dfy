/** The reader accepts exactly the texts that are laid out as JSON, and reports the events of the layout. */
module JsonLayoutProof {
  import opened Layout
  import opened JsonEvents
  import opened JsonLiterals
  import opened JsonNumerals
  import opened JsonLayout
  import opened JsonFillers
  import B = JsonReadBack
  import N = JsonNumbers
  import R = ReaderSpec
  import RI = ReaderIterative
  import T = JsonStrings

  // ---- Values are read

  lemma Emits(c: R.Config, big: N.Overflow, q: nat, tr: seq<Event>, ev: Event)
    requires B.Accepting(c, big)
    ensures R.Emit(c, q, tr, ev) == R.Done(q, tr + [ev])
  {
  }

  /** The characters a value can begin with. */
  predicate ValueFirst(ch: char) {
    ch == 'n' || ch == 't' || ch == 'f' || ch == '-' || '0' <= ch <= '9' || ch == '"' || ch == '[' || ch == '{'
  }

  lemma ValueBegins(v: Laid, c: R.Config, big: N.Overflow, rest: string)
    requires LegalValue(v, c, big)
    ensures SpellValue(v, rest) != "" && ValueFirst(SpellValue(v, rest)[0])
    ensures SpellValue(v, rest)[0] == '[' <==> v.Array?
    ensures SpellValue(v, rest)[0] == '{' <==> v.Object?
  {
    hide SpellFigures, SpellParts, SpellElements, SpellMembers, SpellFraction;
    if v.Number? {
      var n := v.n;
      FigureFirst(n.whole, SpellFraction(n.fraction, SpellExponent(n.exponent, rest)));
    }
  }

  lemma NumberBegins(n: Numeral, rest: string)
    requires LegalNumeral(n)
    ensures var ch := R.Peek(SpellNumeral(n, rest), 0); ch == '-' || '0' <= ch <= '9'
  {
    hide SpellFigures, SpellFraction;
    FigureFirst(n.whole, SpellFraction(n.fraction, SpellExponent(n.exponent, rest)));
  }

  lemma ReadsWord(c: R.Config, big: N.Overflow, p: nat, v: Laid, word: string, rest: string)
    requires B.Accepting(c, big) && p <= |c.text| && c.text[p..] == word + rest
    requires (v == NullWord && word == "null") || (v == TrueWord && word == "true")
      || (v == FalseWord && word == "false")
    ensures |rest| < |c.text| - p && c.text[|c.text| - |rest|..] == rest
    ensures c.leaf(p, false) == R.LeafOk(Told(v)[0], |c.text| - |rest|) && Told(v) == [Told(v)[0]]
  {
    TailOf(c.text, p, word, rest);
    assert c.text[p] == c.text[p..][0] == word[0];
  }

  lemma ReadsNumber(c: R.Config, big: N.Overflow, p: nat, n: Numeral, rest: string)
    requires B.Accepting(c, big) && p <= |c.text| && c.text[p..] == SpellNumeral(n, rest)
    requires LegalNumeral(n) && Moderate(n, big) && Ends(n, rest)
    ensures |rest| < |c.text| - p && c.text[|c.text| - |rest|..] == rest
    ensures c.leaf(p, false) == R.LeafOk(NumeralTold(n), |c.text| - |rest|)
  {
    hide SpellNumeral, N.NumberLeaf, NumeralTold;
    NumeralReads(c.text, p, n, rest, big);
    NumeralText(c.text, p, n, rest);
    NumberBegins(n, rest);
    Peeks(c.text, p, 0);
    assert c.leaf(p, false) == N.NumberLeaf(c.text, p, big);
  }

  lemma ReadsString(c: R.Config, big: N.Overflow, p: nat, parts: seq<Part>, rest: string, isKey: bool)
    requires B.Accepting(c, big) && p <= |c.text| && c.text[p..] == SpellString(parts, rest) && LegalParts(parts)
    ensures |rest| < |c.text| - p && c.text[|c.text| - |rest|..] == rest && R.Peek(c.text, p) == '"'
    ensures c.leaf(p, isKey)
         == R.LeafOk(if isKey then Key(PartsMean(parts)) else Str(PartsMean(parts)), |c.text| - |rest|)
  {
    hide SpellParts, LegalParts, PartsMean, T.StringBody;
    TailOf(c.text, p, "\"", SpellParts(parts, "\"" + rest));
    Peeks(c.text, p, 0);
    ReadsParts(c.text, p + 1, parts, rest);
  }

  lemma ReadsScalar(c: R.Config, big: N.Overflow, p: nat, tr: seq<Event>, v: Laid, rest: string)
    requires B.Accepting(c, big) && p <= |c.text| && c.text[p..] == SpellValue(v, rest)
    requires LegalValue(v, c, big) && (v.Number? ==> Ends(v.n, rest)) && !v.Array? && !v.Object?
    ensures |rest| < |c.text| - p && c.text[|c.text| - |rest|..] == rest
    ensures R.Value(c, p, tr) == R.Done(|c.text| - |rest|, tr + Told(v))
  {
    hide T.ScalarLeaf, SpellString, SpellNumeral, NumeralTold, PartsMean, LegalParts, Ends, LegalNumeral, Moderate;
    match v {
      case NullWord => ReadsWord(c, big, p, v, "null", rest);
      case TrueWord => ReadsWord(c, big, p, v, "true", rest);
      case FalseWord => ReadsWord(c, big, p, v, "false", rest);
      case Number(n) => ReadsNumber(c, big, p, n, rest);
      case Quoted(parts) => ReadsString(c, big, p, parts, rest, false);
    }
    ValueBegins(v, c, big, rest);
    Peeks(c.text, p, 0);
    Emits(c, big, |c.text| - |rest|, tr, Told(v)[0]);
  }

  // ---- What follows a value

  /** No number goes on with what can follow a value in a container. */
  lemma EndsInside(v: Laid, fillers: Fillers, comments: bool, more: string)
    requires LegalFillers(fillers, comments) && more != "" && more[0] in [',', ']', '}']
    ensures v.Number? ==> Ends(v.n, SpellFillers(fillers, more))
  {
    hide SpellFillers, LoneZero;
    var s := SpellFillers(fillers, more);
    FillersBegin(fillers, comments, more);
    assert "0123456789" == ['0', '1', '2', '3', '4', '5', '6', '7', '8', '9'] && "eE" == ['e', 'E'];
  }

  lemma FillersBegin(fillers: Fillers, comments: bool, more: string)
    requires LegalFillers(fillers, comments) && more != ""
    ensures var s := SpellFillers(fillers, more);
      s != "" && (Blank(s[0]) || s[0] == '/' || s[0] == more[0])
  {
    hide NoneOf;
  }

  lemma EndingBegins(end: Ending, bracket: char, c: R.Config, rest: string)
    requires LegalEnding(end, false, c) && bracket in [']', '}']
    ensures SpellEnding(end, bracket, rest) != "" && SpellEnding(end, bracket, rest)[0] in [',', ']', '}']
  {
  }

  /** An empty array or object. */
  lemma EmptyReads(c: R.Config, big: N.Overflow, p: nat, tr: seq<Event>, end: Ending, bracket: char, rest: string)
    requires B.Accepting(c, big) && p < |c.text| && LegalEnding(end, true, c) && bracket in [']', '}']
    requires c.text[p + 1..] == SpellEnding(end, bracket, rest)
    requires R.Peek(c.text, p) == if bracket == ']' then '[' else '{'
    ensures |rest| < |c.text| - p && c.text[|c.text| - |rest|..] == rest
    ensures R.Value(c, p, tr) == R.Done(|c.text| - |rest|,
      tr + if bracket == ']' then [StartArray] + [] + [EndArray(0)] else [StartObject] + [] + [EndObject(0)])
  {
    hide SpellFillers, R.Skip, R.Elements, R.Members, LegalFillers;
    SkipsTo(c, p + 1, end.fillers, [bracket] + rest);
    var q := |c.text| - |rest| - 1;
    TailOf(c.text, q, [bracket], rest);
    Peeks(c.text, q, 0);
    var start := if bracket == ']' then StartArray else StartObject;
    var stop := if bracket == ']' then EndArray(0) else EndObject(0);
    Emits(c, big, p + 1, tr, start);
    Emits(c, big, q + 1, tr + [start], stop);
    assert tr + [start] + [stop] == tr + ([start] + [] + [stop]);
  }

  /** Where the closing bracket stands behind the last value. */
  lemma EndingSkipped(c: R.Config, q: nat, after: Fillers, end: Ending, bracket: char, rest: string)
    requires q <= |c.text| && LegalFillers(after, c.comments) && LegalEnding(end, false, c) && bracket in [']', '}']
    requires c.text[q..] == SpellFillers(after, SpellEnding(end, bracket, rest))
    ensures |rest| < |c.text| - q && c.text[|c.text| - |rest|..] == rest
    ensures R.Skip(c, q).At? && R.Skip(c, q).pos < |c.text|
    ensures var u := R.Skip(c, q).pos;
      if end.Nothing? then R.Peek(c.text, u) == bracket && u + 1 == |c.text| - |rest|
      else
        && R.Peek(c.text, u) == ',' && c.trailingCommas && R.Skip(c, u + 1) == R.At(|c.text| - |rest| - 1)
        && R.Peek(c.text, |c.text| - |rest| - 1) == bracket
  {
    hide SpellFillers, R.Skip, LegalFillers;
    var ending := SpellEnding(end, bracket, rest);
    EndingBegins(end, bracket, c, rest);
    SkipsTo(c, q, after, ending);
    var u := |c.text| - |ending|;
    Peeks(c.text, u, 0);
    if end.Comma? {
      TailOf(c.text, u, ",", SpellFillers(end.fillers, [bracket] + rest));
      SkipsTo(c, u + 1, end.fillers, [bracket] + rest);
      Peeks(c.text, |c.text| - |rest| - 1, 0);
    }
    TailOf(c.text, |c.text| - |rest| - 1, [bracket], rest);
  }

  /** A comma, and the next element or member behind it. */
  lemma CommaSkipped(c: R.Config, q: nat, after: Fillers, before: Fillers, more: string)
    requires q <= |c.text| && LegalFillers(after, c.comments) && LegalFillers(before, c.comments)
    requires c.text[q..] == SpellFillers(after, "," + SpellFillers(before, more)) && Token(R.Peek(more, 0))
    ensures R.Skip(c, q).At? && R.Skip(c, q).pos < |c.text| && R.Peek(c.text, R.Skip(c, q).pos) == ','
    ensures |more| < |c.text| - q && c.text[|c.text| - |more|..] == more
    ensures R.Skip(c, R.Skip(c, q).pos + 1) == R.At(|c.text| - |more|)
    ensures R.Peek(c.text, |c.text| - |more|) == R.Peek(more, 0)
  {
    hide SpellFillers, R.Skip, LegalFillers;
    var comma := "," + SpellFillers(before, more);
    SkipsTo(c, q, after, comma);
    var u := |c.text| - |comma|;
    Peeks(c.text, u, 0);
    TailOf(c.text, u, ",", SpellFillers(before, more));
    SkipsTo(c, u + 1, before, more);
    Peeks(c.text, |c.text| - |more|, 0);
  }

  lemma LastElement(c: R.Config, big: N.Overflow, p: nat, tr: seq<Event>, n: nat, after: Fillers, end: Ending,
      rest: string)
    requires B.Accepting(c, big) && p <= |c.text| && R.Value(c, p, tr).Done?
    requires LegalFillers(after, c.comments) && LegalEnding(end, false, c)
    requires c.text[R.Value(c, p, tr).pos..] == SpellFillers(after, SpellEnding(end, ']', rest))
    ensures |rest| < |c.text| - p && c.text[|c.text| - |rest|..] == rest
    ensures R.Elements(c, p, tr, n) == R.Done(|c.text| - |rest|, R.Value(c, p, tr).trace + [EndArray(n + 1)])
  {
    hide R.Skip, R.Value, SpellFillers, LegalFillers, SpellEnding;
    var v := R.Value(c, p, tr);
    EndingSkipped(c, v.pos, after, end, ']', rest);
    Emits(c, big, |c.text| - |rest|, v.trace, EndArray(n + 1));
  }

  lemma NextElement(c: R.Config, big: N.Overflow, p: nat, tr: seq<Event>, n: nat, after: Fillers, before: Fillers,
                    more: string)
    requires B.Accepting(c, big) && p <= |c.text| && R.Value(c, p, tr).Done?
    requires LegalFillers(after, c.comments) && LegalFillers(before, c.comments) && ValueFirst(R.Peek(more, 0))
    requires c.text[R.Value(c, p, tr).pos..] == SpellFillers(after, "," + SpellFillers(before, more))
    ensures |more| < |c.text| - p && c.text[|c.text| - |more|..] == more
    ensures R.Elements(c, p, tr, n) == R.Elements(c, |c.text| - |more|, R.Value(c, p, tr).trace, n + 1)
  {
    hide R.Skip, R.Value, SpellFillers, LegalFillers;
    CommaSkipped(c, R.Value(c, p, tr).pos, after, before, more);
  }

  lemma FirstElement(elements: seq<LaidElement>, c: R.Config, big: N.Overflow, rest: string)
    requires elements != [] && LegalElements(elements, c, big)
    ensures FromElement(elements, rest) != "" && ValueFirst(FromElement(elements, rest)[0])
  {
    hide SpellValue, SpellFillers, LegalFillers;
    var after := SpellFillers(elements[0].after,
      if |elements| == 1 then rest else "," + SpellElements(elements[1..], rest));
    ValueBegins(elements[0].value, c, big, after);
  }

  /** A value that is laid out is read to its end, and its events are delivered. */
  lemma {:induction false} ReadsValue(c: R.Config, big: N.Overflow, p: nat, tr: seq<Event>, v: Laid, rest: string)
    requires B.Accepting(c, big) && p <= |c.text| && c.text[p..] == SpellValue(v, rest)
    requires LegalValue(v, c, big) && (v.Number? ==> Ends(v.n, rest))
    ensures |rest| < |c.text| - p && c.text[|c.text| - |rest|..] == rest
    ensures R.Value(c, p, tr) == R.Done(|c.text| - |rest|, tr + Told(v))
    decreases v, 0
  {
    hide B.Accepting, R.Value, SpellFillers, LegalFillers, FromElement, FromMember, R.Elements, R.Members, Ends,
      T.ScalarLeaf;
    if v.Array? {
      ReadsArray(c, big, p, tr, v.elements, v.end, rest);
    } else if v.Object? {
      ReadsObject(c, big, p, tr, v.members, v.end, rest);
    } else {
      hide SpellValue, LegalValue, Told;
      ReadsScalar(c, big, p, tr, v, rest);
    }
  }

  lemma {:induction false} ReadsArray(c: R.Config, big: N.Overflow, p: nat, tr: seq<Event>, elements: seq<LaidElement>,
                                      end: Ending, rest: string)
    requires B.Accepting(c, big) && p <= |c.text|
    requires c.text[p..] == "[" + SpellElements(elements, SpellEnding(end, ']', rest))
    requires LegalElements(elements, c, big) && LegalEnding(end, elements == [], c)
    ensures |rest| < |c.text| - p && c.text[|c.text| - |rest|..] == rest
    ensures R.Value(c, p, tr)
         == R.Done(|c.text| - |rest|, tr + ([StartArray] + ElementsTold(elements) + [EndArray(|elements|)]))
    decreases elements, 2
  {
    hide B.Accepting, SpellFillers, LegalFillers, FromElement, R.Elements, R.Value, LegalEnding, SpellEnding, R.Skip,
      R.Emit,
         ElementsTold, LegalValue;
    var ending := SpellEnding(end, ']', rest);
    TailOf(c.text, p, "[", SpellElements(elements, ending));
    Peeks(c.text, p, 0);
    if elements == [] {
      assert ElementsTold(elements) == [] by { NoElements(); }
      EmptyReads(c, big, p, tr, end, ']', rest);
    } else {
      var more := FromElement(elements, ending);
      FirstElement(elements, c, big, ending);
      SkipsTo(c, p + 1, elements[0].before, more);
      var p1 := |c.text| - |more|;
      Peeks(c.text, p1, 0);
      Emits(c, big, p + 1, tr, StartArray);
      ReadsElements(c, big, p1, tr + [StartArray], 0, elements, end, rest);
      WellBehavedOne(c, big);
      ArrayUnrolled(c, p, tr, p1);
      Around(tr, [StartArray], ElementsTold(elements), [EndArray(|elements|)]);
    }
  }

  lemma NoElements()
    ensures ElementsTold([]) == []
  {
  }

  lemma ArrayUnrolled(c: R.Config, p: nat, tr: seq<Event>, p1: nat)
    requires R.WellBehaved(c) && p < |c.text| && R.Peek(c.text, p) == '['
    requires R.Emit(c, p + 1, tr, StartArray) == R.Done(p + 1, tr + [StartArray])
    requires R.Skip(c, p + 1) == R.At(p1) && R.Peek(c.text, p1) != ']'
    ensures p1 <= |c.text| && R.Value(c, p, tr) == R.Elements(c, p1, tr + [StartArray], 0)
  {
    hide R.Skip, R.Elements, R.Emit;
  }

  /** Elements, from the first value on, up to the bracket. */
  lemma {:induction false} ReadsElements(c: R.Config, big: N.Overflow, p: nat, tr: seq<Event>, n: nat,
                                         elements: seq<LaidElement>, end: Ending, rest: string)
    requires B.Accepting(c, big) && p <= |c.text| && elements != [] && LegalElements(elements, c, big)
    requires LegalEnding(end, false, c) && c.text[p..] == FromElement(elements, SpellEnding(end, ']', rest))
    ensures |rest| < |c.text| - p && c.text[|c.text| - |rest|..] == rest
    ensures R.Elements(c, p, tr, n)
         == R.Done(|c.text| - |rest|, tr + ElementsTold(elements) + [EndArray(n + |elements|)])
    decreases elements, 1
  {
    hide B.Accepting, R.Value, R.Elements, SpellFillers, LegalFillers, SpellValue, LegalValue, Told, Ends, LegalEnding,
         SpellEnding, ValueFirst;
    var e := elements[0];
    var ending := SpellEnding(end, ']', rest);
    EndingBegins(end, ']', c, rest);
    if |elements| == 1 {
      var after := SpellFillers(e.after, ending);
      EndsInside(e.value, e.after, c.comments, ending);
      ReadsValue(c, big, p, tr, e.value, after);
      LastElement(c, big, p, tr, n, e.after, end, rest);
      assert elements[1..] == [];
      assert Told(e.value) + [] == Told(e.value);
    } else {
      var others := elements[1..];
      var more := FromElement(others, ending);
      var comma := "," + SpellFillers(others[0].before, more);
      EndsInside(e.value, e.after, c.comments, comma);
      ReadsValue(c, big, p, tr, e.value, SpellFillers(e.after, comma));
      FirstElement(others, c, big, ending);
      NextElement(c, big, p, tr, n, e.after, others[0].before, more);
      ReadsElements(c, big, |c.text| - |more|, tr + Told(e.value), n + 1, others, end, rest);
      Joined(tr, Told(e.value), ElementsTold(others), [EndArray(n + |elements|)]);
    }
  }

  lemma Around<T>(a: seq<T>, b: seq<T>, c: seq<T>, d: seq<T>)
    ensures a + b + c + d == a + (b + c + d)
  {
  }

  lemma WellBehavedOne(c: R.Config, big: N.Overflow)
    requires B.Accepting(c, big)
    ensures R.WellBehaved(c)
  {
  }

  lemma Joined<T>(a: seq<T>, b: seq<T>, c: seq<T>, d: seq<T>)
    ensures a + b + c + d == a + (b + c) + d
  {
  }

  // ---- Members are read

  lemma StringBegins(parts: seq<Part>, rest: string)
    ensures SpellString(parts, rest) != "" && SpellString(parts, rest)[0] == '"'
  {
    hide SpellParts;
  }

  lemma FirstMember(members: seq<LaidMember>, rest: string)
    requires members != []
    ensures FromMember(members, rest) != "" && FromMember(members, rest)[0] == '"'
  {
    hide SpellString, SpellValue, SpellFillers;
    var m := members[0];
    var after := SpellFillers(m.after, if |members| == 1 then rest else "," + SpellMembers(members[1..], rest));
    StringBegins(m.name, SpellFillers(m.afterName, ":" + SpellFillers(m.afterColon, SpellValue(m.value, after))));
  }

  /** The name and the colon of a member. */
  lemma NameReads(c: R.Config, big: N.Overflow, p: nat, tr: seq<Event>, m: LaidMember, more: string)
    requires B.Accepting(c, big) && p <= |c.text| && LegalParts(m.name) && LegalFillers(m.afterName, c.comments)
    requires LegalFillers(m.afterColon, c.comments) && Token(R.Peek(more, 0))
    requires c.text[p..] == SpellString(m.name, SpellFillers(m.afterName, ":" + SpellFillers(m.afterColon, more)))
    ensures |more| < |c.text| - p && c.text[|c.text| - |more|..] == more
    ensures R.Member(c, p, tr) == R.Value(c, |c.text| - |more|, tr + [Key(PartsMean(m.name))])
  {
    hide SpellString, SpellFillers, LegalFillers, R.Skip, T.ScalarLeaf, R.Value, PartsMean, LegalParts, R.Emit;
    var colon := ":" + SpellFillers(m.afterColon, more);
    var afterName := SpellFillers(m.afterName, colon);
    ReadsString(c, big, p, m.name, afterName, true);
    Emits(c, big, |c.text| - |afterName|, tr, Key(PartsMean(m.name)));
    SkipsTo(c, |c.text| - |afterName|, m.afterName, colon);
    var s := |c.text| - |colon|;
    Peeks(c.text, s, 0);
    TailOf(c.text, s, ":", SpellFillers(m.afterColon, more));
    SkipsTo(c, s + 1, m.afterColon, more);
  }

  lemma LastMember(c: R.Config, big: N.Overflow, p: nat, tr: seq<Event>, n: nat, after: Fillers, end: Ending,
      rest: string)
    requires B.Accepting(c, big) && p <= |c.text| && R.Member(c, p, tr).Done?
    requires LegalFillers(after, c.comments) && LegalEnding(end, false, c)
    requires c.text[R.Member(c, p, tr).pos..] == SpellFillers(after, SpellEnding(end, '}', rest))
    ensures |rest| < |c.text| - p && c.text[|c.text| - |rest|..] == rest
    ensures R.Members(c, p, tr, n) == R.Done(|c.text| - |rest|, R.Member(c, p, tr).trace + [EndObject(n + 1)])
  {
    hide R.Skip, R.Member, SpellFillers, LegalFillers, SpellEnding;
    var v := R.Member(c, p, tr);
    EndingSkipped(c, v.pos, after, end, '}', rest);
    Emits(c, big, |c.text| - |rest|, v.trace, EndObject(n + 1));
  }

  lemma NextMember(c: R.Config, big: N.Overflow, p: nat, tr: seq<Event>, n: nat, after: Fillers, before: Fillers,
                   more: string)
    requires B.Accepting(c, big) && p <= |c.text| && R.Member(c, p, tr).Done?
    requires LegalFillers(after, c.comments) && LegalFillers(before, c.comments) && R.Peek(more, 0) == '"'
    requires c.text[R.Member(c, p, tr).pos..] == SpellFillers(after, "," + SpellFillers(before, more))
    ensures |more| < |c.text| - p && c.text[|c.text| - |more|..] == more
    ensures R.Members(c, p, tr, n) == R.Members(c, |c.text| - |more|, R.Member(c, p, tr).trace, n + 1)
  {
    hide R.Skip, R.Member, SpellFillers, LegalFillers;
    CommaSkipped(c, R.Member(c, p, tr).pos, after, before, more);
  }

  lemma ObjectUnrolled(c: R.Config, p: nat, tr: seq<Event>, p1: nat)
    requires R.WellBehaved(c) && p < |c.text| && R.Peek(c.text, p) == '{'
    requires R.Emit(c, p + 1, tr, StartObject) == R.Done(p + 1, tr + [StartObject])
    requires R.Skip(c, p + 1) == R.At(p1) && R.Peek(c.text, p1) != '}'
    ensures p1 <= |c.text| && R.Value(c, p, tr) == R.Members(c, p1, tr + [StartObject], 0)
  {
    hide R.Skip, R.Members, R.Emit;
  }

  lemma {:induction false} ReadsObject(c: R.Config, big: N.Overflow, p: nat, tr: seq<Event>, members: seq<LaidMember>,
                                      end: Ending, rest: string)
    requires B.Accepting(c, big) && p <= |c.text|
    requires c.text[p..] == "{" + SpellMembers(members, SpellEnding(end, '}', rest))
    requires LegalMembers(members, c, big) && LegalEnding(end, members == [], c)
    ensures |rest| < |c.text| - p && c.text[|c.text| - |rest|..] == rest
    ensures R.Value(c, p, tr)
         == R.Done(|c.text| - |rest|, tr + ([StartObject] + MembersTold(members) + [EndObject(|members|)]))
    decreases members, 2
  {
    hide B.Accepting, SpellFillers, LegalFillers, FromMember, R.Members, R.Value, LegalEnding, SpellEnding, R.Skip,
      R.Emit,
         MembersTold, LegalValue;
    var ending := SpellEnding(end, '}', rest);
    TailOf(c.text, p, "{", SpellMembers(members, ending));
    Peeks(c.text, p, 0);
    if members == [] {
      assert MembersTold(members) == [] by { NoMembers(); }
      EmptyReads(c, big, p, tr, end, '}', rest);
    } else {
      var more := FromMember(members, ending);
      FirstMember(members, ending);
      SkipsTo(c, p + 1, members[0].before, more);
      var p1 := |c.text| - |more|;
      Peeks(c.text, p1, 0);
      Emits(c, big, p + 1, tr, StartObject);
      ReadsMembers(c, big, p1, tr + [StartObject], 0, members, end, rest);
      WellBehavedOne(c, big);
      ObjectUnrolled(c, p, tr, p1);
      Around(tr, [StartObject], MembersTold(members), [EndObject(|members|)]);
    }
  }

  lemma NoMembers()
    ensures MembersTold([]) == []
  {
  }

  /** One member, up to what follows its value. */
  lemma {:induction false} ReadsMember(c: R.Config, big: N.Overflow, p: nat, tr: seq<Event>, m: LaidMember,
      after: string)
    requires B.Accepting(c, big) && p <= |c.text| && LegalParts(m.name) && LegalFillers(m.afterName, c.comments)
    requires LegalFillers(m.afterColon, c.comments) && LegalValue(m.value, c, big)
    requires m.value.Number? ==> Ends(m.value.n, after)
    requires c.text[p..] == SpellMember(m, after)
    ensures |after| < |c.text| - p && c.text[|c.text| - |after|..] == after
    ensures R.Member(c, p, tr) == R.Done(|c.text| - |after|, tr + MemberTold(m))
    decreases m, 1
  {
    hide B.Accepting, R.Member, R.Value, SpellString, SpellFillers, LegalFillers, SpellValue, LegalValue, Told, Ends,
         PartsMean;
    var more := SpellValue(m.value, after);
    ValueBegins(m.value, c, big, after);
    NameReads(c, big, p, tr, m, more);
    ReadsValue(c, big, |c.text| - |more|, tr + [Key(PartsMean(m.name))], m.value, after);
    assert tr + [Key(PartsMean(m.name))] + Told(m.value) == tr + ([Key(PartsMean(m.name))] + Told(m.value));
  }

  /** Members, from the first name on, up to the bracket. */
  lemma {:induction false} ReadsMembers(c: R.Config, big: N.Overflow, p: nat, tr: seq<Event>, n: nat,
                                        members: seq<LaidMember>, end: Ending, rest: string)
    requires B.Accepting(c, big) && p <= |c.text| && members != [] && LegalMembers(members, c, big)
    requires LegalEnding(end, false, c) && c.text[p..] == FromMember(members, SpellEnding(end, '}', rest))
    ensures |rest| < |c.text| - p && c.text[|c.text| - |rest|..] == rest
    ensures R.Members(c, p, tr, n)
         == R.Done(|c.text| - |rest|, tr + MembersTold(members) + [EndObject(n + |members|)])
    decreases members, 1
  {
    hide B.Accepting, R.Member, R.Members, SpellFillers, LegalFillers, SpellMember, LegalValue, MemberTold, Ends,
         LegalEnding, SpellEnding, LegalParts;
    var m := members[0];
    var ending := SpellEnding(end, '}', rest);
    EndingBegins(end, '}', c, rest);
    if |members| == 1 {
      var after := SpellFillers(m.after, ending);
      EndsInside(m.value, m.after, c.comments, ending);
      ReadsMember(c, big, p, tr, m, after);
      LastMember(c, big, p, tr, n, m.after, end, rest);
      assert members[1..] == [];
      assert MemberTold(m) + [] == MemberTold(m);
    } else {
      var others := members[1..];
      var more := FromMember(others, ending);
      var comma := "," + SpellFillers(others[0].before, more);
      EndsInside(m.value, m.after, c.comments, comma);
      ReadsMember(c, big, p, tr, m, SpellFillers(m.after, comma));
      FirstMember(others, ending);
      NextMember(c, big, p, tr, n, m.after, others[0].before, more);
      ReadsMembers(c, big, |c.text| - |more|, tr + MemberTold(m), n + 1, others, end, rest);
      Joined(tr, MemberTold(m), MembersTold(others), [EndObject(n + |members|)]);
    }
  }

  // ---- Nothing else is accepted

  lemma ValueNotAtEnd(c: R.Config, p: nat, tr: seq<Event>)
    requires R.WellBehaved(c) && p <= |c.text| && R.Value(c, p, tr).Done?
    ensures R.Peek(c.text, p) != '\0' && p < |c.text|
  {
    hide R.Object, R.Array;
  }

  lemma FromThere(text: string, p: nat, head: string)
    requires p + |head| <= |text| && text[p..p + |head|] == head
    ensures text[p..] == head + text[p + |head|..]
  {
  }

  lemma FindsScalar(c: R.Config, big: N.Overflow, p: nat) returns (v: Laid)
    requires B.Accepting(c, big) && p <= |c.text| && c.leaf(p, false).LeafOk?
    ensures p < c.leaf(p, false).next <= |c.text|
    ensures var rest := c.text[c.leaf(p, false).next..];
      && LegalValue(v, c, big) && (v.Number? ==> Ends(v.n, rest)) && c.text[p..] == SpellValue(v, rest)
      && !v.Array? && !v.Object?
  {
    hide T.StringBody, N.NumberLeaf, SpellNumeral, SpellParts, LegalParts, LegalNumeral, Moderate, Ends, NumeralTold;
    var r := c.leaf(p, false);
    var ch := R.Peek(c.text, p);
    if ch == '"' {
      var parts := FindsParts(c.text, p + 1);
      v := Quoted(parts);
      FromThere(c.text, p, "\"");
    } else if ch == 'n' {
      v := NullWord;
      WordThere(c.text, p, "null");
    } else if ch == 't' {
      v := TrueWord;
      WordThere(c.text, p, "true");
    } else if ch == 'f' {
      v := FalseWord;
      WordThere(c.text, p, "false");
    } else {
      assert r == N.NumberLeaf(c.text, p, big);
      var n := NumeralFinds(c.text, p, big);
      v := Number(n);
      FoundIsModerate(c.text, p, n, big);
    }
  }

  lemma WordThere(text: string, p: nat, word: string)
    requires p <= |text| && word <= text[p..]
    ensures p + |word| <= |text| && text[p..] == word + text[p + |word|..]
  {
  }

  lemma FoundIsModerate(text: string, p: nat, n: Numeral, big: N.Overflow)
    requires p <= |text| && N.NumberLeaf(text, p, big).LeafOk? && LegalNumeral(n)
    requires var rest := text[N.NumberLeaf(text, p, big).next..]; Ends(n, rest) && text[p..] == SpellNumeral(n, rest)
    ensures Moderate(n, big)
  {
    hide N.NumberLeaf, SpellNumeral, LegalNumeral, Ends;
    NumeralReads(text, p, n, text[N.NumberLeaf(text, p, big).next..], big);
  }

  lemma {:induction false} FindsValue(c: R.Config, big: N.Overflow, p: nat, tr: seq<Event>) returns (v: Laid)
    requires B.Accepting(c, big) && p <= |c.text| && R.Value(c, p, tr).Done?
    ensures R.Value(c, p, tr).pos <= |c.text|
    ensures var rest := c.text[R.Value(c, p, tr).pos..];
      LegalValue(v, c, big) && (v.Number? ==> Ends(v.n, rest)) && c.text[p..] == SpellValue(v, rest)
    decreases |c.text| - p, 1
  {
    hide T.ScalarLeaf, LegalEnding, SpellElements, SpellMembers, LegalElements, LegalMembers, R.Array, R.Object, Ends,
         SpellNumeral, LegalNumeral, Moderate, SpellString, LegalParts;
    if R.Peek(c.text, p) == '{' {
      var members, end := FindsObject(c, big, p, tr);
      v := Object(members, end);
    } else if R.Peek(c.text, p) == '[' {
      var elements, end := FindsArray(c, big, p, tr);
      v := Array(elements, end);
    } else {
      v := FindsScalar(c, big, p);
    }
  }

  lemma {:induction false} FindsArray(c: R.Config, big: N.Overflow, p: nat, tr: seq<Event>)
    returns (elements: seq<LaidElement>, end: Ending)
    requires B.Accepting(c, big) && p < |c.text| && R.Peek(c.text, p) == '[' && R.Array(c, p, tr).Done?
    ensures LegalElements(elements, c, big) && LegalEnding(end, elements == [], c)
    ensures c.text[p..] == "[" + SpellElements(elements, SpellEnding(end, ']', c.text[R.Array(c, p, tr).pos..]))
    decreases |c.text| - p, 0
  {
    hide B.Accepting, T.ScalarLeaf, R.Skip, R.Elements, SpellFillers, LegalFillers, FromElement;
    WellBehavedOne(c, big);
    Emits(c, big, p + 1, tr, StartArray);
    FromThere(c.text, p, "[");
    var s := R.Skip(c, p + 1);
    if R.Peek(c.text, s.pos) == ']' {
      var fillers := FillersBefore(c, p + 1);
      elements, end := [], Inside(fillers);
      Emits(c, big, s.pos + 1, tr + [StartArray], EndArray(0));
      FromThere(c.text, s.pos, "]");
    } else {
      ElementsNotAtEnd(c, s.pos, tr + [StartArray], 0);
      var before := FillersBefore(c, p + 1);
      elements, end := FindsElements(c, big, s.pos, tr + [StartArray], 0, before);
    }
  }

  lemma ElementsNotAtEnd(c: R.Config, p: nat, tr: seq<Event>, n: nat)
    requires R.WellBehaved(c) && p <= |c.text| && R.Elements(c, p, tr, n).Done?
    ensures R.Peek(c.text, p) != '\0' && R.Value(c, p, tr).Done?
  {
    hide R.Value, R.Skip;
    if R.Value(c, p, tr).Done? { ValueNotAtEnd(c, p, tr); }
  }

  /** Whether a container is closed behind a value, and where. */
  predicate ClosedAt(c: R.Config, q: nat, bracket: char, pos: nat)
    requires q <= |c.text|
  {
    var u := R.Skip(c, q);
    && u.At? && u.pos < |c.text|
    && (|| (R.Peek(c.text, u.pos) == bracket && pos == u.pos + 1)
        || (R.Peek(c.text, u.pos) == ',' && c.trailingCommas
            && var w := R.Skip(c, u.pos + 1);
               w.At? && R.Peek(c.text, w.pos) == bracket && pos == w.pos + 1))
  }

  /** Whether a container goes on behind a value, and where. */
  predicate GoesOnAt(c: R.Config, q: nat, next: nat)
    requires q <= |c.text|
  {
    var u := R.Skip(c, q);
    && u.At? && u.pos < |c.text| && R.Peek(c.text, u.pos) == ',' && R.Skip(c, u.pos + 1) == R.At(next)
  }

  lemma ClosedFound(c: R.Config, q: nat, bracket: char, pos: nat) returns (after: Fillers, end: Ending)
    requires q <= |c.text| && ClosedAt(c, q, bracket, pos) && bracket in [']', '}']
    ensures LegalFillers(after, c.comments) && LegalEnding(end, false, c) && pos <= |c.text|
    ensures c.text[q..] == SpellFillers(after, SpellEnding(end, bracket, c.text[pos..]))
  {
    hide R.Skip, SpellFillers, LegalFillers;
    var u := R.Skip(c, q);
    after := FillersBefore(c, q);
    if R.Peek(c.text, u.pos) == bracket {
      end := Nothing;
      FromThere(c.text, u.pos, [bracket]);
    } else {
      var fillers := FillersBefore(c, u.pos + 1);
      end := Comma(fillers);
      FromThere(c.text, u.pos, ",");
      FromThere(c.text, R.Skip(c, u.pos + 1).pos, [bracket]);
    }
  }

  lemma GoesOnFound(c: R.Config, q: nat, next: nat) returns (after: Fillers, before: Fillers)
    requires q <= |c.text| && GoesOnAt(c, q, next) && R.Peek(c.text, next) != '\0'
    ensures LegalFillers(after, c.comments) && LegalFillers(before, c.comments) && q < next <= |c.text|
    ensures c.text[q..] == SpellFillers(after, "," + SpellFillers(before, c.text[next..]))
  {
    hide R.Skip, SpellFillers, LegalFillers;
    var u := R.Skip(c, q);
    after := FillersBefore(c, q);
    before := FillersBefore(c, u.pos + 1);
    FromThere(c.text, u.pos, ",");
  }

  lemma ElementsGoOn(c: R.Config, big: N.Overflow, p: nat, tr: seq<Event>, n: nat) returns (closed: bool, next: nat)
    requires B.Accepting(c, big) && p <= |c.text| && R.Elements(c, p, tr, n).Done?
    ensures R.Value(c, p, tr).Done?
    ensures var o := R.Value(c, p, tr);
      if closed then ClosedAt(c, o.pos, ']', R.Elements(c, p, tr, n).pos)
      else
        && GoesOnAt(c, o.pos, next) && next <= |c.text| && R.Peek(c.text, next) != '\0' && p < next
        && R.Elements(c, p, tr, n) == R.Elements(c, next, o.trace, n + 1)
  {
    hide R.Skip, R.Value, T.ScalarLeaf;
    var o := R.Value(c, p, tr);
    var u := R.Skip(c, o.pos);
    var w := R.Skip(c, u.pos + 1);
    closed := R.Peek(c.text, u.pos) == ']' || (c.trailingCommas && w.At? && R.Peek(c.text, w.pos) == ']');
    next := 0;
    if !closed {
      next := w.pos;
      ElementsNotAtEnd(c, w.pos, o.trace, n + 1);
    }
  }

  /** Elements that were read, from the first value on. */
  lemma {:induction false} FindsElements(c: R.Config, big: N.Overflow, p: nat, tr: seq<Event>, n: nat, before: Fillers)
    returns (elements: seq<LaidElement>, end: Ending)
    requires B.Accepting(c, big) && p <= |c.text| && R.Elements(c, p, tr, n).Done? && LegalFillers(before, c.comments)
    ensures elements != [] && elements[0].before == before
    ensures LegalElements(elements, c, big) && LegalEnding(end, false, c)
    ensures c.text[p..] == FromElement(elements, SpellEnding(end, ']', c.text[R.Elements(c, p, tr, n).pos..]))
    decreases |c.text| - p, 2
  {
    hide B.Accepting, R.Value, R.Elements, SpellFillers, LegalFillers, ClosedAt, GoesOnAt, LegalEnding, SpellEnding,
         SpellValue, LegalValue, Ends;
    WellBehavedOne(c, big);
    var closed, next := ElementsGoOn(c, big, p, tr, n);
    var o := R.Value(c, p, tr);
    var v := FindsValue(c, big, p, tr);
    var after, others;
    if closed {
      others := [];
      after, end := ClosedFound(c, o.pos, ']', R.Elements(c, p, tr, n).pos);
    } else {
      var nextBefore;
      after, nextBefore := GoesOnFound(c, o.pos, next);
      others, end := FindsElements(c, big, next, o.trace, n + 1, nextBefore);
    }
    elements := [LaidElement(before, v, after)] + others;
    assert elements[1..] == others;
  }

  lemma {:induction false} FindsObject(c: R.Config, big: N.Overflow, p: nat, tr: seq<Event>)
    returns (members: seq<LaidMember>, end: Ending)
    requires B.Accepting(c, big) && p < |c.text| && R.Peek(c.text, p) == '{' && R.Object(c, p, tr).Done?
    ensures LegalMembers(members, c, big) && LegalEnding(end, members == [], c)
    ensures c.text[p..] == "{" + SpellMembers(members, SpellEnding(end, '}', c.text[R.Object(c, p, tr).pos..]))
    decreases |c.text| - p, 0
  {
    hide B.Accepting, T.ScalarLeaf, R.Skip, R.Members, SpellFillers, LegalFillers, FromMember;
    WellBehavedOne(c, big);
    Emits(c, big, p + 1, tr, StartObject);
    FromThere(c.text, p, "{");
    var s := R.Skip(c, p + 1);
    if R.Peek(c.text, s.pos) == '}' {
      var fillers := FillersBefore(c, p + 1);
      members, end := [], Inside(fillers);
      Emits(c, big, s.pos + 1, tr + [StartObject], EndObject(0));
      FromThere(c.text, s.pos, "}");
    } else {
      MembersNotAtEnd(c, s.pos, tr + [StartObject], 0);
      var before := FillersBefore(c, p + 1);
      members, end := FindsMembers(c, big, s.pos, tr + [StartObject], 0, before);
    }
  }

  lemma MembersNotAtEnd(c: R.Config, p: nat, tr: seq<Event>, n: nat)
    requires R.WellBehaved(c) && p <= |c.text| && R.Members(c, p, tr, n).Done?
    ensures R.Peek(c.text, p) == '"' && R.Member(c, p, tr).Done?
  {
    hide R.Value, R.Skip, R.Scalar;
  }

  /** A member that was read, up to its value. */
  lemma {:induction false} FindsMember(c: R.Config, big: N.Overflow, p: nat, tr: seq<Event>) returns (m: LaidMember)
    requires B.Accepting(c, big) && p <= |c.text| && R.Member(c, p, tr).Done?
    ensures LegalParts(m.name) && LegalFillers(m.afterName, c.comments) && LegalFillers(m.afterColon, c.comments)
    ensures R.Member(c, p, tr).pos <= |c.text|
    ensures var after := c.text[R.Member(c, p, tr).pos..];
      && LegalValue(m.value, c, big) && (m.value.Number? ==> Ends(m.value.n, after))
      && c.text[p..]
         == SpellString(m.name, SpellFillers(m.afterName, ":" + SpellFillers(m.afterColon, SpellValue(m.value, after))))
    decreases |c.text| - p, 2
  {
    hide B.Accepting, R.Skip, R.Value, SpellFillers, LegalFillers, SpellValue, LegalValue, Ends, T.ScalarLeaf,
      LegalParts,
         SpellString;
    WellBehavedOne(c, big);
    var name := FindsName(c, big, p);
    var key := R.Scalar(c, p, tr, true);
    Emits(c, big, c.leaf(p, true).next, tr, c.leaf(p, true).ev);
    var s := R.Skip(c, key.pos);
    var afterName := FillersBefore(c, key.pos);
    FromThere(c.text, s.pos, ":");
    var t := R.Skip(c, s.pos + 1);
    ValueNotAtEnd(c, t.pos, key.trace);
    var afterColon := FillersBefore(c, s.pos + 1);
    var v := FindsValue(c, big, t.pos, key.trace);
    m := LaidMember([], name, afterName, afterColon, v, []);
  }

  lemma FindsName(c: R.Config, big: N.Overflow, p: nat) returns (parts: seq<Part>)
    requires B.Accepting(c, big) && p <= |c.text| && R.Peek(c.text, p) == '"' && c.leaf(p, true).LeafOk?
    ensures p < c.leaf(p, true).next <= |c.text|
    ensures LegalParts(parts) && c.text[p..] == SpellString(parts, c.text[c.leaf(p, true).next..])
  {
    hide T.StringBody, SpellParts, LegalParts;
    parts := FindsParts(c.text, p + 1);
    FromThere(c.text, p, "\"");
  }

  lemma MembersGoOn(c: R.Config, big: N.Overflow, p: nat, tr: seq<Event>, n: nat) returns (closed: bool, next: nat)
    requires B.Accepting(c, big) && p <= |c.text| && R.Members(c, p, tr, n).Done?
    ensures R.Member(c, p, tr).Done?
    ensures var o := R.Member(c, p, tr);
      if closed then ClosedAt(c, o.pos, '}', R.Members(c, p, tr, n).pos)
      else
        && GoesOnAt(c, o.pos, next) && next <= |c.text| && R.Peek(c.text, next) != '\0' && p < next
        && R.Members(c, p, tr, n) == R.Members(c, next, o.trace, n + 1)
  {
    hide R.Skip, R.Member, T.ScalarLeaf;
    var o := R.Member(c, p, tr);
    var u := R.Skip(c, o.pos);
    var w := R.Skip(c, u.pos + 1);
    closed := R.Peek(c.text, u.pos) == '}' || (c.trailingCommas && w.At? && R.Peek(c.text, w.pos) == '}');
    next := 0;
    if !closed {
      next := w.pos;
      MembersNotAtEnd(c, w.pos, o.trace, n + 1);
    }
  }

  /** Members that were read, from the first name on. */
  lemma {:induction false} FindsMembers(c: R.Config, big: N.Overflow, p: nat, tr: seq<Event>, n: nat, before: Fillers)
    returns (members: seq<LaidMember>, end: Ending)
    requires B.Accepting(c, big) && p <= |c.text| && R.Members(c, p, tr, n).Done? && LegalFillers(before, c.comments)
    ensures members != [] && members[0].before == before
    ensures LegalMembers(members, c, big) && LegalEnding(end, false, c)
    ensures c.text[p..] == FromMember(members, SpellEnding(end, '}', c.text[R.Members(c, p, tr, n).pos..]))
    decreases |c.text| - p, 3
  {
    hide B.Accepting, R.Member, R.Members, SpellFillers, LegalFillers, ClosedAt, GoesOnAt, LegalEnding, SpellEnding,
         SpellValue, LegalValue, Ends, SpellString, LegalParts;
    WellBehavedOne(c, big);
    var closed, next := MembersGoOn(c, big, p, tr, n);
    var o := R.Member(c, p, tr);
    var found := FindsMember(c, big, p, tr);
    var after, others;
    if closed {
      others := [];
      after, end := ClosedFound(c, o.pos, '}', R.Members(c, p, tr, n).pos);
    } else {
      var nextBefore;
      after, nextBefore := GoesOnFound(c, o.pos, next);
      others, end := FindsMembers(c, big, next, o.trace, n + 1, nextBefore);
    }
    members := [found.(before := before, after := after)] + others;
    assert members[1..] == others;
  }

  // ---- Texts

  lemma EndThere(text: string, q: nat)
    requires q <= |text|
    ensures AtEnd(text[q..]) <==> R.Peek(text, q) == '\0'
  {
  }

  lemma FillsUpRead(c: R.Config, q: nat, end: string)
    requires q <= |c.text| && FillsUp(c.text[q..], c, end)
    ensures |end| <= |c.text| - q && c.text[|c.text| - |end|..] == end
    ensures R.Skip(c, q) == R.At(|c.text| - |end|) && R.Peek(c.text, |c.text| - |end|) == '\0'
  {
    hide R.Skip, SpellFillers, LegalFillers, NoneOf;
    var s := c.text[q..];
    var fillers :| LegalFillers(fillers, c.comments)
      && (s == SpellFillers(fillers, end)
          || (c.comments && exists line :: NoneOf(line, "\n\0") && s == SpellFillers(fillers, "//" + (line + end))));
    if s == SpellFillers(fillers, end) {
      FillersSkipped(c, q, fillers, end);
    } else {
      var line :| NoneOf(line, "\n\0") && s == SpellFillers(fillers, "//" + (line + end));
      var last := "//" + (line + end);
      FillersSkipped(c, q, fillers, last);
      LineSkipped(c, |c.text| - |last|, line, end);
    }
    EndThere(c.text, |c.text| - |end|);
    NoneSkipped(c, |c.text| - |end|);
  }

  lemma FillsUpFound(c: R.Config, q: nat)
    requires q <= |c.text| && R.Skip(c, q).At? && R.Peek(c.text, R.Skip(c, q).pos) == '\0'
    ensures FillsUp(c.text[q..], c, c.text[R.Skip(c, q).pos..])
  {
    hide R.Skip, SpellFillers, LegalFillers, NoneOf;
    var fillers, last := FillersFound(c, q);
    EndThere(c.text, R.Skip(c, q).pos);
  }

  /** A text that is laid out is read to its end. */
  lemma ReadsText(c: R.Config, big: N.Overflow, before: Fillers, v: Laid, rest: string, end: string)
    requires B.Accepting(c, big) && IsText(c, big, before, v, rest, end)
    ensures |end| <= |c.text| && R.Recursive(c) == R.Done(|c.text| - |end|, Told(v))
  {
    hide R.WellBehaved, T.ScalarLeaf, R.Skip, R.Value, SpellFillers, LegalFillers, SpellValue, LegalValue, Told, Ends,
      FillsUp;
    var s := SpellValue(v, rest);
    ValueBegins(v, c, big, rest);
    assert c.text[0..] == c.text;
    SkipsTo(c, 0, before, s);
    var p := |c.text| - |s|;
    Peeks(c.text, p, 0);
    ReadsValue(c, big, p, [], v, rest);
    assert [] + Told(v) == Told(v);
    if !c.stopWhenDone { FillsUpRead(c, |c.text| - |rest|, end); }
  }

  /** A text that is read to its end is laid out. */
  lemma FindsText(c: R.Config, big: N.Overflow)
    requires B.Accepting(c, big) && R.Recursive(c).Done?
    ensures R.Recursive(c).pos <= |c.text|
    ensures exists before, v, rest :: IsText(c, big, before, v, rest, c.text[R.Recursive(c).pos..])
  {
    hide R.WellBehaved, T.ScalarLeaf, R.Skip, R.Value, SpellFillers, LegalFillers, SpellValue, LegalValue, Ends,
      FillsUp;
    assert c.text[0..] == c.text;
    var s := R.Skip(c, 0);
    var before := FillersBefore(c, 0);
    var v := FindsValue(c, big, s.pos, []);
    var q := R.Value(c, s.pos, []).pos;
    if !c.stopWhenDone { FillsUpFound(c, q); }
    assert IsText(c, big, before, v, c.text[q..], c.text[R.Recursive(c).pos..]);
  }

  /** Whether a text is laid out so that the reader stops at a position and delivers these events. */
  ghost predicate LaidOut(c: R.Config, big: N.Overflow, pos: nat, trace: seq<Event>) {
    exists before, v, rest, end ::
      IsText(c, big, before, v, rest, end) && pos == |c.text| - |end| && trace == Told(v)
  }

  /** With any flags and in both forms, the reader accepts a text if and only if it is laid out as JSON, up to where the
      reader stops, with numbers that a double holds; and it delivers exactly the events of the layout. */
  lemma ReadsExactlyTheLayouts(text: string, comments: bool, trailingCommas: bool, stopWhenDone: bool, big: N.Overflow,
                               pos: nat, trace: seq<Event>)
    ensures var c := T.ReaderOf(text, comments, trailingCommas, stopWhenDone, big, (evs: seq<Event>) => true);
      && R.WellBehaved(c)
      && (R.Recursive(c) == R.Done(pos, trace) <==> LaidOut(c, big, pos, trace))
      && (RI.Iterative(c) == R.Done(pos, trace) <==> LaidOut(c, big, pos, trace))
  {
    hide T.ScalarLeaf, R.Recursive, RI.Iterative, IsText, Told, R.WellBehaved;
    var c := T.ReaderOf(text, comments, trailingCommas, stopWhenDone, big, (evs: seq<Event>) => true);
    T.LeafIsWellBehaved(text, comments, trailingCommas, stopWhenDone, big, (evs: seq<Event>) => true);
    assert B.Accepting(c, big);
    if R.Recursive(c) == R.Done(pos, trace) {
      FindsText(c, big);
      var before, v, rest :| IsText(c, big, before, v, rest, c.text[pos..]);
      ReadsText(c, big, before, v, rest, c.text[pos..]);
    }
    forall before, v, rest, end | IsText(c, big, before, v, rest, end)
      ensures |end| <= |c.text| && R.Recursive(c) == R.Done(|c.text| - |end|, Told(v))
    {
      ReadsText(c, big, before, v, rest, end);
    }
    RI.IterativeEqualsRecursive(c);
  }
}
