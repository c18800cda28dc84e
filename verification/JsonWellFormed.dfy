/** When the string the JSON reader reads from well-formed text is well-formed: the default flags check neither the
    encoding nor that a low surrogate follows a high one. */
module JsonWellFormed {
  import opened ReaderSpec
  import opened JsonStrings
  import opened Utf8Codec
  import S = JsonParserStep
  import G = JsonGrammar

  /** A sequence of the byte sequences of section 4 of RFC 3629. */
  predicate Utf8Text(s: string) {
    ToUtf16(s).Whole?
  }

  /** Whether an escape that is read stands for a low surrogate with no high one before it. */
  predicate LoneLowSurrogate(text: string, p: nat)
    requires p <= |text|
    decreases |text| - p
  {
    var c, e := Peek(text, p), Peek(text, p + 1);
    if c == '\\' then
      if SimpleEscape(e) then LoneLowSurrogate(text, p + 2)
      else
        && e == 'u' && UnicodeEscape(text, p + 2).Escape?
        && (S.LowSurrogate(UnicodeEscape(text, p + 2).uc) || LoneLowSurrogate(text, UnicodeEscape(text, p + 2).next))
    else c != '"' && c >= ' ' && LoneLowSurrogate(text, p + 1)
  }

  // ---- The front of a text

  lemma ScalarFront(uc: nat, rest: string)
    requires ScalarValue(uc)
    ensures Utf8Text(G.Utf8(uc) + rest) <==> Utf8Text(rest)
  {
    hide SequenceLength, CodePoint, G.Utf8, Units;
    DecodeOfEncode(uc, rest);
    SomeBytes(uc);
    assert (G.Utf8(uc) + rest)[|G.Utf8(uc)|..] == rest;
  }

  lemma AsciiFront(ch: char, rest: string)
    requires ch as nat < 0x80
    ensures Utf8Text([ch] + rest) <==> Utf8Text(rest)
  {
    hide Utf8Text;
    ScalarFront(ch as nat, rest);
  }

  /** A low surrogate is encoded as no sequence. */
  lemma LowFront(uc: nat, rest: string)
    requires S.LowSurrogate(uc)
    ensures !Utf8Text(G.Utf8(uc) + rest)
  {
    var s := G.Utf8(uc) + rest;
    assert Byte(s, 0) == 0xED && Byte(s, 1) >= 0xB0 by {
      assert s[0] as nat == 0xED && s[1] as nat == 0x80 + uc / 0x40 % 0x40;
      assert uc / 0x40 % 0x40 == uc / 0x40 - 0x340;
    }
    hide Byte;
    assert SequenceLength(s) == 0;
  }

  lemma {:induction false} AsciiRun(text: string, p: nat, q: nat)
    requires p <= q <= |text| && Utf8Text(text[p..]) && forall j :: p <= j < q ==> text[j] as nat < 0x80
    ensures Utf8Text(text[q..])
    decreases q - p
  {
    hide Utf8Text;
    if p < q {
      assert text[p..] == [text[p]] + text[p + 1..];
      AsciiFront(text[p], text[p + 1..]);
      AsciiRun(text, p + 1, q);
    }
  }

  // ---- Escapes

  lemma EscapeIsAscii(text: string, p: nat)
    requires UnicodeEscape(text, p).Escape?
    ensures forall j :: p <= j < UnicodeEscape(text, p).next ==> text[j] as nat < 0x80
  {
    hide S.CodeUnit;
  }

  lemma EscapeCode(text: string, p: nat)
    requires UnicodeEscape(text, p).Escape?
    ensures var uc := UnicodeEscape(text, p).uc; ScalarValue(uc) || S.LowSurrogate(uc)
  {
    hide S.CodeUnit;
    UnitBound(text[p..p + 4]);
  }

  // ---- Characters that stand for themselves

  predicate Plain(ch: char) {
    ch != '\\' && ch != '"' && ch >= ' '
  }

  lemma {:induction false} PlainRun(text: string, p: nat, q: nat)
    requires p <= q <= |text| && forall j :: p <= j < q ==> Plain(text[j])
    ensures StringBody(text, p) == Prepend(text[p..q], StringBody(text, q))
    ensures LoneLowSurrogate(text, p) <==> LoneLowSurrogate(text, q)
    decreases q - p
  {
    PrependTwice("", "", StringBody(text, q));
    if p < q {
      PlainRun(text, p + 1, q);
      PrependTwice([text[p]], text[p + 1..q], StringBody(text, q));
      assert [text[p]] + text[p + 1..q] == text[p..q];
    } else {
      assert text[p..q] == "";
    }
  }

  /** The bytes of one sequence stand for themselves, if the first does. */
  lemma SequenceIsPlain(s: string)
    requires s != "" && Plain(s[0]) && SequenceLength(s) > 0
    ensures SequenceLength(s) <= |s| && forall j :: 0 <= j < SequenceLength(s) ==> Plain(s[j])
  {
  }

  /** One sequence at the front of the text. */
  lemma SequenceReads(text: string, p: nat) returns (q: nat)
    requires p < |text| && Plain(text[p]) && Utf8Text(text[p..])
    ensures p < q <= |text| && Utf8Text(text[q..])
    ensures StringBody(text, p) == Prepend(text[p..q], StringBody(text, q))
    ensures LoneLowSurrogate(text, p) <==> LoneLowSurrogate(text, q)
    ensures forall rest :: Utf8Text(text[p..q] + rest) <==> Utf8Text(rest)
  {
    hide SequenceLength, CodePoint, G.Utf8, StringBody, LoneLowSurrogate, Prepend, Plain;
    var s := text[p..];
    var n := SequenceLength(s);
    SequenceIsPlain(s);
    q := p + n;
    assert s[n..] == text[q..] && s[..n] == text[p..q];
    assert forall j :: p <= j < q ==> text[j] == s[j - p];
    PlainRun(text, p, q);
    EncodeOfDecode(s);
    forall rest ensures Utf8Text(text[p..q] + rest) <==> Utf8Text(rest) { ScalarFront(CodePoint(s, n), rest); }
  }

  /** A string read from well-formed text is well-formed if and only if none of its escapes is a lone low surrogate. */
  lemma {:induction false} ReadIsWellFormed(text: string, p: nat)
    requires p <= |text| && Utf8Text(text[p..]) && StringBody(text, p).StringOk?
    ensures Utf8Text(StringBody(text, p).s) <==> !LoneLowSurrogate(text, p)
    decreases |text| - p
  {
    hide Utf8Text, UnicodeEscape, G.Utf8, S.Escaped;
    var c, e := Peek(text, p), Peek(text, p + 1);
    if c == '"' {
      NothingIsWellFormed();
    } else if c != '\\' {
      var q := SequenceReads(text, p);
      ReadIsWellFormed(text, q);
    } else if SimpleEscape(e) {
      SimpleIsAscii(e);
      AsciiRun(text, p, p + 2);
      ReadIsWellFormed(text, p + 2);
      AsciiFront(S.Escaped(e)[0], StringBody(text, p + 2).s);
      assert S.Escaped(e) == [S.Escaped(e)[0]];
    } else {
      var u := UnicodeEscape(text, p + 2);
      EscapeIsAscii(text, p + 2);
      EscapeCode(text, p + 2);
      if S.LowSurrogate(u.uc) {
        LowFront(u.uc, StringBody(text, u.next).s);
      } else {
        AsciiRun(text, p, u.next);
        ReadIsWellFormed(text, u.next);
        ScalarFront(u.uc, StringBody(text, u.next).s);
      }
    }
  }

  lemma NothingIsWellFormed()
    ensures Utf8Text("")
  {
  }

  lemma SimpleIsAscii(e: char)
    requires SimpleEscape(e)
    ensures e as nat < 0x80 && |S.Escaped(e)| == 1 && S.Escaped(e)[0] as nat < 0x80
  {
  }

  /** The string "\uDC00" is read as three bytes that are no sequence. */
  lemma LoneLowIsRead()
    ensures var text := "\"\\uDC00\"";
      && Utf8Text(text[1..]) && StringBody(text, 1) == StringOk("\U{00ED}\U{00B0}\U{0080}", 8)
      && !Utf8Text("\U{00ED}\U{00B0}\U{0080}")
  {
    var text := "\"\\uDC00\"";
    NothingIsWellFormed();
    assert forall j :: 1 <= j < 8 ==> text[j] as nat < 0x80;
    AsciiText(text, 1);
    assert text[3..7] == "DC00";
    assert S.CodeUnit("DC00") == 0xDC00;
    assert UnicodeEscape(text, 3) == Escape(0xDC00, 7);
    assert StringBody(text, 7) == StringOk("", 8);
    assert G.Utf8(0xDC00) == "\U{00ED}\U{00B0}\U{0080}";
    LowFront(0xDC00, "");
    assert G.Utf8(0xDC00) + "" == G.Utf8(0xDC00);
  }

  lemma {:induction false} AsciiText(text: string, p: nat)
    requires p <= |text| && forall j :: p <= j < |text| ==> text[j] as nat < 0x80
    ensures Utf8Text(text[p..])
    decreases |text| - p
  {
    hide Utf8Text;
    if p == |text| {
      NothingIsWellFormed();
    } else {
      AsciiText(text, p + 1);
      assert text[p..] == [text[p]] + text[p + 1..];
      AsciiFront(text[p], text[p + 1..]);
    }
  }
}
