/** Reading a string in place: with the in-situ flag the unescaped string overwrites the literal it was read from. */
module JsonInsitu {
  import opened ReaderSpec
  import opened JsonStrings
  import S = JsonParserStep
  import G = JsonGrammar

  /** An escape only depends on what follows it. */
  lemma EscapeFrom(text: string, text': string, p: nat)
    requires |text| == |text'| && forall i :: p <= i < |text| ==> text[i] == text'[i]
    ensures UnicodeEscape(text, p) == UnicodeEscape(text', p)
  {
    hide S.CodeUnit;
    assert forall i :: p <= i ==> Peek(text, i) == Peek(text', i);
    assert FourHexAt(text, p) == FourHexAt(text', p) && FourHexAt(text, p + 6) == FourHexAt(text', p + 6);
    if FourHexAt(text, p) { assert text[p..p + 4] == text'[p..p + 4]; }
    if FourHexAt(text, p + 6) { assert text[p + 6..p + 10] == text'[p + 6..p + 10]; }
  }

  /** The bytes of an escape are fewer than its characters. */
  lemma EscapeShrinks(text: string, p: nat)
    ensures var u := UnicodeEscape(text, p); u.Escape? ==> |G.Utf8(u.uc)| <= 4 && p + |G.Utf8(u.uc)| <= u.next
  {
    if UnicodeEscape(text, p).Escape? { UnitBound(text[p..p + 4]); }
  }

  /** Bytes put out behind what has been written, in front of what is still to be read. */
  method PutAll(buffer: array<char>, q: nat, bytes: string) returns (q': nat)
    requires q + |bytes| <= buffer.Length
    modifies buffer
    ensures q' == q + |bytes| && buffer[q..q'] == bytes
    ensures forall i :: 0 <= i < q || q' <= i < buffer.Length ==> buffer[i] == old(buffer[i])
  {
    var k := 0;
    while k < |bytes|
      invariant k <= |bytes| && buffer[q..q + k] == bytes[..k]
      invariant forall i :: 0 <= i < q || q + k <= i < buffer.Length ==> buffer[i] == old(buffer[i])
    {
      buffer[q + k] := bytes[k];
      k := k + 1;
      assert buffer[q..q + k] == buffer[q..q + k - 1] + [bytes[k - 1]];
    }
    q' := q + k;
  }

  /** What is in the buffer: what has been written from `head` up to `q`, and from `p` on the text as it was. */
  ghost predicate Split(b: string, text: string, head: nat, q: nat, p: nat) {
    && head <= q <= p <= |text| == |b|
    && (forall i :: 0 <= i < head || p <= i < |b| ==> b[i] == text[i])
    && Prepend(b[head..q], StringBody(text, p)) == StringBody(text, head)
  }

  /** Some more is written from `q` up to `q'`, for what is read from `p` up to `p'`. */
  lemma Further(b: string, b': string, text: string, head: nat, q: nat, p: nat, bytes: string, p': nat)
    requires Split(b, text, head, q, p) && |b'| == |b| && q + |bytes| <= p' <= |b| && p <= p'
    requires b'[q..q + |bytes|] == bytes && StringBody(text, p) == Prepend(bytes, StringBody(text, p'))
    requires forall i :: 0 <= i < q || p' <= i < |b| ==> b'[i] == b[i]
    ensures Split(b', text, head, q + |bytes|, p')
  {
    hide StringBody;
    assert b'[head..q + |bytes|] == b[head..q] + bytes;
    PrependTwice(b[head..q], bytes, StringBody(text, p'));
  }

  method Place(buffer: array<char>, ghost text: string, ghost head: nat, q: nat, ghost p: nat, bytes: string, p': nat)
    returns (q': nat)
    requires Split(buffer[..], text, head, q, p) && p <= p' <= buffer.Length && q + |bytes| <= p'
    requires StringBody(text, p) == Prepend(bytes, StringBody(text, p'))
    modifies buffer
    ensures q' <= p' && Split(buffer[..], text, head, q', p')
  {
    hide StringBody, Prepend;
    ghost var b := buffer[..];
    q' := PutAll(buffer, q, bytes);
    Further(b, buffer[..], text, head, q, p, bytes, p');
  }

  /** What is still to be read is as it was. */
  lemma Unread(b: string, text: string, head: nat, q: nat, p: nat)
    requires Split(b, text, head, q, p)
    ensures |b| == |text| && q <= p <= |text| && forall i :: p <= i < |text| ==> b[i] == text[i]
    ensures Peek(b, p) == Peek(text, p) && Peek(b, p + 1) == Peek(text, p + 1)
  {
  }

  /** At the closing quote everything has been written. */
  lemma Whole(b: string, text: string, head: nat, q: nat, p: nat)
    requires Split(b, text, head, q, p) && StringBody(text, p) == StringOk("", p + 1)
    ensures head <= q <= p < |b| && StringBody(text, head) == StringOk(b[head..q], p + 1)
    ensures forall i :: 0 <= i < head || p < i < |b| ==> b[i] == text[i]
  {
    hide StringBody;
    assert b[head..q] + "" == b[head..q];
  }

  lemma Broken(b: string, text: string, head: nat, q: nat, p: nat)
    requires Split(b, text, head, q, p) && StringBody(text, p).StringErr?
    ensures StringBody(text, head) == StringBody(text, p)
    ensures forall i :: 0 <= i < head ==> b[i] == text[i]
  {
    hide StringBody;
  }

  /** `ParseStringToStream` on one buffer: on success the unescaped string and a zero stand where the literal began, and
      what follows the literal is untouched; nothing before it ever is, nor what is still to be read. */
  method ParseStringInsitu(buffer: array<char>, start: nat) returns (ok: bool, code: ErrorCode, length: nat, next: nat)
    requires start < buffer.Length && buffer[start] == '"'
    modifies buffer
    ensures ok <==> StringBody(old(buffer[..]), start + 1).StringOk?
    ensures !ok ==> code == StringBody(old(buffer[..]), start + 1).code
    ensures ok ==> StringBody(old(buffer[..]), start + 1).next == next && start + 1 + length < next <= buffer.Length
    ensures ok ==> buffer[start + 1..start + 1 + length] == StringBody(old(buffer[..]), start + 1).s
    ensures ok ==> buffer[start + 1 + length] == '\0'
    ensures forall i :: 0 <= i <= start ==> buffer[i] == old(buffer[i])
    ensures ok ==> forall i :: next <= i < buffer.Length ==> buffer[i] == old(buffer[i])
  {
    hide StringBody, UnicodeEscape, S.Escaped, G.Utf8, SimpleEscape, Split, Prepend;
    ghost var text := buffer[..];
    var head := start + 1;
    var q: nat, p: nat := head, head;
    ok, code, length, next := false, ValueInvalid, 0, 0;
    Begin(text, head);
    while true
      invariant Split(buffer[..], text, head, q, p)
      decreases |text| - p
    {
      Unread(buffer[..], text, head, q, p);
      BodyStep(text, p);
      var bytes, p' := "", p;
      var bad := false;
      var c := Peek(buffer[..], p);
      if c == '\\' {
        var e := Peek(buffer[..], p + 1);
        if SimpleEscape(e) {
          EscapedIsOne(e);
          bytes, p' := S.Escaped(e), p + 2;
        } else if e == 'u' {
          EscapeFrom(buffer[..], text, p + 2);
          EscapeShrinks(text, p + 2);
          SimpleIsInside(text, p + 1);
          var u := ParseUnicodeEscape(buffer[..], p + 2);
          if u.BadEscape? { bad, code := true, u.code; } else { bytes, p' := G.Utf8(u.uc), u.next; }
        } else {
          bad, code := true, INVALID_ESCAPE;
        }
      } else if c == '"' {
        Whole(buffer[..], text, head, q, p);
        length, next := q - head, p + 1;
        ghost var b := buffer[..];
        buffer[q] := '\0';
        assert buffer[head..q] == b[head..q];
        return true, code, length, next;
      } else if c < ' ' {
        bad, code := true, if c == '\0' then MISS_QUOTATION_MARK else INVALID_ESCAPE;
      } else {
        bytes, p' := [c], p + 1;
      }
      if bad {
        Broken(buffer[..], text, head, q, p);
        return false, code, 0, p;
      }
      q := Place(buffer, text, head, q, p, bytes, p');
      p := p';
    }
  }

  lemma Begin(text: string, head: nat)
    requires head <= |text|
    ensures Split(text, text, head, head, head)
  {
    hide StringBody;
    PrependTwice("", "", StringBody(text, head));
  }

  lemma EscapedIsOne(e: char)
    requires SimpleEscape(e)
    ensures |S.Escaped(e)| == 1
  {
  }

  /** One step of reading a string. */
  lemma BodyStep(text: string, p: nat)
    requires p <= |text|
    ensures var c, e := Peek(text, p), Peek(text, p + 1);
      && (c == '\\' && SimpleEscape(e) ==>
        p + 2 <= |text| && StringBody(text, p) == Prepend(S.Escaped(e), StringBody(text, p + 2)))
      && (c == '\\' && !SimpleEscape(e) && e == 'u' ==>
          var u := UnicodeEscape(text, p + 2);
          if u.BadEscape? then StringBody(text, p) == StringErr(u.code)
          else u.next <= |text| && StringBody(text, p) == Prepend(G.Utf8(u.uc), StringBody(text, u.next)))
      && (c == '\\' && !SimpleEscape(e) && e != 'u' ==> StringBody(text, p) == StringErr(INVALID_ESCAPE))
      && (c == '"' ==> StringBody(text, p) == StringOk("", p + 1))
      && (c < ' ' ==> StringBody(text, p) == StringErr(if c == '\0' then MISS_QUOTATION_MARK else INVALID_ESCAPE))
      && (c != '\\' && c != '"' && c >= ' ' ==>
        p < |text| && StringBody(text, p) == Prepend([c], StringBody(text, p + 1)))
  {
    hide UnicodeEscape, S.Escaped, G.Utf8;
  }
}
