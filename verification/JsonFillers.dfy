/** Fillers between the tokens of a JSON text: the reader skips them all, and skips nothing else. */
module JsonFillers {
  import opened Layout
  import opened JsonLiterals
  import opened JsonLayout
  import R = ReaderSpec

  // ---- Fillers

  lemma TailOf(text: string, p: nat, head: string, rest: string)
    requires p <= |text| && text[p..] == head + rest
    ensures p + |head| <= |text| && text[p + |head|..] == rest && |text| - |rest| == p + |head|
  {
    assert text[p..][|head|..] == rest;
  }

  lemma {:induction false} LineRead(text: string, p: nat, line: string, rest: string)
    requires p <= |text| && NoneOf(line, "\n\0") && text[p..] == line + rest
    requires AtEnd(rest) || rest[0] == '\n'
    ensures R.LineEnd(text, p) == p + |line| + if AtEnd(rest) then 0 else 1
    decreases |line|
  {
    assert "\n\0" == ['\n', '\0'];
    if line != "" {
      assert text[p] == text[p..][0] == line[0];
      assert text[p + 1..] == text[p..][1..] == line[1..] + rest;
      LineRead(text, p + 1, line[1..], rest);
    } else {
      assert text[p..] == rest;
    }
  }

  lemma {:induction false} BlockRead(text: string, p: nat, inside: string, rest: string)
    requires p <= |text| && NoneOf(inside, "\0") && NoClose(inside) && text[p..] == inside + ("*/" + rest)
    ensures R.BlockEnd(text, p) == R.At(p + |inside| + 2)
    decreases |inside|
  {
    Peeks(text, p, 0);
    Peeks(text, p, 1);
    var s := inside + ("*/" + rest);
    if inside == "" {
      assert s == "*/" + rest;
    } else {
      assert text[p + 1..] == text[p..][1..] == inside[1..] + ("*/" + rest);
      BlockRead(text, p + 1, inside[1..], rest);
      NoEarlyClose(inside, rest);
    }
  }

  lemma NoEarlyClose(inside: string, rest: string)
    requires inside != "" && !("*/" <= inside)
    ensures var s := inside + ("*/" + rest); !(s[0] == '*' && s[1] == '/')
  {
    if |inside| > 1 { assert inside[..2] == [inside[0], inside[1]]; }
  }

  lemma SpaceSkipped(c: R.Config, p: nat, ch: char, more: string)
    requires Blank(ch) && p <= |c.text| && c.text[p..] == [ch] + more
    ensures R.Skip(c, p) == R.Skip(c, p + 1) && p + 1 == |c.text| - |more|
  {
    TailOf(c.text, p, [ch], more);
    assert c.text[p] == c.text[p..][0];
  }

  lemma LineSkipped(c: R.Config, p: nat, line: string, more: string)
    requires c.comments && NoneOf(line, "\n\0") && p <= |c.text| && c.text[p..] == "//" + (line + more)
    requires AtEnd(more) || more[0] == '\n'
    ensures |more| + 2 <= |c.text| - p && c.text[|c.text| - |more|..] == more
    ensures R.Skip(c, p) == R.Skip(c, |c.text| - |more| + if AtEnd(more) then 0 else 1)
  {
    hide R.Skip, R.LineEnd, R.BlockEnd, NoneOf;
    TailOf(c.text, p, "//", line + more);
    TailOf(c.text, p + 2, line, more);
    LineRead(c.text, p + 2, line, more);
    SlashFirst(c, p);
  }

  lemma BlockSkipped(c: R.Config, p: nat, inside: string, more: string)
    requires c.comments && NoneOf(inside, "\0") && NoClose(inside) && p <= |c.text|
    requires c.text[p..] == "/*" + (inside + ("*/" + more))
    ensures |more| < |c.text| - p && c.text[|c.text| - |more|..] == more
    ensures R.Skip(c, p) == R.Skip(c, |c.text| - |more|)
  {
    hide R.Skip, R.LineEnd, R.BlockEnd, NoneOf, NoClose;
    TailOf(c.text, p, "/*", inside + ("*/" + more));
    TailOf(c.text, p + 2, inside, "*/" + more);
    TailOf(c.text, p + 2 + |inside|, "*/", more);
    BlockRead(c.text, p + 2, inside, more);
    SlashFirst(c, p);
  }

  /** One filler is skipped, whatever follows it. */
  lemma FillerSkipped(c: R.Config, p: nat, f: Filler, more: string)
    requires LegalFiller(f, c.comments) && p <= |c.text| && c.text[p..] == SpellFiller(f, more)
    ensures |more| < |c.text| - p && c.text[|c.text| - |more|..] == more
    ensures R.Skip(c, p) == R.Skip(c, |c.text| - |more|)
  {
    hide R.Skip, NoneOf, NoClose;
    match f
    case Space(ch) =>
      TailOf(c.text, p, [ch], more);
      SpaceSkipped(c, p, ch, more);
    case LineComment(line) =>
      LineSkipped(c, p, line, "\n" + more);
      TailOf(c.text, |c.text| - |more| - 1, "\n", more);
    case BlockComment(inside) => BlockSkipped(c, p, inside, more);
  }

  /** A comment is skipped with what follows it. */
  lemma SlashFirst(c: R.Config, p: nat)
    requires c.comments && p + 2 <= |c.text| && c.text[p..][0] == '/'
    requires c.text[p..][1] == '*' || c.text[p..][1] == '/'
    ensures var e := if c.text[p..][1] == '*' then R.BlockEnd(c.text, p + 2) else R.At(R.LineEnd(c.text, p + 2));
      R.Skip(c, p) == if e.BadComment? then R.BadComment else R.Skip(c, e.pos)
  {
    hide R.LineEnd, R.BlockEnd;
    assert c.text[p] == '/' && c.text[p + 1] == c.text[p..][1];
  }

  lemma {:induction false} FillersSkipped(c: R.Config, p: nat, fillers: Fillers, rest: string)
    requires LegalFillers(fillers, c.comments) && p <= |c.text| && c.text[p..] == SpellFillers(fillers, rest)
    ensures |rest| <= |c.text| - p && c.text[|c.text| - |rest|..] == rest
    ensures R.Skip(c, p) == R.Skip(c, |c.text| - |rest|)
    decreases |fillers|
  {
    hide R.Skip, LegalFiller, SpellFiller;
    if fillers != [] {
      var more := SpellFillers(fillers[1..], rest);
      FillerSkipped(c, p, fillers[0], more);
      FillersSkipped(c, |c.text| - |more|, fillers[1..], rest);
    }
  }

  /** A character before which nothing is skipped. */
  predicate Token(ch: char) {
    !Blank(ch) && ch != '/'
  }

  /** Fillers, then a token. */
  lemma SkipsTo(c: R.Config, p: nat, fillers: Fillers, rest: string)
    requires LegalFillers(fillers, c.comments) && p <= |c.text| && c.text[p..] == SpellFillers(fillers, rest)
    requires Token(R.Peek(rest, 0))
    ensures |rest| <= |c.text| - p && c.text[|c.text| - |rest|..] == rest
    ensures R.Skip(c, p) == R.At(|c.text| - |rest|)
  {
    hide SpellFillers, LegalFillers;
    FillersSkipped(c, p, fillers, rest);
    Peeks(c.text, |c.text| - |rest|, 0);
  }

  // ---- Fillers that were skipped

  lemma {:induction false} LineFound(text: string, p: nat) returns (line: string)
    requires p <= |text|
    ensures NoneOf(line, "\n\0")
    ensures var e := R.LineEnd(text, p);
      || text[p..] == line + ("\n" + text[e..])
      || (text[p..] == line + text[e..] && AtEnd(text[e..]))
    decreases |text| - p
  {
    if R.Peek(text, p) == '\0' {
      line := "";
      assert "" + text[p..] == text[p..];
    } else if text[p] == '\n' {
      line := "";
      assert text[p..] == "" + ("\n" + text[p + 1..]);
    } else {
      var more := LineFound(text, p + 1);
      line := [text[p]] + more;
      assert "\n\0" == ['\n', '\0'];
      assert text[p..] == [text[p]] + text[p + 1..];
    }
  }

  lemma {:induction false} BlockFound(text: string, p: nat) returns (inside: string)
    requires p <= |text| && R.BlockEnd(text, p).At?
    ensures NoneOf(inside, "\0") && NoClose(inside)
    ensures text[p..] == inside + ("*/" + text[R.BlockEnd(text, p).pos..])
    decreases |text| - p
  {
    if R.Peek(text, p) == '*' && R.Peek(text, p + 1) == '/' {
      inside := "";
      assert text[p..] == "" + ("*/" + text[p + 2..]);
    } else {
      var more := BlockFound(text, p + 1);
      inside := [text[p]] + more;
      assert inside[1..] == more;
      assert text[p..] == [text[p]] + text[p + 1..];
      NotClosed(text, p, inside, more);
    }
  }

  lemma NotClosed(text: string, p: nat, inside: string, more: string)
    requires p < |text| && !(text[p] == '*' && R.Peek(text, p + 1) == '/') && inside == [text[p]] + more
    requires exists rest :: text[p + 1..] == more + ("*/" + rest)
    ensures !("*/" <= inside)
  {
    if |more| > 0 {
      assert text[p + 1] == text[p + 1..][0] == more[0];
      var close := "*/";
      assert inside[0] == text[p] && inside[1] == text[p + 1] && close[0] == '*' && close[1] == '/';
    }
  }

  lemma NoneSkipped(c: R.Config, p: nat)
    requires p <= |c.text| && !Blank(R.Peek(c.text, p)) && (c.comments ==> R.Peek(c.text, p) != '/')
    ensures R.Skip(c, p) == R.At(p)
  {
  }

  lemma CommentKinds(c: R.Config, p: nat)
    requires c.comments && p < |c.text| && c.text[p] == '/' && R.Skip(c, p).At?
    ensures p + 2 <= |c.text| && (c.text[p + 1] == '*' || c.text[p + 1] == '/')
    ensures c.text[p..][0] == '/' && c.text[p..][1] == c.text[p + 1]
  {
    hide R.BlockEnd, R.LineEnd;
  }

  /** One comment that was skipped, or a line comment up to the end. */
  lemma CommentFound(c: R.Config, p: nat) returns (f: Filler, more: string, closed: bool)
    requires c.comments && p < |c.text| && c.text[p] == '/' && R.Skip(c, p).At?
    ensures |more| < |c.text| - p && c.text[|c.text| - |more|..] == more
    ensures closed ==> LegalFiller(f, true) && c.text[p..] == SpellFiller(f, more)
    ensures !closed ==> f.LineComment? && NoneOf(f.text, "\n\0") && c.text[p..] == "//" + (f.text + more) && AtEnd(more)
    ensures R.Skip(c, p) == R.Skip(c, |c.text| - |more|)
  {
    hide R.Skip, R.BlockEnd, R.LineEnd, NoneOf, NoClose;
    CommentKinds(c, p);
    SlashFirst(c, p);
    if c.text[p + 1] == '*' {
      var inside := BlockFound(c.text, p + 2);
      f, more, closed := BlockComment(inside), c.text[R.BlockEnd(c.text, p + 2).pos..], true;
      assert c.text[p..] == "/*" + c.text[p + 2..];
    } else {
      var line := LineFound(c.text, p + 2);
      f, more := LineComment(line), c.text[R.LineEnd(c.text, p + 2)..];
      closed := c.text[p + 2..] == line + ("\n" + more);
      assert c.text[p..] == "//" + c.text[p + 2..];
    }
  }

  /** Whether a text is a line comment up to the end. */
  ghost predicate OpenLine(s: string, rest: string) {
    AtEnd(rest) && exists text :: NoneOf(text, "\n\0") && s == "//" + (text + rest)
  }

  /** What was skipped is fillers, and maybe a line comment up to the end. */
  lemma {:induction false} FillersFound(c: R.Config, p: nat) returns (fillers: Fillers, last: string)
    requires p <= |c.text| && R.Skip(c, p).At?
    ensures LegalFillers(fillers, c.comments) && c.text[p..] == SpellFillers(fillers, last)
    ensures last == c.text[R.Skip(c, p).pos..] || (c.comments && OpenLine(last, c.text[R.Skip(c, p).pos..]))
    decreases |c.text| - p
  {
    hide R.Skip, LegalFiller, NoneOf, SpellFiller;
    var ch := R.Peek(c.text, p);
    fillers, last := [], c.text[p..];
    if Blank(ch) || (c.comments && ch == '/') {
      var f, more, closed := Space(ch), c.text[p + 1..], true;
      if ch == '/' { f, more, closed := CommentFound(c, p); } else { BlankFound(c, p); }
      if closed {
        var others;
        others, last := FillersFound(c, |c.text| - |more|);
        fillers := [f] + others;
        assert fillers[1..] == others;
      } else {
        var q := |c.text| - |more|;
        assert AtEnd(c.text[q..]) && R.Peek(c.text, q) == '\0';
        NoneSkipped(c, q);
      }
    } else {
      NoneSkipped(c, p);
    }
  }

  lemma BlankFound(c: R.Config, p: nat)
    requires p < |c.text| && Blank(c.text[p])
    ensures var f := Space(c.text[p]);
      LegalFiller(f, c.comments) && c.text[p..] == SpellFiller(f, c.text[p + 1..])
    ensures R.Skip(c, p) == R.Skip(c, p + 1)
  {
    assert c.text[p..] == [c.text[p]] + c.text[p + 1..];
    FillerSkipped(c, p, Space(c.text[p]), c.text[p + 1..]);
  }

  /** What was skipped before a token is fillers. */
  lemma FillersBefore(c: R.Config, p: nat) returns (fillers: Fillers)
    requires p <= |c.text| && R.Skip(c, p).At? && R.Peek(c.text, R.Skip(c, p).pos) != '\0'
    ensures LegalFillers(fillers, c.comments) && c.text[p..] == SpellFillers(fillers, c.text[R.Skip(c, p).pos..])
  {
    hide R.Skip, LegalFillers, SpellFillers;
    var last;
    fillers, last := FillersFound(c, p);
    Peeks(c.text, R.Skip(c, p).pos, 0);
  }
}
