/** The printer without indentation, as loops that append to the output. */
module XmlPrinter {
  import opened XmlText

  /** `find_char`. */
  method FindChar(s: string, ch: char) returns (found: bool)
    ensures found <==> ch in s
  {
    var i := 0;
    while i < |s|
      invariant i <= |s| && ch !in s[..i]
    {
      if s[i] == ch { return true; }
      i := i + 1;
    }
    found := false;
    assert s[..i] == s;
  }

  lemma EscapeOneMore(s: string, k: nat, noexpand: char)
    requires k < |s|
    ensures Escape(s[k..], noexpand) == EscapeChar(s[k], noexpand) + Escape(s[k + 1..], noexpand)
  {
    assert s[k..][1..] == s[k + 1..];
  }

  /** `copy_and_expand_chars`. */
  method CopyAndExpandChars(s: string, noexpand: char, out: string) returns (out': string)
    ensures out' == out + Escape(s, noexpand)
  {
    hide Escape, EscapeChar;
    out' := out;
    var begin := 0;
    assert s[0..] == s;
    while begin != |s|
      invariant begin <= |s| && out' + Escape(s[begin..], noexpand) == out + Escape(s, noexpand)
    {
      ghost var before, rest := out', Escape(s[begin + 1..], noexpand);
      EscapeOneMore(s, begin, noexpand);
      Expansions(s[begin], noexpand);
      if s[begin] == noexpand {
        out' := out' + [s[begin]];
      } else {
        match s[begin]
        case '<' => out' := out' + ['&', 'l', 't', ';'];
        case '>' => out' := out' + ['&', 'g', 't', ';'];
        case '\'' => out' := out' + ['&', 'a', 'p', 'o', 's', ';'];
        case '"' => out' := out' + ['&', 'q', 'u', 'o', 't', ';'];
        case '&' => out' := out' + ['&', 'a', 'm', 'p', ';'];
        case _ => out' := out' + [s[begin]];
      }
      assert before + (EscapeChar(s[begin], noexpand) + rest) == before + EscapeChar(s[begin], noexpand) + rest;
      begin := begin + 1;
    }
    NothingEscaped(noexpand);
    assert s[begin..] == "" && out' + "" == out';
  }

  lemma NothingEscaped(noexpand: char)
    ensures Escape("", noexpand) == ""
  {
  }

  /** What each character is written as, one character at a time. */
  function Written(ch: char): string {
    match ch
    case '<' => ['&', 'l', 't', ';']
    case '>' => ['&', 'g', 't', ';']
    case '\'' => ['&', 'a', 'p', 'o', 's', ';']
    case '"' => ['&', 'q', 'u', 'o', 't', ';']
    case '&' => ['&', 'a', 'm', 'p', ';']
    case _ => [ch]
  }

  lemma Expansions(ch: char, noexpand: char)
    ensures EscapeChar(ch, noexpand) == if ch == noexpand then [ch] else Written(ch)
  {
  }

  lemma AttributesOneMore(attributes: seq<Attribute>, k: nat)
    requires k < |attributes|
    ensures PrintAttributes(attributes[k..]) == PrintAttribute(attributes[k]) + PrintAttributes(attributes[k + 1..])
  {
    assert attributes[k..][1..] == attributes[k + 1..];
  }

  method AppendAttribute(a: Attribute, out: string) returns (out': string)
    ensures out' == out + PrintAttribute(a)
  {
    hide Escape;
    out' := out + [' '];
    out' := out' + a.name;
    out' := out' + ['='];
    var double := FindChar(a.value, '"');
    if double {
      out' := out' + ['\''];
      out' := CopyAndExpandChars(a.value, '"', out');
      out' := out' + ['\''];
    } else {
      out' := out' + ['"'];
      out' := CopyAndExpandChars(a.value, '\'', out');
      out' := out' + ['"'];
    }
    assert " " == [' '] && "=" == ['='];
  }

  /** `print_attributes`. */
  method AppendAttributes(attributes: seq<Attribute>, out: string) returns (out': string)
    ensures out' == out + PrintAttributes(attributes)
  {
    hide PrintAttribute;
    out' := out;
    var i := 0;
    assert attributes[0..] == attributes;
    while i < |attributes|
      invariant i <= |attributes| && out' + PrintAttributes(attributes[i..]) == out + PrintAttributes(attributes)
    {
      AttributesOneMore(attributes, i);
      ghost var before, rest := out', PrintAttributes(attributes[i + 1..]);
      out' := AppendAttribute(attributes[i], out');
      assert before + (PrintAttribute(attributes[i]) + rest) == out' + rest;
      i := i + 1;
    }
    assert out' + "" == out';
  }

  lemma NodesOneMore(nodes: seq<Node>, k: nat)
    requires k < |nodes|
    ensures PrintNodes(nodes[k..]) == PrintNode(nodes[k]) + PrintNodes(nodes[k + 1..])
  {
    assert nodes[k..][1..] == nodes[k + 1..];
  }

  /** `print_children`. */
  method AppendNodes(nodes: seq<Node>, out: string) returns (out': string)
    ensures out' == out + PrintNodes(nodes)
    decreases nodes, 1
  {
    hide PrintNode;
    out' := out;
    var i := 0;
    assert nodes[0..] == nodes;
    while i < |nodes|
      invariant i <= |nodes| && out' + PrintNodes(nodes[i..]) == out + PrintNodes(nodes)
    {
      NodesOneMore(nodes, i);
      ghost var before, rest := out', PrintNodes(nodes[i + 1..]);
      out' := AppendNode(nodes[i], out');
      assert before + (PrintNode(nodes[i]) + rest) == out' + rest;
      i := i + 1;
    }
    assert out' + "" == out';
  }

  /** What stands between the tags of an element. */
  method AppendInside(value: string, children: seq<Node>, out: string) returns (out': string)
    ensures out' == out + PrintInside(value, children)
    decreases children, 2
  {
    hide Escape, PrintNode, PrintNodes;
    if children == [] {
      out' := CopyAndExpandChars(value, '\0', out);
    } else if |children| == 1 && children[0].Data? {
      out' := CopyAndExpandChars(children[0].text, '\0', out);
    } else {
      out' := AppendNodes(children, out);
    }
  }

  /** `print_node`. */
  method AppendNode(n: Node, out: string) returns (out': string)
    ensures out' == out + PrintNode(n)
    decreases n, 0
  {
    hide Escape, PrintAttributes, PrintInside, PrintNodes;
    match n
    case Data(text) => out' := CopyAndExpandChars(text, '\0', out);
    case CData(text) => out' := out + "<![CDATA[" + text + "]]>";
    case Element(name, value, attributes, children) =>
      out' := out + "<" + name;
      out' := AppendAttributes(attributes, out');
      if |value| == 0 && children == [] {
        out' := out' + "/>";
        assert out' == out + ("<" + name + PrintAttributes(attributes) + "/>");
      } else {
        out' := out' + ">";
        out' := AppendInside(value, children, out');
        out' := out' + "</" + name + ">";
        assert out' == out + ("<" + name + PrintAttributes(attributes)
          + (">" + PrintInside(value, children) + "</" + name + ">"));
      }
  }
}
