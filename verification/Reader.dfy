/** `GenericReader` as the object it is: a stream position, the events delivered, the parse result and the
    explicit stack, all updated in place.  Each method is proved against the functions of `ReaderSpec` and
    `ReaderIterative`, which are proved equal to each other in `ReaderIterative`. */
module Reader {
  import opened JsonEvents
  import opened ReaderSpec
  import opened ReaderIterative

  lemma OneComment(text: string, p: nat)
    requires p < |text| && text[p] == '/'
    ensures SkipComments(text, p)
         == match CommentEnd(text, p + 1)
            case BadComment => BadComment
            case At(q) => SkipComments(text, SkipWhite(text, q))
  {
    hide CommentEnd, SkipWhite;
  }

  lemma NoComment(text: string, p: nat)
    requires p <= |text|
    ensures Peek(text, p) != '/' ==> SkipComments(text, p) == At(p)
  {
    hide CommentEnd, SkipWhite;
  }

  datatype ParseResult = NoError | Error(code: ErrorCode)

  class GenericReader {
    const c: Config
    var pos: nat
    var trace: seq<Event>
    var result: ParseResult
    var stack: seq<Cell>

    constructor (config: Config)
      ensures c == config && pos == 0 && trace == [] && result == NoError && stack == []
    {
      c := config;
      pos, trace, result, stack := 0, [], NoError, [];
    }

    ghost predicate Valid()
      reads this
    {
      WellBehaved(c) && pos <= |c.text|
    }

    /** The reader stands as the outcome says: at its position with no error, or stopped by its error;
        with exactly its events delivered. */
    ghost predicate Is(o: Outcome)
      reads this
    {
      && trace == o.trace
      && result == (if o.Done? then NoError else Error(o.code))
      && (o.Done? ==> pos == o.pos)
    }

    function PeekChar(): char
      reads this
    {
      Peek(c.text, pos)
    }

    method Consume(wanted: char) returns (taken: bool)
      requires Valid() && wanted != '\0'
      modifies this`pos
      ensures Valid()
      ensures taken == (Peek(c.text, old(pos)) == wanted)
      ensures pos == if taken then old(pos) + 1 else old(pos)
    {
      taken := PeekChar() == wanted;
      if taken { pos := pos + 1; }
    }

    method SkipWhitespace()
      requires Valid()
      modifies this`pos
      ensures Valid() && pos == SkipWhite(c.text, old(pos))
    {
      while White(PeekChar())
        invariant Valid() && SkipWhite(c.text, pos) == SkipWhite(c.text, old(pos))
        decreases |c.text| - pos
      {
        pos := pos + 1;
      }
    }

    method SkipWhitespaceAndComments()
      requires Valid() && result.NoError?
      modifies this`pos, this`result
      ensures Valid()
      ensures match Skip(c, old(pos))
              case At(p) => pos == p && result.NoError?
              case BadComment => result == Error(UnspecificSyntaxError)
    {
      hide SkipComments, CommentEnd, SkipWhite;
      SkipWhitespace();
      if c.comments {
        ghost var start := pos;
        var slash := Consume('/');
        while slash
          invariant Valid() && result.NoError?
          invariant slash ==> pos > 0 && Peek(c.text, pos - 1) == '/'
          invariant !slash ==> Peek(c.text, pos) != '/'
          invariant SkipComments(c.text, if slash then pos - 1 else pos) == SkipComments(c.text, start)
          decreases |c.text| - pos, if slash then 1 else 0
        {
          OneComment(c.text, pos - 1);
          SkipComment();
          if !result.NoError? { return; }
          SkipWhitespace();
          slash := Consume('/');
        }
        NoComment(c.text, pos);
      }
    }

    /** One comment, its first slash already taken. */
    method SkipComment()
      requires Valid() && result.NoError?
      modifies this`pos, this`result
      ensures Valid()
      ensures match CommentEnd(c.text, old(pos))
              case At(p) => pos == p && result.NoError?
              case BadComment => result == Error(UnspecificSyntaxError)
    {
      var star := Consume('*');
      if star {
        SkipBlockComment();
        return;
      }
      var slash := Consume('/');
      if slash {
        SkipLineComment();
      } else {
        result := Error(UnspecificSyntaxError);
      }
    }

    method SkipBlockComment()
      requires Valid() && result.NoError?
      modifies this`pos, this`result
      ensures Valid()
      ensures match BlockEnd(c.text, old(pos))
              case At(p) => pos == p && result.NoError?
              case BadComment => result == Error(UnspecificSyntaxError)
    {
      while true
        invariant Valid() && result.NoError? && BlockEnd(c.text, pos) == BlockEnd(c.text, old(pos))
        decreases |c.text| - pos
      {
        if PeekChar() == '\0' {
          result := Error(UnspecificSyntaxError);
          return;
        }
        var star := Consume('*');
        if star {
          var slash := Consume('/');
          if slash { return; }
        } else {
          pos := pos + 1;
        }
      }
    }

    method SkipLineComment()
      requires Valid()
      modifies this`pos
      ensures Valid() && pos == LineEnd(c.text, old(pos))
    {
      while PeekChar() != '\0'
        invariant Valid() && LineEnd(c.text, pos) == LineEnd(c.text, old(pos))
        decreases |c.text| - pos
      {
        pos := pos + 1;
        if c.text[pos - 1] == '\n' { return; }
      }
    }

    /** Deliver an event; a handler that refuses it stops the parse. */
    method Deliver(ev: Event)
      requires result.NoError?
      modifies this`trace, this`result
      ensures trace == old(trace) + [ev]
      ensures result == if c.handler(trace) then NoError else Error(Termination)
    {
      trace := trace + [ev];
      if !c.handler(trace) { result := Error(Termination); }
    }

    method ParseScalar(isKey: bool)
      requires Valid() && result.NoError?
      modifies this`pos, this`trace, this`result
      ensures Valid() && Is(Scalar(c, old(pos), old(trace), isKey))
    {
      match c.leaf(pos, isKey)
      case LeafErr(code) => result := Error(code);
      case LeafOk(ev, next) =>
        pos := next;
        Deliver(ev);
    }

    method ParseValue()
      requires Valid() && result.NoError?
      modifies this`pos, this`trace, this`result
      ensures Valid() && Is(Value(c, old(pos), old(trace)))
      decreases |c.text| - pos, 1
    {
      if PeekChar() == '{' {
        ParseObject();
      } else if PeekChar() == '[' {
        ParseArray();
      } else {
        ParseScalar(false);
      }
    }

    method ParseObject()
      requires Valid() && result.NoError? && Peek(c.text, pos) == '{'
      modifies this`pos, this`trace, this`result
      ensures Valid() && Is(Object(c, old(pos), old(trace)))
      decreases |c.text| - pos, 0
    {
      pos := pos + 1;
      Deliver(StartObject);
      if !result.NoError? { return; }
      SkipWhitespaceAndComments();
      if !result.NoError? { return; }
      var empty := Consume('}');
      if empty {
        Deliver(EndObject(0));
      } else {
        ParseMembers();
      }
    }

    /** One turn of the loop of `ParseObject`, up to the member's value. */
    method ParseMember()
      requires Valid() && result.NoError?
      modifies this`pos, this`trace, this`result
      ensures Valid() && Is(Member(c, old(pos), old(trace)))
      decreases |c.text| - pos, 2
    {
      hide Value, Skip, Scalar;
      if PeekChar() != '"' {
        result := Error(ObjectMissName);
        return;
      }
      ParseScalar(true);
      if !result.NoError? { return; }
      SkipWhitespaceAndComments();
      if !result.NoError? { return; }
      var colon := Consume(':');
      if !colon {
        result := Error(ObjectMissColon);
        return;
      }
      SkipWhitespaceAndComments();
      if !result.NoError? { return; }
      ParseValue();
    }

    /** The loop of `ParseObject`. */
    method ParseMembers()
      requires Valid() && result.NoError?
      modifies this`pos, this`trace, this`result
      ensures Valid() && Is(Members(c, old(pos), old(trace), 0))
      decreases |c.text| - pos, 3
    {
      hide Member, Skip;
      var memberCount: nat := 0;
      while true
        invariant Valid() && result.NoError? && old(pos) <= pos
        invariant Members(c, pos, trace, memberCount) == Members(c, old(pos), old(trace), 0)
        decreases |c.text| - pos
      {
        ParseMember();
        if !result.NoError? { return; }
        SkipWhitespaceAndComments();
        if !result.NoError? { return; }
        memberCount := memberCount + 1;
        if PeekChar() == ',' {
          pos := pos + 1;
          SkipWhitespaceAndComments();
          if !result.NoError? { return; }
        } else if PeekChar() == '}' {
          pos := pos + 1;
          Deliver(EndObject(memberCount));
          return;
        } else {
          result := Error(ObjectMissCommaOrCurlyBracket);
          return;
        }
        if c.trailingCommas && PeekChar() == '}' {
          Deliver(EndObject(memberCount));
          if !result.NoError? { return; }
          pos := pos + 1;
          return;
        }
      }
    }

    method ParseArray()
      requires Valid() && result.NoError? && Peek(c.text, pos) == '['
      modifies this`pos, this`trace, this`result
      ensures Valid() && Is(Array(c, old(pos), old(trace)))
      decreases |c.text| - pos, 0
    {
      pos := pos + 1;
      Deliver(StartArray);
      if !result.NoError? { return; }
      SkipWhitespaceAndComments();
      if !result.NoError? { return; }
      var empty := Consume(']');
      if empty {
        Deliver(EndArray(0));
      } else {
        ParseElements();
      }
    }

    /** The loop of `ParseArray`. */
    method ParseElements()
      requires Valid() && result.NoError?
      modifies this`pos, this`trace, this`result
      ensures Valid() && Is(Elements(c, old(pos), old(trace), 0))
      decreases |c.text| - pos, 2
    {
      hide Value, Skip;
      var elementCount: nat := 0;
      while true
        invariant Valid() && result.NoError? && old(pos) <= pos
        invariant Elements(c, pos, trace, elementCount) == Elements(c, old(pos), old(trace), 0)
        decreases |c.text| - pos
      {
        ParseValue();
        if !result.NoError? { return; }
        elementCount := elementCount + 1;
        SkipWhitespaceAndComments();
        if !result.NoError? { return; }
        var comma := Consume(',');
        if comma {
          SkipWhitespaceAndComments();
          if !result.NoError? { return; }
        } else {
          var close := Consume(']');
          if close {
            Deliver(EndArray(elementCount));
          } else {
            result := Error(ArrayMissCommaOrSquareBracket);
          }
          return;
        }
        if c.trailingCommas && PeekChar() == ']' {
          Deliver(EndArray(elementCount));
          if !result.NoError? { return; }
          pos := pos + 1;
          return;
        }
      }
    }

    /** The recursive form of `Parse`. */
    method Parse()
      requires Valid() && pos == 0 && trace == []
      modifies this
      ensures Valid() && Is(Recursive(c))
    {
      hide Value, Skip;
      result := NoError;
      SkipWhitespaceAndComments();
      if !result.NoError? { return; }
      if PeekChar() == '\0' {
        result := Error(DocumentEmpty);
        return;
      }
      ParseValue();
      if !result.NoError? || c.stopWhenDone { return; }
      SkipWhitespaceAndComments();
      if !result.NoError? { return; }
      if PeekChar() != '\0' {
        result := Error(DocumentRootNotSingular);
      }
    }

    /** The reader after a transition: in the state returned, or in `ErrorState` when it cannot go on. */
    ghost predicate After(t: Transition, d: State)
      reads this
    {
      match t
      case Stuck(tr) => d == ErrorState && result.NoError? && trace == tr
      case Refused(tr, code) => d == ErrorState && result == Error(code) && trace == tr
      case Moved(s, st, p, tr) => d == s && result.NoError? && stack == st && pos == p && trace == tr
    }

    method OpenContainer(src: State, dst: State) returns (d: State)
      requires Valid() && result.NoError? && pos < |c.text| && (dst.ObjectInitial? || dst.ArrayInitial?)
      modifies this
      ensures Valid() && After(Transit(c, src, dst, old(stack), old(pos), old(trace)), d)
    {
      stack := stack + [Saved(ReturnState(src))];
      stack := stack + [Count(0)];
      assert stack == old(stack) + [Saved(ReturnState(src)), Count(0)];
      Deliver(if dst.ObjectInitial? then StartObject else StartArray);
      if !result.NoError? { return ErrorState; }
      pos := pos + 1;
      return dst;
    }

    method CloseContainer(src: State, dst: State) returns (d: State)
      requires Valid() && result.NoError? && pos < |c.text| && (dst.ObjectFinish? || dst.ArrayFinish?)
      requires StackFits(dst, stack)
      modifies this
      ensures Valid() && After(Transit(c, src, dst, old(stack), old(pos), old(trace)), d)
    {
      if !c.trailingCommas && dst.ObjectFinish? && src.MemberDelimiter? {
        result := Error(ObjectMissName);
        return ErrorState;
      }
      if !c.trailingCommas && dst.ArrayFinish? && src.ElementDelimiter? {
        result := Error(ValueInvalid);
        return ErrorState;
      }
      var n := stack[|stack| - 1].n;
      if src == (if dst.ObjectFinish? then MemberValue else Element) { n := n + 1; }
      d := Popped(stack);
      stack := stack[..|stack| - 2];
      Deliver(if dst.ObjectFinish? then EndObject(n) else EndArray(n));
      if !result.NoError? { return ErrorState; }
      pos := pos + 1;
    }

    /** One transition of the iterative form. */
    method MakeTransition(src: State, dst: State) returns (d: State)
      requires Valid() && result.NoError? && pos < |c.text| && StackFits(dst, stack)
      modifies this
      ensures Valid() && After(Transit(c, src, dst, old(stack), old(pos), old(trace)), d)
    {
      hide Value, Scalar;
      match dst {
        case ErrorState => d := dst;
        case ObjectInitial | ArrayInitial => d := OpenContainer(src, dst);
        case ObjectFinish | ArrayFinish => d := CloseContainer(src, dst);
        case KeyValueDelimiter =>
          pos := pos + 1;
          d := dst;
        case MemberDelimiter | ElementDelimiter =>
          pos := pos + 1;
          stack := stack[..|stack| - 1] + [Count(stack[|stack| - 1].n + 1)];
          d := dst;
        case MemberKey =>
          ParseScalar(true);
          d := if result.NoError? then dst else ErrorState;
        case MemberValue | Element =>
          ParseValue();
          d := if result.NoError? then dst else ErrorState;
        case _ =>
          ParseValue();
          d := if result.NoError? then Finish else ErrorState;
      }
    }

    /** The iterative form of `Parse`. */
    method IterativeParse()
      requires Valid() && pos == 0 && trace == [] && stack == []
      modifies this
      ensures Valid() && Is(Iterative(c))
    {
      hide Transit, Skip, Value;
      result := NoError;
      var state := Start;
      SkipWhitespaceAndComments();
      if !result.NoError? { return; }
      while PeekChar() != '\0'
        invariant Valid() && result.NoError? && Consistent(state, stack)
        invariant Loop(c, state, stack, pos, trace) == Iterative(c)
        decreases |c.text| - pos
      {
        var token := Tokenize(PeekChar());
        var n := Predict(state, token);
        TransitKeepsConsistent(c, state, stack, pos, trace);
        var d := MakeTransition(state, n);
        if d == ErrorState {
          if result.NoError? { result := Error(HandleError(state)); }
          return;
        }
        state := d;
        if c.stopWhenDone && state.Finish? { return; }
        SkipWhitespaceAndComments();
        if !result.NoError? { return; }
      }
      if !state.Finish? {
        result := Error(HandleError(state));
      }
    }
  }
}
