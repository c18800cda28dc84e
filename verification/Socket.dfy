/** Socket framing: cutting received bytes into frames, and sending queued frames through partial writes, by one
    thread and by any number of threads that interleave. */
module SocketFraming {

  type Byte = b: int | 0 <= b < 256
  type Bytes = seq<Byte>

  const HEADER_SIZE := 16
  const LENGTH_SIZE := 4

  function Flatten(frames: seq<Bytes>): Bytes {
    if frames == [] then [] else frames[0] + Flatten(frames[1..])
  }

  lemma {:induction false} FlattenAppend(a: seq<Bytes>, b: seq<Bytes>)
    ensures Flatten(a + b) == Flatten(a) + Flatten(b)
  {
    if a == [] {
      assert a + b == b;
    } else {
      assert (a + b)[1..] == a[1..] + b;
      FlattenAppend(a[1..], b);
    }
  }

  lemma FlattenOne(frame: Bytes)
    ensures Flatten([frame]) == frame
  {
    assert [frame][1..] == [];
  }

  // ---- Receiving

  /** The length a frame begins with, low byte first. */
  function Length(b: Bytes): nat
    requires |b| >= LENGTH_SIZE
  {
    b[0] as nat + b[1] as nat * 0x100 + b[2] as nat * 0x1_0000 + b[3] as nat * 0x100_0000
  }

  predicate Incomplete(b: Bytes) {
    |b| < LENGTH_SIZE || |b| < Length(b)
  }

  datatype Drained = Drained(frames: seq<Bytes>, rest: Bytes, legal: bool)

  /** The frames at the front of the bytes, what is left of them, and whether no illegal length stopped the cutting. */
  function Drain(b: Bytes): Drained
    decreases |b|
  {
    if Incomplete(b) then Drained([], b, true)
    else if Length(b) < HEADER_SIZE then Drained([], b, false)
    else
      Before([b[..Length(b)]], Drain(b[Length(b)..]))
  }

  /** Nothing is lost: the frames and what is left are the bytes. */
  lemma {:induction false} DrainConserves(b: Bytes)
    ensures Flatten(Drain(b).frames) + Drain(b).rest == b
    decreases |b|
  {
    if !Incomplete(b) && Length(b) >= HEADER_SIZE {
      var n := Length(b);
      DrainConserves(b[n..]);
      var d := Drain(b[n..]);
      assert ([b[..n]] + d.frames)[1..] == d.frames;
      assert b == b[..n] + b[n..];
    }
  }

  /** Frames that came before what else is cut off. */
  function Before(frames: seq<Bytes>, d: Drained): Drained {
    Drained(frames + d.frames, d.rest, d.legal)
  }

  lemma BeforeTwice(a: seq<Bytes>, b: seq<Bytes>, d: Drained)
    ensures Before(a, Before(b, d)) == Before(a + b, d)
    ensures Before([], d) == d
  {
    assert a + (b + d.frames) == a + b + d.frames && [] + d.frames == d.frames;
  }

  /** A legal frame at the front is cut off. */
  lemma DrainFrame(b: Bytes)
    requires !Incomplete(b) && Length(b) >= HEADER_SIZE
    ensures Drain(b) == Before([b[..Length(b)]], Drain(b[Length(b)..]))
  {
  }

  lemma DrainStops(b: Bytes)
    ensures Incomplete(b) ==> Drain(b) == Drained([], b, true)
    ensures !Incomplete(b) && Length(b) < HEADER_SIZE ==> Drain(b) == Drained([], b, false)
  {
  }

  lemma SameFront(b: Bytes, more: Bytes)
    requires !Incomplete(b)
    ensures !Incomplete(b + more) && Length(b + more) == Length(b)
    ensures (b + more)[Length(b)..] == b[Length(b)..] + more && (b + more)[..Length(b)] == b[..Length(b)]
  {
  }

  /** What can be cut off already stays cut off when more bytes arrive; an illegal length stays illegal. */
  lemma {:induction false} DrainInParts(b: Bytes, more: Bytes)
    ensures var d := Drain(b);
      && (!d.legal ==> Drain(b + more) == Drained(d.frames, d.rest + more, false))
      && (d.legal ==> Drain(b + more) == Before(d.frames, Drain(d.rest + more)))
    decreases |b|
  {
    hide Drain, Length;
    DrainStops(b);
    if Incomplete(b) {
      BeforeTwice([], [], Drain(b + more));
      return;
    }
    SameFront(b, more);
    DrainStops(b + more);
    var n := Length(b);
    if n >= HEADER_SIZE {
      DrainFrame(b);
      DrainFrame(b + more);
      DrainInParts(b[n..], more);
      var d1 := Drain(b[n..]);
      BeforeTwice([b[..n]], d1.frames, Drain(d1.rest + more));
    }
  }

  function Concat(chunks: seq<Bytes>): Bytes {
    Flatten(chunks)
  }

  /** Successive calls of `receive`, up to the first that fails. */
  function ReceiveAll(buffer: Bytes, chunks: seq<Bytes>): Drained
    decreases |chunks|
  {
    if chunks == [] then Drained([], buffer, true)
    else
      var d := Drain(buffer + chunks[0]);
      if !d.legal then d
      else
        Before(d.frames, ReceiveAll(d.rest, chunks[1..]))
  }

  /** However the bytes are split into chunks, the same frames are delivered in the same order and the same length is
      found illegal; if none is, the same bytes are left. */
  lemma {:induction false} SplitsDoNotMatter(buffer: Bytes, chunks: seq<Bytes>)
    requires Incomplete(buffer)
    ensures var whole := Drain(buffer + Concat(chunks));
      var parts := ReceiveAll(buffer, chunks);
      && parts.frames == whole.frames && parts.legal == whole.legal
      && (if parts.legal then parts.rest == whole.rest else parts.rest <= whole.rest)
    decreases |chunks|
  {
    if chunks == [] {
      assert buffer + [] == buffer;
    } else {
      var b := buffer + chunks[0];
      var d := Drain(b);
      assert buffer + Concat(chunks) == b + Concat(chunks[1..]);
      DrainInParts(b, Concat(chunks[1..]));
      if d.legal {
        RestIsIncomplete(b);
        SplitsDoNotMatter(d.rest, chunks[1..]);
      }
    }
  }

  lemma {:induction false} RestIsIncomplete(b: Bytes)
    requires Drain(b).legal
    ensures Incomplete(Drain(b).rest)
    decreases |b|
  {
    if !Incomplete(b) { RestIsIncomplete(b[Length(b)..]); }
  }

  // ---- One socket, one thread at a time

  class SocketInternal {
    var rbuffer: Bytes
    var wbuffer: Bytes
    var rlist: seq<Bytes>
    var slist: seq<Bytes>
    /** What the peer can read. */
    ghost var wire: Bytes
    /** The messages given back to the allocator by the sender. */
    ghost var released: seq<Bytes>

    constructor ()
      ensures rbuffer == [] && wbuffer == [] && rlist == [] && slist == [] && wire == [] && released == []
    {
      rbuffer, wbuffer, rlist, slist, wire, released := [], [], [], [], [], [];
    }

    /** `receive`, when `chunk` is what the socket had to read. */
    method Receive(chunk: Bytes) returns (ok: bool)
      modifies this`rbuffer, this`rlist
      ensures var d := Drain(old(rbuffer) + chunk);
        ok == d.legal && rlist == old(rlist) + d.frames && rbuffer == d.rest
    {
      hide Drain, Length;
      rbuffer := rbuffer + chunk;
      ghost var all, done := Drain(rbuffer), [];
      BeforeTwice([], [], all);
      while true
        invariant all == Before(done, Drain(rbuffer)) && rlist == old(rlist) + done
        decreases |rbuffer|
      {
        DrainStops(rbuffer);
        if |rbuffer| < LENGTH_SIZE || |rbuffer| < Length(rbuffer) { return true; }
        var len := Length(rbuffer);
        if len < HEADER_SIZE { return false; }
        DrainFrame(rbuffer);
        BeforeTwice(done, [rbuffer[..len]], Drain(rbuffer[len..]));
        done := done + [rbuffer[..len]];
        rlist := rlist + [rbuffer[..len]];
        rbuffer := rbuffer[len..];
      }
    }

    /** `sendBytes` without an error: some part of the bytes goes out, however many writes it takes. */
    method SendBytes(bytes: Bytes) returns (n: nat)
      modifies this`wire
      ensures n <= |bytes| && wire == old(wire) + bytes[..n]
    {
      n := 0;
      while n < |bytes|
        invariant n <= |bytes| && wire == old(wire) + bytes[..n]
      {
        var rc: nat :| rc <= |bytes| - n;
        if rc == 0 { break; }
        wire := wire + bytes[n..n + rc];
        assert bytes[..n] + bytes[n..n + rc] == bytes[..n + rc];
        n := n + rc;
      }
    }

    /** The first message of the queue is sent as far as the socket takes it, and released. */
    method SendFirst()
      requires wbuffer == [] && slist != []
      modifies this`wbuffer, this`slist, this`wire, this`released
      ensures wire + wbuffer + Flatten(slist) == old(wire + Flatten(slist))
      ensures slist == old(slist[1..]) && released == old(released + [slist[0]]) && old(wire) <= wire
    {
      var message := slist[0];
      ghost var before, rest := wire, Flatten(slist[1..]);
      slist := slist[1..];
      var bytes := SendBytes(message);
      if bytes < |message| { wbuffer := wbuffer + message[bytes..]; }
      released := released + [message];
      assert before + (message + rest) == before + message[..bytes] + message[bytes..] + rest;
      assert wbuffer == message[bytes..];
    }

    /** `send`: what is on the wire, what waits in the write buffer and what is queued stay the same bytes in the same
        order; the messages that left the queue were released in order; nothing is queued unless bytes wait. */
    method Send()
      modifies this`wbuffer, this`slist, this`wire, this`released
      ensures wire + wbuffer + Flatten(slist) == old(wire + wbuffer + Flatten(slist))
      ensures released + slist == old(released + slist)
      ensures wbuffer == [] ==> slist == []
      ensures old(wire) <= wire
    {
      hide Flatten;
      NothingFlat();
      if |wbuffer| > 0 {
        ghost var was := wbuffer;
        var bytes := SendBytes(wbuffer);
        wbuffer := wbuffer[bytes..];
        assert was == was[..bytes] + wbuffer;
        assert wire + wbuffer == old(wire + wbuffer);
      }
      if |wbuffer| > 0 { return; }
      assert wire + wbuffer == wire;
      while slist != []
        invariant wbuffer == [] && wire + Flatten(slist) == old(wire + wbuffer + Flatten(slist))
        invariant released + slist == old(released + slist) && old(wire) <= wire
        decreases |slist|
      {
        ghost var r, q := released, slist;
        SendFirst();
        assert r + q == r + [q[0]] + q[1..];
        if |wbuffer| > 0 { return; }
        assert wire + wbuffer == wire;
      }
    }
  }

  lemma NothingFlat()
    ensures Flatten([]) == []
  {
  }

  // ---- Any number of threads

  /** Where a thread is in `send`.  Only the one that holds the lock is past `Wanting`. */
  datatype Place =
    | Outside
    | Wanting
    | Entered
    | Flushing(sent: nat)
    | Flushed
    | Draining
    | Sending(message: Bytes, sent: nat)
    | Leaving

  /** The sender's shared state, with what has been pushed and released so far. */
  datatype Sender = Sender(
    wire: Bytes,
    wbuffer: Bytes,
    slist: seq<Bytes>,
    holder: int,
    places: map<nat, Place>,
    pushed: seq<Bytes>,
    released: seq<Bytes>)

  const NOBODY := -1

  function Start(threads: set<nat>): Sender {
    Sender([], [], [], NOBODY, map t | t in threads :: Outside, [], [])
  }

  datatype Step =
    | Push(message: Bytes)   // a message is queued, outside the lock, and `send` called
    | Call                   // `send` is called without a message
    | Lock
    | TestBuffer             // whether bytes wait from an earlier call
    | Write(n: nat)          // one write of some bytes
    | EndFlush               // all bytes went out, or the socket would block
    | TestFlushed
    | PopOrLeave             // the next message, or the queue was empty
    | EndSend                // the rest of the message is kept, the message released
    | Unlock

  /** One step of one thread; nothing if the thread is not at it. */
  datatype Outcome = To(s: Sender) | NotEnabled

  function Move(s: Sender, t: nat, p: Place): Sender {
    s.(places := s.places[t := p])
  }

  function Take(s: Sender, t: nat, step: Step): Outcome
    requires t in s.places
  {
    var p := s.places[t];
    match step
    case Push(message) =>
      if p.Outside? then To(Move(s, t, Wanting).(slist := s.slist + [message], pushed := s.pushed + [message]))
      else NotEnabled
    case Call => if p.Outside? then To(Move(s, t, Wanting)) else NotEnabled
    case Lock => if p.Wanting? && s.holder == NOBODY then To(Move(s, t, Entered).(holder := t)) else NotEnabled
    case TestBuffer =>
      if p.Entered? then To(Move(s, t, if |s.wbuffer| > 0 then Flushing(0) else Flushed)) else NotEnabled
    case Write(n) =>
      if p.Flushing? && p.sent + n <= |s.wbuffer| then
        To(Move(s, t, Flushing(p.sent + n)).(wire := s.wire + s.wbuffer[p.sent..p.sent + n]))
      else if p.Sending? && p.sent + n <= |p.message| then
        To(Move(s, t, Sending(p.message, p.sent + n)).(wire := s.wire + p.message[p.sent..p.sent + n]))
      else NotEnabled
    case EndFlush =>
      if p.Flushing? && p.sent <= |s.wbuffer| then To(Move(s, t, Flushed).(wbuffer := s.wbuffer[p.sent..]))
        else NotEnabled
    case TestFlushed => if p.Flushed? then To(Move(s, t, if |s.wbuffer| > 0 then Leaving else Draining)) else NotEnabled
    case PopOrLeave =>
      if !p.Draining? then NotEnabled
      else if s.slist == [] then To(Move(s, t, Leaving))
      else To(Move(s, t, Sending(s.slist[0], 0)).(slist := s.slist[1..]))
    case EndSend =>
      if p.Sending? && p.sent <= |p.message| then
        var wbuffer := s.wbuffer + p.message[p.sent..];
        To(Move(s, t, if |wbuffer| > 0 then Leaving else Draining)
           .(wbuffer := wbuffer, released := s.released + [p.message]))
      else NotEnabled
    case Unlock => if p.Leaving? then To(Move(s, t, Outside).(holder := NOBODY)) else NotEnabled
  }

  /** The bytes that are neither on the wire nor in the queue. */
  function InHand(s: Sender): Bytes {
    if s.holder >= 0 && s.holder in s.places then
      match s.places[s.holder]
      case Flushing(sent) => if sent <= |s.wbuffer| then s.wbuffer[sent..] else []
      case Sending(message, sent) => s.wbuffer + (if sent <= |message| then message[sent..] else [])
      case _ => s.wbuffer
    else s.wbuffer
  }

  /** The message that has left the queue but has not been released. */
  function Unreleased(s: Sender): seq<Bytes> {
    if s.holder >= 0 && s.holder in s.places && s.places[s.holder].Sending? then [s.places[s.holder].message] else []
  }

  predicate Inside(p: Place) {
    !p.Outside? && !p.Wanting?
  }

  /** Someone will still look at the queue. */
  predicate WillLook(p: Place) {
    p.Wanting? || p.Entered? || p.Flushing? || p.Flushed? || p.Draining? || p.Sending?
  }

  predicate HolderOk(s: Sender) {
    s.holder in s.places && s.holder >= 0 &&
    match s.places[s.holder]
    case Outside => false
    case Wanting => false
    case Flushing(sent) => sent <= |s.wbuffer|
    case Draining => s.wbuffer == []
    case Sending(message, sent) => s.wbuffer == [] && sent <= |message|
    case _ => true
  }

  /** What holds after every step of every interleaving. */
  ghost predicate Invariant(s: Sender) {
    && (forall t :: t in s.places && Inside(s.places[t]) ==> s.holder == t)
    && (s.holder == NOBODY || HolderOk(s))
    && s.wire + InHand(s) + Flatten(s.slist) == Flatten(s.pushed)
    && s.released + Unreleased(s) + s.slist == s.pushed
    && (s.slist != [] ==> s.wbuffer != [] || exists t :: t in s.places && WillLook(s.places[t]))
  }

  lemma StartInvariant(threads: set<nat>)
    ensures Invariant(Start(threads))
  {
  }

  /** The bytes and messages of a state whose holder is where `p` says. */
  predicate Conserves(s: Sender) {
    && s.wire + InHand(s) + Flatten(s.slist) == Flatten(s.pushed)
    && s.released + Unreleased(s) + s.slist == s.pushed
  }

  lemma AppendAll<T>(a: seq<T>, b: seq<T>, c: seq<T>, d: seq<T>, m: seq<T>)
    requires a + b + c == d
    ensures a + b + (c + m) == d + m
  {
  }

  lemma MoveOver<T>(w: seq<T>, x: seq<T>, y: seq<T>, q: seq<T>)
    ensures w + x + y + q == w + (x + y) + q
  {
  }

  lemma Queued(s: Sender, t: nat, message: Bytes)
    requires Conserves(s) && t in s.places && s.places[t].Outside? && s.holder != t && Take(s, t, Push(message)).To?
    ensures Conserves(Take(s, t, Push(message)).s)
  {
    var s1 := Take(s, t, Push(message)).s;
    FlattenAppend(s.slist, [message]);
    FlattenAppend(s.pushed, [message]);
    FlattenOne(message);
    hide Flatten;
    assert InHand(s1) == InHand(s) && Unreleased(s1) == Unreleased(s);
    AppendAll(s.wire, InHand(s), Flatten(s.slist), Flatten(s.pushed), message);
    AppendAll(s.released, Unreleased(s), s.slist, s.pushed, [message]);
  }

  lemma WrittenFlushing(s: Sender, t: nat, n: nat)
    requires Conserves(s) && t in s.places && s.holder == t && HolderOk(s) && s.places[t].Flushing?
      && Take(s, t, Write(n)).To?
    ensures Conserves(Take(s, t, Write(n)).s) && HolderOk(Take(s, t, Write(n)).s)
  {
    hide Flatten;
    var k := s.places[t].sent;
    var x, y := s.wbuffer[k..k + n], s.wbuffer[k + n..];
    assert s.wbuffer[k..] == x + y;
    MoveOver(s.wire, x, y, Flatten(s.slist));
  }

  lemma WrittenSending(s: Sender, t: nat, n: nat)
    requires Conserves(s) && t in s.places && s.holder == t && HolderOk(s) && s.places[t].Sending?
      && Take(s, t, Write(n)).To?
    ensures Conserves(Take(s, t, Write(n)).s) && HolderOk(Take(s, t, Write(n)).s)
  {
    hide Flatten;
    var s1 := Take(s, t, Write(n)).s;
    var k, m := s.places[t].sent, s.places[t].message;
    var x, y := m[k..k + n], m[k + n..];
    assert m[k..] == x + y;
    NothingBefore(s.wbuffer, m[k..]);
    NothingBefore(s.wbuffer, y);
    assert InHand(s) == m[k..] && InHand(s1) == y;
    MoveOver(s.wire, x, y, Flatten(s.slist));
  }

  lemma NothingBefore<T>(a: seq<T>, b: seq<T>)
    requires a == []
    ensures a + b == b
  {
  }

  lemma Written(s: Sender, t: nat, n: nat)
    requires Conserves(s) && t in s.places && s.holder == t && HolderOk(s) && Take(s, t, Write(n)).To?
    ensures Conserves(Take(s, t, Write(n)).s) && HolderOk(Take(s, t, Write(n)).s)
  {
    hide Conserves, HolderOk;
    if s.places[t].Flushing? { WrittenFlushing(s, t, n); } else { WrittenSending(s, t, n); }
  }

  lemma Popped(s: Sender, t: nat)
    requires Conserves(s) && t in s.places && s.holder == t && HolderOk(s) && Take(s, t, PopOrLeave).To?
    ensures Conserves(Take(s, t, PopOrLeave).s) && HolderOk(Take(s, t, PopOrLeave).s)
  {
    if s.slist != [] {
      var m := s.slist[0];
      assert s.wbuffer + m[0..] == m;
      assert s.wire + [] + (m + Flatten(s.slist[1..])) == s.wire + m + Flatten(s.slist[1..]);
      assert s.released + [] + s.slist == s.released + [m] + s.slist[1..];
    }
  }

  lemma Finished(s: Sender, t: nat)
    requires Conserves(s) && t in s.places && s.holder == t && HolderOk(s) && Take(s, t, EndSend).To?
    ensures Conserves(Take(s, t, EndSend).s) && HolderOk(Take(s, t, EndSend).s)
  {
    var s1 := Take(s, t, EndSend).s;
    assert InHand(s1) == InHand(s);
    assert s1.released + Unreleased(s1) == s.released + Unreleased(s);
  }

  lemma Conserved(s: Sender, t: nat, step: Step)
    requires t in s.places && (s.holder == NOBODY || HolderOk(s)) && (Inside(s.places[t]) ==> s.holder == t)
    requires Conserves(s) && Take(s, t, step).To?
    ensures Conserves(Take(s, t, step).s)
    ensures var s1 := Take(s, t, step).s; s1.holder == NOBODY || HolderOk(s1)
  {
    match step
    case Push(message) => Queued(s, t, message);
    case Write(n) => Written(s, t, n);
    case PopOrLeave => Popped(s, t);
    case EndSend => Finished(s, t);
    case _ =>
  }

  /** Whoever stops looking at the queue leaves it empty or leaves bytes that wait. */
  lemma StillLooked(s: Sender, t: nat, step: Step)
    requires t in s.places && (s.holder == NOBODY || HolderOk(s)) && (Inside(s.places[t]) ==> s.holder == t)
    requires s.slist != [] ==> s.wbuffer != [] || exists u :: u in s.places && WillLook(s.places[u])
    requires Take(s, t, step).To?
    ensures var s1 := Take(s, t, step).s;
      s1.slist != [] ==> s1.wbuffer != [] || exists u :: u in s1.places && WillLook(s1.places[u])
  {
    var s1 := Take(s, t, step).s;
    if WillLook(s1.places[t]) { return; }
    if s1.slist != [] && s1.wbuffer == [] {
      var u :| u in s.places && WillLook(s.places[u]);
      if u != t { assert WillLook(s1.places[u]); }
    }
  }

  /** Every step of every thread keeps the invariant. */
  lemma StepKeepsInvariant(s: Sender, t: nat, step: Step)
    requires Invariant(s) && t in s.places && Take(s, t, step).To?
    ensures Invariant(Take(s, t, step).s)
  {
    hide Conserves, HolderOk, Flatten, InHand, Unreleased;
    assert Conserves(s) && (s.holder == NOBODY || HolderOk(s)) by { ConservesIs(s); }
    Conserved(s, t, step);
    ConservesIs(Take(s, t, step).s);
    StillLooked(s, t, step);
  }

  lemma ConservesIs(s: Sender)
    ensures Conserves(s) <==>
      (s.wire + InHand(s) + Flatten(s.slist) == Flatten(s.pushed) && s.released + Unreleased(s) + s.slist == s.pushed)
  {
  }

  /** A run: steps of threads in any order; a step that is not enabled does nothing. */
  function Run(s: Sender, steps: seq<(nat, Step)>): Sender
    decreases |steps|
  {
    if steps == [] then s
    else
      var (t, step) := steps[0];
      var s1 := if t in s.places && Take(s, t, step).To? then Take(s, t, step).s else s;
      Run(s1, steps[1..])
  }

  lemma {:induction false} RunKeepsInvariant(s: Sender, steps: seq<(nat, Step)>)
    requires Invariant(s)
    ensures Invariant(Run(s, steps))
    decreases |steps|
  {
    hide Invariant, Take;
    if steps != [] {
      var (t, step) := steps[0];
      if t in s.places && Take(s, t, step).To? {
        StepKeepsInvariant(s, t, step);
        RunKeepsInvariant(Take(s, t, step).s, steps[1..]);
      } else {
        RunKeepsInvariant(s, steps[1..]);
      }
    }
  }

  /** Under every interleaving: what is on the wire, in hand and queued is what was pushed, in order, and each message
      has been released once or is still to be.  When no call is in progress, an empty write buffer means an empty
      queue: everything pushed is on the wire and released. */
  lemma NothingStranded(threads: set<nat>, steps: seq<(nat, Step)>)
    ensures var s := Run(Start(threads), steps);
      && s.wire + InHand(s) + Flatten(s.slist) == Flatten(s.pushed)
      && s.released + Unreleased(s) + s.slist == s.pushed
      && ((forall t :: t in s.places ==> s.places[t].Outside?) ==>
          s.wire + s.wbuffer + Flatten(s.slist) == Flatten(s.pushed) && s.released + s.slist == s.pushed
          && (s.wbuffer == [] ==> s.slist == [] && s.wire == Flatten(s.pushed) && s.released == s.pushed))
  {
    hide Run, Flatten;
    StartInvariant(threads);
    RunKeepsInvariant(Start(threads), steps);
    NothingFlat();
    var s := Run(Start(threads), steps);
    if forall t :: t in s.places ==> s.places[t].Outside? {
      assert s.holder == NOBODY;
      assert InHand(s) == s.wbuffer && Unreleased(s) == [];
      if s.wbuffer == [] {
        assert s.slist == [];
        assert s.wire + [] + [] == s.wire && s.released + [] + [] == s.released;
      }
      assert s.released + [] + s.slist == s.released + s.slist;
    }
  }
}
