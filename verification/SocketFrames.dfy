/** Which bytes are frames, said of the bytes themselves: what is received is exactly the frames that were sent. */
module SocketFrames {
  import opened SocketFraming

  /** A frame of 16 bytes or more that begins with its own size in four bytes, the low one first. */
  ghost predicate WellFramed(f: Bytes) {
    && 16 <= |f| < 0x1_0000_0000
    && f[0] as nat == |f| % 256 && f[1] as nat == |f| / 256 % 256
    && f[2] as nat == |f| / 65536 % 256 && f[3] as nat == |f| / 16777216
  }

  /** Bytes that are the beginning of a frame: fewer than its size, or too few to hold that. */
  ghost predicate Beginning(b: Bytes) {
    || |b| < 4
    || exists size :: |b| < size < 0x1_0000_0000 && Spells(b, size)
  }

  predicate Spells(b: Bytes, size: nat) {
    && |b| >= 4 && size < 0x1_0000_0000
    && b[0] as nat == size % 256 && b[1] as nat == size / 256 % 256
    && b[2] as nat == size / 65536 % 256 && b[3] as nat == size / 16777216
  }

  /** Bytes that begin with a size of less than 16 and hold as many bytes as it says. */
  ghost predicate TooSmall(b: Bytes) {
    exists size :: 0 <= size < 16 && size <= |b| && Spells(b, size)
  }

  lemma SpelledLength(b: Bytes, size: nat)
    requires Spells(b, size)
    ensures Length(b) == size
  {
    var s1, s2, s3 := size / 256, size / 65536, size / 16777216;
    assert s2 == s1 / 256 && s3 == s2 / 256;
  }

  lemma EverySize(b: Bytes) returns (size: nat)
    requires |b| >= 4
    ensures Spells(b, size)
  {
    var b0, b1, b2, b3 := b[0] as nat, b[1] as nat, b[2] as nat, b[3] as nat;
    var n2 := b3 * 256 + b2;
    var n1 := n2 * 256 + b1;
    size := n1 * 256 + b0;
    assert size / 256 == n1 && size % 256 == b0;
    assert n1 / 256 == n2 && n1 % 256 == b1;
    assert n2 / 256 == b3 && n2 % 256 == b2;
    assert size / 65536 == n2 && size / 16777216 == b3;
  }

  lemma RestStays(rest: Bytes)
    requires Beginning(rest)
    ensures Drain(rest) == Drained([], rest, true)
  {
    hide Drain, Length;
    if |rest| >= 4 {
      var size :| |rest| < size < 0x1_0000_0000 && Spells(rest, size);
      SpelledLength(rest, size);
    }
    DrainStops(rest);
  }

  lemma {:induction false} FramesThen(frames: seq<Bytes>, rest: Bytes)
    requires forall i :: 0 <= i < |frames| ==> WellFramed(frames[i])
    ensures Drain(Flatten(frames) + rest) == Before(frames, Drain(rest))
    decreases |frames|
  {
    hide Drain, Length;
    BeforeTwice([], [], Drain(rest));
    if frames == [] {
      assert Flatten(frames) + rest == rest;
    } else {
      var f, b := frames[0], Flatten(frames) + rest;
      var more := Flatten(frames[1..]) + rest;
      assert b == f + more;
      assert Spells(b, |f|);
      SpelledLength(b, |f|);
      assert b[..|f|] == f && b[|f|..] == more;
      DrainFrame(b);
      FramesThen(frames[1..], rest);
      BeforeTwice([f], frames[1..], Drain(rest));
      assert [f] + frames[1..] == frames;
    }
  }

  /** Whatever frames were sent, and whatever beginning of another one has come: what is cut off are these frames, and
      what is left is that beginning. */
  lemma FramesAreDelivered(frames: seq<Bytes>, rest: Bytes)
    requires (forall i :: 0 <= i < |frames| ==> WellFramed(frames[i])) && Beginning(rest)
    ensures Drain(Flatten(frames) + rest) == Drained(frames, rest, true)
  {
    hide Drain, Length;
    FramesThen(frames, rest);
    RestStays(rest);
    assert frames + [] == frames;
  }

  /** The first frame that says it is smaller than its header is illegal, and nothing behind it is delivered. */
  lemma FrameTooSmall(frames: seq<Bytes>, rest: Bytes)
    requires (forall i :: 0 <= i < |frames| ==> WellFramed(frames[i])) && TooSmall(rest)
    ensures Drain(Flatten(frames) + rest) == Drained(frames, rest, false)
  {
    hide Drain, Length;
    FramesThen(frames, rest);
    var size :| 0 <= size < 16 && size <= |rest| && Spells(rest, size);
    SpelledLength(rest, size);
    DrainStops(rest);
    assert frames + [] == frames;
  }

  /** However the bytes of frames and a beginning arrive, these frames are received, and that beginning waits. */
  lemma FramesAreReceived(frames: seq<Bytes>, rest: Bytes, chunks: seq<Bytes>)
    requires (forall i :: 0 <= i < |frames| ==> WellFramed(frames[i])) && Beginning(rest)
    requires Flatten(chunks) == Flatten(frames) + rest
    ensures ReceiveAll([], chunks) == Drained(frames, rest, true)
  {
    hide Drain, ReceiveAll;
    FramesAreDelivered(frames, rest);
    SplitsDoNotMatter([], chunks);
    assert [] + Flatten(chunks) == Flatten(chunks);
  }

  /** Any bytes are frames and a beginning, or frames and a frame that is too small. */
  lemma {:induction false} BytesAreFrames(b: Bytes)
    ensures var d := Drain(b);
      && (forall i :: 0 <= i < |d.frames| ==> WellFramed(d.frames[i])) && b == Flatten(d.frames) + d.rest
      && if d.legal then Beginning(d.rest) else TooSmall(d.rest)
    decreases |b|
  {
    hide Drain, Length;
    DrainConserves(b);
    DrainStops(b);
    if |b| >= 4 {
      var size := EverySize(b);
      SpelledLength(b, size);
      if 16 <= size <= |b| {
        DrainFrame(b);
        BytesAreFrames(b[size..]);
        assert WellFramed(b[..size]);
      }
    }
  }
}
