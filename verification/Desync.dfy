/**
 What a desynchronised receiver loses. A parser that took noise for a frame header swallows the
 bytes that header announced. If that leaves it inside a frame, a start marker in the rest of the
 frame is taken for a header again, and so on until it is between two frames; the frames lost are
 the ones that began before that point.
 */
module Desync {
  import opened Bytes
  import opened Frame

  /** The frame a byte string is, if it is one. */
  function AsFrame(s: seq<byte>): seq<Frame> {
    match Decode(s)
    case Some(frame) => [frame]
    case None => []
  }

  // ---------------------------------------------------------- one step at a time

  /**
   The bytes a waiting parser takes at once: one that is no marker, a header with a length it
   rejects, or a frame as long as its header announces; all there is if the stream ends before.
   */
  function Skip(s: seq<byte>): (k: nat)
    requires s != []
    ensures 0 < k <= |s|
  {
    if s[0] != SOF then 1
    else if |s| < 4 then |s|
    else if DeclaredLength(s) > MAX_PAYLOAD then 4
    else if OVERHEAD + DeclaredLength(s) <= |s| then OVERHEAD + DeclaredLength(s)
    else |s|
  }

  lemma UndecidedStep(p: seq<byte>)
    requires Undecided(p) && p != []
    ensures var n := |p| - 1;
            Undecided(p[..n]) && Next(p[..n], p[n]) == p && DeliveredBy(p[..n], p[n]) == []
  {
    hide Decode, Bytes.GetU16;
    var n := |p| - 1;
    assert p[..n] + [p[n]] == p;
    if n >= 4 {
      assert p[..n][2..4] == p[2..4];
    }
  }

  /** What is undecided is held, and nothing has come of it. */
  lemma {:induction false} UndecidedHeld(p: seq<byte>)
    requires Undecided(p)
    ensures Held([], p) == p && Delivered([], p) == []
  {
    hide Undecided, Next, DeliveredBy;
    if p != [] {
      UndecidedStep(p);
      UndecidedHeld(p[..|p| - 1]);
    }
  }

  lemma RejectedHeader(s: seq<byte>)
    requires |s| == 4 && s[0] == SOF && DeclaredLength(s) > MAX_PAYLOAD
    ensures Held([], s) == [] && Delivered([], s) == [] && AsFrame(s) == []
  {
    hide Bytes.GetU16, Held, Delivered;
    UndecidedHeld(s[..3]);
    assert s == s[..3] + [s[3]];
    HeldAppend([], s[..3], s[3]);
  }

  lemma NotMarker(b: byte)
    requires b != SOF
    ensures Held([], [b]) == [] && Delivered([], [b]) == [] && AsFrame([b]) == []
  {
    GarbageIgnored([b]);
  }

  lemma IncompleteNoFrame(s: seq<byte>)
    requires Undecided(s)
    ensures AsFrame(s) == []
  {
    hide Bytes.GetU16;
  }

  /** What one step makes of a stream: the bytes taken may be a frame, the rest is received afresh. */
  lemma SkipStep(s: seq<byte>)
    requires s != []
    ensures Delivered([], s) == AsFrame(s[..Skip(s)]) + Delivered([], s[Skip(s)..])
  {
    hide Held, Delivered, AsFrame, Bytes.GetU16, FrameShaped;
    var k := Skip(s);
    var taken, rest := s[..k], s[k..];
    assert s == taken + rest;
    HeldConcat([], taken, rest);
    if s[0] != SOF {
      assert taken == [s[0]];
      NotMarker(s[0]);
    } else {
      MarkerStep(s);
    }
  }

  lemma MarkerStep(s: seq<byte>)
    requires s != [] && s[0] == SOF
    ensures var k := Skip(s);
            && Delivered([], s[..k]) == AsFrame(s[..k])
            && (k < |s| ==> Held([], s[..k]) == [])
            && (k == |s| ==> Delivered(Held([], s[..k]), s[k..]) == [] == Delivered([], s[k..]))
  {
    hide Held, Delivered, Decode, Verdict, Bytes.GetU16;
    var k := Skip(s);
    var taken := s[..k];
    NothingFollows(Held([], taken), s[k..]);
    NothingFollows([], s[k..]);
    if |s| >= 4 {
      assert |taken| >= 4 && taken[2..4] == s[2..4];
      if DeclaredLength(s) > MAX_PAYLOAD {
        RejectedHeader(taken);
      } else if OVERHEAD + DeclaredLength(s) <= |s| {
        LastByteDecides(taken);
      } else {
        UndecidedHeld(taken);
        IncompleteNoFrame(taken);
      }
    } else {
      UndecidedHeld(taken);
      IncompleteNoFrame(taken);
    }
  }

  lemma NothingFollows(p: seq<byte>, s: seq<byte>)
    requires Undecided(p)
    ensures s == [] ==> Delivered(p, s) == []
  {
  }

  // ------------------------------------------------------- the bytes swallowed

  /** The bytes of the stream a parser holding `p` takes before it waits for a marker again. */
  function Taken(p: seq<byte>, stream: seq<byte>): (r: nat)
    requires Undecided(p)
    ensures r <= |stream|
  {
    if p == [] then 0 else TakesAll(p, stream); Skip(p + stream) - |p|
  }

  lemma TakesAll(p: seq<byte>, stream: seq<byte>)
    requires Undecided(p) && p != []
    ensures |p| <= Skip(p + stream) <= |p| + |stream|
  {
    hide Bytes.GetU16;
    if |p| >= 4 {
      assert (p + stream)[2..4] == p[2..4];
    }
  }

  /** A parser past its length field takes exactly what that length announced. */
  lemma TakenPastLength(p: seq<byte>, stream: seq<byte>)
    requires Undecided(p) && |p| >= 4
    ensures Taken(p, stream) == if Remaining(p) <= |stream| then Remaining(p) else |stream|
  {
    hide Bytes.GetU16;
    assert (p + stream)[2..4] == p[2..4];
  }

  /**
   From every reachable state, whatever follows: the parser swallows exactly the bytes it takes,
   delivers them only if they complete a frame, and receives the rest as a waiting parser would.
   */
  lemma SwallowsExactly(p: seq<byte>, stream: seq<byte>)
    requires Undecided(p)
    ensures var r := Taken(p, stream);
            Delivered(p, stream) == AsFrame(p + stream[..r]) + Delivered([], stream[r..])
  {
    hide Held, Delivered, AsFrame, Skip;
    if p == [] {
      IncompleteNoFrame([]);
      assert p + stream[..0] == [] && stream[0..] == stream;
    } else {
      var all := p + stream;
      TakesAll(p, stream);
      var r := Skip(all) - |p|;
      UndecidedHeld(p);
      HeldConcat([], p, stream);
      SkipStep(all);
      assert all[..Skip(all)] == p + stream[..r] && all[Skip(all)..] == stream[r..];
    }
  }

  // ------------------------------------------------------------------ streams

  function WireOf(frame: Frame): seq<byte>
    requires |frame.payload| <= MAX_PAYLOAD
  {
    Wire(frame.cmd, frame.payload)
  }

  /** Frames of the protocol, each after a run of noise without start markers. */
  predicate Sendable(frames: seq<Frame>, garbage: seq<seq<byte>>) {
    && |frames| == |garbage|
    && (forall f :: f in frames ==> |f.payload| <= MAX_PAYLOAD)
    && (forall g :: g in garbage ==> SOF !in g)
  }

  lemma SendableTail(frames: seq<Frame>, garbage: seq<seq<byte>>)
    requires Sendable(frames, garbage) && frames != []
    ensures Sendable(frames[1..], garbage[1..])
    ensures |frames[0].payload| <= MAX_PAYLOAD && SOF !in garbage[0]
  {
    assert frames[0] in frames && garbage[0] in garbage;
  }

  /** A stream from its first frame on. */
  lemma {:induction false} StreamHead(frames: seq<Frame>, garbage: seq<seq<byte>>)
    requires |frames| == |garbage| && frames != []
    requires forall f :: f in frames ==> |f.payload| <= MAX_PAYLOAD
    ensures Stream(frames, garbage) == garbage[0] + WireOf(frames[0]) + Stream(frames[1..], garbage[1..])
  {
    hide Wire, Stream;
    var n := |frames| - 1;
    Appended(frames, garbage);
    if n > 0 {
      var fs, gs := frames[1..], garbage[1..];
      StreamHead(frames[..n], garbage[..n]);
      assert fs[..n - 1] == frames[..n][1..] && gs[..n - 1] == garbage[..n][1..];
      var middle, last := Stream(fs[..n - 1], gs[..n - 1]), gs[n - 1] + WireOf(fs[n - 1]);
      Appended(fs, gs);
      assert Stream(frames, garbage) == garbage[0] + WireOf(frames[0]) + middle + last;
    } else {
      assert frames[..0] == [] && frames[1..] == [];
      NothingSent(garbage[..0]);
      NothingSent(garbage[1..]);
    }
  }

  lemma Appended(frames: seq<Frame>, garbage: seq<seq<byte>>)
    requires |frames| == |garbage| && frames != []
    requires forall f :: f in frames ==> |f.payload| <= MAX_PAYLOAD
    ensures var n := |frames| - 1;
            Stream(frames, garbage) == Stream(frames[..n], garbage[..n]) + (garbage[n] + WireOf(frames[n]))
  {
    hide Wire;
    var n := |frames| - 1;
    Reassociate(Stream(frames[..n], garbage[..n]), garbage[n], WireOf(frames[n]));
  }

  lemma Reassociate<T>(a: seq<T>, b: seq<T>, c: seq<T>)
    ensures a + b + c == a + (b + c)
  {
  }

  lemma NothingSent(garbage: seq<seq<byte>>)
    requires |garbage| == 0
    ensures Stream([], garbage) == []
  {
  }

  /** How many frames of the stream begin within its first `r` bytes. */
  function Begun(frames: seq<Frame>, garbage: seq<seq<byte>>, r: nat): (k: nat)
    requires Sendable(frames, garbage)
    ensures k <= |frames|
  {
    if frames == [] || r <= |garbage[0]| then 0
    else
      SendableTail(frames, garbage);
      var first := |garbage[0]| + |WireOf(frames[0])|;
      1 + Begun(frames[1..], garbage[1..], if r <= first then 0 else r - first)
  }

  /** Position `r` of the stream lies inside a frame that has begun. */
  predicate Inside(frames: seq<Frame>, garbage: seq<seq<byte>>, r: nat)
    requires Sendable(frames, garbage)
  {
    if frames == [] || r <= |garbage[0]| then false
    else
      SendableTail(frames, garbage);
      var first := |garbage[0]| + |WireOf(frames[0])|;
      r < first || Inside(frames[1..], garbage[1..], r - first)
  }

  lemma {:induction false} InsideBound(frames: seq<Frame>, garbage: seq<seq<byte>>, r: nat)
    requires Sendable(frames, garbage) && Inside(frames, garbage, r)
    ensures r < |Stream(frames, garbage)|
  {
    hide Wire, Stream;
    SendableTail(frames, garbage);
    StreamHead(frames, garbage);
    var first := |garbage[0]| + |WireOf(frames[0])|;
    if r >= first {
      InsideBound(frames[1..], garbage[1..], r - first);
    }
  }

  // ------------------------------------------------------------- joining late

  /** Joining between two frames: exactly the frames that had not begun are delivered. */
  lemma {:induction false} JoinedBetween(frames: seq<Frame>, garbage: seq<seq<byte>>, r: nat)
    requires Sendable(frames, garbage) && r <= |Stream(frames, garbage)| && !Inside(frames, garbage, r)
    ensures Delivered([], Stream(frames, garbage)[r..]) == frames[Begun(frames, garbage, r)..]
  {
    hide Delivered, Held, Wire, Stream;
    var all := Stream(frames, garbage);
    if frames == [] {
      NothingSent(garbage);
      EmptyStream();
    } else {
      SendableTail(frames, garbage);
      StreamHead(frames, garbage);
      var g, w, rest := garbage[0], WireOf(frames[0]), Stream(frames[1..], garbage[1..]);
      if r <= |g| {
        assert all[r..] == g[r..] + (w + rest);
        JoinedInGarbage(frames, garbage, g[r..]);
      } else {
        assert all[r..] == rest[r - |g| - |w|..];
        JoinedBetween(frames[1..], garbage[1..], r - |g| - |w|);
      }
    }
  }

  /** Joining in the noise before the first frame loses nothing. */
  lemma JoinedInGarbage(frames: seq<Frame>, garbage: seq<seq<byte>>, tail: seq<byte>)
    requires Sendable(frames, garbage) && frames != [] && SOF !in tail
    requires |frames[0].payload| <= MAX_PAYLOAD
    ensures Delivered([], tail + (WireOf(frames[0]) + Stream(frames[1..], garbage[1..]))) == frames
  {
    hide Delivered, Held, Wire, Stream;
    SendableTail(frames, garbage);
    var w, rest := WireOf(frames[0]), Stream(frames[1..], garbage[1..]);
    GarbageIgnored(tail);
    FrameDelivered(frames[0]);
    StreamRoundTrip(frames[1..], garbage[1..]);
    HeldConcat([], w, rest);
    HeldConcat([], tail, w + rest);
    assert frames == [frames[0]] + frames[1..];
  }

  /**
   Where a parser waiting at position `r` is between two frames again. Only markers and length
   fields of the stream decide this, never a checksum.
   */
  function Settled(frames: seq<Frame>, garbage: seq<seq<byte>>, r: nat): (t: nat)
    requires Sendable(frames, garbage) && r <= |Stream(frames, garbage)|
    ensures r <= t <= |Stream(frames, garbage)| && !Inside(frames, garbage, t)
    decreases |Stream(frames, garbage)| - r
  {
    if !Inside(frames, garbage, r) then r
    else
      InsideBound(frames, garbage, r);
      Settled(frames, garbage, r + Skip(Stream(frames, garbage)[r..]))
  }

  /** Byte strings between `r` and `t` that the parser takes for frames although none was sent there. */
  function Strays(s: seq<byte>, r: nat, t: nat): seq<Frame>
    requires t <= |s|
    decreases |s| - r
  {
    if r >= t then []
    else
      var k := Skip(s[r..]);
      AsFrame(s[r..r + k]) + Strays(s, r + k, t)
  }

  /**
   Joining a stream of any frames at any position: every frame that has not begun when the parser
   settles is delivered, in order, and before them at most strays.
   */
  lemma {:induction false} JoinedLate(frames: seq<Frame>, garbage: seq<seq<byte>>, r: nat)
    requires Sendable(frames, garbage) && r <= |Stream(frames, garbage)|
    ensures var s, t := Stream(frames, garbage), Settled(frames, garbage, r);
            Delivered([], s[r..]) == Strays(s, r, t) + frames[Begun(frames, garbage, t)..]
    decreases |Stream(frames, garbage)| - r
  {
    hide Delivered, AsFrame, Stream, Skip, Begun, Inside;
    var s := Stream(frames, garbage);
    if !Inside(frames, garbage, r) {
      JoinedBetween(frames, garbage, r);
    } else {
      InsideBound(frames, garbage, r);
      var k := Skip(s[r..]);
      SkipStep(s[r..]);
      assert s[r..][..k] == s[r..r + k] && s[r..][k..] == s[r + k..];
      JoinedLate(frames, garbage, r + k);
      var t := Settled(frames, garbage, r);
      Reassociate(AsFrame(s[r..r + k]), Strays(s, r + k, t), frames[Begun(frames, garbage, t)..]);
    }
  }

  /** Without a marker in the rest of the frame, the parser settles where that frame ends. */
  lemma {:induction false} SettlesQuietly(frames: seq<Frame>, garbage: seq<seq<byte>>, r: nat, t: nat)
    requires Sendable(frames, garbage) && r <= t <= |Stream(frames, garbage)| && !Inside(frames, garbage, t)
    requires forall i :: r <= i < t ==> Inside(frames, garbage, i) && Stream(frames, garbage)[i] != SOF
    ensures Settled(frames, garbage, r) == t
    decreases t - r
  {
    hide Stream, Sendable, Inside;
    if r < t {
      SettlesQuietly(frames, garbage, r + 1, t);
    }
  }

  // ------------------------------------------------------------- what is lost

  /** Where a receiver holding `p` is between two frames of the stream again. */
  function Recovered(p: seq<byte>, frames: seq<Frame>, garbage: seq<seq<byte>>): (t: nat)
    requires Undecided(p) && Sendable(frames, garbage)
    ensures t <= |Stream(frames, garbage)|
  {
    Settled(frames, garbage, Taken(p, Stream(frames, garbage)))
  }

  /** What it takes for frames before that. */
  function Spurious(p: seq<byte>, frames: seq<Frame>, garbage: seq<seq<byte>>): seq<Frame>
    requires Undecided(p) && Sendable(frames, garbage)
  {
    var sent := Stream(frames, garbage);
    var r := Taken(p, sent);
    AsFrame(p + sent[..r]) + Strays(sent, r, Recovered(p, frames, garbage))
  }

  /**
   What a receiver in any state makes of a stream of any frames: the frames that begin before it
   has recovered are lost, every later one is delivered, in order.
   */
  lemma LosesFramesBegun(p: seq<byte>, frames: seq<Frame>, garbage: seq<seq<byte>>)
    requires Undecided(p) && Sendable(frames, garbage)
    ensures var lost := Begun(frames, garbage, Recovered(p, frames, garbage));
            Delivered(p, Stream(frames, garbage)) == Spurious(p, frames, garbage) + frames[lost..]
  {
    hide Delivered, Stream, Undecided, Begun, Settled, Strays, AsFrame, Taken;
    var sent := Stream(frames, garbage);
    SwallowsExactly(p, sent);
    JoinedLate(frames, garbage, Taken(p, sent));
  }

  /** At most one frame of the stream is lost. */
  predicate LosesAtMostOne(p: seq<byte>, frames: seq<Frame>, garbage: seq<seq<byte>>)
    requires Undecided(p) && Sendable(frames, garbage)
  {
    |Delivered(p, Stream(frames, garbage))| - |Spurious(p, frames, garbage)| >= |frames| - 1
  }

  /** Where the second frame of the stream begins. */
  function SecondAt(frames: seq<Frame>, garbage: seq<seq<byte>>): nat
    requires |frames| == |garbage| >= 2
  {
    |garbage[0]| + OVERHEAD + |frames[0].payload| + |garbage[1]|
  }

  /**
   At most one frame is lost exactly when the receiver has recovered by the start of the second:
   for every state of the receiver and every sequence of frames.
   */
  lemma AtMostOneLostIff(p: seq<byte>, frames: seq<Frame>, garbage: seq<seq<byte>>)
    requires Undecided(p) && Sendable(frames, garbage)
    ensures LosesAtMostOne(p, frames, garbage) <==>
              |frames| < 2 || Recovered(p, frames, garbage) <= SecondAt(frames, garbage)
  {
    hide Delivered, Stream, Undecided, Spurious, Recovered;
    LosesFramesBegun(p, frames, garbage);
    if |frames| >= 2 {
      BegunOne(frames, garbage, Recovered(p, frames, garbage));
    }
  }

  lemma BegunOne(frames: seq<Frame>, garbage: seq<seq<byte>>, r: nat)
    requires Sendable(frames, garbage) && |frames| >= 2
    ensures Begun(frames, garbage, r) <= 1 <==> r <= SecondAt(frames, garbage)
  {
    SendableTail(frames, garbage);
    assert |WireOf(frames[0])| == OVERHEAD + |frames[0].payload|;
  }

  // ------------------------------------------------------------ losing everything

  /** A frame whose payload is a header announcing as many bytes as separate it from the next frame's. */
  const HOP := Frame(0, [SOF, 1, 4, 0])

  /** Noise that looks like the header of an empty frame. */
  const NOISE: seq<byte> := [SOF, 1, 0, 0]

  function Copies(n: nat): (frames: seq<Frame>)
    ensures |frames| == n && forall f :: f in frames ==> f == HOP
  {
    if n == 0 then [] else [HOP] + Copies(n - 1)
  }

  function Silence(n: nat): (garbage: seq<seq<byte>>)
    ensures |garbage| == n && forall g :: g in garbage ==> g == []
  {
    if n == 0 then [] else [[]] + Silence(n - 1)
  }

  function Sent(n: nat): seq<byte> {
    Stream(Copies(n), Silence(n))
  }

  lemma SentHead(n: nat)
    requires n > 0
    ensures Sent(n) == WireOf(HOP) + Sent(n - 1)
  {
    hide Wire, Stream;
    StreamHead(Copies(n), Silence(n));
    assert Copies(n)[1..] == Copies(n - 1) && Silence(n)[1..] == Silence(n - 1);
  }

  lemma HopBytes()
    ensures var w := WireOf(HOP);
            |w| == 12 && w[0] == SOF && w[4] == SOF && w[5] == 1 && w[6..8] == [4, 0] && GetU16([4, 0]) == 4
  {
    hide Bytes.GetU16;
    U16Bytes([4, 0]);
  }

  /** A frame read from bytes carries the command they do. */
  lemma WrongCommand(s: seq<byte>)
    requires |s| >= 2 && s[1] == 1
    ensures HOP !in AsFrame(s)
  {
    hide Bytes.GetU16;
  }

  /** From the header inside a frame the parser hops to the one inside the next. */
  lemma {:induction false} NoneDelivered(n: nat)
    ensures HOP !in Delivered([], WireOf(HOP)[4..] + Sent(n))
  {
    hide Wire, Delivered, AsFrame, Sent, Bytes.GetU16;
    var w := WireOf(HOP);
    var s := w[4..] + Sent(n);
    HopBytes();
    assert s[0] == w[4] && s[1] == w[5] && s[2..4] == w[6..8];
    SkipStep(s);
    WrongCommand(s[..Skip(s)]);
    if n == 0 {
      NothingMore();
      assert s[Skip(s)..] == [];
      NothingFollows([], s[Skip(s)..]);
    } else {
      SentHead(n);
      assert s[12..] == w[4..] + Sent(n - 1);
      NoneDelivered(n - 1);
    }
  }

  lemma NothingMore()
    ensures Sent(0) == []
  {
  }

  /**
   Nothing bounds the loss: however many frames follow, all of them can be lost behind one stray
   header, although a waiting parser would deliver every one.
   */
  lemma EveryFrameLost(n: nat)
    ensures Undecided(NOISE)
    ensures Delivered([], Sent(n)) == Copies(n)
    ensures HOP !in Delivered(NOISE, Sent(n))
  {
    hide Wire, Delivered, AsFrame, Stream, Bytes.GetU16, Bytes.Field16;
    var s, w := Sent(n), WireOf(HOP);
    StreamRoundTrip(Copies(n), Silence(n));
    assert NOISE[2..4] == [0, 0];
    U16Bytes([0, 0]);
    SwallowsExactly(NOISE, s);
    TakenPastLength(NOISE, s);
    WrongCommand(NOISE + s[..Taken(NOISE, s)]);
    if n == 0 {
      NothingMore();
      NothingFollows([], s[Taken(NOISE, s)..]);
    } else {
      SentHead(n);
      HopBytes();
      assert s[4..] == w[4..] + Sent(n - 1);
      NoneDelivered(n - 1);
    }
  }
}
