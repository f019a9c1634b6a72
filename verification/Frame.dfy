/**
 The wire frame: SOF | CMD | LEN (2) | PAYLOAD | CRC (4).

 `Wire` and `Decode` are the host's whole-frame encoder and decoder. The device sees a frame
 one byte at a time; `Next` and `Verdict` say what a byte means given everything received
 since the accepted SOF, and `FrameParser` is the state machine that remembers less.
 */
module Frame {
  import opened Bytes
  import opened Crc32
  import opened Optional

  const SOF: byte := 0x7E
  const MAX_PAYLOAD: nat := 512
  const OVERHEAD: nat := 8

  datatype Frame = Frame(cmd: byte, payload: seq<byte>)

  // ------------------------------------------------------------- whole frames

  /** The bytes the checksum covers. */
  function Body(cmd: byte, payload: seq<byte>): (s: seq<byte>)
    requires |payload| < 0x1_0000
    ensures |s| == 3 + |payload|
  {
    [cmd] + PutU16(|payload|) + payload
  }

  function Wire(cmd: byte, payload: seq<byte>): (s: seq<byte>)
    requires |payload| < 0x1_0000
    ensures |s| == OVERHEAD + |payload|
  {
    [SOF] + Body(cmd, payload) + CrcBytes(Body(cmd, payload))
  }

  /** Refuses a payload over the protocol limit rather than emit a frame the device rejects. */
  function Encode(cmd: byte, payload: seq<byte>): Option<seq<byte>> {
    if |payload| > MAX_PAYLOAD then None else Some(Wire(cmd, payload))
  }

  function DeclaredLength(s: seq<byte>): nat
    requires |s| >= 4
  {
    GetU16(s[2..4])
  }

  function Decode(s: seq<byte>): Option<Frame> {
    if |s| < OVERHEAD then None
    else if s[0] != SOF then None
    else if |s| != OVERHEAD + DeclaredLength(s) then None
    else if s[|s| - 4..] != CrcBytes(s[1..|s| - 4]) then None
    else Some(Frame(s[1], s[4..|s| - 4]))
  }

  lemma WireParts(cmd: byte, payload: seq<byte>)
    requires |payload| < 0x1_0000
    ensures var s := Wire(cmd, payload);
            && s[0] == SOF && s[1] == cmd
            && s[2..4] == PutU16(|payload|)
            && DeclaredLength(s) == |payload|
            && s[4..|s| - 4] == payload
            && s[1..|s| - 4] == Body(cmd, payload)
            && s[|s| - 4..] == CrcBytes(Body(cmd, payload))
  {
    hide CrcBytes, Bytes.GetU16;
    var s := Wire(cmd, payload);
    assert s[2..4] == PutU16(|payload|);
    U16RoundTrip(|payload|);
  }

  /** A byte string whose shape and checksum are right is the encoding of what it carries. */
  lemma WireOfParts(s: seq<byte>)
    requires |s| >= OVERHEAD && s[0] == SOF
    requires |s| == OVERHEAD + DeclaredLength(s)
    requires s[|s| - 4..] == CrcBytes(s[1..|s| - 4])
    ensures s == Wire(s[1], s[4..|s| - 4])
  {
    hide CrcBytes, Bytes.GetU16;
    U16Injective(s[2..4]);
    var payload := s[4..|s| - 4];
    assert s[1..|s| - 4] == [s[1]] + s[2..4] + payload;
    assert s == [SOF] + s[1..|s| - 4] + s[|s| - 4..];
  }

  /** The host's encoder and decoder are inverse: decoding succeeds on encodings and nothing else. */
  lemma DecodeIffEncoded(s: seq<byte>, frame: Frame)
    ensures Decode(s) == Some(frame) <==> |frame.payload| < 0x1_0000 && s == Wire(frame.cmd, frame.payload)
  {
    hide CrcBytes, Bytes.GetU16;
    if Decode(s) == Some(frame) {
      WireOfParts(s);
    }
    if |frame.payload| < 0x1_0000 && s == Wire(frame.cmd, frame.payload) {
      WireParts(frame.cmd, frame.payload);
    }
  }

  /** `bl_frame_encode`: the frame goes into the caller's buffer, or nothing does. */
  method EncodeInto(cmd: byte, payload: seq<byte>, out: array<byte>) returns (len: nat)
    requires |payload| < 0x1_0000
    modifies out
    ensures len == 0 <==> |payload| > MAX_PAYLOAD || |payload| + OVERHEAD > out.Length
    ensures len <= out.Length
    ensures len == 0 ==> out[..] == old(out[..])
    ensures len != 0 ==> out[..] == Wire(cmd, payload) + old(out[len..])
  {
    hide Crc32.Crc, Crc32.PutWord, Bytes.GetU16;
    if |payload| > MAX_PAYLOAD || |payload| + OVERHEAD > out.Length {
      return 0;
    }
    var n := |payload|;
    out[0] := SOF;
    out[1] := cmd;
    out[2] := n % 256;
    out[3] := n / 256;
    forall i | 0 <= i < n {
      out[4 + i] := payload[i];
    }
    U16Digits(n);
    assert out[1..4 + n] == Body(cmd, payload);
    var crc := Crc32.Compute(0, out[1..4 + n]);
    var stored := Crc32.PutWord(crc);
    forall i | 0 <= i < 4 {
      out[4 + n + i] := stored[i];
    }
    assert out[..4 + n] == [SOF] + Body(cmd, payload);
    return OVERHEAD + n;
  }

  // ------------------------------------------------------------ byte at a time

  datatype FeedStatus = Incomplete | Complete | Error

  /** What may have been received since the accepted SOF without the frame being decided. */
  predicate Undecided(p: seq<byte>) {
    p == [] ||
    (p[0] == SOF && (|p| < 4 || (DeclaredLength(p) <= MAX_PAYLOAD && |p| < OVERHEAD + DeclaredLength(p))))
  }

  /** The verdict on byte `b` after `p`, judged from the whole of what was received. */
  function Verdict(p: seq<byte>, b: byte): FeedStatus {
    var q := p + [b];
    if p == [] || |q| < 4 then Incomplete
    else if |q| == 4 && DeclaredLength(q) > MAX_PAYLOAD then Error
    else if |q| < OVERHEAD + DeclaredLength(q) then Incomplete
    else if Decode(q).Some? then Complete
    else Error
  }

  /** What is held after byte `b`; empty means waiting for the next SOF. */
  function Next(p: seq<byte>, b: byte): (q: seq<byte>)
    requires Undecided(p)
    ensures Undecided(q)
  {
    if p == [] && b != SOF then []
    else if Verdict(p, b) != Incomplete then []
    else
      assert |p| >= 4 ==> (p + [b])[2..4] == p[2..4];
      p + [b]
  }

  /** What is held after a whole stream. */
  function Held(p: seq<byte>, stream: seq<byte>): (q: seq<byte>)
    requires Undecided(p)
    ensures Undecided(q)
  {
    if stream == [] then p
    else Next(Held(p, stream[..|stream| - 1]), stream[|stream| - 1])
  }

  /** The frames delivered by one byte: none, or the one it completes. */
  function DeliveredBy(p: seq<byte>, b: byte): seq<Frame> {
    if Verdict(p, b) == Complete && Decode(p + [b]).Some? then [Decode(p + [b]).value] else []
  }

  /** The frames delivered by a whole stream, in order. */
  function Delivered(p: seq<byte>, stream: seq<byte>): seq<Frame>
    requires Undecided(p)
  {
    if stream == [] then []
    else
      var before := stream[..|stream| - 1];
      Delivered(p, before) + DeliveredBy(Held(p, before), stream[|stream| - 1])
  }

  /** A byte completes a frame exactly when what was received since SOF is that frame's encoding. */
  lemma CompleteIffEncoded(p: seq<byte>, b: byte, frame: Frame)
    requires Undecided(p)
    ensures p != [] && |frame.payload| <= MAX_PAYLOAD && p + [b] == Wire(frame.cmd, frame.payload)
            <==> Verdict(p, b) == Complete && DeliveredBy(p, b) == [frame]
  {
    hide CrcBytes, Bytes.GetU16;
    var q := p + [b];
    DecodeIffEncoded(q, frame);
    if p != [] && |frame.payload| <= MAX_PAYLOAD && q == Wire(frame.cmd, frame.payload) {
      WireParts(frame.cmd, frame.payload);
    }
    if Verdict(p, b) == Complete {
      assert |p| >= 4 ==> p[2..4] == q[2..4];
    }
  }

  // ------------------------------------------------------------------- streams

  lemma {:induction false} HeldConcat(p: seq<byte>, a: seq<byte>, b: seq<byte>)
    requires Undecided(p)
    ensures Held(p, a + b) == Held(Held(p, a), b)
    ensures Delivered(p, a + b) == Delivered(p, a) + Delivered(Held(p, a), b)
    decreases |b|
  {
    hide Next, DeliveredBy, Undecided, Bytes.GetU16;
    if b == [] {
      assert a + b == a;
    } else {
      var b' := b[..|b| - 1];
      HeldConcat(p, a, b');
      assert (a + b)[..|a + b| - 1] == a + b';
    }
  }

  /** Garbage without a start marker is skipped. */
  lemma {:induction false} GarbageIgnored(garbage: seq<byte>)
    requires SOF !in garbage
    ensures Held([], garbage) == [] && Delivered([], garbage) == []
  {
    if garbage != [] {
      GarbageIgnored(garbage[..|garbage| - 1]);
    }
  }

  /** Bytes shaped like one whole frame, whether or not the checksum is right. */
  predicate FrameShaped(s: seq<byte>) {
    |s| >= OVERHEAD && s[0] == SOF && DeclaredLength(s) <= MAX_PAYLOAD && |s| == OVERHEAD + DeclaredLength(s)
  }

  lemma HeldAppend(p: seq<byte>, s: seq<byte>, b: byte)
    requires Undecided(p)
    ensures Held(p, s + [b]) == Next(Held(p, s), b)
    ensures Delivered(p, s + [b]) == Delivered(p, s) + DeliveredBy(Held(p, s), b)
  {
    hide Next, DeliveredBy, Undecided;
    assert (s + [b])[..|s|] == s;
  }

  lemma PrefixStep(s: seq<byte>, k: nat)
    requires FrameShaped(s) && 0 < k < |s|
    ensures Undecided(s[..k - 1]) && Undecided(s[..k])
    ensures Next(s[..k - 1], s[k - 1]) == s[..k] && DeliveredBy(s[..k - 1], s[k - 1]) == []
  {
    hide CrcBytes, Decode, Bytes.GetU16;
    assert s[..k - 1] + [s[k - 1]] == s[..k];
    if k >= 4 {
      assert s[..k][2..4] == s[2..4];
    }
    if k >= 5 {
      assert s[..k - 1][2..4] == s[2..4];
    }
  }

  /** Every byte of a frame but the last leaves it undecided. */
  lemma {:induction false} HeldPrefix(s: seq<byte>, k: nat)
    requires FrameShaped(s) && k < |s|
    ensures Held([], s[..k]) == s[..k] && Delivered([], s[..k]) == []
  {
    hide Next, DeliveredBy, FrameShaped;
    if k > 0 {
      HeldPrefix(s, k - 1);
      PrefixStep(s, k);
      HeldAppend([], s[..k - 1], s[k - 1]);
      assert s[..k] == s[..k - 1] + [s[k - 1]];
    }
  }

  lemma VerdictOnLast(s: seq<byte>)
    requires FrameShaped(s)
    ensures Undecided(s[..|s| - 1])
    ensures Verdict(s[..|s| - 1], s[|s| - 1]) == (if Decode(s).Some? then Complete else Error)
    ensures DeliveredBy(s[..|s| - 1], s[|s| - 1]) == (if Decode(s).Some? then [Decode(s).value] else [])
  {
    hide CrcBytes, Decode, Bytes.GetU16;
    assert s[..|s| - 1] + [s[|s| - 1]] == s;
    assert s[..|s| - 1][2..4] == s[2..4];
  }

  /** The last byte of a frame decides it, one way or the other, and the parser waits again. */
  lemma LastByteDecides(s: seq<byte>)
    requires FrameShaped(s)
    ensures Held([], s) == []
    ensures Delivered([], s) == (if Decode(s).Some? then [Decode(s).value] else [])
    ensures Verdict(s[..|s| - 1], s[|s| - 1]) == (if Decode(s).Some? then Complete else Error)
  {
    hide Held, Delivered, Decode, DeliveredBy, Verdict, DeclaredLength;
    var n := |s| - 1;
    assert s == s[..n] + [s[n]];
    HeldAppend([], s[..n], s[n]);
    HeldPrefix(s, n);
    VerdictOnLast(s);
  }

  lemma FrameDelivered(frame: Frame)
    requires |frame.payload| <= MAX_PAYLOAD
    ensures FrameShaped(Wire(frame.cmd, frame.payload))
    ensures Held([], Wire(frame.cmd, frame.payload)) == []
    ensures Delivered([], Wire(frame.cmd, frame.payload)) == [frame]
  {
    hide CrcBytes, Held, Delivered, DeclaredLength, Bytes.GetU16;
    var s := Wire(frame.cmd, frame.payload);
    WireParts(frame.cmd, frame.payload);
    LastByteDecides(s);
    DecodeIffEncoded(s, frame);
  }

  /** Encoded frames, each preceded by a run of garbage. */
  function Stream(frames: seq<Frame>, garbage: seq<seq<byte>>): seq<byte>
    requires |frames| == |garbage|
    requires forall f :: f in frames ==> |f.payload| <= MAX_PAYLOAD
  {
    if frames == [] then []
    else
      var n := |frames| - 1;
      Stream(frames[..n], garbage[..n]) + garbage[n] + Wire(frames[n].cmd, frames[n].payload)
  }

  /**
   Any sequence of encoded frames separated by garbage free of start markers is delivered
   exactly: the same frames, in the same order, nothing else, and the parser ends up waiting.
   */
  lemma {:induction false} StreamRoundTrip(frames: seq<Frame>, garbage: seq<seq<byte>>)
    requires |frames| == |garbage|
    requires forall f :: f in frames ==> |f.payload| <= MAX_PAYLOAD
    requires forall g :: g in garbage ==> SOF !in g
    ensures Held([], Stream(frames, garbage)) == []
    ensures Delivered([], Stream(frames, garbage)) == frames
  {
    hide Held, Delivered, Wire, Bytes.GetU16;
    if frames == [] {
      assert Stream(frames, garbage) == [];
      EmptyStream();
    } else {
      var n := |frames| - 1;
      var head := Stream(frames[..n], garbage[..n]);
      StreamRoundTrip(frames[..n], garbage[..n]);
      assert garbage[n] in garbage && frames[n] in frames;
      GarbageIgnored(garbage[n]);
      FrameDelivered(frames[n]);
      HeldConcat([], head, garbage[n]);
      HeldConcat([], head + garbage[n], Wire(frames[n].cmd, frames[n].payload));
      assert frames == frames[..n] + [frames[n]];
    }
  }

  lemma EmptyStream()
    ensures Held([], []) == [] && Delivered([], []) == []
  {
  }

  // ---------------------------------------------------------------- corruption

  lemma WireIntact(cmd: byte, payload: seq<byte>)
    requires |payload| <= MAX_PAYLOAD
    ensures Intact(Wire(cmd, payload)[1..])
  {
    hide CrcBytes, Bytes.GetU16;
    var s := Wire(cmd, payload);
    WireParts(cmd, payload);
    assert s[1..][|s| - 5..] == s[|s| - 4..] && s[1..][..|s| - 5] == s[1..|s| - 4];
  }

  lemma BrokenNotDecoded(s: seq<byte>)
    requires |s| >= OVERHEAD && !Intact(s[1..])
    ensures Decode(s) == None
  {
    hide CrcBytes, Bytes.GetU16;
    assert s[1..][|s| - 5..] == s[|s| - 4..] && s[1..][..|s| - 5] == s[1..|s| - 4];
  }

  /**
   A frame with up to four consecutive bytes altered, in its command, payload or checksum but not
   in its length, is never delivered: every byte but the last is inconclusive and the last one is
   an error.
   */
  lemma BurstRejected(frame: Frame, received: seq<byte>)
    requires |frame.payload| <= MAX_PAYLOAD
    requires var sent := Wire(frame.cmd, frame.payload);
             Burst(sent, received, 1, |sent|) && received[2..4] == sent[2..4]
    ensures forall k :: 0 <= k < |received| ==> Held([], received[..k]) == received[..k]
    ensures Delivered([], received) == [] && Held([], received) == []
    ensures |received| >= 1 && Verdict(received[..|received| - 1], received[|received| - 1]) == Error
  {
    hide CrcBytes, Held, Delivered, Verdict, Burst, Intact, Decode, Bytes.GetU16;
    var sent := Wire(frame.cmd, frame.payload);
    WireParts(frame.cmd, frame.payload);
    WireIntact(frame.cmd, frame.payload);
    assert sent[1..|sent|] == sent[1..];
    BurstBreaksIntact(sent, received, 1, |sent|);
    assert received[1..|sent|] == received[1..];
    assert received[0] == received[..1][0] == sent[..1][0];
    BrokenNotDecoded(received);
    assert FrameShaped(received);
    LastByteDecides(received);
    forall k | 0 <= k < |received|
      ensures Held([], received[..k]) == received[..k]
    {
      HeldPrefix(received, k);
    }
  }

  // ----------------------------------------------------------- resynchronisation

  /** The most bytes that can still arrive before the parser waits for a start marker again. */
  function Remaining(p: seq<byte>): nat
    requires Undecided(p)
  {
    if p == [] then 0
    else if |p| < 4 then OVERHEAD + MAX_PAYLOAD - |p|
    else OVERHEAD + DeclaredLength(p) - |p|
  }

  lemma RemainingDecreases(p: seq<byte>, b: byte)
    requires Undecided(p) && p != []
    ensures Remaining(Next(p, b)) < Remaining(p) <= 519
  {
    hide CrcBytes, Decode, Bytes.GetU16;
    if |p| >= 4 {
      assert (p + [b])[2..4] == p[2..4];
    }
  }

  /**
   From every reachable state and whatever bytes follow, the parser is waiting for a start
   marker again after at most `Remaining(p)`, hence at most 519, further bytes.
   */
  lemma {:induction false} Resynchronises(p: seq<byte>, stream: seq<byte>) returns (k: nat)
    requires Undecided(p) && |stream| >= Remaining(p)
    ensures k <= Remaining(p) <= 519 && Held(p, stream[..k]) == []
    decreases Remaining(p)
  {
    hide Next, Bytes.GetU16;
    if p == [] {
      return 0;
    }
    RemainingDecreases(p, stream[0]);
    var rest := Resynchronises(Next(p, stream[0]), stream[1..]);
    k := rest + 1;
    assert stream[..k] == [stream[0]] + stream[1..][..rest];
    HeldConcat(p, [stream[0]], stream[1..][..rest]);
    assert [stream[0]][..0] == [];
    assert Held(p, [stream[0]]) == Next(Held(p, []), stream[0]);
  }

  /** A stray marker followed by a large length takes what follows for its own payload. */
  lemma StrayHeaderSwallows(header: seq<byte>, stream: seq<byte>)
    requires |header| == 4 && header[0] == SOF
    requires |stream| < 4 + DeclaredLength(header) <= 4 + MAX_PAYLOAD
    ensures Delivered([], header + stream) == []
    ensures Held([], header + stream) == header + stream
  {
    hide CrcBytes, Decode, Held, Delivered, Bytes.GetU16;
    var s := header + stream + Fill(4 + DeclaredLength(header) - |stream|, 0);
    assert s[2..4] == header[2..4];
    HeldPrefix(s, 4 + |stream|);
    assert s[..4 + |stream|] == header + stream;
  }

  lemma {:induction false} EmptyFramesLength(frames: seq<Frame>, garbage: seq<seq<byte>>)
    requires |frames| == |garbage|
    requires forall i :: 0 <= i < |frames| ==> frames[i].payload == [] && garbage[i] == []
    ensures |Stream(frames, garbage)| == OVERHEAD * |frames|
  {
    if frames != [] {
      EmptyFramesLength(frames[..|frames| - 1], garbage[..|garbage| - 1]);
    }
  }

  /** A marker, a command and a length of 512, as noise might produce them. */
  const STRAY: seq<byte> := [SOF, 1, 0, 2]

  /**
   "A desynchronised receiver loses at most one frame" does not hold: sixty-four frames that
   would all be delivered to a waiting parser are all lost behind one stray header.
   */
  lemma SixtyFourFramesLost() returns (frames: seq<Frame>, sent: seq<byte>)
    ensures |frames| == 64
    ensures Delivered([], sent) == frames
    ensures Delivered([], STRAY + sent) == []
  {
    hide Delivered, Held, Stream, Bytes.GetU16;
    frames := seq(64, _ => Frame(1, []));
    var garbage: seq<seq<byte>> := seq(64, _ => []);
    sent := Stream(frames, garbage);
    EmptyFramesLength(frames, garbage);
    StreamRoundTrip(frames, garbage);
    assert STRAY[2..4] == [0, 2];
    U16Bytes([0, 2]);
    StrayHeaderSwallows(STRAY, sent);
  }

  // --------------------------------------------------------------- the parser

  /** With the last checksum byte, the incremental comparison is the verdict on the whole frame. */
  lemma LastCrcByte(p: seq<byte>, b: byte, running: word)
    requires Undecided(p) && |p| >= 7 && |p| == 7 + DeclaredLength(p)
    requires running == Crc32.Crc(0, p[1..|p| - 3])
    ensures Verdict(p, b) == if running == Crc32.Assembled((p + [b])[|p| - 3..]) then Complete else Error
    ensures Verdict(p, b) == Complete ==> DeliveredBy(p, b) == [Frame(p[1], p[4..|p| - 3])]
  {
    hide Crc32.Crc, Crc32.PutWord, Crc32.Assembled, Bytes.GetU16;
    var q := p + [b];
    assert q[2..4] == p[2..4] && q[1..|q| - 4] == p[1..|p| - 3] && q[4..|q| - 4] == p[4..|p| - 3];
    Crc32.ReceivedMatches(running, q[|q| - 4..]);
  }

  datatype State = WaitSof | Cmd | Len | Payload | Crc

  /**
   The incremental parser. It keeps a running checksum and a count instead of the bytes; the
   ghost field `held` is what it has really received since the accepted SOF.
   */
  class FrameParser {
    var state: State
    var count: nat
    var runningCrc: word
    var receivedCrc: word
    var cmd: byte
    var len: nat
    const payload: array<byte>
    ghost var held: seq<byte>

    ghost predicate Valid()
      reads this, payload
    {
      && payload.Length == MAX_PAYLOAD
      && Undecided(held)
      && match state
         case WaitSof => held == []
         case Cmd => held == [SOF] && count == 0 && runningCrc == 0 && receivedCrc == 0
         case Len =>
           && |held| == 2 + count && count < 2 && cmd == held[1] && receivedCrc == 0
           && runningCrc == Crc32.Crc(0, held[1..])
           && (count == 1 ==> len == held[2])
         case Payload =>
           && |held| == 4 + count && count < len && Header() && receivedCrc == 0
           && payload[..count] == held[4..]
           && runningCrc == Crc32.Crc(0, held[1..])
         case Crc =>
           && |held| == 4 + len + count && count < 4 && Header()
           && payload[..len] == held[4..4 + len]
           && runningCrc == Crc32.Crc(0, held[1..4 + len])
           && receivedCrc == Crc32.Assembled(held[4 + len..])
    }

    ghost predicate Header()
      reads this
    {
      |held| >= 4 && cmd == held[1] && len == DeclaredLength(held) <= MAX_PAYLOAD
    }

    constructor ()
      ensures Valid() && held == [] && state == WaitSof && fresh(payload)
    {
      state := WaitSof;
      count, receivedCrc, runningCrc, cmd, len := 0, 0, 0, 0, 0;
      payload := new byte[MAX_PAYLOAD](_ => 0);
      held := [];
    }

    method Reset()
      modifies this
      requires payload.Length == MAX_PAYLOAD
      ensures Valid() && held == []
    {
      state := WaitSof;
      count, receivedCrc, runningCrc, len := 0, 0, 0, 0;
      held := [];
    }

    /** `bl_crc32(running_crc, &byte, 1)` */
    method Accumulate(b: byte)
      modifies this`runningCrc
      requires |held| >= 1 && runningCrc == Crc32.Crc(0, held[1..])
      ensures runningCrc == Crc32.Crc(0, (held + [b])[1..])
    {
      hide Crc32.Crc, Bytes.GetU16;
      Crc32.CrcConcat(0, held[1..], [b]);
      assert (held + [b])[1..] == held[1..] + [b];
      runningCrc := Crc32.Compute(runningCrc, [b]);
    }

    /** The state machine decides as the whole-prefix specification does, and delivers its frame. */
    method Feed(b: byte) returns (status: FeedStatus)
      requires Valid()
      modifies this, payload
      ensures Valid()
      ensures status == Verdict(old(held), b)
      ensures held == Next(old(held), b)
      ensures status == Complete ==>
                && len <= MAX_PAYLOAD
                && DeliveredBy(old(held), b) == [Frame(cmd, payload[..len])]
    {
      match state
      case WaitSof => status := FeedSof(b);
      case Cmd => status := FeedCmd(b);
      case Len => status := FeedLen(b);
      case Payload => status := FeedPayload(b);
      case Crc => status := FeedCrc(b);
    }

    method FeedSof(b: byte) returns (status: FeedStatus)
      requires Valid() && state == WaitSof
      modifies this
      ensures Valid() && status == Verdict(old(held), b) == Incomplete && held == Next(old(held), b)
    {
      if b == SOF {
        state := Cmd;
        count, len, runningCrc, receivedCrc := 0, 0, 0, 0;
        held := [b];
      }
      status := Incomplete;
    }

    method FeedCmd(b: byte) returns (status: FeedStatus)
      requires Valid() && state == Cmd
      modifies this
      ensures Valid() && status == Verdict(old(held), b) == Incomplete && held == Next(old(held), b)
    {
      hide Crc32.Crc, Decode, Bytes.GetU16;
      EmptyCrc();
      assert held[1..] == [];
      cmd := b;
      Accumulate(b);
      state := Len;
      held := held + [b];
      status := Incomplete;
    }

    method FeedLen(b: byte) returns (status: FeedStatus)
      requires Valid() && state == Len
      modifies this
      ensures Valid() && status == Verdict(old(held), b) != Complete && held == Next(old(held), b)
    {
      hide Crc32.Crc, Decode, Bytes.GetU16;
      Accumulate(b);
      if count == 0 {
        len := b;
        count := 1;
        held := held + [b];
      } else {
        ghost var q := held + [b];
        assert q[2..4] == [held[2], b];
        U16Bytes(q[2..4]);
        len := len + 256 * b;
        if len > MAX_PAYLOAD {
          Reset();
          return Error;
        }
        count := 0;
        state := if len == 0 then Crc else Payload;
        held := q;
        assert q[1..4 + 0] == q[1..];
      }
      status := Incomplete;
    }

    method FeedPayload(b: byte) returns (status: FeedStatus)
      requires Valid() && state == Payload
      modifies this, payload
      ensures Valid() && status == Verdict(old(held), b) == Incomplete && held == Next(old(held), b)
    {
      hide Crc32.Crc, Decode, Bytes.GetU16;
      Accumulate(b);
      payload[count] := b;
      ghost var q := held + [b];
      assert q[2..4] == held[2..4];
      assert q[4..] == held[4..] + [b];
      count := count + 1;
      held := q;
      assert |q| == 4 + count && payload[..count] == q[4..];
      if count == len {
        state := Crc;
        count := 0;
        assert q[1..4 + len] == q[1..] && q[4..4 + len] == q[4..] && q[4 + len..] == [];
      }
      status := Incomplete;
    }

    method FeedCrc(b: byte) returns (status: FeedStatus)
      requires Valid() && state == Crc
      modifies this
      ensures Valid() && status == Verdict(old(held), b) && held == Next(old(held), b)
      ensures status == Complete ==>
                && len <= MAX_PAYLOAD
                && DeliveredBy(old(held), b) == [Frame(cmd, payload[..len])]
    {
      hide Crc32.Crc, Crc32.Merge, Crc32.Assembled, Decode, DeliveredBy, Bytes.GetU16;
      ghost var q := held + [b];
      assert q[2..4] == held[2..4] && q[1..4 + len] == held[1..4 + len] && q[4..4 + len] == held[4..4 + len];
      assert q[4 + len..] == held[4 + len..] + [b];
      Crc32.AssembledAppend(held[4 + len..], b);
      receivedCrc := Crc32.Merge(receivedCrc, b, count);
      count := count + 1;
      if count < 4 {
        held := q;
        return Incomplete;
      }
      assert |held| - 3 == 4 + len;
      LastCrcByte(held, b, runningCrc);
      if runningCrc == receivedCrc {
        state := WaitSof;
        count := 0;
        held := [];
        status := Complete;
      } else {
        Reset();
        status := Error;
      }
    }
  }

  /** Feed a stream a byte at a time, as the transport loop does, and collect what is delivered. */
  method Receive(parser: FrameParser, stream: seq<byte>) returns (frames: seq<Frame>)
    requires parser.Valid()
    modifies parser, parser.payload
    ensures parser.Valid()
    ensures parser.held == Held(old(parser.held), stream)
    ensures frames == Delivered(old(parser.held), stream)
  {
    hide Next, Verdict, DeliveredBy, Undecided, Bytes.GetU16;
    frames := [];
    ghost var start := parser.held;
    for i := 0 to |stream|
      invariant parser.Valid() && Undecided(start)
      invariant parser.held == Held(start, stream[..i])
      invariant frames == Delivered(start, stream[..i])
    {
      assert stream[..i + 1][..i] == stream[..i];
      ghost var before := parser.held;
      var status := parser.Feed(stream[i]);
      OnlyCompleteDelivers(before, stream[i]);
      if status == Complete {
        frames := frames + [Frame(parser.cmd, parser.payload[..parser.len])];
      }
    }
    assert stream[..|stream|] == stream;
  }

  lemma OnlyCompleteDelivers(p: seq<byte>, b: byte)
    ensures Verdict(p, b) != Complete ==> DeliveredBy(p, b) == []
  {
  }

  lemma EmptyCrc()
    ensures Crc32.Crc(0, []) == 0
  {
  }
}
