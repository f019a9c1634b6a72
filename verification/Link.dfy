/**
 The serial link between host and device. Any request or response may be lost, a flash operation
 may fail, and the device may lose power at any point and restart.
 */
module Link {
  import opened Bytes
  import opened Frame
  import opened Optional
  import opened Flash
  import opened Status
  import opened Meta
  import opened Core
  import opened Answers
  import opened Programming
  import opened Retry

  /**
   What becomes of one attempt. The device may have restarted before the request reached it. If it
   loses power in handling the request or right after, no response follows.
   */
  datatype Attempt =
    | RequestLost
    | ResponseLost(restarted: bool, eraseOk: bool, writeOk: bool)
    | Answered(restarted: bool, eraseOk: bool, writeOk: bool)
    | PowerLost(erase: Fate, write: Fate)
  {
    function Sight(): Sight
      requires !RequestLost?
    {
      if PowerLost? then SightData(false, Fates(erase, write), true)
      else SightData(restarted, Fates(if eraseOk then Done else Failed, if writeOk then Done else Failed), false)
    }

    /** The device neither restarts nor loses power. */
    predicate Steady() {
      RequestLost? || (!PowerLost? && !restarted)
    }

    predicate Flawless() {
      RequestLost? || (!PowerLost? && !restarted && eraseOk && writeOk)
    }
  }

  class Link {
    var device: Device
    var next: nat
    const script: nat -> Attempt

    constructor (device: Device, script: nat -> Attempt)
      ensures this.device == device && this.next == 0 && this.script == script
    {
      this.device := device;
      this.next := 0;
      this.script := script;
    }

    /** Send a frame and wait for the answering frame. */
    method Exchange(cmd: byte, payload: seq<byte>, request: seq<byte>) returns (response: Option<seq<byte>>)
      requires |payload| <= MAX_PAYLOAD && request == Wire(cmd, payload)
      requires !Clobbers(device, cmd, payload)
      modifies this
      ensures next == old(next) + 1
      ensures var now := script(old(next));
              && device == (if now.RequestLost? then old(device) else After(old(device), cmd, payload, now.Sight()))
              && response.Some? == now.Answered?
              && (now.Answered? ==>
                    var reply := Handle(Found(old(device), now.Sight()), cmd, payload, now.Sight().fates);
                    && reply.response.Some? && 1 <= |reply.response.value| <= 21
                    && response == Some(Wire(cmd, reply.response.value)))
    {
      hide Handle, Wire, Delivered, Held;
      var attempt := script(next);
      next := next + 1;
      if attempt.RequestLost? {
        return None;
      }
      FrameDelivered(Frame(cmd, payload));
      var frame := Delivered([], request)[0];
      var now := attempt.Sight();
      var reply := Handle(Found(device, now), frame.cmd, frame.payload, now.fates);
      if attempt.Answered? {
        EveryRequestAnswered(Found(device, now), frame.cmd, frame.payload, now.fates);
        response := Some(Wire(frame.cmd, reply.response.value));
      } else {
        response := None;
      }
      device := if now.lost then Rebooted(reply.device) else reply.device;
    }
  }

  // -------------------------------------------------------------- whole scripts

  /** The device never restarts. */
  ghost predicate Steady(script: nat -> Attempt) {
    forall i: nat :: script(i).Steady()
  }

  /** No run of `retries` consecutive attempts all go unanswered, and flash and power never fail. */
  ghost predicate Reliable(script: nat -> Attempt, retries: nat) {
    && (forall i: nat :: script(i).Flawless())
    && (forall i: nat {:trigger AnsweredWithin(script, i, retries)} :: AnsweredWithin(script, i, retries))
  }

  lemma ReliableSteady(script: nat -> Attempt, retries: nat, from: nat)
    ensures Reliable(script, retries) ==> Steady(script) && AnsweredWithin(script, from, retries)
  {
    forall i: nat | Reliable(script, retries)
      ensures script(i).Steady()
    {
      assert script(i).Flawless();
    }
  }

  ghost predicate AnsweredWithin(script: nat -> Attempt, from: nat, retries: nat) {
    exists j: nat :: from <= j < from + retries && script(j).Answered?
  }

  /** The `n` attempts from `start` all went unanswered. */
  ghost predicate Unanswered(script: nat -> Attempt, start: nat, n: nat) {
    forall j: nat :: start <= j < start + n ==> !script(j).Answered?
  }

  lemma NothingSeen(d: Device, cmd: byte, payload: seq<byte>, script: nat -> Attempt, start: nat)
    ensures Unanswered(script, start, 0) && AllSteady([]) && AllFlawless([]) && Applied(d, cmd, payload, []) == d
  {
  }

  /** One attempt more: unless it is answered, none so far was; it is the first or the first was not. */
  lemma UnansweredNext(script: nat -> Attempt, start: nat, n: nat)
    requires Unanswered(script, start, n)
    ensures !script(start + n).Answered? ==> Unanswered(script, start, n + 1)
    ensures n > 0 ==> !script(start).Answered?
  {
  }

  lemma UnansweredThroughout(script: nat -> Attempt, start: nat, n: nat)
    requires Unanswered(script, start, n)
    ensures !AnsweredWithin(script, start, n)
  {
  }

  lemma AnsweredAt(script: nat -> Attempt, start: nat, retries: nat, j: nat)
    requires start <= j < start + retries && script(j).Answered?
    ensures AnsweredWithin(script, start, retries)
  {
  }

  lemma SeenGrows(script: nat -> Attempt, retries: nat, j: nat, seen: seq<Sight>)
    requires !script(j).RequestLost?
    ensures Steady(script) && AllSteady(seen) ==> AllSteady(seen + [script(j).Sight()])
    ensures Reliable(script, retries) && AllFlawless(seen) ==> AllFlawless(seen + [script(j).Sight()])
  {
    assert Reliable(script, retries) ==> script(j).Flawless();
    assert Steady(script) ==> script(j).Steady();
  }

  /** Repeating the request never programs a byte twice, however often it gets through. */
  ghost predicate SafeToRepeat(d: Device, cmd: byte, payload: seq<byte>) {
    forall seen: seq<Sight> {:trigger Applied(d, cmd, payload, seen)} ::
      !Clobbers(Applied(d, cmd, payload, seen), cmd, payload)
  }

  lemma SafeAgain(d: Device, cmd: byte, payload: seq<byte>, seen: seq<Sight>)
    requires SafeToRepeat(d, cmd, payload)
    ensures !Clobbers(Applied(d, cmd, payload, seen), cmd, payload)
  {
  }

  /** Nothing but a write can program a byte twice. */
  lemma QueriesSafe(d: Device, cmd: byte, payload: seq<byte>)
    requires cmd != WRITE
    ensures SafeToRepeat(d, cmd, payload)
  {
  }

  /** A write that does not either: repeated, it is refused. */
  lemma WriteSafe(d: Device, payload: seq<byte>)
    requires !Clobbers(d, WRITE, payload)
    ensures SafeToRepeat(d, WRITE, payload)
  {
    hide Applied, HandleWrite, Handle, Clobbers, WriteCheck;
    forall seen: seq<Sight>
      ensures !Clobbers(Applied(d, WRITE, payload, seen), WRITE, payload)
    {
      var e := Applied(d, WRITE, payload, seen);
      NotReadyWhenIdle(payload);
      if WriteCheck(d.session, payload) == Ok {
        WriteConfined(d, payload, seen);
        if AllSteady(seen) {
          WriteApplied(d, payload, seen);
          WriteAgain(d, payload, FLAWLESS.fates);
        }
      } else {
        WriteRefused(d, payload, seen);
      }
      if e != d {
        UnreadyClobbersNothing(e, payload);
      }
    }
  }

  lemma UnreadyClobbersNothing(d: Device, payload: seq<byte>)
    requires WriteCheck(d.session, payload) != Ok
    ensures !Clobbers(d, WRITE, payload)
  {
    hide WriteCheck;
  }
}
