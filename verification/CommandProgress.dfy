// The other half of a command's promise: what was sent for it reaches it, and it
// stops.
module CommandProgress {
  import opened Words
  import opened Transport
  import opened SessionCore
  import opened SessionRuns
  import opened CommandReplies
  import Protocol

  // How many matching messages were stored since the command began.
  function Arrived(log: seq<Protocol.Inner>, mark: nat, k: Kind): int
    requires mark <= |log|
  {
    Count(log, k) - Count(log[..mark], k)
  }

  lemma {:induction false} CountGrows(log: seq<Protocol.Inner>, mark: nat, k: Kind)
    requires mark <= |log|
    ensures Count(log[..mark], k) <= Count(log, k)
    decreases |log|
  {
    if mark < |log| {
      assert log[..|log| - 1][..mark] == log[..mark];
      CountGrows(log[..|log| - 1], mark, k);
    } else {
      assert log[..mark] == log;
    }
  }

  const WRAP: int := 0x1_0000_0000_0000_0000

  lemma SameResidue(a: nat, b: nat)
    requires b <= a
    ensures WrapU64(a) == WrapU64(b) <==> (a - b) % WRAP == 0
  {
    var k, l := a / WRAP, b / WRAP;
    assert a == WRAP * k + a % WRAP && b == WRAP * l + b % WRAP;
    if (a - b) % WRAP == 0 {
      var m := (a - b) / WRAP;
      assert a % WRAP - b % WRAP == WRAP * (m - k + l);
    }
  }

  // A woken command sees the acknowledgements stored since it began, exactly
  // unless their number is a multiple of 2^64.
  lemma AckSeen(w: World, t: Thread)
    requires |w.core.acks| == |w.core.responses| == SLOTS && TablesOk(w.core, w.log) && BaselinesOk(w.log, t)
    ensures var k := AckFor(t.command.Target());
            w.core.acks[t.command.Target()].sequence != t.ackBaseline <==> Arrived(w.log, t.mark, k) % WRAP != 0
  {
    var slot := t.command.Target();
    assert EntryOk(w.core, w.log, slot);
    CountGrows(w.log, t.mark, AckFor(slot));
    SameResidue(Count(w.log, AckFor(slot)), Count(w.log[..t.mark], AckFor(slot)));
  }

  lemma ResponseSeen(w: World, t: Thread)
    requires |w.core.acks| == |w.core.responses| == SLOTS && TablesOk(w.core, w.log) && BaselinesOk(w.log, t)
    ensures var k := ResponseFor(t.command.Target());
            w.core.responses[t.command.Target()].sequence != t.responseBaseline <==>
                Arrived(w.log, t.mark, k) % WRAP != 0
  {
    var slot := t.command.Target();
    assert EntryOk(w.core, w.log, slot);
    CountGrows(w.log, t.mark, ResponseFor(slot));
    SameResidue(Count(w.log, ResponseFor(slot)), Count(w.log[..t.mark], ResponseFor(slot)));
  }

  // ---------- a message for the command ----------

  // A frame that carries a message built for a command; what follows the
  // message does not matter.
  ghost predicate Carries(f: Frame, cmd0: u8, cmd1: u8, data: seq<u8>) {
    && cmd0 < 16 && cmd1 < 8 && |data| <= Protocol.MAX_DATA && f.Family() != TLS
    && exists waitForAck, tail :: IsBuilt(f.payload, cmd0, cmd1, waitForAck, data, tail)
  }

  ghost predicate IsBuilt(payload: seq<u8>, cmd0: u8, cmd1: u8, waitForAck: bool, data: seq<u8>, tail: seq<u8>)
    requires cmd0 < 16 && cmd1 < 8 && |data| <= Protocol.MAX_DATA
  {
    payload == Protocol.Encode(Protocol.CommandByte(cmd0, cmd1, waitForAck), data) + tail
  }

  lemma CarriedMessage(f: Frame, cmd0: u8, cmd1: u8, data: seq<u8>)
    requires Carries(f, cmd0, cmd1, data)
    ensures MessageOf(f).Some? && MessageOf(f).value.data == data
    ensures var m := MessageOf(f).value;
            (IsAck(m) <==> cmd0 == 0xb && cmd1 == 0 && |data| >= 1) && ResponseSlot(m) == Slot(cmd0, cmd1)
  {
    var waitForAck, tail :| IsBuilt(f.payload, cmd0, cmd1, waitForAck, data, tail);
    BuiltMessageGoes(cmd0, cmd1, waitForAck, data, tail);
  }

  // The acknowledgement of a command: the byte of the command, then flags.
  ghost predicate Acknowledges(f: Frame, c: Command, flags: u8)
    requires c.InRange()
  {
    exists waitForAck :: AckData(f, c, waitForAck, flags)
  }

  ghost predicate AckData(f: Frame, c: Command, waitForAck: bool, flags: u8)
    requires c.InRange()
  {
    Carries(f, 0xb, 0, [Protocol.CommandByte(c.cmd0, c.cmd1, waitForAck), flags])
  }

  lemma AckStored(f: Frame, c: Command, flags: u8)
    requires c.InRange() && Acknowledges(f, c, flags)
    ensures MessageOf(f).Some? && Hits(AckFor(c.Target()), MessageOf(f).value) && FlagsOf(MessageOf(f).value) == flags
  {
    var waitForAck :| AckData(f, c, waitForAck, flags);
    CarriedMessage(f, 0xb, 0, [Protocol.CommandByte(c.cmd0, c.cmd1, waitForAck), flags]);
    AckGoesToCommand(MessageOf(f).value, c.cmd0, c.cmd1, waitForAck);
  }

  // The response to a command; only (0xb, 0) with data would be taken for an
  // acknowledgement.
  ghost predicate Answers(f: Frame, c: Command, data: seq<u8>)
    requires c.InRange()
  {
    Carries(f, c.cmd0, c.cmd1, data) && !(c.cmd0 == 0xb && c.cmd1 == 0 && data != [])
  }

  lemma ResponseStored(f: Frame, c: Command, data: seq<u8>)
    requires c.InRange() && Answers(f, c, data)
    ensures MessageOf(f).Some? && Hits(ResponseFor(c.Target()), MessageOf(f).value) && MessageOf(f).value.data == data
  {
    CarriedMessage(f, c.cmd0, c.cmd1, data);
  }

  // ---------- taking it ----------

  lemma {:induction false} OneMoreArrived(log: seq<Protocol.Inner>, mark: nat, k: Kind, m: Protocol.Inner)
    requires mark <= |log| && Hits(k, m)
    ensures Arrived(log + [m], mark, k) == Arrived(log, mark, k) + 1
    ensures Last(log + [m], k) == |log|
  {
    LogStep(log, m, k);
    assert (log + [m])[..mark] == log[..mark];
  }

  // What a received message leaves in the world.
  lemma Received(w: World, f: Frame)
    requires |w.core.acks| == |w.core.responses| == SLOTS && WorldOk(w) && MessageOf(f).Some?
    ensures var w' := Step(w, Receive(f));
            WorldOk(w') && w'.threads == w.threads && w'.log == w.log + [MessageOf(f).value]
  {
    ReceiveOk(w, f);
  }

  // The acknowledgement's flags are in hand at the next wake-up.
  lemma FreshAckTaken(w: World, t: Thread, slot: nat, flags: u8, wait: Wait)
    requires |w.core.acks| == |w.core.responses| == SLOTS && TablesOk(w.core, w.log) && BaselinesOk(w.log, t)
    requires slot == t.command.Target() && t.phase.AwaitingAck? && !wait.WaitFailed?
    requires Arrived(w.log, t.mark, AckFor(slot)) % WRAP != 0
    requires Last(w.log, AckFor(slot)) >= 0 && FlagsOf(w.log[Last(w.log, AckFor(slot))]) == flags
    ensures AfterAck(t, w.core.acks[slot], w.receiverError, wait)
         == t.(reply := t.reply.(ackFlags := Some(flags)),
               phase := if t.command.expectResponse then AwaitingResponse else Finished(Success))
  {
    AckSeen(w, t);
    assert EntryOk(w.core, w.log, slot);
  }

  lemma FreshResponseTaken(w: World, t: Thread, slot: nat, data: seq<u8>, wait: Wait)
    requires |w.core.acks| == |w.core.responses| == SLOTS && TablesOk(w.core, w.log) && BaselinesOk(w.log, t)
    requires slot == t.command.Target() && (t.phase.AwaitingResponse? || t.phase.AwaitingLateResponse?)
             && !wait.WaitFailed?
    requires Arrived(w.log, t.mark, ResponseFor(slot)) % WRAP != 0
    requires Last(w.log, ResponseFor(slot)) >= 0 && w.log[Last(w.log, ResponseFor(slot))].data == data
    ensures AfterResponse(t, w.core.responses[slot], w.receiverError, wait)
         == t.(reply := t.reply.(response := Some(Truncated(data, RESPONSE_CAPACITY))), phase := Finished(Success))
  {
    ResponseSeen(w, t);
    assert EntryOk(w.core, w.log, slot);
  }

  // A command waiting for its acknowledgement that wakes after one was received
  // for it has the flags in hand and goes on, in every state a run can reach
  // and whatever happened to the receiver; only 2^64 acknowledgements in one
  // wait could hide it.
  lemma AckIsTaken(w: World, id: nat, f: Frame, flags: u8, wait: Wait)
    requires |w.core.acks| == |w.core.responses| == SLOTS && WorldOk(w) && id in w.threads
    requires w.threads[id].phase.AwaitingAck? && w.threads[id].command.InRange() && !wait.WaitFailed?
    requires Acknowledges(f, w.threads[id].command, flags)
    requires w.threads[id].mark <= |w.log|
    requires (Arrived(w.log, w.threads[id].mark, AckFor(w.threads[id].command.Target())) + 1) % WRAP != 0
    ensures var t := w.threads[id];
            Step(Step(w, Receive(f)), Wake(id, wait)).threads
              == w.threads[id := t.(reply := t.reply.(ackFlags := Some(flags)),
                                    phase := if t.command.expectResponse then AwaitingResponse else Finished(Success))]
  {
    var t := w.threads[id];
    var slot := t.command.Target();
    AckStored(f, t.command, flags);
    Received(w, f);
    OneMoreArrived(w.log, t.mark, AckFor(slot), MessageOf(f).value);
    FreshAckTaken(Step(w, Receive(f)), t, slot, flags, wait);
  }

  // The same for the response.
  lemma ResponseIsTaken(w: World, id: nat, f: Frame, data: seq<u8>, wait: Wait)
    requires |w.core.acks| == |w.core.responses| == SLOTS && WorldOk(w) && id in w.threads
    requires w.threads[id].phase.AwaitingResponse? || w.threads[id].phase.AwaitingLateResponse?
    requires w.threads[id].command.InRange() && !wait.WaitFailed? && Answers(f, w.threads[id].command, data)
    requires w.threads[id].mark <= |w.log|
    requires (Arrived(w.log, w.threads[id].mark, ResponseFor(w.threads[id].command.Target())) + 1) % WRAP != 0
    ensures var t := w.threads[id];
            Step(Step(w, Receive(f)), Wake(id, wait)).threads
              == w.threads[id := t.(reply := t.reply.(response := Some(Truncated(data, RESPONSE_CAPACITY))),
                                    phase := Finished(Success))]
  {
    var t := w.threads[id];
    var slot := t.command.Target();
    ResponseStored(f, t.command, data);
    Received(w, f);
    OneMoreArrived(w.log, t.mark, ResponseFor(slot), MessageOf(f).value);
    FreshResponseTaken(Step(w, Receive(f)), t, slot, data, wait);
  }

  // A wait that ends with nothing arrived reports the receiver's error or, at
  // its deadline, a timeout; then a late response is looked for if one was
  // expected, and otherwise the next attempt is made.
  lemma AckMissed(w: World, t: Thread, slot: nat, wait: Wait)
    requires |w.core.acks| == |w.core.responses| == SLOTS && TablesOk(w.core, w.log) && BaselinesOk(w.log, t)
    requires slot == t.command.Target() && t.phase.AwaitingAck? && !wait.WaitFailed?
    requires Arrived(w.log, t.mark, AckFor(slot)) % WRAP == 0
    ensures var t' := AfterAck(t, w.core.acks[slot], w.receiverError, wait);
            if w.receiverError == Success && wait.Woken? then t' == t
            else
              var e := if w.receiverError != Success then w.receiverError else Timeout;
              t' == if t.command.expectResponse then t.(lastError := e, phase := AwaitingLateResponse) else Retry(t, e)
  {
    AckSeen(w, t);
  }

  // ---------- a whole exchange ----------

  lemma NothingArrived(log: seq<Protocol.Inner>, k: Kind)
    ensures Arrived(log, |log|, k) == 0
  {
    assert log[..|log|] == log;
  }

  ghost predicate Ordinary(c: Command) {
    c.InRange() && |c.payload| <= MAX_INNER_DATA && c.waitForAck && c.expectResponse
  }

  lemma SentAwaitsAck(w: World, id: nat, c: Command)
    requires |w.core.acks| == |w.core.responses| == SLOTS && WorldOk(w) && id !in w.threads && Ordinary(c)
    ensures var w' := Both(w, Start(id, c), Sent(id, Success));
            && WorldOk(w') && w'.log == w.log && id in w'.threads
            && w'.threads[id] == Begin(w, c).(phase := AwaitingAck)
  {
    StepOk(w, Start(id, c));
    StepOk(Step(w, Start(id, c)), Sent(id, Success));
  }

  // The acknowledgement arrives and is seen.
  lemma AckStep(w: World, id: nat, c: Command, f: Frame, flags: u8)
    requires |w.core.acks| == |w.core.responses| == SLOTS && WorldOk(w) && id in w.threads && Ordinary(c)
    requires w.threads[id].phase.AwaitingAck? && w.threads[id].command == c && w.threads[id].mark == |w.log|
    requires Acknowledges(f, c, flags)
    ensures var w' := Both(w, Receive(f), Wake(id, Woken));
            && WorldOk(w') && id in w'.threads && w'.threads[id].mark == |w.log| <= |w'.log|
            && Arrived(w'.log, |w.log|, ResponseFor(c.Target())) == 0
            && w'.threads[id]
               == w.threads[id].(reply := w.threads[id].reply.(ackFlags := Some(flags)), phase := AwaitingResponse)
  {
    NothingArrived(w.log, AckFor(c.Target()));
    NothingArrived(w.log, ResponseFor(c.Target()));
    AckIsTaken(w, id, f, flags, Woken);
    AckStored(f, c, flags);
    Received(w, f);
    StepOk(Step(w, Receive(f)), Wake(id, Woken));
    LogStep(w.log, MessageOf(f).value, ResponseFor(c.Target()));
    assert (w.log + [MessageOf(f).value])[..|w.log|] == w.log;
  }

  // Two actions at the end of a run.
  function Both(w: World, a: Action, b: Action): (w': World)
    requires |w.core.acks| == |w.core.responses| == SLOTS
    ensures |w'.core.acks| == |w'.core.responses| == SLOTS
  {
    Step(Step(w, a), b)
  }

  lemma {:induction false} TwoMore(actions: seq<Action>, a: Action, b: Action)
    ensures Run(actions + [a, b]) == Both(Run(actions), a, b)
  {
    OneMore(actions, a);
    OneMore(actions + [a], b);
    assert actions + [a, b] == actions + [a] + [b];
  }

  lemma {:induction false} OneMore(actions: seq<Action>, a: Action)
    ensures Run(actions + [a]) == Step(Run(actions), a)
  {
    assert (actions + [a])[..|actions|] == actions;
  }

  // Begin and send, acknowledgement, response.
  function Exchange(id: nat, c: Command, f: Frame, g: Frame): seq<Action> {
    [Start(id, c), Sent(id, Success)] + [Receive(f), Wake(id, Woken)] + [Receive(g), Wake(id, Woken)]
  }

  lemma {:induction false} ExchangeRuns(actions: seq<Action>, id: nat, c: Command, f: Frame, g: Frame)
    ensures Run(actions + Exchange(id, c, f, g))
         == Both(Both(Both(Run(actions), Start(id, c), Sent(id, Success)), Receive(f), Wake(id, Woken)),
                 Receive(g), Wake(id, Woken))
  {
    var first := actions + [Start(id, c), Sent(id, Success)];
    var second := first + [Receive(f), Wake(id, Woken)];
    TwoMore(actions, Start(id, c), Sent(id, Success));
    TwoMore(first, Receive(f), Wake(id, Woken));
    TwoMore(second, Receive(g), Wake(id, Woken));
    assert actions + Exchange(id, c, f, g) == second + [Receive(g), Wake(id, Woken)];
  }

  lemma ExchangeSucceeds(w: World, id: nat, c: Command, f: Frame, flags: u8, g: Frame, data: seq<u8>)
    requires |w.core.acks| == |w.core.responses| == SLOTS && WorldOk(w) && id !in w.threads
    requires Ordinary(c) && Acknowledges(f, c, flags) && Answers(g, c, data)
    ensures var w' := Both(Both(Both(w, Start(id, c), Sent(id, Success)), Receive(f), Wake(id, Woken)),
                           Receive(g), Wake(id, Woken));
            && id in w'.threads && w'.threads[id].phase == Finished(Success)
            && w'.threads[id].reply == Reply(Some(flags), Some(Truncated(data, RESPONSE_CAPACITY)))
  {
    SentAwaitsAck(w, id, c);
    var w1 := Both(w, Start(id, c), Sent(id, Success));
    AckStep(w1, id, c, f, flags);
    ResponseStep(Both(w1, Receive(f), Wake(id, Woken)), id, c, g, data);
  }

  // The response arrives and is seen.
  lemma ResponseStep(w: World, id: nat, c: Command, g: Frame, data: seq<u8>)
    requires |w.core.acks| == |w.core.responses| == SLOTS && WorldOk(w) && id in w.threads && c.InRange()
    requires w.threads[id].phase.AwaitingResponse? && w.threads[id].command == c && w.threads[id].mark <= |w.log|
    requires Arrived(w.log, w.threads[id].mark, ResponseFor(c.Target())) == 0 && Answers(g, c, data)
    ensures var t := w.threads[id];
            Both(w, Receive(g), Wake(id, Woken)).threads
              == w.threads[id := t.(reply := t.reply.(response := Some(Truncated(data, RESPONSE_CAPACITY))),
                                    phase := Finished(Success))]
  {
    ResponseIsTaken(w, id, g, data, Woken);
  }

  // From any state a run can reach, a command whose send succeeds, whose
  // acknowledgement and whose response arrive, succeeds and hands out the flags
  // and the data that were sent to it.
  lemma {:induction false} CommandSucceeds(actions: seq<Action>, id: nat, c: Command, f: Frame, flags: u8, g: Frame,
                                           data: seq<u8>)
    requires id !in Run(actions).threads && Ordinary(c) && Acknowledges(f, c, flags) && Answers(g, c, data)
    ensures var w := Run(actions + Exchange(id, c, f, g));
            && id in w.threads && w.threads[id].phase == Finished(Success)
            && w.threads[id].reply == Reply(Some(flags), Some(Truncated(data, RESPONSE_CAPACITY)))
  {
    RunOk(actions);
    ExchangeRuns(actions, id, c, f, g);
    ExchangeSucceeds(Run(actions), id, c, f, flags, g, data);
  }

  // ---------- giving up ----------

  // A thread after some sends with the given results.
  function AfterSends(t: Thread, results: seq<Status>): Thread {
    if results == [] then t else AfterSend(AfterSends(t, results[..|results| - 1]), results[|results| - 1])
  }

  // A command whose sends all fail tries exactly as often as it was told to and
  // reports the last failure.
  lemma {:induction false} FailingSends(t: Thread, results: seq<Status>)
    requires t.phase.Sending? && t.attempt == 1 && 0 < t.command.maxAttempts < 0xffff_ffff
    requires |results| <= t.command.maxAttempts && forall r :: r in results ==> r != Success
    ensures var t' := AfterSends(t, results);
            && t'.command == t.command
            && (|results| < t.command.maxAttempts ==> t'.phase.Sending? && t'.attempt == 1 + |results|)
            && (|results| == t.command.maxAttempts ==> t'.phase == Finished(results[|results| - 1]))
    decreases |results|
  {
    if results != [] {
      var n := |results| - 1;
      assert forall r :: r in results[..n] ==> r in results;
      FailingSends(t, results[..n]);
      assert results[n] in results;
    }
  }
}
