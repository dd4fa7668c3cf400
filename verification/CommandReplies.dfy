// A command never reports a reply that was stored before it began, over every
// run and in spite of sequence numbers that wrap.
module CommandReplies {
  import opened Words
  import opened Transport
  import opened SessionCore
  import opened SessionRuns
  import Protocol

  datatype Kind = AckFor(slot: nat) | ResponseFor(slot: nat)

  predicate Hits(k: Kind, m: Protocol.Inner) {
    match k
    case AckFor(slot) => IsAck(m) && AckSlot(m) == slot
    case ResponseFor(slot) => !IsAck(m) && ResponseSlot(m) == slot
  }

  // How many messages of a kind were ever stored, and the position of the last.
  function Count(log: seq<Protocol.Inner>, k: Kind): nat {
    if log == [] then 0
    else Count(log[..|log| - 1], k) + if Hits(k, log[|log| - 1]) then 1 else 0
  }

  function Last(log: seq<Protocol.Inner>, k: Kind): (i: int)
    ensures -1 <= i < |log|
    ensures i >= 0 ==> Hits(k, log[i])
  {
    if log == [] then -1
    else if Hits(k, log[|log| - 1]) then |log| - 1
    else Last(log[..|log| - 1], k)
  }

  function FlagsOf(m: Protocol.Inner): u8 { if |m.data| >= 2 then m.data[1] else 0 }

  // Each table entry counts its messages modulo 2^64 and holds the last one.
  ghost predicate AckEntryOk(a: Ack, log: seq<Protocol.Inner>, slot: nat) {
    var i := Last(log, AckFor(slot));
    a.sequence == WrapU64(Count(log, AckFor(slot))) && (i >= 0 ==> a.flags == FlagsOf(log[i]))
  }

  ghost predicate ResponseEntryOk(r: Response, log: seq<Protocol.Inner>, slot: nat) {
    var i := Last(log, ResponseFor(slot));
    && r.sequence == WrapU64(Count(log, ResponseFor(slot)))
    && (i >= 0 ==> r.data == Truncated(log[i].data, RESPONSE_CAPACITY))
  }

  ghost predicate EntryOk(c: Core, log: seq<Protocol.Inner>, slot: nat)
    requires |c.acks| == |c.responses| == SLOTS && slot < SLOTS
  {
    AckEntryOk(c.acks[slot], log, slot) && ResponseEntryOk(c.responses[slot], log, slot)
  }

  ghost predicate TablesOk(c: Core, log: seq<Protocol.Inner>)
    requires |c.acks| == |c.responses| == SLOTS
  {
    forall slot :: 0 <= slot < SLOTS ==> EntryOk(c, log, slot)
  }

  lemma {:induction false} LogStep(log: seq<Protocol.Inner>, m: Protocol.Inner, k: Kind)
    ensures Count(log + [m], k) == Count(log, k) + if Hits(k, m) then 1 else 0
    ensures Last(log + [m], k) == if Hits(k, m) then |log| else Last(log, k)
  {
    assert (log + [m])[..|log|] == log;
  }

  lemma SequenceStep(n: nat)
    ensures WrapU64(WrapU64(n) + 1) == WrapU64(n + 1)
  {
  }

  lemma StoreAt(c: Core, m: Protocol.Inner, slot: nat)
    requires |c.acks| == |c.responses| == SLOTS && slot < SLOTS
    ensures Store(c, m).acks[slot] == if Hits(AckFor(slot), m) then NewAck(c.acks[slot], m) else c.acks[slot]
    ensures Store(c, m).responses[slot]
         == if Hits(ResponseFor(slot), m) then NewResponse(c.responses[slot], m) else c.responses[slot]
  {
  }

  lemma AckEntryStep(a: Ack, log: seq<Protocol.Inner>, m: Protocol.Inner, slot: nat)
    requires AckEntryOk(a, log, slot)
    ensures AckEntryOk(if Hits(AckFor(slot), m) then NewAck(a, m) else a, log + [m], slot)
  {
    LogStep(log, m, AckFor(slot));
    SequenceStep(Count(log, AckFor(slot)));
    assert (log + [m])[|log|] == m;
  }

  lemma ResponseEntryStep(r: Response, log: seq<Protocol.Inner>, m: Protocol.Inner, slot: nat)
    requires ResponseEntryOk(r, log, slot)
    ensures ResponseEntryOk(if Hits(ResponseFor(slot), m) then NewResponse(r, m) else r, log + [m], slot)
  {
    LogStep(log, m, ResponseFor(slot));
    SequenceStep(Count(log, ResponseFor(slot)));
    assert (log + [m])[|log|] == m;
  }

  lemma StoreEntry(c: Core, log: seq<Protocol.Inner>, m: Protocol.Inner, slot: nat)
    requires |c.acks| == |c.responses| == SLOTS && slot < SLOTS && EntryOk(c, log, slot)
    ensures EntryOk(Store(c, m), log + [m], slot)
  {
    AckEntryStep(c.acks[slot], log, m, slot);
    ResponseEntryStep(c.responses[slot], log, m, slot);
    StoreAt(c, m, slot);
  }

  lemma DispatchTables(c: Core, f: Frame)
    requires |c.acks| == |c.responses| == SLOTS
    ensures MessageOf(f).None? ==> Dispatch(c, f).acks == c.acks && Dispatch(c, f).responses == c.responses
    ensures MessageOf(f).Some? ==>
              var c' := Store(c, MessageOf(f).value);
              Dispatch(c, f).acks == c'.acks && Dispatch(c, f).responses == c'.responses
  {
  }

  // More stores than at the mark mean a store after the mark.
  lemma {:induction false} CountMoved(log: seq<Protocol.Inner>, mark: nat, k: Kind)
    requires mark <= |log|
    requires Count(log, k) != Count(log[..mark], k)
    ensures mark <= Last(log, k)
    decreases |log|
  {
    var n := |log| - 1;
    assert log[..|log|] == log;
    if mark < |log| && !Hits(k, log[n]) {
      assert log[..n][..mark] == log[..mark];
      CountMoved(log[..n], mark, k);
    }
  }

  // A value reported as acknowledgement flags or as a response was carried by
  // a matching message stored at or after the mark.
  ghost predicate FreshAck(log: seq<Protocol.Inner>, t: Thread, flags: u8) {
    t.command.InRange() &&
    exists i :: t.mark <= i < |log| && Hits(AckFor(t.command.Target()), log[i]) && flags == FlagsOf(log[i])
  }

  ghost predicate FreshResponse(log: seq<Protocol.Inner>, t: Thread, response: seq<u8>) {
    t.command.InRange() &&
    exists i :: t.mark <= i < |log| && Hits(ResponseFor(t.command.Target()), log[i]) &&
      response == Truncated(log[i].data, RESPONSE_CAPACITY)
  }

  ghost predicate BaselinesOk(log: seq<Protocol.Inner>, t: Thread) {
    && t.command.InRange() && t.mark <= |log|
    && t.ackBaseline == WrapU64(Count(log[..t.mark], AckFor(t.command.Target())))
    && t.responseBaseline == WrapU64(Count(log[..t.mark], ResponseFor(t.command.Target())))
  }

  // What a finished command has in hand.
  ghost predicate OutcomeOk(t: Thread) {
    t.phase == Finished(Success) ==>
      && (t.command.expectResponse ==> t.reply.response.Some?)
      && (t.command.waitForAck ==> t.reply.ackFlags.Some? || t.reply.response.Some?)
  }

  ghost predicate ReplyFresh(log: seq<Protocol.Inner>, t: Thread) {
    && (t.reply.ackFlags.Some? ==> FreshAck(log, t, t.reply.ackFlags.value))
    && (t.reply.response.Some? ==> FreshResponse(log, t, t.reply.response.value))
  }

  ghost predicate PhaseOk(t: Thread) {
    && OutcomeOk(t)
    && (t.phase.AwaitingLateResponse? ==> t.lastError != Success)
    && (t.phase.AwaitingResponse? && t.command.waitForAck ==> t.reply.ackFlags.Some?)
  }

  ghost predicate ThreadOk(log: seq<Protocol.Inner>, t: Thread) {
    (t.phase.Finished? || BaselinesOk(log, t)) && PhaseOk(t) && ReplyFresh(log, t)
  }

  ghost predicate WorldOk(w: World)
    requires |w.core.acks| == |w.core.responses| == SLOTS
  {
    && TablesOk(w.core, w.log)
    && forall id :: id in w.threads ==> ThreadOk(w.log, w.threads[id])
  }

  lemma ThreadOkLater(log: seq<Protocol.Inner>, m: Protocol.Inner, t: Thread)
    requires ThreadOk(log, t)
    ensures ThreadOk(log + [m], t)
  {
    assert t.mark <= |log| ==> (log + [m])[..t.mark] == log[..t.mark];
    if t.reply.ackFlags.Some? {
      var i :| t.mark <= i < |log| && Hits(AckFor(t.command.Target()), log[i])
        && t.reply.ackFlags.value == FlagsOf(log[i]);
      assert (log + [m])[i] == log[i];
    }
    if t.reply.response.Some? {
      var i :| t.mark <= i < |log| && Hits(ResponseFor(t.command.Target()), log[i]) &&
        t.reply.response.value == Truncated(log[i].data, RESPONSE_CAPACITY);
      assert (log + [m])[i] == log[i];
    }
  }

  lemma BeginOk(w: World, c: Command)
    requires |w.core.acks| == |w.core.responses| == SLOTS && TablesOk(w.core, w.log)
    ensures ThreadOk(w.log, Begin(w, c))
  {
    assert w.log[..|w.log|] == w.log;
    if c.InRange() {
      assert EntryOk(w.core, w.log, c.Target());
    }
  }

  // An acknowledgement wait that succeeds has seen a fresh acknowledgement.
  lemma AckIsFresh(w: World, t: Thread)
    requires |w.core.acks| == |w.core.responses| == SLOTS && TablesOk(w.core, w.log) && BaselinesOk(w.log, t)
    requires w.core.acks[t.command.Target()].sequence != t.ackBaseline
    ensures FreshAck(w.log, t, w.core.acks[t.command.Target()].flags)
  {
    var slot := t.command.Target();
    assert EntryOk(w.core, w.log, slot);
    CountMoved(w.log, t.mark, AckFor(slot));
    var i := Last(w.log, AckFor(slot));
    assert Hits(AckFor(slot), w.log[i]);
  }

  lemma ResponseIsFresh(w: World, t: Thread)
    requires |w.core.acks| == |w.core.responses| == SLOTS && TablesOk(w.core, w.log) && BaselinesOk(w.log, t)
    requires w.core.responses[t.command.Target()].sequence != t.responseBaseline
    ensures FreshResponse(w.log, t, w.core.responses[t.command.Target()].data)
  {
    var slot := t.command.Target();
    assert EntryOk(w.core, w.log, slot);
    CountMoved(w.log, t.mark, ResponseFor(slot));
    var i := Last(w.log, ResponseFor(slot));
    assert Hits(ResponseFor(slot), w.log[i]);
  }

  lemma AfterAckOk(w: World, t: Thread, wait: Wait)
    requires |w.core.acks| == |w.core.responses| == SLOTS && TablesOk(w.core, w.log)
    requires ThreadOk(w.log, t) && t.phase.AwaitingAck?
    ensures ThreadOk(w.log, AfterAck(t, w.core.acks[t.command.Target()], w.receiverError, wait))
  {
    if w.core.acks[t.command.Target()].sequence != t.ackBaseline {
      AckIsFresh(w, t);
    }
  }

  lemma AfterResponseOk(w: World, t: Thread, wait: Wait)
    requires |w.core.acks| == |w.core.responses| == SLOTS && TablesOk(w.core, w.log)
    requires ThreadOk(w.log, t) && (t.phase.AwaitingResponse? || t.phase.AwaitingLateResponse?)
    ensures ThreadOk(w.log, AfterResponse(t, w.core.responses[t.command.Target()], w.receiverError, wait))
  {
    if w.core.responses[t.command.Target()].sequence != t.responseBaseline {
      ResponseIsFresh(w, t);
    }
  }

  lemma ThreadStepOk(w: World, t: Thread, a: Action)
    requires |w.core.acks| == |w.core.responses| == SLOTS && TablesOk(w.core, w.log) && ThreadOk(w.log, t)
    ensures ThreadOk(w.log, ThreadStep(w, t, a))
  {
    if t.command.InRange() {
      if a.Wake? && t.phase.AwaitingAck? {
        AfterAckOk(w, t, a.wait);
      } else if a.Wake? && (t.phase.AwaitingResponse? || t.phase.AwaitingLateResponse?) {
        AfterResponseOk(w, t, a.wait);
      }
    }
  }

  lemma ReceiveOk(w: World, f: Frame)
    requires |w.core.acks| == |w.core.responses| == SLOTS && WorldOk(w)
    ensures WorldOk(Step(w, Receive(f)))
  {
    DispatchTables(w.core, f);
    var w' := Step(w, Receive(f));
    forall slot | 0 <= slot < SLOTS
      ensures EntryOk(w'.core, w'.log, slot)
    {
      assert EntryOk(w.core, w.log, slot);
      if MessageOf(f).Some? { StoreEntry(w.core, w.log, MessageOf(f).value, slot); }
    }
    forall id | id in w'.threads
      ensures ThreadOk(w'.log, w'.threads[id])
    {
      if MessageOf(f).Some? { ThreadOkLater(w.log, MessageOf(f).value, w.threads[id]); }
    }
  }

  lemma SameTables(c: Core, c': Core, log: seq<Protocol.Inner>)
    requires |c.acks| == |c.responses| == SLOTS && TablesOk(c, log)
    requires c'.acks == c.acks && c'.responses == c.responses
    ensures TablesOk(c', log)
  {
    forall slot | 0 <= slot < SLOTS ensures EntryOk(c', log, slot) { assert EntryOk(c, log, slot); }
  }

  lemma StepOk(w: World, a: Action)
    requires |w.core.acks| == |w.core.responses| == SLOTS && WorldOk(w)
    ensures WorldOk(Step(w, a))
  {
    if a.Receive? {
      ReceiveOk(w, a.frame);
    } else {
      SameTables(w.core, Step(w, a).core, w.log);
      if a.Start? {
        BeginOk(w, a.command);
      } else if (a.Sent? || a.Wake?) && a.id in w.threads {
        ThreadStepOk(w, w.threads[a.id], a);
      }
    }
  }

  lemma InitialOk()
    ensures WorldOk(Initial())
  {
    forall slot | 0 <= slot < SLOTS ensures EntryOk(Initial().core, [], slot) {
      assert Count([], AckFor(slot)) == 0 && Count([], ResponseFor(slot)) == 0;
    }
  }

  lemma {:induction false} RunOk(actions: seq<Action>)
    ensures WorldOk(Run(actions))
    decreases |actions|
  {
    if actions == [] {
      InitialOk();
    } else {
      RunOk(actions[..|actions| - 1]);
      StepOk(Run(actions[..|actions| - 1]), actions[|actions| - 1]);
    }
  }

  // Where a running command was started: its mark is the log length then.
  ghost predicate StartedAt(actions: seq<Action>, i: nat, id: nat, t: Thread) {
    && i < |actions| && actions[i] == Start(id, t.command)
    && t.mark == |Run(actions[..i]).log|
  }

  lemma ThreadKeepsStart(w: World, t: Thread, a: Action)
    requires |w.core.acks| == |w.core.responses| == SLOTS
    ensures ThreadStep(w, t, a).command == t.command && ThreadStep(w, t, a).mark == t.mark
  {
  }

  lemma StartOfThread(actions: seq<Action>, id: nat) returns (i: nat)
    requires id in Run(actions).threads
    ensures StartedAt(actions, i, id, Run(actions).threads[id])
    decreases |actions|
  {
    var n := |actions| - 1;
    var before, a := actions[..n], actions[n];
    assert Run(actions) == Step(Run(before), a);
    StepKeepsThread(Run(before), a, id);
    if id in Run(before).threads {
      i := StartOfThread(before, id);
      assert before[..i] == actions[..i];
    } else {
      i := n;
    }
  }

  // A step leaves a thread's command and mark alone, or starts it.
  lemma StepKeepsThread(w: World, a: Action, id: nat)
    requires |w.core.acks| == |w.core.responses| == SLOTS && id in Step(w, a).threads
    ensures var t := Step(w, a).threads[id];
            if id in w.threads then t.command == w.threads[id].command && t.mark == w.threads[id].mark
            else a == Start(id, t.command) && t.mark == |w.log|
  {
    if id in w.threads { ThreadKeepsStart(w, w.threads[id], a); }
  }

  // A command that reports success hands back, for what it was told to wait
  // for, the payload of a matching message stored after it was started.
  lemma CommandSeesFreshReply(actions: seq<Action>, id: nat) returns (i: nat)
    requires id in Run(actions).threads
    ensures StartedAt(actions, i, id, Run(actions).threads[id])
    ensures var t, log := Run(actions).threads[id], Run(actions).log;
            t.phase == Finished(Success) ==>
              && (t.command.expectResponse ==>
                    t.reply.response.Some? && FreshResponse(log, t, t.reply.response.value))
              && (t.command.waitForAck && t.reply.response.None? ==>
                    t.reply.ackFlags.Some? && FreshAck(log, t, t.reply.ackFlags.value))
  {
    RunOk(actions);
    assert ThreadOk(Run(actions).log, Run(actions).threads[id]);
    i := StartOfThread(actions, id);
  }
}
