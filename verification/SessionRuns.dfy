// Every interleaving of the receiver thread, TLS readers and command threads.
// One action is one section that the source runs under the session mutex, or
// one outcome of a call outside it (a send, a wait).
module SessionRuns {
  import opened Words
  import opened Transport
  import opened SessionCore
  import Protocol

  const MAX_INNER_DATA: nat := MAX_PAYLOAD - 4

  datatype Command = Command(
    cmd0: u8, cmd1: u8, payload: seq<u8>, waitForAck: bool, expectResponse: bool, maxAttempts: u32) {
    predicate InRange() { cmd0 < 16 && cmd1 < 8 && maxAttempts > 0 }

    function Target(): nat
      requires InRange()
    { Slot(cmd0, cmd1) }
  }

  datatype Reply = Reply(ackFlags: Option<u8>, response: Option<seq<u8>>)

  datatype Phase = Sending | AwaitingAck | AwaitingLateResponse | AwaitingResponse | Finished(status: Status)

  // A running command: sequence numbers at its start, and where the log of
  // stored messages stood then.
  datatype Thread = Thread(
    command: Command, ackBaseline: u64, responseBaseline: u64, mark: nat,
    attempt: u32, lastError: Status, phase: Phase, reply: Reply)

  // `log` is a history of every message stored in either table.
  datatype World = World(core: Core, receiverError: Status, threads: map<nat, Thread>, log: seq<Protocol.Inner>)

  datatype Wait = Woken | TimedOut | WaitFailed

  datatype Action =
    | Receive(frame: Frame)
    | ReceiverFails(error: Status)
    | Read(capacity: nat)
    | Clear
    | Start(id: nat, command: Command)
    | Sent(id: nat, status: Status)
    | Wake(id: nat, wait: Wait)

  function Initial(): (w: World)
    ensures w.core.Valid()
  {
    World(
    Core([], seq(SLOTS, _ => Ack(0, 0, 0, [])), seq(SLOTS, _ => Response(0, 0, [])), Stats(0, 0, 0, 0, 0, 0, 0, 0)),
    Success, map[], [])
  }

  // The message a frame delivers to the tables, if any.
  function MessageOf(f: Frame): Option<Protocol.Inner> {
    if f.Family() == TLS then None
    else
      match Protocol.Decode(f.payload)
      case Ok(m) => if m.ChecksumOk() then Some(m) else None
      case Err(_) => None
  }

  // How a wait ends, if it does: a new sequence number wins over an error,
  // an error over the deadline.
  function WaitEnds(now: u64, baseline: u64, error: Status, wait: Wait): Option<Status> {
    if wait.WaitFailed? then Some(Other)
    else if now != baseline then Some(Success)
    else if error != Success then Some(error)
    else if wait.TimedOut? then Some(Timeout)
    else None
  }

  function Begin(w: World, c: Command): Thread
    requires |w.core.acks| == |w.core.responses| == SLOTS
  {
    var t := Thread(c, 0, 0, |w.log|, 1, Other, Sending, Reply(None, None));
    if !c.InRange() || |c.payload| > Protocol.MAX_DATA then t.(phase := Finished(InvalidParam))
    else if |c.payload| > MAX_INNER_DATA then t.(phase := Finished(Overflow))
    else t.(ackBaseline := w.core.acks[c.Target()].sequence,
            responseBaseline := w.core.responses[c.Target()].sequence)
  }

  function Retry(t: Thread, error: Status): Thread {
    var next := WrapU32(t.attempt + 1);
    if next <= t.command.maxAttempts then t.(lastError := error, attempt := next, phase := Sending)
    else t.(lastError := error, phase := Finished(error))
  }

  function AfterSend(t: Thread, status: Status): Thread {
    if status != Success then Retry(t, status)
    else if t.command.waitForAck then t.(phase := AwaitingAck)
    else if t.command.expectResponse then t.(phase := AwaitingResponse)
    else t.(phase := Finished(Success))
  }

  function AfterAck(t: Thread, ack: Ack, error: Status, wait: Wait): Thread {
    match WaitEnds(ack.sequence, t.ackBaseline, error, wait)
    case None => t
    case Some(Success) =>
      var t' := t.(reply := t.reply.(ackFlags := Some(ack.flags)));
      if t.command.expectResponse then t'.(phase := AwaitingResponse) else t'.(phase := Finished(Success))
    case Some(e) =>
      if t.command.expectResponse then t.(lastError := e, phase := AwaitingLateResponse) else Retry(t, e)
  }

  // After a missed acknowledgement the error of that wait is kept.
  function AfterResponse(t: Thread, r: Response, error: Status, wait: Wait): Thread {
    match WaitEnds(r.sequence, t.responseBaseline, error, wait)
    case None => t
    case Some(Success) =>
      t.(reply := t.reply.(response := Some(r.data)), phase := Finished(Success))
    case Some(e) => Retry(t, if t.phase.AwaitingLateResponse? then t.lastError else e)
  }

  function ThreadStep(w: World, t: Thread, a: Action): Thread
    requires |w.core.acks| == |w.core.responses| == SLOTS
  {
    if !t.command.InRange() then t
    else
      var target := t.command.Target();
      if a.Sent? && t.phase.Sending? then AfterSend(t, a.status)
      else if a.Wake? && t.phase.AwaitingAck? then AfterAck(t, w.core.acks[target], w.receiverError, a.wait)
      else if a.Wake? && (t.phase.AwaitingResponse? || t.phase.AwaitingLateResponse?) then
        AfterResponse(t, w.core.responses[target], w.receiverError, a.wait)
      else t
  }

  function Step(w: World, a: Action): (w': World)
    requires |w.core.acks| == |w.core.responses| == SLOTS
    ensures |w'.core.acks| == |w'.core.responses| == SLOTS
  {
    match a
    case Receive(f) =>
      var log := match MessageOf(f) case Some(m) => w.log + [m] case None => w.log;
      w.(core := Dispatch(w.core, f), log := log)
    case ReceiverFails(e) => if w.receiverError == Success then w.(receiverError := e) else w
    case Read(capacity) => w.(core := TakeFifo(w.core, capacity))
    case Clear => w.(core := w.core.(fifo := []))
    case Start(id, c) => if id in w.threads then w else w.(threads := w.threads[id := Begin(w, c)])
    case Sent(id, _) => if id !in w.threads then w else w.(threads := w.threads[id := ThreadStep(w, w.threads[id], a)])
    case Wake(id, _) => if id !in w.threads then w else w.(threads := w.threads[id := ThreadStep(w, w.threads[id], a)])
  }

  function Run(actions: seq<Action>): (w: World)
    ensures |w.core.acks| == |w.core.responses| == SLOTS
  {
    if actions == [] then Initial()
    else Step(Run(actions[..|actions| - 1]), actions[|actions| - 1])
  }

  // ---------- conservation of TLS bytes ----------

  // TLS payloads accepted since the last clear, read off the trace.
  function Accepted(actions: seq<Action>): seq<u8> {
    if actions == [] then []
    else
      var before := actions[..|actions| - 1];
      match actions[|actions| - 1]
      case Clear => []
      case Receive(f) =>
        if f.Family() == TLS && |Run(before).core.fifo| + |f.payload| <= FIFO_CAPACITY
        then Accepted(before) + f.payload else Accepted(before)
      case _ => Accepted(before)
  }

  // Bytes handed out to readers since the last clear.
  function Delivered(actions: seq<Action>): seq<u8> {
    if actions == [] then []
    else
      var before := actions[..|actions| - 1];
      match actions[|actions| - 1]
      case Clear => []
      case Read(capacity) => Delivered(before) + Taken(Run(before).core, capacity)
      case _ => Delivered(before)
  }

  lemma DispatchFifo(c: Core, f: Frame)
    requires |c.acks| == |c.responses| == SLOTS
    ensures Dispatch(c, f).fifo
         == if f.Family() == TLS && |c.fifo| + |f.payload| <= FIFO_CAPACITY then c.fifo + f.payload else c.fifo
  {
  }

  lemma TakeSplits(c: Core, capacity: nat, delivered: seq<u8>)
    ensures delivered + c.fifo == delivered + Taken(c, capacity) + TakeFifo(c, capacity).fifo
  {
    assert c.fifo == Taken(c, capacity) + TakeFifo(c, capacity).fifo;
  }

  ghost predicate Conserved(actions: seq<Action>) {
    Accepted(actions) == Delivered(actions) + Run(actions).core.fifo && |Run(actions).core.fifo| <= FIFO_CAPACITY
  }

  lemma TlsStep(before: seq<Action>, a: Action)
    requires Conserved(before)
    ensures Conserved(before + [a])
  {
    assert (before + [a])[..|before|] == before;
    match a
    case Receive(f) =>
      DispatchFifo(Run(before).core, f);
      assert Delivered(before) + (Run(before).core.fifo + f.payload)
          == Delivered(before) + Run(before).core.fifo + f.payload;
    case Read(capacity) =>
      TakeSplits(Run(before).core, capacity, Delivered(before));
    case _ =>
  }

  // What holds at the start and is kept by every action holds of every run.
  lemma OfEveryRun(holds: seq<Action> -> bool, actions: seq<Action>)
    requires holds([]) && forall before, a :: holds(before) ==> holds(before + [a])
    ensures holds(actions)
    decreases |actions|
  {
    if actions != [] {
      var n := |actions| - 1;
      OfEveryRun(holds, actions[..n]);
      assert actions[..n] + [actions[n]] == actions;
    }
  }

  // Nothing is lost, duplicated or reordered between the receiver and the
  // readers, however their steps interleave, and the queue never overruns.
  lemma {:induction false} TlsBytesConserved(actions: seq<Action>)
    ensures Accepted(actions) == Delivered(actions) + Run(actions).core.fifo
    ensures |Run(actions).core.fifo| <= FIFO_CAPACITY
  {
    forall before, a | Conserved(before) ensures Conserved(before + [a]) { TlsStep(before, a); }
    OfEveryRun(Conserved, actions);
  }
}
