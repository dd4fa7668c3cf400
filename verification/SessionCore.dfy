// What one received frame does to the state that the receiver shares with
// its clients, as functions on values.
module SessionCore {
  import opened Words
  import opened Transport
  import Protocol

  const FIFO_CAPACITY: nat := 131072
  const RESPONSE_CAPACITY: nat := 1024
  const ACK_CAPACITY: nat := 32
  const SLOTS: nat := 128

  // One table entry per (cmd0, cmd1); the sequence number counts the stores.
  datatype Ack = Ack(sequence: u64, acked: u8, flags: u8, data: seq<u8>)
  datatype Response = Response(sequence: u64, commandByte: u8, data: seq<u8>)

  datatype Stats = Stats(
    outerFrames: u64, innerFrames: u64, tlsFrames: u64, tlsBytes: u64, tlsOverflows: u64,
    noticeFrames: u64, framingErrors: u64, checksumErrors: u64)

  datatype Core = Core(fifo: seq<u8>, acks: seq<Ack>, responses: seq<Response>, stats: Stats) {
    ghost predicate Valid() {
      && |fifo| <= FIFO_CAPACITY
      && |acks| == SLOTS && (forall a :: a in acks ==> |a.data| <= ACK_CAPACITY)
      && |responses| == SLOTS && (forall r :: r in responses ==> |r.data| <= RESPONSE_CAPACITY)
    }
  }

  function Slot(cmd0: int, cmd1: int): (s: nat)
    requires 0 <= cmd0 < 16 && 0 <= cmd1 < 8
    ensures s < SLOTS
  {
    8 * cmd0 + cmd1
  }

  function Truncated(data: seq<u8>, capacity: nat): (t: seq<u8>)
    ensures |t| <= capacity && t <= data
  {
    data[..Min(|data|, capacity)]
  }

  // An acknowledgement is a message for (0xb, 0) with at least one data byte.
  predicate IsAck(m: Protocol.Inner) {
    m.Cmd0() == 0xb && m.Cmd1() == 0 && |m.data| >= 1
  }

  // The command an acknowledgement is about is named by its first byte.
  function AckSlot(m: Protocol.Inner): (s: nat)
    requires |m.data| >= 1
    ensures s < SLOTS
  {
    var acked := m.data[0] / 2 * 2;
    Slot(acked / 16, acked % 16 / 2)
  }

  function ResponseSlot(m: Protocol.Inner): (s: nat)
    ensures s < SLOTS
  {
    Slot(m.Cmd0(), m.Cmd1())
  }

  // Each command has an entry of its own.
  lemma SlotsApart(cmd0: int, cmd1: int, other0: int, other1: int)
    requires 0 <= cmd0 < 16 && 0 <= cmd1 < 8 && 0 <= other0 < 16 && 0 <= other1 < 8
    ensures Slot(cmd0, cmd1) == Slot(other0, other1) <==> cmd0 == other0 && cmd1 == other1
  {
  }

  // An acknowledgement that carries the byte of a command, with or without its
  // acknowledgement bit, goes to that command's entry.
  lemma AckGoesToCommand(m: Protocol.Inner, cmd0: u8, cmd1: u8, waitForAck: bool)
    requires cmd0 < 16 && cmd1 < 8 && |m.data| >= 1
    requires m.data[0] == Protocol.CommandByte(cmd0, cmd1, waitForAck)
    ensures AckSlot(m) == Slot(cmd0, cmd1)
  {
  }

  // A message built for a command goes to that command's response entry,
  // unless it was built as an acknowledgement.
  lemma BuiltMessageGoes(cmd0: u8, cmd1: u8, waitForAck: bool, data: seq<u8>, tail: seq<u8>)
    requires cmd0 < 16 && cmd1 < 8 && |data| <= Protocol.MAX_DATA
    ensures var r := Protocol.Decode(Protocol.Encode(Protocol.CommandByte(cmd0, cmd1, waitForAck), data) + tail);
            && r.Ok? && r.value.ChecksumOk() && r.value.data == data
            && (IsAck(r.value) <==> cmd0 == 0xb && cmd1 == 0 && |data| >= 1)
            && ResponseSlot(r.value) == Slot(cmd0, cmd1)
  {
    Protocol.DecodeInvertsEncode(cmd0, cmd1, waitForAck, data, tail);
  }

  function NewAck(before: Ack, m: Protocol.Inner): Ack
    requires |m.data| >= 1
  {
    Ack(WrapU64(before.sequence + 1), m.data[0] / 2 * 2,
        if |m.data| >= 2 then m.data[1] else 0, Truncated(m.data, ACK_CAPACITY))
  }

  function NewResponse(before: Response, m: Protocol.Inner): Response {
    Response(WrapU64(before.sequence + 1), m.commandByte, Truncated(m.data, RESPONSE_CAPACITY))
  }

  function Store(c: Core, m: Protocol.Inner): (c': Core)
    requires |c.acks| == |c.responses| == SLOTS
    ensures c'.fifo == c.fifo && c'.stats == c.stats && |c'.acks| == |c'.responses| == SLOTS
  {
    if IsAck(m) then
      c.(acks := c.acks[AckSlot(m) := NewAck(c.acks[AckSlot(m)], m)])
    else
      c.(responses := c.responses[ResponseSlot(m) := NewResponse(c.responses[ResponseSlot(m)], m)])
  }

  // A payload that does not fit whole is dropped whole.
  function DispatchTls(c: Core, payload: seq<u8>): Core {
    var st := c.stats.(tlsFrames := WrapU64(c.stats.tlsFrames + 1));
    if |c.fifo| + |payload| > FIFO_CAPACITY then
      c.(stats := st.(tlsOverflows := WrapU64(st.tlsOverflows + 1)))
    else
      c.(fifo := c.fifo + payload, stats := st.(tlsBytes := WrapU64(st.tlsBytes + |payload|)))
  }

  function DispatchInner(c: Core, payload: seq<u8>): (c': Core)
    requires |c.acks| == |c.responses| == SLOTS
    ensures c'.fifo == c.fifo && |c'.acks| == |c'.responses| == SLOTS
  {
    var st := c.stats;
    match Protocol.Decode(payload)
    case Err(_) => FramingError(c)
    case Ok(m) =>
      if !m.ChecksumOk() then c.(stats := st.(checksumErrors := WrapU64(st.checksumErrors + 1)))
      else Store(c.(stats := st.(innerFrames := WrapU64(st.innerFrames + 1))), m)
  }

  function FramingError(c: Core): (c': Core)
    ensures c'.fifo == c.fifo && c'.acks == c.acks && c'.responses == c.responses
  {
    c.(stats := c.stats.(framingErrors := WrapU64(c.stats.framingErrors + 1)))
  }

  function Dispatch(c: Core, f: Frame): (c': Core)
    requires |c.acks| == |c.responses| == SLOTS
    ensures |c'.acks| == |c'.responses| == SLOTS
  {
    var st := c.stats.(outerFrames := WrapU64(c.stats.outerFrames + 1));
    if f.Family() == TLS then DispatchTls(c.(stats := st), f.payload)
    else if f.Family() == NOTICE then
      DispatchInner(c.(stats := st.(noticeFrames := WrapU64(st.noticeFrames + 1))), f.payload)
    else DispatchInner(c.(stats := st), f.payload)
  }

  // The status that the dispatch of a frame reports.
  function TlsStatus(c: Core, payload: seq<u8>): Status {
    if |c.fifo| + |payload| > FIFO_CAPACITY then Overflow else Success
  }

  function MessageStatus(payload: seq<u8>): Status {
    match Protocol.Decode(payload)
    case Err(e) => e
    case Ok(m) => if m.ChecksumOk() then Success else Io
  }

  function DispatchStatus(c: Core, f: Frame): Status {
    if f.Family() == TLS then TlsStatus(c, f.payload) else MessageStatus(f.payload)
  }

  // A status other than success means that exactly one error was counted and
  // the frame left neither queue nor slots changed; success, that none was.
  lemma StatusTellsErrors(c: Core, f: Frame)
    requires |c.acks| == |c.responses| == SLOTS
    ensures var c' := Dispatch(c, f);
            && (DispatchStatus(c, f) == Success <==> ErrorCounts(c'.stats) == ErrorCounts(c.stats))
            && (DispatchStatus(c, f) != Success ==>
                  c'.fifo == c.fifo && c'.acks == c.acks && c'.responses == c.responses
                    && OneMoreError(c.stats, c'.stats))
  {
    if f.Family() != TLS { DecodeNeverSucceedsWithError(f.payload); }
    NextDiffers(c.stats.tlsOverflows);
    NextDiffers(c.stats.framingErrors);
    NextDiffers(c.stats.checksumErrors);
  }

  function ErrorCounts(s: Stats): (u64, u64, u64) { (s.tlsOverflows, s.framingErrors, s.checksumErrors) }

  ghost predicate OneMoreError(s: Stats, s': Stats) {
    var (o, f, k) := ErrorCounts(s);
    ErrorCounts(s') in {(WrapU64(o + 1), f, k), (o, WrapU64(f + 1), k), (o, f, WrapU64(k + 1))}
  }

  lemma NextDiffers(n: u64)
    ensures WrapU64(n + 1) != n
  {
  }

  lemma DecodeNeverSucceedsWithError(payload: seq<u8>)
    ensures Protocol.Decode(payload).Err? ==> Protocol.Decode(payload).error != Success
  {
  }

  function DispatchAll(c: Core, frames: seq<Frame>): (c': Core)
    requires |c.acks| == |c.responses| == SLOTS
    ensures |c'.acks| == |c'.responses| == SLOTS
  {
    if frames == [] then c
    else Dispatch(DispatchAll(c, frames[..|frames| - 1]), frames[|frames| - 1])
  }

  lemma {:induction false} DispatchOne(c: Core, f: Frame)
    requires |c.acks| == |c.responses| == SLOTS
    ensures DispatchAll(c, [f]) == Dispatch(c, f) && DispatchAll(c, []) == c
  {
    assert [f][..0] == [];
  }

  lemma {:induction false} DispatchAllAppend(c: Core, x: seq<Frame>, y: seq<Frame>)
    requires |c.acks| == |c.responses| == SLOTS
    ensures DispatchAll(c, x + y) == DispatchAll(DispatchAll(c, x), y)
    decreases |y|
  {
    if y == [] {
      assert x + y == x;
    } else {
      var n := |y| - 1;
      DispatchAllAppend(c, x, y[..n]);
      assert (x + y)[..|x + y| - 1] == x + y[..n];
    }
  }

  // Handing out at most `capacity` bytes from the front of the queue.
  function Taken(c: Core, capacity: nat): seq<u8> { Truncated(c.fifo, capacity) }

  function TakeFifo(c: Core, capacity: nat): Core {
    c.(fifo := c.fifo[|Taken(c, capacity)|..])
  }

  lemma StoreKeepsValid(c: Core, m: Protocol.Inner)
    requires c.Valid()
    ensures Store(c, m).Valid()
  {
    var c' := Store(c, m);
    forall a | a in c'.acks ensures |a.data| <= ACK_CAPACITY {
      var i :| 0 <= i < SLOTS && c'.acks[i] == a;
      assert c.acks[i] in c.acks;
    }
    forall r | r in c'.responses ensures |r.data| <= RESPONSE_CAPACITY {
      var i :| 0 <= i < SLOTS && c'.responses[i] == r;
      assert c.responses[i] in c.responses;
    }
  }

  lemma DispatchKeepsValid(c: Core, f: Frame)
    requires c.Valid()
    ensures Dispatch(c, f).Valid()
  {
    if f.Family() != TLS {
      match Protocol.Decode(f.payload)
      case Err(_) =>
      case Ok(m) =>
        if m.ChecksumOk() {
          var st := c.stats.(outerFrames := WrapU64(c.stats.outerFrames + 1));
          var st' := if f.Family() == NOTICE then st.(noticeFrames := WrapU64(st.noticeFrames + 1)) else st;
          StoreKeepsValid(c.(stats := st'.(innerFrames := WrapU64(st'.innerFrames + 1))), m);
        }
    }
  }

  // ---------- counters ----------

  // Growth of a counter that wraps at 2^64.
  function Grew(before: u64, after: u64): u64 { WrapU64(after - before) }

  lemma GrewBy(n: u64, k: nat)
    requires k < 0x1_0000_0000_0000_0000
    ensures Grew(n, WrapU64(n + k)) == k && Grew(n, n) == 0
  {
  }

  // What is counted of a message: stored, undecodable, or wrong checksum.
  datatype Outcome = Stored | Undecodable | Corrupt

  function OutcomeOf(payload: seq<u8>): Outcome {
    if MessageStatus(payload) == Success then Stored
    else if MessageStatus(payload) == Io && Protocol.Decode(payload).Ok? then Corrupt
    else Undecodable
  }

  function Counted(s: Stats, o: Outcome): Stats {
    match o
    case Stored => s.(innerFrames := WrapU64(s.innerFrames + 1))
    case Undecodable => s.(framingErrors := WrapU64(s.framingErrors + 1))
    case Corrupt => s.(checksumErrors := WrapU64(s.checksumErrors + 1))
  }

  lemma MessageCountedOnce(c: Core, payload: seq<u8>)
    requires |c.acks| == |c.responses| == SLOTS
    ensures DispatchInner(c, payload).stats == Counted(c.stats, OutcomeOf(payload))
  {
    DecodeNeverSucceedsWithError(payload);
  }

  // What the TLS counters show of a payload: it was queued whole and its bytes
  // were counted, or it was an overflow and nothing was queued.
  lemma TlsCounted(c: Core, payload: seq<u8>)
    requires |payload| <= MAX_PAYLOAD
    ensures var c' := DispatchTls(c, payload);
            && Grew(c.stats.tlsFrames, c'.stats.tlsFrames) == 1
            && Grew(c.stats.tlsBytes, c'.stats.tlsBytes) as int == |c'.fifo| - |c.fifo|
            && c'.fifo == (if Grew(c.stats.tlsOverflows, c'.stats.tlsOverflows) == 0 then c.fifo + payload else c.fifo)
            && (Grew(c.stats.tlsOverflows, c'.stats.tlsOverflows) == 1 <==> |c.fifo| + |payload| > FIFO_CAPACITY)
            && Grew(c.stats.tlsOverflows, c'.stats.tlsOverflows) <= 1
  {
    GrewBy(c.stats.tlsFrames, 1);
    GrewBy(c.stats.tlsOverflows, 1);
    GrewBy(c.stats.tlsBytes, |payload|);
  }

  // A frame that is not TLS is counted once as a frame, as a notice exactly
  // when it is one, and once by what became of its message.
  lemma FrameCountedOnce(c: Core, f: Frame)
    requires |c.acks| == |c.responses| == SLOTS && f.Family() != TLS
    ensures var s, s' := c.stats, Dispatch(c, f).stats;
            && Grew(s.outerFrames, s'.outerFrames) == 1
            && Grew(s.noticeFrames, s'.noticeFrames) == (if f.Family() == NOTICE then 1 else 0)
            && s' == Counted(s.(outerFrames := s'.outerFrames, noticeFrames := s'.noticeFrames), OutcomeOf(f.payload))
  {
    var s := c.stats.(outerFrames := WrapU64(c.stats.outerFrames + 1));
    GrewBy(c.stats.outerFrames, 1);
    GrewBy(c.stats.noticeFrames, 1);
    var s' := if f.Family() == NOTICE then s.(noticeFrames := WrapU64(s.noticeFrames + 1)) else s;
    MessageCountedOnce(c.(stats := s'), f.payload);
  }
}
