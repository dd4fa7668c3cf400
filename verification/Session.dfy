// The session object: a fixed receive buffer, the TLS queue and the two slot
// tables, updated in place. Every method is tied to the functions on values.
module Session {
  import opened Words
  import opened Transport
  import opened Stream
  import opened SessionCore
  import Protocol

  class Session {
    const stream: array<u8>
    var streamLength: nat
    const fifo: array<u8>
    var fifoLength: nat
    const acks: array<Ack>
    const responses: array<Response>
    var stats: Stats

    ghost predicate Valid()
      reads this
    {
      && stream.Length == STREAM_CAPACITY && streamLength <= STREAM_CAPACITY
      && fifo.Length == FIFO_CAPACITY && fifoLength <= FIFO_CAPACITY
      && acks.Length == SLOTS && responses.Length == SLOTS
      && stream != fifo
    }

    // Bytes received and not yet parsed.
    ghost function Pending(): (s: seq<u8>)
      requires Valid()
      reads this, stream
      ensures |s| == streamLength
    {
      stream[..streamLength]
    }

    ghost function Shared(): (c: Core)
      requires Valid()
      reads this, fifo, acks, responses
      ensures |c.acks| == |c.responses| == SLOTS && |c.fifo| == fifoLength
    {
      Core(fifo[..fifoLength], acks[..], responses[..], stats)
    }

    constructor ()
      ensures Valid() && fresh(stream) && fresh(fifo) && fresh(acks) && fresh(responses)
      ensures Pending() == [] && fifoLength == 0
      ensures stats == Stats(0, 0, 0, 0, 0, 0, 0, 0)
      ensures forall i | 0 <= i < SLOTS :: acks[i] == Ack(0, 0, 0, []) && responses[i] == Response(0, 0, [])
    {
      stream := new u8[STREAM_CAPACITY];
      fifo := new u8[FIFO_CAPACITY];
      acks := new Ack[SLOTS](_ => Ack(0, 0, 0, []));
      responses := new Response[SLOTS](_ => Response(0, 0, []));
      streamLength, fifoLength := 0, 0;
      stats := Stats(0, 0, 0, 0, 0, 0, 0, 0);
    }

    method DiscardPrefix(count: nat)
      requires Valid()
      modifies this`streamLength, stream
      ensures Valid()
      ensures Pending() == old(Pending())[Min(count, old(streamLength))..]
    {
      if count >= streamLength {
        streamLength := 0;
        return;
      }
      var kept := streamLength - count;
      forall k | 0 <= k < kept { stream[k] := stream[count + k]; }
      streamLength := kept;
    }

    method StoreMessage(m: Protocol.Inner)
      requires Valid()
      modifies acks, responses
      ensures Shared() == Store(old(Shared()), m)
    {
      if IsAck(m) {
        var slot := AckSlot(m);
        acks[slot] := NewAck(acks[slot], m);
      } else {
        var slot := ResponseSlot(m);
        responses[slot] := NewResponse(responses[slot], m);
      }
    }

    method QueueTls(payload: seq<u8>) returns (status: Status)
      requires Valid()
      modifies this`fifoLength, this`stats, fifo
      ensures Valid() && Shared() == DispatchTls(old(Shared()), payload)
      ensures status == TlsStatus(old(Shared()), payload)
    {
      stats := stats.(tlsFrames := WrapU64(stats.tlsFrames + 1));
      if |payload| > FIFO_CAPACITY - fifoLength {
        stats := stats.(tlsOverflows := WrapU64(stats.tlsOverflows + 1));
        return Overflow;
      }
      forall k | 0 <= k < |payload| { fifo[fifoLength + k] := payload[k]; }
      fifoLength := fifoLength + |payload|;
      stats := stats.(tlsBytes := WrapU64(stats.tlsBytes + |payload|));
      status := Success;
    }

    method DispatchMessage(payload: seq<u8>) returns (status: Status)
      requires Valid()
      modifies this`stats, acks, responses
      ensures Valid() && Shared() == DispatchInner(old(Shared()), payload)
      ensures status == MessageStatus(payload)
    {
      var inner := Protocol.Decode(payload);
      if inner.Err? {
        stats := stats.(framingErrors := WrapU64(stats.framingErrors + 1));
        return inner.error;
      }
      if !inner.value.ChecksumOk() {
        stats := stats.(checksumErrors := WrapU64(stats.checksumErrors + 1));
        return Io;
      }
      stats := stats.(innerFrames := WrapU64(stats.innerFrames + 1));
      StoreMessage(inner.value);
      status := Success;
    }

    method DispatchOuter(frame: seq<u8>) returns (status: Status)
      requires Valid()
      modifies this`fifoLength, this`stats, fifo, acks, responses
      ensures Valid()
      ensures Decode(frame).Ok? ==>
                && status == DispatchStatus(old(Shared()), Decode(frame).value)
                && Shared() == Dispatch(old(Shared()), Decode(frame).value)
      ensures Decode(frame).Err? ==>
                && status == Decode(frame).error
                && Shared() == FramingError(old(Shared()))
    {
      var outer := Decode(frame);
      if outer.Err? {
        stats := stats.(framingErrors := WrapU64(stats.framingErrors + 1));
        return outer.error;
      }
      stats := stats.(outerFrames := WrapU64(stats.outerFrames + 1));
      if outer.value.Family() == TLS {
        status := QueueTls(outer.value.payload);
        return;
      }
      if outer.value.Family() == NOTICE {
        stats := stats.(noticeFrames := WrapU64(stats.noticeFrames + 1));
      }
      status := DispatchMessage(outer.value.payload);
    }

    // First position of the buffer that holds a header.
    method FindCandidate() returns (start: nat, length: Announcement)
      requires Valid()
      ensures start == FindHeader(Announced, Pending(), 0)
      ensures length >= 0 <==> start + HEADER_SIZE <= streamLength
      ensures length >= 0 ==> length == At(Announced, Pending(), start)
    {
      start, length := 0, -1;
      while start + HEADER_SIZE <= streamLength
        invariant start <= streamLength && length == -1
        invariant FindHeader(Announced, Pending(), 0) == FindHeader(Announced, Pending(), start)
      {
        length := Announced(stream[start], stream[start + 1], stream[start + 2], stream[start + 3]);
        if length >= 0 {
          return;
        }
        start := start + 1;
      }
    }

    // Drops everything in front of the first header; all but three bytes if
    // there is none.
    method SkipNoise() returns (length: Announcement)
      requires Valid()
      modifies this`streamLength, stream
      ensures Valid() && Pending() == old(Pending())[FindHeader(Announced, old(Pending()), 0)..]
      ensures length >= 0 <==> streamLength >= HEADER_SIZE
      ensures length >= 0 ==> length == At(Announced, Pending(), 0)
    {
      ghost var s := Pending();
      var start;
      start, length := FindCandidate();
      if length < 0 {
        if streamLength > HEADER_SIZE - 1 {
          DiscardPrefix(streamLength - (HEADER_SIZE - 1));
        }
        return;
      }
      if start != 0 {
        DiscardPrefix(start);
      }
      assert Pending() == s[start..];
    }

    method DispatchFront(total: nat)
      requires Valid() && total <= streamLength
      requires Decode(Pending()[..total]).Ok?
      modifies this`streamLength, this`fifoLength, this`stats, stream, fifo, acks, responses
      ensures Valid() && Pending() == old(Pending())[total..]
      ensures Shared() == Dispatch(old(Shared()), Decode(old(Pending())[..total]).value)
    {
      ghost var s := Pending();
      var frame := stream[..total];
      assert frame == s[..total];
      var _ := DispatchOuter(frame);
      assert Pending() == s;
      ghost var c := Shared();
      DiscardPrefix(total);
      assert Shared() == c;
    }

    // Drops noise; afterwards either the parser has to wait or the frame of
    // `total` bytes at the front is complete.
    method PrepareRound() returns (total: nat)
      requires Valid() && streamLength >= HEADER_SIZE
      modifies this`streamLength, stream
      ensures Valid() && Shared() == old(Shared()) && total <= streamLength
      ensures total == 0 ==> Waits(Announced, old(Pending()), Pending())
      ensures total > 0 ==> Takes(Announced, old(Pending()), Pending(), total)
    {
      ghost var s := Pending();
      var length := SkipNoise();
      if length < 0 || streamLength < HEADER_SIZE + length {
        RoundWaits(Announced, s, Pending());
        return 0;
      }
      RoundTakes(s, Pending());
      total := HEADER_SIZE + length;
    }

    // One round of the parser: drop noise, then dispatch a complete frame.
    method ParseOnce() returns (more: bool)
      requires Valid()
      modifies this`streamLength, this`fifoLength, this`stats, stream, fifo, acks, responses
      ensures Valid() && more == FirstCut(Announced, old(Pending())).Take?
      ensures Pending() == AfterRound(Announced, old(Pending()))
      ensures Shared() == DispatchAll(old(Shared()), FirstFrame(Announced, old(Pending())))
    {
      ghost var s := Pending();
      more := false;
      if streamLength < HEADER_SIZE {
        RoundWaits(Announced, s, s);
        return;
      }
      var total := PrepareRound();
      if total > 0 {
        DispatchOne(Shared(), Decode(Pending()[..total]).value);
        DispatchFront(total);
        more := true;
      }
    }

    // A round as a step of a whole parse: `done` is what was dispatched so far.
    method ParseStep(ghost whole: Parsed, ghost c: Core, ghost done: seq<Frame>)
      returns (more: bool, ghost done': seq<Frame>)
      requires Valid()
      requires Extends(whole, done, Parse(Announced, Pending()))
      requires |c.acks| == |c.responses| == SLOTS && Shared() == DispatchAll(c, done)
      modifies this`streamLength, this`fifoLength, this`stats, stream, fifo, acks, responses
      ensures Valid() && Extends(whole, done', Parse(Announced, Pending())) && Shared() == DispatchAll(c, done')
      ensures if more then streamLength < old(streamLength) else whole == Parsed(done', Pending())
    {
      ghost var s := Pending();
      more := ParseOnce();
      ParseRound(whole, done, s, Pending());
      DispatchAllAppend(c, done, FirstFrame(Announced, s));
      done' := done + FirstFrame(Announced, s);
      RoundShrinks(s);
      if !more {
        assert done' + [] == done';
      }
    }

    method StreamParse()
      requires Valid()
      modifies this`streamLength, this`fifoLength, this`stats, stream, fifo, acks, responses
      ensures Valid()
      ensures Pending() == Parse(Announced, old(Pending())).rest
      ensures Shared() == DispatchAll(old(Shared()), Parse(Announced, old(Pending())).frames)
    {
      ghost var whole, c := Parse(Announced, Pending()), Shared();
      ghost var done: seq<Frame> := [];
      var more := true;
      while more
        invariant Valid()
        invariant Extends(whole, done, Parse(Announced, Pending()))
        invariant Shared() == DispatchAll(c, done)
        invariant !more ==> whole == Parsed(done, Pending())
        decreases more, streamLength
      {
        more, done := ParseStep(whole, c, done);
      }
    }

    method Append(bytes: seq<u8>)
      requires Valid() && streamLength + |bytes| <= STREAM_CAPACITY
      modifies this`streamLength, stream
      ensures Valid() && Shared() == old(Shared())
      ensures Pending() == old(Pending()) + bytes
      ensures old(Pending()) == [] ==> Pending() == bytes
    {
      forall k | 0 <= k < |bytes| { stream[streamLength + k] := bytes[k]; }
      streamLength := streamLength + |bytes|;
    }

    // Input that does not fit costs the bytes already waiting.
    method MakeRoom(length: nat)
      requires Valid()
      modifies this`streamLength, this`stats
      ensures Valid()
      ensures old(streamLength) + length <= STREAM_CAPACITY ==>
                Pending() == old(Pending()) && Shared() == old(Shared())
      ensures old(streamLength) + length > STREAM_CAPACITY ==>
                Pending() == [] && Shared() == FramingError(old(Shared()))
    {
      if length > STREAM_CAPACITY - streamLength {
        stats := stats.(framingErrors := WrapU64(stats.framingErrors + 1));
        streamLength := 0;
      }
    }

    // Appends a transfer and parses; one that exceeds the buffer is refused.
    method StreamFeed(bytes: seq<u8>) returns (status: Status)
      requires Valid()
      modifies this`streamLength, this`fifoLength, this`stats, stream, fifo, acks, responses
      ensures Valid()
      ensures status == if |bytes| > STREAM_CAPACITY then Overflow else Success
      ensures Pending() == Fed(old(Pending()), bytes).rest
      ensures old(streamLength) + |bytes| <= STREAM_CAPACITY ==>
                Shared() == DispatchAll(old(Shared()), Fed(old(Pending()), bytes).frames)
      ensures old(streamLength) + |bytes| > STREAM_CAPACITY ==>
                Shared() == DispatchAll(FramingError(old(Shared())), Fed(old(Pending()), bytes).frames)
    {
      ghost var s := Pending();
      MakeRoom(|bytes|);
      if |bytes| > STREAM_CAPACITY {
        return Overflow;
      }
      Append(bytes);
      ghost var t := Pending();
      StreamParse();
      FedIs(s, bytes, t);
      status := Success;
    }

    // The receive loop over the transfers that USB delivers, each at most one
    // transfer buffer long. No transfer is ever lost to the overflow reset.
    method Receive(transfers: seq<seq<u8>>)
      requires Valid() && streamLength <= MAX_REMAINDER
      requires forall t :: t in transfers ==> |t| <= TRANSFER_CAPACITY
      modifies this`streamLength, this`fifoLength, this`stats, stream, fifo, acks, responses
      ensures Valid() && streamLength <= MAX_REMAINDER
      ensures Pending() == FeedAll(Announced, old(Pending()), transfers).rest
      ensures Shared() == DispatchAll(old(Shared()), FeedAll(Announced, old(Pending()), transfers).frames)
    {
      ghost var whole, c := FeedAll(Announced, Pending(), transfers), Shared();
      ghost var done: seq<Frame> := [];
      assert transfers[0..] == transfers;
      for i := 0 to |transfers|
        invariant Valid() && streamLength <= MAX_REMAINDER
        invariant Extends(whole, done, FeedAll(Announced, Pending(), transfers[i..]))
        invariant Shared() == DispatchAll(c, done)
      {
        done := ReceiveOne(whole, c, done, transfers[i..]);
        assert transfers[i..][1..] == transfers[i + 1..];
      }
      NothingMore(whole, done, Pending(), transfers[|transfers|..]);
    }

    method ReceiveOne(ghost whole: Parsed, ghost c: Core, ghost done: seq<Frame>, transfers: seq<seq<u8>>)
      returns (ghost done': seq<Frame>)
      requires Valid() && streamLength <= MAX_REMAINDER
      requires transfers != [] && |transfers[0]| <= TRANSFER_CAPACITY
      requires Extends(whole, done, FeedAll(Announced, Pending(), transfers))
      requires |c.acks| == |c.responses| == SLOTS && Shared() == DispatchAll(c, done)
      modifies this`streamLength, this`fifoLength, this`stats, stream, fifo, acks, responses
      ensures Valid() && streamLength <= MAX_REMAINDER
      ensures Extends(whole, done', FeedAll(Announced, Pending(), transfers[1..])) && Shared() == DispatchAll(c, done')
    {
      ghost var p := Parse(Announced, Pending() + transfers[0]);
      var _ := StreamFeed(transfers[0]);
      done' := done + p.frames;
      DispatchAllAppend(c, done, p.frames);
      Assoc(done, p.frames, FeedAll(Announced, p.rest, transfers[1..]).frames);
    }

    method TlsClear()
      requires Valid()
      modifies this`fifoLength, fifo
      ensures Valid() && Shared() == old(Shared()).(fifo := [])
      ensures forall i | 0 <= i < old(fifoLength) :: fifo[i] == 0
    {
      forall k | 0 <= k < fifoLength { fifo[k] := 0; }
      fifoLength := 0;
    }

    // What a reader does once its wait is over; `error` is the receiver's.
    method TlsTake(capacity: nat, error: Status) returns (r: Result<seq<u8>, Status>)
      requires Valid()
      modifies this`fifoLength, fifo
      ensures Valid()
      ensures capacity == 0 ==> r == Err(InvalidParam) && Shared() == old(Shared())
      ensures capacity > 0 && old(fifoLength) > 0 ==>
                r == Ok(Taken(old(Shared()), capacity)) && Shared() == TakeFifo(old(Shared()), capacity)
      ensures capacity > 0 && old(fifoLength) == 0 ==>
                r == Err(if error != Success then error else Timeout) && Shared() == old(Shared())
    {
      if capacity == 0 {
        return Err(InvalidParam);
      }
      if fifoLength != 0 {
        var n := if fifoLength > capacity then capacity else fifoLength;
        r := Ok(fifo[..n]);
        assert fifo[..n] == fifo[..fifoLength][..n];
        var kept := fifoLength - n;
        forall k | 0 <= k < kept { fifo[k] := fifo[n + k]; }
        fifoLength := kept;
        return;
      }
      r := Err(if error != Success then error else Timeout);
    }
  }

  lemma {:induction false} NothingMore(whole: Parsed, done: seq<Frame>, rest: seq<u8>, chunks: seq<seq<u8>>)
    requires chunks == [] && Extends(whole, done, FeedAll(Announced, rest, chunks))
    ensures whole == Parsed(done, rest)
  {
    assert done + [] == done;
  }

  lemma RoundShrinks(s: seq<u8>)
    ensures FirstCut(Announced, s).Take? ==> |AfterRound(Announced, s)| < |s|
  {
  }

  // What a transfer makes of the bytes already waiting.
  ghost function Fed(s: seq<u8>, bytes: seq<u8>): Parsed {
    if |s| + |bytes| <= STREAM_CAPACITY then Parse(Announced, s + bytes)
    else if |bytes| <= STREAM_CAPACITY then Parse(Announced, bytes)
    else Parsed([], [])
  }

  lemma {:induction false} FedIs(s: seq<u8>, bytes: seq<u8>, t: seq<u8>)
    requires |bytes| <= STREAM_CAPACITY
    requires t == if |s| + |bytes| <= STREAM_CAPACITY then s + bytes else bytes
    ensures Fed(s, bytes) == Parse(Announced, t)
  {
  }

  // What one round of the parser dispatches, and what it leaves.
  ghost function FirstFrame(rule: Rule, s: seq<u8>): seq<Frame> {
    match FirstCut(rule, s)
    case Wait(_) => []
    case Take(start, end) => [Frame(s[start], s[start + HEADER_SIZE..end])]
  }

  ghost function AfterRound(rule: Rule, s: seq<u8>): seq<u8> {
    match FirstCut(rule, s)
    case Wait(from) => s[from..]
    case Take(_, end) => s[end..]
  }

  lemma {:induction false} CutIs(rule: Rule, s: seq<u8>, start: nat, length: nat)
    requires |s| >= HEADER_SIZE && FindHeader(rule, s, 0) == start
    requires start + HEADER_SIZE + length <= |s| && At(rule, s, start) == length
    ensures FirstCut(rule, s) == Take(start, start + HEADER_SIZE + length)
  {
  }

  lemma AtTail(rule: Rule, s: seq<u8>, start: nat)
    requires start + HEADER_SIZE <= |s|
    ensures At(rule, s[start..], 0) == At(rule, s, start)
  {
  }

  lemma CutPieces(rule: Rule, s: seq<u8>, start: nat, total: nat)
    requires HEADER_SIZE <= total && start + total <= |s|
    requires FirstCut(rule, s) == Take(start, start + total)
    ensures s[start..][total..] == AfterRound(rule, s)
    ensures FirstFrame(rule, s) == [Frame(s[start], s[start + HEADER_SIZE..start + total])]
    ensures s[start..][..total] == s[start..start + total]
  {
  }

  ghost predicate Waits(rule: Rule, s: seq<u8>, t: seq<u8>) {
    FirstCut(rule, s).Wait? && t == AfterRound(rule, s) && FirstFrame(rule, s) == []
  }

  ghost predicate Takes(rule: Rule, s: seq<u8>, t: seq<u8>, total: nat) {
    && total <= |t| && FirstCut(rule, s).Take? && t[total..] == AfterRound(rule, s)
    && Decode(t[..total]).Ok? && [Decode(t[..total]).value] == FirstFrame(rule, s)
  }

  lemma {:induction false} RoundTakes(s: seq<u8>, t: seq<u8>)
    requires |s| >= HEADER_SIZE && t == s[FindHeader(Announced, s, 0)..]
    requires |t| >= HEADER_SIZE && At(Announced, t, 0) >= 0 && HEADER_SIZE + At(Announced, t, 0) <= |t|
    ensures Takes(Announced, s, t, HEADER_SIZE + At(Announced, t, 0))
  {
    var start, length := FindHeader(Announced, s, 0), At(Announced, t, 0);
    AtTail(Announced, s, start);
    CutIs(Announced, s, start, length);
    CutPieces(Announced, s, start, HEADER_SIZE + length);
    DecodeOfCut(s, start, start + HEADER_SIZE + length);
  }

  lemma {:induction false} RoundWaits(rule: Rule, s: seq<u8>, t: seq<u8>)
    requires |s| < HEADER_SIZE ==> t == s
    requires |s| >= HEADER_SIZE ==>
               t == s[FindHeader(rule, s, 0)..] && (|t| < HEADER_SIZE || |t| < HEADER_SIZE + At(rule, t, 0))
    ensures Waits(rule, s, t)
  {
    if |s| >= HEADER_SIZE && |t| >= HEADER_SIZE { AtTail(rule, s, FindHeader(rule, s, 0)); }
  }

  lemma DecodeExact(frame: seq<u8>, n: nat)
    requires |frame| == HEADER_SIZE + n && At(Announced, frame, 0) == n
    ensures Decode(frame) == Ok(Frame(frame[0], frame[HEADER_SIZE..]))
  {
    assert frame[HEADER_SIZE..HEADER_SIZE + n] == frame[HEADER_SIZE..];
  }

  lemma DecodeOfCut(s: seq<u8>, start: nat, end: nat)
    requires start + HEADER_SIZE <= end <= |s| && At(Announced, s, start) == end - start - HEADER_SIZE
    ensures Decode(s[start..end]) == Ok(Frame(s[start], s[start + HEADER_SIZE..end]))
  {
    var frame := s[start..end];
    assert frame[0] == s[start] && frame[1] == s[start + 1] && frame[2] == s[start + 2] && frame[3] == s[start + 3];
    DecodeExact(frame, end - start - HEADER_SIZE);
    assert frame[HEADER_SIZE..] == s[start + HEADER_SIZE..end];
  }

  ghost predicate Extends(whole: Parsed, done: seq<Frame>, remaining: Parsed) {
    whole.frames == done + remaining.frames && whole.rest == remaining.rest
  }

  lemma {:induction false} ParseRound(whole: Parsed, done: seq<Frame>, s: seq<u8>, t: seq<u8>)
    requires Extends(whole, done, Parse(Announced, s)) && t == AfterRound(Announced, s)
    ensures Extends(whole, done + FirstFrame(Announced, s), Parse(Announced, t))
    ensures FirstCut(Announced, s).Wait? ==> Parse(Announced, t) == Parsed([], t)
  {
    if FirstCut(Announced, s).Wait? {
      RestIsStable(Announced, s);
      assert done + [] == done;
    } else {
      Assoc(done, FirstFrame(Announced, s), Parse(Announced, t).frames);
    }
  }
}
