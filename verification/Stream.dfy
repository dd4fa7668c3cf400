// The receive parser as a function on byte strings: which frames a buffer
// yields, what stays in it, and why neither depends on how the bytes arrive.
module Stream {
  import opened Words
  import opened Transport

  // Longest run that a parse can leave behind: one byte short of a full frame.
  const MAX_REMAINDER: nat := HEADER_SIZE + MAX_PAYLOAD - 1
  const TRANSFER_CAPACITY: nat := 4096
  const STREAM_CAPACITY: nat := 65536

  datatype Parsed = Parsed(frames: seq<Frame>, rest: seq<u8>)

  // A header rule says what four consecutive bytes announce. Everything up to
  // the wire format itself holds for every rule.
  type Rule = (u8, u8, u8, u8) -> Announcement

  function At(rule: Rule, s: seq<u8>, i: nat): Announcement
    requires i + HEADER_SIZE <= |s|
  {
    rule(s[i], s[i + 1], s[i + 2], s[i + 3])
  }

  // First position at or after `from` that holds a header, or the first one
  // at which no header fits any more.
  function FindHeader(rule: Rule, s: seq<u8>, from: nat): (j: nat)
    requires from <= |s|
    ensures from <= j <= |s|
    ensures j + HEADER_SIZE <= |s| ==> At(rule, s, j) >= 0
    ensures j + HEADER_SIZE > |s| ==> j == Max(from, |s| - HEADER_SIZE + 1)
    ensures forall i :: from <= i < j && i + HEADER_SIZE <= |s| ==> At(rule, s, i) < 0
    decreases |s| - from
  {
    if from + HEADER_SIZE > |s| || At(rule, s, from) >= 0 then from else FindHeader(rule, s, from + 1)
  }

  // What the parser does first: keep everything from a position on and wait,
  // or take out the frame between two positions.
  datatype Cut = Wait(from: nat) | Take(start: nat, end: nat) {
    function Shift(k: nat): Cut {
      match this
      case Wait(from) => Wait(from + k)
      case Take(start, end) => Take(start + k, end + k)
    }
  }

  function FirstCut(rule: Rule, s: seq<u8>): (c: Cut)
    ensures c.Wait? ==> c.from <= |s| <= c.from + MAX_REMAINDER
    ensures c.Take? ==> c.start + HEADER_SIZE <= c.end <= |s|
  {
    if |s| < HEADER_SIZE then Wait(0)
    else
      var start := FindHeader(rule, s, 0);
      if start + HEADER_SIZE > |s| then Wait(start)
      else
        var end := start + HEADER_SIZE + At(rule, s, start);
        if end > |s| then Wait(start) else Take(start, end)
  }

  function Parse(rule: Rule, s: seq<u8>): (p: Parsed)
    ensures |p.rest| <= MAX_REMAINDER
    decreases |s|
  {
    match FirstCut(rule, s)
    case Wait(from) => Parsed([], s[from..])
    case Take(start, end) =>
      var p := Parse(rule, s[end..]);
      Parsed([Frame(s[start], s[start + HEADER_SIZE..end])] + p.frames, p.rest)
  }

  lemma {:induction false} FirstHeaderIs(rule: Rule, s: seq<u8>, j: nat)
    requires j + HEADER_SIZE <= |s| && At(rule, s, j) >= 0
    requires forall i :: 0 <= i < j ==> At(rule, s, i) < 0
    ensures FindHeader(rule, s, 0) == j
  {
  }

  lemma {:induction false} NoHeader(rule: Rule, s: seq<u8>)
    requires |s| >= HEADER_SIZE - 1
    requires forall i :: 0 <= i && i + HEADER_SIZE <= |s| ==> At(rule, s, i) < 0
    ensures FindHeader(rule, s, 0) == |s| - HEADER_SIZE + 1
  {
  }

  // A complete frame at the front stays the first cut when more bytes arrive.
  lemma TakeIsFinal(rule: Rule, a: seq<u8>, b: seq<u8>)
    requires FirstCut(rule, a).Take?
    ensures FirstCut(rule, a + b) == FirstCut(rule, a)
  {
    var j := FindHeader(rule, a, 0);
    assert forall i | 0 <= i && i + HEADER_SIZE <= |a| :: At(rule, a + b, i) == At(rule, a, i);
    FirstHeaderIs(rule, a + b, j);
  }

  // A prefix without headers only shifts the first header.
  lemma {:induction false} SkipsPrefix(rule: Rule, s: seq<u8>, k: nat)
    requires k <= |s| && |s| - k >= HEADER_SIZE - 1
    requires forall i :: 0 <= i < k && i + HEADER_SIZE <= |s| ==> At(rule, s, i) < 0
    ensures FindHeader(rule, s, 0) == FindHeader(rule, s[k..], 0) + k
  {
    var t := s[k..];
    var j := FindHeader(rule, t, 0);
    assert forall i | k <= i && i + HEADER_SIZE <= |s| :: At(rule, s, i) == At(rule, t, i - k);
    if j + HEADER_SIZE <= |t| { FirstHeaderIs(rule, s, j + k); } else { NoHeader(rule, s); }
  }

  lemma SkipsCut(rule: Rule, s: seq<u8>, k: nat)
    requires k <= |s| && |s| - k >= HEADER_SIZE - 1
    requires forall i :: 0 <= i < k && i + HEADER_SIZE <= |s| ==> At(rule, s, i) < 0
    ensures FirstCut(rule, s) == FirstCut(rule, s[k..]).Shift(k)
  {
    SkipsPrefix(rule, s, k);
    var j := FindHeader(rule, s, 0);
    if j + HEADER_SIZE <= |s| { assert At(rule, s, j) == At(rule, s[k..], j - k); }
  }

  // Bytes the parser gave up on never matter again.
  lemma DroppedIsNoise(rule: Rule, a: seq<u8>, b: seq<u8>)
    requires FirstCut(rule, a).Wait?
    ensures var k := FirstCut(rule, a).from;
            FirstCut(rule, a + b) == FirstCut(rule, a[k..] + b).Shift(k)
  {
    var k := FirstCut(rule, a).from;
    assert a[k..] + b == (a + b)[k..];
    if k > 0 {
      assert forall i | 0 <= i < k :: At(rule, a + b, i) == At(rule, a, i);
      SkipsCut(rule, a + b, k);
    } else {
      assert a[k..] == a;
    }
  }

  lemma SubOfTail(s: seq<u8>, k: nat, i: nat, j: nat)
    requires k <= |s| && i <= j <= |s| - k
    ensures s[k..][i..j] == s[i + k..j + k]
    ensures s[k..][j..] == s[j + k..]
  {
  }

  lemma {:induction false} ParseTake(rule: Rule, s: seq<u8>, start: nat, end: nat, f: Frame, tail: seq<u8>)
    requires FirstCut(rule, s) == Take(start, end)
    requires f == Frame(s[start], s[start + HEADER_SIZE..end]) && tail == s[end..]
    ensures Parse(rule, s) == Parsed([f] + Parse(rule, tail).frames, Parse(rule, tail).rest)
  {
  }

  lemma {:induction false} SameFrame(rule: Rule, s: seq<u8>, t: seq<u8>, k: nat, start: nat, end: nat)
    requires k <= |s| && t == s[k..] && start + HEADER_SIZE <= end <= |t|
    requires FirstCut(rule, t) == Take(start, end) && FirstCut(rule, s) == Take(start + k, end + k)
    ensures Parse(rule, s) == Parse(rule, t)
  {
    SubOfTail(s, k, start + HEADER_SIZE, end);
    var f := Frame(t[start], t[start + HEADER_SIZE..end]);
    ParseTake(rule, s, start + k, end + k, f, t[end..]);
    ParseTake(rule, t, start, end, f, t[end..]);
  }

  // Equal first cuts, up to a dropped prefix, make equal parses.
  lemma {:induction false} SameCut(rule: Rule, s: seq<u8>, t: seq<u8>, k: nat)
    requires k <= |s| && t == s[k..]
    requires FirstCut(rule, s) == FirstCut(rule, t).Shift(k)
    ensures Parse(rule, s) == Parse(rule, t)
  {
    match FirstCut(rule, t)
    case Wait(from) =>
      SubOfTail(s, k, from, from);
    case Take(start, end) =>
      SameFrame(rule, s, t, k, start, end);
  }

  lemma {:induction false} AppendWhileWaiting(rule: Rule, a: seq<u8>, b: seq<u8>)
    requires FirstCut(rule, a).Wait?
    ensures Parse(rule, a).frames == []
    ensures Parse(rule, a + b) == Parse(rule, Parse(rule, a).rest + b)
  {
    var k := FirstCut(rule, a).from;
    DroppedIsNoise(rule, a, b);
    SameCut(rule, a + b, a[k..] + b, k);
  }

  // With and without more bytes, a complete first frame is taken out alike.
  lemma AppendAfterTake(rule: Rule, a: seq<u8>, b: seq<u8>) returns (f: Frame, tail: seq<u8>)
    requires FirstCut(rule, a).Take?
    ensures |tail| < |a|
    ensures Parse(rule, a) == Parsed([f] + Parse(rule, tail).frames, Parse(rule, tail).rest)
    ensures Parse(rule, a + b) == Parsed([f] + Parse(rule, tail + b).frames, Parse(rule, tail + b).rest)
  {
    var c := FirstCut(rule, a);
    f := Frame(a[c.start], a[c.start + HEADER_SIZE..c.end]);
    tail := a[c.end..];
    TakeIsFinal(rule, a, b);
    assert (a + b)[c.end..] == tail + b;
    assert (a + b)[c.start + HEADER_SIZE..c.end] == f.payload;
  }

  lemma {:induction false} PrependFrame(rule: Rule, a: seq<u8>, b: seq<u8>, f: Frame, tail: seq<u8>)
    requires Parse(rule, a) == Parsed([f] + Parse(rule, tail).frames, Parse(rule, tail).rest)
    requires Parse(rule, a + b) == Parsed([f] + Parse(rule, tail + b).frames, Parse(rule, tail + b).rest)
    requires Parse(rule, tail + b).frames
          == Parse(rule, tail).frames + Parse(rule, Parse(rule, tail).rest + b).frames
    ensures Parse(rule, a + b).frames == Parse(rule, a).frames + Parse(rule, Parse(rule, a).rest + b).frames
  {
    Assoc([f], Parse(rule, tail).frames, Parse(rule, Parse(rule, tail).rest + b).frames);
  }

  // Parsing is a monoid action: feeding a, keeping the remainder and then
  // feeding b yields what a + b yields at once, for every pair of byte strings.
  lemma {:induction false} ParseAppend(rule: Rule, a: seq<u8>, b: seq<u8>)
    ensures Parse(rule, a + b).frames == Parse(rule, a).frames + Parse(rule, Parse(rule, a).rest + b).frames
    ensures Parse(rule, a + b).rest == Parse(rule, Parse(rule, a).rest + b).rest
    decreases |a|
  {
    if FirstCut(rule, a).Take? {
      var f, tail := AppendAfterTake(rule, a, b);
      ParseAppend(rule, tail, b);
      PrependFrame(rule, a, b, f, tail);
    } else {
      AppendWhileWaiting(rule, a, b);
    }
  }

  function Concat<T>(chunks: seq<seq<T>>): seq<T>
  {
    if chunks == [] then [] else chunks[0] + Concat(chunks[1..])
  }

  // The receiver loop: each chunk is appended to the remainder and parsed.
  function FeedAll(rule: Rule, rest: seq<u8>, chunks: seq<seq<u8>>): Parsed
    decreases |chunks|
  {
    if chunks == [] then Parsed([], rest)
    else
      var p := Parse(rule, rest + chunks[0]);
      var q := FeedAll(rule, p.rest, chunks[1..]);
      Parsed(p.frames + q.frames, q.rest)
  }

  // A remainder is a string the parser has nothing to do to.
  lemma {:induction false} RestIsStable(rule: Rule, s: seq<u8>)
    ensures Parse(rule, Parse(rule, s).rest) == Parsed([], Parse(rule, s).rest)
  {
    ParseAppend(rule, s, []);
    assert s + [] == s && Parse(rule, s).rest + [] == Parse(rule, s).rest;
    assert |Parse(rule, s).frames| == |Parse(rule, s).frames| + |Parse(rule, Parse(rule, s).rest).frames|;
  }

  lemma {:induction false} FeedAllIsParse(rule: Rule, s: seq<u8>, chunks: seq<seq<u8>>)
    ensures Parse(rule, s).frames + FeedAll(rule, Parse(rule, s).rest, chunks).frames
            == Parse(rule, s + Concat(chunks)).frames
    ensures FeedAll(rule, Parse(rule, s).rest, chunks).rest == Parse(rule, s + Concat(chunks)).rest
    decreases |chunks|
  {
    if chunks == [] {
      assert s + Concat(chunks) == s;
    } else {
      FeedAllIsParse(rule, s + chunks[0], chunks[1..]);
      Assoc(s, chunks[0], Concat(chunks[1..]));
      FeedOne(rule, s, chunks);
    }
  }

  // The first chunk may as well have arrived with the bytes before it.
  lemma {:induction false} FeedOne(rule: Rule, s: seq<u8>, chunks: seq<seq<u8>>)
    requires chunks != []
    ensures Parse(rule, s).frames + FeedAll(rule, Parse(rule, s).rest, chunks).frames
            == Parse(rule, s + chunks[0]).frames + FeedAll(rule, Parse(rule, s + chunks[0]).rest, chunks[1..]).frames
    ensures FeedAll(rule, Parse(rule, s).rest, chunks).rest
            == FeedAll(rule, Parse(rule, s + chunks[0]).rest, chunks[1..]).rest
  {
    ParseAppend(rule, s, chunks[0]);
    var next := Parse(rule, Parse(rule, s).rest + chunks[0]);
    Assoc(Parse(rule, s).frames, next.frames, FeedAll(rule, next.rest, chunks[1..]).frames);
  }

  // Any two ways of cutting one byte stream dispatch the same frames.
  lemma {:induction false} ChunkingIndependent(rule: Rule, chunks: seq<seq<u8>>, chunks': seq<seq<u8>>)
    requires Concat(chunks) == Concat(chunks')
    ensures FeedAll(rule, [], chunks) == FeedAll(rule, [], chunks') == Parse(rule, Concat(chunks))
  {
    FeedAllIsParse(rule, [], chunks);
    FeedAllIsParse(rule, [], chunks');
    assert [] + Concat(chunks) == Concat(chunks);
    assert Parse(rule, []).frames + FeedAll(rule, [], chunks).frames == FeedAll(rule, [], chunks).frames;
    assert Parse(rule, []).frames + FeedAll(rule, [], chunks').frames == FeedAll(rule, [], chunks').frames;
  }

  function WireAll(frames: seq<Frame>): seq<u8>
    requires forall f :: f in frames ==> f.Sendable()
  {
    if frames == [] then [] else Wire(frames[0]) + WireAll(frames[1..])
  }

  // What is left of the padding of the last frame.
  ghost predicate OnlyPadding(rest: seq<u8>) {
    |rest| < HEADER_SIZE && forall b :: b in rest ==> b == 0
  }

  lemma ZeroStartsNoHeader(zero: u8, b1: u8, b2: u8, b3: u8)
    requires zero == 0
    ensures Announced(zero, b1, b2, b3) < 0
  {
    assert !FamilySupported(zero);
  }

  lemma {:induction false} WaitInPadding(rule: Rule, s: seq<u8>)
    requires forall b :: b in s ==> b == 0
    requires forall zero: u8 :: zero == 0 ==> rule(zero, zero, zero, zero) < 0
    ensures Parse(rule, s).frames == [] && OnlyPadding(Parse(rule, s).rest)
  {
    forall i | 0 <= i && i + HEADER_SIZE <= |s| ensures At(rule, s, i) < 0 {
      var zero := s[i];
      assert zero in s && s[i + 1] in s && s[i + 2] in s && s[i + 3] in s;
      assert rule(zero, zero, zero, zero) < 0;
    }
    var from := FirstCut(rule, s).from;
    assert Parse(rule, s) == Parsed([], s[from..]);
    forall b | b in s[from..] ensures b == 0 { assert b in s; }
  }

  lemma ParsePadding(pad: nat)
    ensures Parse(Announced, Zeros(pad)).frames == [] && OnlyPadding(Parse(Announced, Zeros(pad)).rest)
  {
    forall zero: u8 | zero == 0 ensures Announced(zero, zero, zero, zero) < 0 {
      ZeroStartsNoHeader(zero, zero, zero, zero);
    }
    WaitInPadding(Announced, Zeros(pad));
  }

  lemma {:induction false} WireAllNext(pad: nat, frames: seq<Frame>)
    requires frames != [] && forall f :: f in frames ==> f.Sendable()
    ensures Zeros(pad) + WireAll(frames) == Zeros(pad) + Wire(frames[0]) + WireAll(frames[1..])
  {
    Assoc(Zeros(pad), Wire(frames[0]), WireAll(frames[1..]));
  }

  lemma {:induction false} ParsePaddedWire(pad: nat, frames: seq<Frame>)
    requires forall f :: f in frames ==> f.Sendable()
    ensures Parse(Announced, Zeros(pad) + WireAll(frames)).frames == frames
    ensures OnlyPadding(Parse(Announced, Zeros(pad) + WireAll(frames)).rest)
    decreases |frames|
  {
    if frames == [] {
      assert Zeros(pad) + WireAll(frames) == Zeros(pad);
      ParsePadding(pad);
    } else {
      assert frames[0] in frames;
      var inner := Padding(|frames[0].payload|);
      ParsePaddedWire(inner, frames[1..]);
      FirstFrameOfWire(pad, frames[0], WireAll(frames[1..]));
      WireAllNext(pad, frames);
      Prepended(frames, Parse(Announced, Zeros(inner) + WireAll(frames[1..])).frames);
    }
  }

  lemma Prepended(frames: seq<Frame>, tail: seq<Frame>)
    requires frames != [] && tail == frames[1..]
    ensures [frames[0]] + tail == frames
  {
  }

  function Padding(payloadLength: nat): nat
    requires payloadLength <= MAX_PAYLOAD
  {
    WireSize(payloadLength) - HEADER_SIZE - payloadLength
  }

  lemma {:induction false} FirstFrameOfWire(pad: nat, f: Frame, tail: seq<u8>)
    requires f.Sendable()
    ensures var p := Parse(Announced, Zeros(Padding(|f.payload|)) + tail);
            Parse(Announced, Zeros(pad) + Wire(f) + tail) == Parsed([f] + p.frames, p.rest)
  {
    var s := Zeros(pad) + Wire(f) + tail;
    FirstCutOfWire(pad, f, tail);
    SplitWire(pad, f, tail);
    ParseTake(Announced, s, pad, pad + HEADER_SIZE + |f.payload|, f, Zeros(Padding(|f.payload|)) + tail);
  }

  lemma SplitWire(pad: nat, f: Frame, tail: seq<u8>)
    requires f.Sendable()
    ensures var s := Zeros(pad) + Wire(f) + tail;
            var end := pad + HEADER_SIZE + |f.payload|;
            && s[pad] == f.typeFlags
            && s[pad + HEADER_SIZE..end] == f.payload
            && s[end..] == Zeros(Padding(|f.payload|)) + tail
  {
  }

  lemma HeaderAt(pad: nat, f: Frame, tail: seq<u8>)
    requires f.Sendable()
    ensures At(Announced, Zeros(pad) + Wire(f) + tail, pad) == |f.payload|
  {
    var s, h := Zeros(pad) + Wire(f) + tail, Header(f.typeFlags, |f.payload|);
    assert s[pad] == h[0] && s[pad + 1] == h[1] && s[pad + 2] == h[2] && s[pad + 3] == h[3];
    HeaderAnnouncesLength(f.typeFlags, |f.payload|);
  }

  lemma FirstCutOfWire(pad: nat, f: Frame, tail: seq<u8>)
    requires f.Sendable()
    ensures var s := Zeros(pad) + Wire(f) + tail;
            FirstCut(Announced, s) == Take(pad, pad + HEADER_SIZE + |f.payload|)
  {
    var s := Zeros(pad) + Wire(f) + tail;
    forall i | 0 <= i < pad ensures At(Announced, s, i) < 0 {
      assert s[i] == 0;
      ZeroStartsNoHeader(s[i], s[i + 1], s[i + 2], s[i + 3]);
    }
    HeaderAt(pad, f, tail);
    FirstHeaderIs(Announced, s, pad);
  }

  // Framing is inverted: whatever list of frames is built, padded, sent
  // back to back and received in whatever pieces, exactly that list comes out.
  lemma ReceiveInvertsSend(frames: seq<Frame>, chunks: seq<seq<u8>>)
    requires forall f :: f in frames ==> f.Sendable()
    requires Concat(chunks) == WireAll(frames)
    ensures FeedAll(Announced, [], chunks).frames == frames
    ensures OnlyPadding(FeedAll(Announced, [], chunks).rest)
  {
    ChunkingIndependent(Announced, chunks, chunks);
    ParsePaddedWire(0, frames);
    assert Zeros(0) + WireAll(frames) == WireAll(frames);
  }

  // A transfer always fits behind a remainder, so the reset in the feeder
  // cannot fire from the receive loop.
  lemma TransferAlwaysFits(s: seq<u8>, chunk: seq<u8>)
    requires |chunk| <= TRANSFER_CAPACITY
    ensures |Parse(Announced, s).rest + chunk| <= STREAM_CAPACITY
  {
  }
}
