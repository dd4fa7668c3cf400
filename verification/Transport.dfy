// Outer USB framing: a four-byte checksummed header, a payload, and zero
// padding up to a multiple of the 64-byte USB block.
module Transport {
  import opened Words

  const HEADER_SIZE: nat := 4
  const MAX_PAYLOAD: nat := 0x6bff
  const BLOCK_SIZE: nat := 64

  const COMMAND: u8 := 0xa0
  const TLS: u8 := 0xb0
  const NOTICE: u8 := 0xc0

  // A decoded outer frame; the family is the high nibble of the type byte.
  datatype Frame = Frame(typeFlags: u8, payload: seq<u8>) {
    function Family(): u8 { typeFlags - typeFlags % 16 }

    predicate Sendable() {
      FamilySupported(typeFlags) && |payload| <= MAX_PAYLOAD
    }
  }

  predicate FamilySupported(typeFlags: u8) {
    var family := typeFlags - typeFlags % 16;
    family == COMMAND || family == TLS || family == NOTICE
  }

  function Low(length: u16): u8 { length % 0x100 }
  function High(length: u16): u8 { length / 0x100 }

  function ByteSum(a: u8, b: u8, c: u8): u8 { (a as int + b as int + c as int) % 0x100 }

  function Checksum(typeFlags: u8, length: u16): u8 { ByteSum(typeFlags, Low(length), High(length)) }

  // Zero when the payload is too long, otherwise header and payload rounded up.
  function WireSize(payloadLength: nat): (n: nat)
    ensures n == 0 <==> payloadLength > MAX_PAYLOAD
    ensures n != 0 ==>
              n % BLOCK_SIZE == 0 && HEADER_SIZE + payloadLength <= n < HEADER_SIZE + payloadLength + BLOCK_SIZE
  {
    if payloadLength > MAX_PAYLOAD then 0
    else
      var logical := HEADER_SIZE + payloadLength;
      var remainder := logical % BLOCK_SIZE;
      if remainder == 0 then logical else logical + BLOCK_SIZE - remainder
  }

  function Length(low: u8, high: u8): u16 { (low as int) + 0x100 * (high as int) }

  lemma LengthBytes(low: u8, high: u8)
    ensures Low(Length(low, high)) == low && High(Length(low, high)) == high
  {
  }

  lemma BytesLength(n: u16)
    ensures Length(Low(n), High(n)) == n
  {
  }

  // Payload length announced by four bytes, or -1 when they are no header:
  // supported family, sane length, right checksum.
  type Announcement = x: int | -1 <= x <= MAX_PAYLOAD

  function Announced(b0: u8, b1: u8, b2: u8, b3: u8): Announcement {
    var length := Length(b1, b2);
    if FamilySupported(b0) && length <= MAX_PAYLOAD && b3 == ByteSum(b0, b1, b2) then length else -1
  }

  // The last byte is the checksum of the type and the announced length.
  lemma AnnouncedChecksum(b0: u8, b1: u8, b2: u8, b3: u8)
    requires Announced(b0, b1, b2, b3) >= 0
    ensures b3 == Checksum(b0, Announced(b0, b1, b2, b3))
  {
    LengthBytes(b1, b2);
  }

  function Header(typeFlags: u8, length: u16): (h: seq<u8>)
    ensures |h| == HEADER_SIZE
  {
    [typeFlags, Low(length), High(length), Checksum(typeFlags, length)]
  }

  // The bytes that go over the wire for a frame.
  function Wire(f: Frame): (w: seq<u8>)
    requires f.Sendable()
    ensures |w| == WireSize(|f.payload|)
  {
    Header(f.typeFlags, |f.payload|) + f.payload +
    Zeros(WireSize(|f.payload|) - HEADER_SIZE - |f.payload|)
  }

  function Decode(s: seq<u8>): (r: Result<Frame, Status>)
  {
    if |s| < HEADER_SIZE then Err(InvalidParam)
    else
      var length := Announced(s[0], s[1], s[2], s[3]);
      if length < 0 || HEADER_SIZE + length > |s| then Err(Io)
      else Ok(Frame(s[0], s[HEADER_SIZE..HEADER_SIZE + length]))
  }

  lemma HeaderAnnouncesLength(typeFlags: u8, length: u16)
    requires FamilySupported(typeFlags) && length <= MAX_PAYLOAD
    ensures var h := Header(typeFlags, length); Announced(h[0], h[1], h[2], h[3]) == length
  {
    BytesLength(length);
  }

  // The first four bytes of a wire image, however it is cut behind them.
  lemma HeaderInFront(f: Frame, tail: seq<u8>, cut: nat)
    requires f.Sendable() && HEADER_SIZE <= cut <= |Wire(f) + tail|
    ensures var s := (Wire(f) + tail)[..cut]; s[0] == f.typeFlags && Announced(s[0], s[1], s[2], s[3]) == |f.payload|
  {
    var s, h := (Wire(f) + tail)[..cut], Header(f.typeFlags, |f.payload|);
    HeaderAnnouncesLength(f.typeFlags, |f.payload|);
    assert s[0] == h[0] && s[1] == h[1] && s[2] == h[2] && s[3] == h[3];
  }

  lemma DecodeAnnounced(s: seq<u8>, length: nat)
    requires |s| >= HEADER_SIZE && Announced(s[0], s[1], s[2], s[3]) == length
    ensures Decode(s) == if HEADER_SIZE + length > |s| then Err(Io)
                         else Ok(Frame(s[0], s[HEADER_SIZE..HEADER_SIZE + length]))
  {
  }

  lemma WireShape(f: Frame) returns (padding: seq<u8>)
    requires f.Sendable()
    ensures Wire(f) == Header(f.typeFlags, |f.payload|) + f.payload + padding
  {
    padding := Zeros(WireSize(|f.payload|) - HEADER_SIZE - |f.payload|);
  }

  lemma MiddlePart(a: seq<u8>, b: seq<u8>, c: seq<u8>, d: seq<u8>)
    ensures (a + b + c + d)[|a|..|a| + |b|] == b
  {
  }

  lemma DecodeParts(w: seq<u8>, f: Frame)
    requires HEADER_SIZE + |f.payload| <= |w| && w[0] == f.typeFlags
    requires Announced(w[0], w[1], w[2], w[3]) == |f.payload|
    requires w[HEADER_SIZE..HEADER_SIZE + |f.payload|] == f.payload
    ensures Decode(w) == Ok(f)
  {
    DecodeAnnounced(w, |f.payload|);
  }

  lemma DecodeWhole(f: Frame, tail: seq<u8>)
    requires f.Sendable()
    ensures Decode(Wire(f) + tail) == Ok(f)
  {
    var w := Wire(f) + tail;
    assert w[..|w|] == w;
    HeaderInFront(f, tail, |w|);
    var padding := WireShape(f);
    MiddlePart(Header(f.typeFlags, |f.payload|), f.payload, padding, tail);
    DecodeParts(w, f);
  }

  lemma DecodeCut(f: Frame, cut: nat)
    requires f.Sendable() && cut < HEADER_SIZE + |f.payload|
    ensures Decode(Wire(f)[..cut]).Err?
  {
    if cut >= HEADER_SIZE {
      var c := (Wire(f) + [])[..cut];
      HeaderInFront(f, [], cut);
      DecodeAnnounced(c, |f.payload|);
      assert Wire(f)[..cut] == c;
    }
  }

  // Decoding a wire image yields the frame, whatever follows it, and cutting
  // the image anywhere inside the header or the payload makes decoding fail.
  lemma DecodeInvertsBuild(f: Frame, tail: seq<u8>, cut: nat)
    requires f.Sendable()
    requires cut < HEADER_SIZE + |f.payload|
    ensures Decode(Wire(f) + tail) == Ok(f)
    ensures Decode(Wire(f)[..cut]).Err?
  {
    DecodeWhole(f, tail);
    DecodeCut(f, cut);
  }

  lemma ByteSumTellsOne(a: u8, b: u8, c: u8, d: u8)
    ensures ByteSum(a, b, c) == ByteSum(a, b, d) ==> c == d
    ensures ByteSum(a, c, b) == ByteSum(a, d, b) ==> c == d
    ensures ByteSum(c, a, b) == ByteSum(d, a, b) ==> c == d
  {
  }

  // Of two valid headers, neither is a corruption of a single byte of the other.
  lemma HeaderByteErrorDetected(b0: u8, b1: u8, b2: u8, b3: u8, x0: u8, x1: u8, x2: u8, x3: u8)
    requires Announced(b0, b1, b2, b3) >= 0 && Announced(x0, x1, x2, x3) >= 0
    requires (b0 == x0 && b1 == x1) || (b0 == x0 && b2 == x2) || (b1 == x1 && b2 == x2)
    requires b3 == x3 || (b0 == x0 && b1 == x1 && b2 == x2)
    ensures b0 == x0 && b1 == x1 && b2 == x2 && b3 == x3
  {
    if b0 == x0 && b1 == x1 { ByteSumTellsOne(b0, b1, b2, x2); }
    else if b0 == x0 { ByteSumTellsOne(b0, b2, b1, x1); }
    else { ByteSumTellsOne(b1, b2, b0, x0); }
  }

  // The parts of a written buffer, place by place.
  lemma JoinParts(now: seq<u8>, header: seq<u8>, payload: seq<u8>, wire: nat, rest: seq<u8>)
    requires |header| + |payload| <= wire && |now| == wire + |rest|
    requires forall k :: 0 <= k < |header| ==> now[k] == header[k]
    requires forall k :: 0 <= k < |payload| ==> now[|header| + k] == payload[k]
    requires forall k :: |header| + |payload| <= k < wire ==> now[k] == 0
    requires forall k :: 0 <= k < |rest| ==> now[wire + k] == rest[k]
    ensures now == header + payload + Zeros(wire - |header| - |payload|) + rest
  {
  }

  method WriteFrame(header: seq<u8>, payload: seq<u8>, wire: nat, output: array<u8>)
    requires |header| == HEADER_SIZE && HEADER_SIZE + |payload| <= wire <= output.Length
    modifies output
    ensures output[..] == header + payload + Zeros(wire - HEADER_SIZE - |payload|) + old(output[..])[wire..]
  {
    forall k | 0 <= k < wire { output[k] := 0; }
    forall k | 0 <= k < HEADER_SIZE { output[k] := header[k]; }
    forall k | 0 <= k < |payload| { output[HEADER_SIZE + k] := payload[k]; }
    JoinParts(output[..], header, payload, wire, old(output[..])[wire..]);
  }

  // Fills a caller's buffer; nothing is written unless the frame fits.
  method OuterBuild(typeFlags: u8, payload: seq<u8>, output: array<u8>)
    returns (r: Result<(nat, nat), Status>)
    modifies output
    ensures !Frame(typeFlags, payload).Sendable() ==> r == Err(InvalidParam)
    ensures Frame(typeFlags, payload).Sendable() && output.Length < WireSize(|payload|) ==> r == Err(Overflow)
    ensures r.Err? ==> output[..] == old(output[..])
    ensures Frame(typeFlags, payload).Sendable() && output.Length >= WireSize(|payload|) ==>
      && r == Ok((HEADER_SIZE + |payload|, WireSize(|payload|)))
      && output[..] == Wire(Frame(typeFlags, payload)) + old(output[..])[WireSize(|payload|)..]
  {
    if !FamilySupported(typeFlags) || |payload| > MAX_PAYLOAD {
      return Err(InvalidParam);
    }
    var wire := WireSize(|payload|);
    if output.Length < wire {
      return Err(Overflow);
    }
    WriteFrame(Header(typeFlags, |payload|), payload, wire, output);
    r := Ok((HEADER_SIZE + |payload|, wire));
  }

  // Seen as bytes: type, length with the low byte first, the sum of the three
  // modulo 256, the payload, and zeros up to a whole number of blocks.
  lemma WireBytes(f: Frame)
    requires f.Sendable()
    ensures var w, n := Wire(f), |f.payload|;
            && w[0] == f.typeFlags && w[1] as int + 0x100 * w[2] as int == n
            && w[3] as int == (w[0] as int + w[1] as int + w[2] as int) % 0x100
            && w[4..4 + n] == f.payload && w[4 + n..] == Zeros(|w| - 4 - n)
            && |w| % 64 == 0 && |w| < 4 + n + 64
  {
    var h := Header(f.typeFlags, |f.payload|);
    var zeros := Zeros(WireSize(|f.payload|) - HEADER_SIZE - |f.payload|);
    HeaderNumbers(f.typeFlags, |f.payload|, h);
    WholeBlocks(|f.payload|);
    HeaderBytes(h, f.payload, zeros);
  }

  lemma HeaderNumbers(typeFlags: u8, length: u16, h: seq<u8>)
    requires h == Header(typeFlags, length)
    ensures h[0] == typeFlags && h[1] as int + 0x100 * h[2] as int == length as int
    ensures h[3] as int == (h[0] as int + h[1] as int + h[2] as int) % 0x100
  {
    BytesLength(length);
  }

  lemma WholeBlocks(n: nat)
    requires n <= MAX_PAYLOAD
    ensures WireSize(n) % 64 == 0 && WireSize(n) < 4 + n + 64
  {
  }

  lemma HeaderBytes(h: seq<u8>, payload: seq<u8>, zeros: seq<u8>)
    requires |h| == 4
    ensures var w := h + payload + zeros;
            && w[0] == h[0] && w[1] == h[1] && w[2] == h[2] && w[3] == h[3]
            && w[4..4 + |payload|] == payload && w[4 + |payload|..] == zeros
  {
  }
}
