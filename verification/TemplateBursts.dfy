// Error detection of the template format: the checksum together with the zero
// words on both sides of its field.
module TemplateBursts {
  import opened Words
  import opened LittleEndian
  import opened Template
  import opened Crc

  // One bit of a byte string.
  function Bit(s: seq<u8>, i: nat): bool
    requires i < 8 * |s|
  {
    BitsOf(s)[i]
  }

  // A bit by its byte and its place there.
  lemma BitInByte(s: seq<u8>, j: nat, r: nat)
    requires j < |s| && r < 8
    ensures Bit(s, 8 * j + r) == ToBits(s[j], 8)[r]
  {
    BitsOfByteAt(s, j);
    assert BitsOf(s)[8 * j..8 * j + 8][r] == BitsOf(s)[8 * j + r];
  }

  lemma SameByteSameBit(s: seq<u8>, t: seq<u8>, i: nat)
    requires i < 8 * |s| && i < 8 * |t| && s[i / 8] == t[i / 8]
    ensures Bit(s, i) == Bit(t, i)
  {
    BitInByte(s, i / 8, i % 8);
    BitInByte(t, i / 8, i % 8);
  }

  // Bytes outside the window are equal.
  lemma ByteOutsideWindow(s: seq<u8>, t: seq<u8>, k: nat, j: nat)
    requires DifferOnlyWithin(s, t, k) && j < |s|
    requires 8 * j + 8 <= k || k + WIDTH <= 8 * j
    ensures s[j] == t[j]
  {
    SameSlices(BitsOf(s), BitsOf(t), 8 * j, 8 * j + 8);
    SameByteSameBits(s, t, j);
  }

  lemma SameSlices(a: Bits, b: Bits, i: nat, j: nat)
    requires i <= j <= |a| == |b| && forall k :: i <= k < j ==> a[k] == b[k]
    ensures a[i..j] == b[i..j]
  {
  }

  predicate InField(j: int) { CRC_OFFSET <= j < CRC_OFFSET + 4 }

  lemma BlankedAt(b: seq<u8>, j: nat)
    requires |b| >= HEADER_BYTES && j < |b|
    ensures Blanked(b)[j] == if InField(j) then 0 else b[j]
  {
  }

  lemma BlankedDifferWithin(b: seq<u8>, c: seq<u8>, k: nat)
    requires |b| == |c| >= HEADER_BYTES && DifferOnlyWithin(b, c, k)
    ensures DifferOnlyWithin(Blanked(b), Blanked(c), k)
  {
    forall i | 0 <= i < 8 * |b| && !(k <= i < k + WIDTH)
      ensures BitsOf(Blanked(b))[i] == BitsOf(Blanked(c))[i]
    {
      BlankedBit(b, c, i);
    }
  }

  lemma BlankedBit(b: seq<u8>, c: seq<u8>, i: nat)
    requires |b| == |c| >= HEADER_BYTES && i < 8 * |b| && Bit(b, i) == Bit(c, i)
    ensures Bit(Blanked(b), i) == Bit(Blanked(c), i)
  {
    BlankedAt(b, i / 8);
    BlankedAt(c, i / 8);
    if InField(i / 8) {
      SameByteSameBit(Blanked(b), Blanked(c), i);
    } else {
      SameByteSameBit(Blanked(b), b, i);
      SameByteSameBit(Blanked(c), c, i);
    }
  }

  // What acceptance says about the header: the checksum, and zero words before
  // and after its field.
  ghost predicate Guarded(b: seq<u8>) {
    && |b| >= HEADER_BYTES && HeaderWord(b, 16) == TemplateCrc(b)
    && ReadWord(b, 68) == 0 && ReadWord(b, 76) == 0
  }

  lemma SameWordSameBytes(b: seq<u8>, c: seq<u8>, offset: nat)
    requires offset + 4 <= |b| && offset + 4 <= |c| && ReadWord(b, offset) == ReadWord(c, offset)
    ensures b[offset..offset + 4] == c[offset..offset + 4]
  {
    WriteRead(b, offset);
    WriteRead(c, offset);
  }

  lemma SameSliceSameByte(b: seq<u8>, c: seq<u8>, offset: nat, j: nat)
    requires offset + 4 <= |b| && offset + 4 <= |c| && b[offset..offset + 4] == c[offset..offset + 4]
    requires offset <= j < offset + 4
    ensures b[j] == c[j]
  {
    assert b[j] == b[offset..offset + 4][j - offset] && c[j] == c[offset..offset + 4][j - offset];
  }

  lemma SameWordSameByte(b: seq<u8>, c: seq<u8>, offset: nat, j: nat)
    requires offset + 4 <= |b| && offset + 4 <= |c| && ReadWord(b, offset) == ReadWord(c, offset)
    requires offset <= j < offset + 4
    ensures b[j] == c[j]
  {
    SameWordSameBytes(b, c, offset);
    SameSliceSameByte(b, c, offset, j);
  }

  lemma AcceptedIsGuarded(b: seq<u8>)
    requires Decode(b).Ok?
    ensures Guarded(b)
  {
    assert HeaderWord(b, 15) == 0 && HeaderWord(b, 17) == 0;
  }

  // A damaged byte outside the three words keeps the window off the field.
  lemma FieldIntact(b: seq<u8>, c: seq<u8>, k: nat, j: nat)
    requires |b| == |c| >= HEADER_BYTES && DifferOnlyWithin(b, c, k)
    requires j < |b| && b[j] != c[j] && !(68 <= j < 80)
    ensures HeaderWord(b, 16) == HeaderWord(c, 16)
  {
    if 8 * j + 8 <= k || k + WIDTH <= 8 * j {
      ByteOutsideWindow(b, c, k, j);
    }
    ByteOutsideWindow(b, c, k, 72);
    ByteOutsideWindow(b, c, k, 73);
    ByteOutsideWindow(b, c, k, 74);
    ByteOutsideWindow(b, c, k, 75);
    assert b[72..76] == c[72..76];
  }

  lemma DamageInsideField(b: seq<u8>, c: seq<u8>)
    requires |b| == |c| >= HEADER_BYTES && HeaderWord(b, 16) == HeaderWord(c, 16)
    requires forall j :: 0 <= j < |b| && !InField(j) ==> b[j] == c[j]
    ensures b == c
  {
    forall j | 0 <= j < |b| ensures b[j] == c[j] {
      if InField(j) { SameWordSameByte(b, c, 72, j); }
    }
  }

  lemma DamageOutsideField(b: seq<u8>, c: seq<u8>, k: nat, j: nat)
    requires |b| == |c| >= HEADER_BYTES && DifferOnlyWithin(b, c, k)
    requires j < |b| && b[j] != c[j] && !InField(j)
    ensures TemplateCrc(b) != TemplateCrc(c)
  {
    BlankedDifferWithin(b, c, k);
    BlankedAt(b, j);
    BlankedAt(c, j);
    SameByteSameBits(Blanked(b), Blanked(c), j);
    BurstChangesCrc(Blanked(b), Blanked(c), k);
  }

  // Of two guarded strings neither is a burst away from the other.
  lemma GuardedBurst(b: seq<u8>, c: seq<u8>, k: nat)
    requires Guarded(b) && Guarded(c) && DifferOnlyWithin(b, c, k)
    ensures b == c
  {
    if j :| 0 <= j < |b| && !InField(j) && b[j] != c[j] {
      if 68 <= j < 80 {
        SameWordSameByte(b, c, if j < 72 then 68 else 76, j);
      }
      FieldIntact(b, c, k, j);
      DamageOutsideField(b, c, k, j);
    } else {
      ChecksumsAgree(b, c);
      DamageInsideField(b, c);
    }
  }

  // Whatever burst of at most 32 bits damages an accepted template, wherever it
  // falls, the checksum field included, the damaged string is rejected.
  lemma BurstRejected(b: seq<u8>, c: seq<u8>, k: nat)
    requires Decode(b).Ok?
    requires DifferOnlyWithin(b, c, k) && b != c
    ensures Decode(c).Err?
  {
    AcceptedIsGuarded(b);
    if Decode(c).Ok? {
      AcceptedIsGuarded(c);
      GuardedBurst(b, c, k);
    }
  }

  lemma ChecksumsAgree(b: seq<u8>, c: seq<u8>)
    requires |b| == |c| >= HEADER_BYTES
    requires forall j :: 0 <= j < |b| && !InField(j) ==> b[j] == c[j]
    ensures TemplateCrc(b) == TemplateCrc(c)
  {
    forall j | 0 <= j < |b| ensures Blanked(b)[j] == Blanked(c)[j] {
      BlankedAt(b, j);
      BlankedAt(c, j);
    }
    assert Blanked(b) == Blanked(c);
  }
}
