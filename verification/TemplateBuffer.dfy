// Serialization into a caller's buffer and the reader's loop over samples, each
// proved equal to the format functions.
module TemplateBuffer {
  import opened Words
  import opened LittleEndian
  import opened Template
  import opened TemplateTheorems
  import opened Crc

  // The bytes from `end` on are untouched.
  twostate predicate KeptFrom(b: array<u8>, end: nat)
    reads b
  {
    forall k :: end <= k < b.Length ==> b[k] == old(b[k])
  }

  method PutBytes(b: array<u8>, offset: nat, data: seq<u8>)
    requires offset + |data| <= b.Length
    modifies b
    ensures b[..offset + |data|] == old(b[..offset]) + data && KeptFrom(b, offset + |data|)
  {
    forall k | 0 <= k < |data| { b[offset + k] := data[k]; }
  }

  method PutWord(b: array<u8>, offset: nat, w: u32)
    requires offset + 4 <= b.Length
    modifies b
    ensures b[..offset + 4] == old(b[..offset]) + Le(w) && KeptFrom(b, offset + 4)
  {
    b[offset] := w % 0x100;
    b[offset + 1] := w / 0x100 % 0x100;
    b[offset + 2] := w / 0x1_0000 % 0x100;
    b[offset + 3] := w / 0x100_0000;
  }

  method PutWords(b: array<u8>, offset: nat, ws: seq<u32>)
    requires offset + 4 * |ws| <= b.Length
    modifies b
    ensures b[..offset + 4 * |ws|] == old(b[..offset]) + Bytes(ws) && KeptFrom(b, offset + 4 * |ws|)
  {
    ghost var before := b[..offset];
    assert before + Bytes([]) == before;
    for i := 0 to |ws|
      invariant b[..offset + 4 * i] == before + Bytes(ws[..i])
      invariant KeptFrom(b, offset + 4 * |ws|)
    {
      PutWord(b, offset + 4 * i, ws[i]);
      BytesSnoc(ws, i);
      Assoc(before, Bytes(ws[..i]), Le(ws[i]));
    }
    assert ws[..|ws|] == ws;
  }

  lemma BytesSnoc(ws: seq<u32>, i: nat)
    requires i < |ws|
    ensures Bytes(ws[..i + 1]) == Bytes(ws[..i]) + Le(ws[i])
  {
    BytesAt(ws[..i + 1], i);
    assert ws[..i + 1][..i] == ws[..i] && ws[..i + 1][i + 1..] == [];
  }

  method PutSample(b: array<u8>, offset: nat, s: Sample)
    requires s.Sized() && offset + SampleSize(s) <= b.Length
    modifies b
    ensures b[..offset + SampleSize(s)] == old(b[..offset]) + SampleBytes(s) && KeptFrom(b, offset + SampleSize(s))
  {
    ghost var before, ws := b[..offset], Bytes(SampleWords(s));
    PutWords(b, offset, SampleWords(s));
    PutBytes(b, offset + SAMPLE_HEADER_BYTES, s.records);
    PutBytes(b, offset + SAMPLE_HEADER_BYTES + |s.records|, s.packedMap);
    Assoc(before, ws, s.records);
    Assoc(before, ws + s.records, s.packedMap);
  }

  lemma SamplesBytesSnoc(ss: seq<Sample>, i: nat)
    requires i < |ss| && forall s :: s in ss ==> s.Sized()
    ensures SamplesBytes(ss[..i + 1]) == SamplesBytes(ss[..i]) + SampleBytes(ss[i])
    decreases i
  {
    assert ss[i] in ss && ss[0] in ss;
    if i == 0 {
      assert ss[..1] == [ss[0]];
      assert SampleBytes(ss[0]) + SamplesBytes([]) == SampleBytes(ss[0]);
    } else {
      SamplesBytesSnoc(ss[1..], i - 1);
      assert ss[..i + 1][1..] == ss[1..][..i] && ss[..i][1..] == ss[1..][..i - 1];
      Assoc(SampleBytes(ss[0]), SamplesBytes(ss[1..][..i - 1]), SampleBytes(ss[i]));
    }
  }

  lemma {:induction false} SamplesSizeSplit(ss: seq<Sample>, i: nat)
    requires i < |ss|
    ensures SamplesSize(ss[..i + 1]) == SamplesSize(ss[..i]) + SampleSize(ss[i])
    ensures SamplesSize(ss[..i + 1]) <= SamplesSize(ss)
    decreases i
  {
    if i == 0 {
      assert ss[..1] == [ss[0]] && ss[..1][1..] == [];
    } else {
      SamplesSizeSplit(ss[1..], i - 1);
      assert ss[..i + 1][1..] == ss[1..][..i] && ss[..i][1..] == ss[1..][..i - 1];
    }
  }

  method PutSamples(b: array<u8>, start: nat, ss: seq<Sample>) returns (offset: nat)
    requires forall s :: s in ss ==> s.Sized()
    requires start + SamplesSize(ss) <= b.Length
    modifies b
    ensures offset == start + SamplesSize(ss)
    ensures b[..offset] == old(b[..start]) + SamplesBytes(ss) && KeptFrom(b, offset)
  {
    offset := start;
    ghost var before := b[..start];
    assert before + SamplesBytes(ss[..0]) == before;
    for i := 0 to |ss|
      invariant offset == start + SamplesSize(ss[..i]) <= b.Length
      invariant b[..offset] == before + SamplesBytes(ss[..i])
      invariant KeptFrom(b, start + SamplesSize(ss))
    {
      offset := PutNext(b, offset, ss, i, before);
    }
    assert ss[..|ss|] == ss;
  }

  method PutNext(b: array<u8>, offset: nat, ss: seq<Sample>, i: nat, ghost before: seq<u8>) returns (next: nat)
    requires forall s :: s in ss ==> s.Sized()
    requires i < |ss| && offset <= b.Length && b[..offset] == before + SamplesBytes(ss[..i])
    requires offset - SamplesSize(ss[..i]) + SamplesSize(ss) <= b.Length
    modifies b
    ensures next == offset + SampleSize(ss[i]) && SamplesSize(ss[..i + 1]) == SamplesSize(ss[..i]) + SampleSize(ss[i])
    ensures next <= offset - SamplesSize(ss[..i]) + SamplesSize(ss)
    ensures b[..next] == before + SamplesBytes(ss[..i + 1]) && KeptFrom(b, next)
  {
    assert ss[i] in ss;
    SamplesSizeSplit(ss, i);
    SamplesBytesSnoc(ss, i);
    PutSample(b, offset, ss[i]);
    Assoc(before, SamplesBytes(ss[..i]), SampleBytes(ss[i]));
    next := offset + SampleSize(ss[i]);
  }

  lemma RegisterPrefix(s: seq<u8>, i: nat)
    requires i < |s|
    ensures Register(s[..i + 1]) == Absorb(Register(s[..i]), s[i])
  {
    assert s[..i + 1][..i] == s[..i];
  }

  lemma BlankedByte(b: seq<u8>, j: nat)
    requires |b| >= HEADER_BYTES && j < |b|
    ensures Blanked(b)[j] == if CRC_OFFSET <= j < CRC_OFFSET + 4 then 0 else b[j]
  {
  }

  method AbsorbNext(register: Bits, bytes: seq<u8>, index: nat) returns (next: Bits)
    requires |bytes| >= HEADER_BYTES && index < |bytes|
    requires register == Register(Blanked(bytes)[..index])
    ensures |next| == WIDTH && next == Register(Blanked(bytes)[..index + 1])
  {
    var value := bytes[index];
    if CRC_OFFSET <= index < CRC_OFFSET + 4 { value := 0; }
    BlankedByte(bytes, index);
    RegisterPrefix(Blanked(bytes), index);
    next := AbsorbByte(register, value);
  }

  // The checksum loop, which reads its own field as zero.
  method ComputeTemplateCrc(bytes: seq<u8>) returns (crc: u32)
    requires |bytes| >= HEADER_BYTES
    ensures crc == TemplateCrc(bytes)
  {
    var register := ONES;
    ghost var blanked := Blanked(bytes);
    for index := 0 to |bytes|
      invariant |register| == WIDTH && register == Register(blanked[..index])
    {
      register := AbsorbNext(register, bytes, index);
    }
    assert blanked[..|bytes|] == blanked;
    crc := Crc.Value(register);
  }

  lemma StoreCrc(e: Enrolled, crc: u32)
    requires Writable(e)
    ensures Image(e, 0)[..CRC_OFFSET] + Le(crc) + Image(e, 0)[CRC_OFFSET + 4..] == Image(e, crc)
  {
    var ws, zs := HeaderWords(e, TotalSize(e), crc), HeaderWords(e, TotalSize(e), 0);
    CutAtCrc(zs, 0, SamplesBytes(e.samples));
    assert ws[..16] == zs[..16] && ws[17..] == zs[17..];
    BytesAt(ws, 16);
  }

  method PutImage(b: array<u8>, e: Enrolled, total: u32)
    requires Writable(e) && total == TotalSize(e) && total as nat <= b.Length
    modifies b
    ensures b[..total] == Image(e, 0) && KeptFrom(b, total)
  {
    forall k | 0 <= k < total { b[k] := 0; }
    PutBytes(b, 0, MAGIC);
    assert b[..8] == MAGIC;
    PutWords(b, 8, HeaderWords(e, total, 0));
    var offset := PutSamples(b, HEADER_BYTES, e.samples);
  }

  method Fill(b: array<u8>, e: Enrolled, total: u32)
    requires Writable(e) && total == TotalSize(e) && total as nat <= b.Length
    modifies b
    ensures b[..total] == Encode(e) && KeptFrom(b, total)
  {
    PutImage(b, e, total);
    var crc := ComputeTemplateCrc(b[..total]);
    StoreCrc(e, crc);
    StoreField(b, total, crc, Image(e, 0));
  }

  lemma JoinKept(now: seq<u8>, was: seq<u8>, n: nat, head: seq<u8>)
    requires n <= |now| == |was| && now[..n] == head
    requires forall i :: n <= i < |now| ==> now[i] == was[i]
    ensures now == head + was[n..]
  {
  }

  method Serialize(e: Enrolled, destination: array<u8>) returns (r: Result<nat, Error>)
    modifies destination
    ensures !Writable(e) ==> r == Err(State)
    ensures Writable(e) && destination.Length < TotalSize(e) as nat ==> r == Err(Capacity)
    ensures r.Err? ==> destination[..] == old(destination[..])
    ensures Writable(e) && destination.Length >= TotalSize(e) as nat ==>
              r == Ok(TotalSize(e)) && destination[..] == Encode(e) + old(destination[..])[TotalSize(e)..]
  {
    if !Writable(e) {
      return Err(State);
    }
    var total := TotalSize(e);
    if destination.Length < total {
      return Err(Capacity);
    }
    Fill(destination, e, total);
    JoinKept(destination[..], old(destination[..]), total, Encode(e));
    r := Ok(total);
  }

  method StoreField(b: array<u8>, total: nat, crc: u32, ghost image: seq<u8>)
    requires HEADER_BYTES <= total <= b.Length && b[..total] == image
    modifies b
    ensures b[..total] == image[..CRC_OFFSET] + Le(crc) + image[CRC_OFFSET + 4..] && KeptFrom(b, total)
  {
    assert b[..CRC_OFFSET] == image[..CRC_OFFSET];
    PutWord(b, CRC_OFFSET, crc);
    assert b[..total] == b[..CRC_OFFSET + 4] + b[CRC_OFFSET + 4..total];
    assert b[CRC_OFFSET + 4..total] == image[CRC_OFFSET + 4..];
  }
}
