// Inner command messages carried by outer frames.
module Protocol {
  import opened Words

  const CHECKSUM_TARGET: int := 0xaa
  const CHECKSUM_BYPASS: u8 := 0x88
  const MAX_DATA: nat := 0xfffe

  datatype Inner = Inner(commandByte: u8, data: seq<u8>, checksum: u8) {
    function Cmd0(): (c: int)
      ensures 0 <= c < 16
    { commandByte / 16 }

    function Cmd1(): (c: int)
      ensures 0 <= c < 8
    { commandByte % 16 / 2 }

    predicate NoAck() { commandByte % 2 == 1 }

    predicate ChecksumOk() {
      checksum == CHECKSUM_BYPASS ||
      (|data| <= MAX_DATA && checksum == Checksum(commandByte, |data| + 1, data))
    }
  }

  function Sum(data: seq<u8>): nat {
    if data == [] then 0 else Sum(data[..|data| - 1]) + data[|data| - 1] as nat
  }

  // The acknowledgement bit of the command byte is not covered.
  function Checksum(commandByte: u8, length: u16, data: seq<u8>): u8 {
    (CHECKSUM_TARGET - (commandByte / 2 * 2 + length % 0x100 + length / 0x100 + Sum(data))) % 0x100
  }

  function CommandByte(cmd0: u8, cmd1: u8, waitForAck: bool): u8
    requires cmd0 < 16 && cmd1 < 8
  {
    var value: int := 16 * cmd0 as int + 2 * cmd1 as int;
    if waitForAck then value else value + 1
  }

  function Encode(commandByte: u8, data: seq<u8>): (w: seq<u8>)
    requires |data| <= MAX_DATA
    ensures |w| == |data| + 4
  {
    var length := |data| + 1;
    [commandByte, length % 0x100, length / 0x100] + data + [Checksum(commandByte, length, data)]
  }

  function Decode(s: seq<u8>): (r: Result<Inner, Status>)
    ensures r.Ok? ==> |r.value.data| + 4 <= |s| && |r.value.data| <= MAX_DATA
  {
    if |s| < 4 then Err(InvalidParam)
    else
      var length: int := s[1] as int + 0x100 * s[2] as int;
      if length < 1 || 3 + length > |s| then Err(Io)
      else Ok(Inner(s[0], s[3..2 + length], s[2 + length]))
  }

  // A built message decodes to what it was built from, whatever follows it.
  lemma DecodeInvertsEncode(cmd0: u8, cmd1: u8, waitForAck: bool, data: seq<u8>, tail: seq<u8>)
    requires cmd0 < 16 && cmd1 < 8 && |data| <= MAX_DATA
    ensures var r := Decode(Encode(CommandByte(cmd0, cmd1, waitForAck), data) + tail);
            && r.Ok? && r.value.data == data && r.value.ChecksumOk()
            && r.value.Cmd0() == cmd0 && r.value.Cmd1() == cmd1 && r.value.NoAck() == !waitForAck
  {
    var w := Encode(CommandByte(cmd0, cmd1, waitForAck), data) + tail;
    assert w[3..3 + |data|] == data;
  }

  lemma SumUpdate(data: seq<u8>, k: nat, x: u8)
    requires k < |data|
    ensures Sum(data[k := x]) == Sum(data) - data[k] as int + x as int
    decreases |data|
  {
    var n := |data| - 1;
    if k < n {
      SumUpdate(data[..n], k, x);
      assert data[k := x][..n] == data[..n][k := x];
    } else {
      assert data[k := x][..n] == data[..n];
    }
  }

  // A corrupted data byte passes the check exactly when the message carries
  // the bypass value in place of a checksum.
  lemma DataByteErrorDetected(m: Inner, k: nat, x: u8)
    requires |m.data| <= MAX_DATA && m.ChecksumOk()
    requires k < |m.data| && x != m.data[k]
    ensures m.(data := m.data[k := x]).ChecksumOk() <==> m.checksum == CHECKSUM_BYPASS
  {
    SumUpdate(m.data, k, x);
    ChecksumMoves(m.commandByte, |m.data| + 1, m.data, m.data[k := x]);
  }

  // The checksum tells sums apart that differ by less than 256.
  lemma {:induction false} ChecksumMoves(commandByte: u8, length: u16, data: seq<u8>, data': seq<u8>)
    requires Sum(data') != Sum(data) && -0x100 < Sum(data') - Sum(data) < 0x100
    ensures Checksum(commandByte, length, data') != Checksum(commandByte, length, data)
  {
    var rest := CHECKSUM_TARGET - (commandByte / 2 * 2 + length % 0x100 + length / 0x100);
    ResiduesDiffer(rest - Sum(data), rest - Sum(data'));
  }

  lemma ResiduesDiffer(a: int, b: int)
    requires a != b && -0x100 < a - b < 0x100
    ensures a % 0x100 != b % 0x100
  {
  }

  lemma ResidueSum(total: nat, x: nat)
    ensures (total % 0x100 + x) % 0x100 == (total + x) % 0x100
  {
  }

  method ComputeChecksum(commandByte: u8, length: u16, data: seq<u8>) returns (c: u8)
    ensures c == Checksum(commandByte, length, data)
  {
    var sum: nat := commandByte / 2 * 2;
    ghost var total: nat := sum;
    ResidueSum(total, length % 0x100);
    sum, total := (sum + length % 0x100) % 0x100, total + length % 0x100;
    ResidueSum(total, length / 0x100);
    sum, total := (sum + length / 0x100) % 0x100, total + length / 0x100;
    ghost var fixed := total;
    for i := 0 to |data|
      invariant sum == total % 0x100
      invariant total == fixed + Sum(data[..i])
    {
      ResidueSum(total, data[i]);
      sum, total := (sum + data[i]) % 0x100, total + data[i];
      assert data[..i + 1][..i] == data[..i];
    }
    assert data[..|data|] == data;
    DifferenceResidue(total);
    c := (CHECKSUM_TARGET - sum) % 0x100;
  }

  lemma DifferenceResidue(total: nat)
    ensures (CHECKSUM_TARGET - total % 0x100) % 0x100 == (CHECKSUM_TARGET - total) % 0x100
  {
  }

  method InnerBuild(cmd0: u8, cmd1: u8, waitForAck: bool, data: seq<u8>, output: array<u8>)
    returns (r: Result<nat, Status>)
    modifies output
    ensures r.Err? ==> output[..] == old(output[..])
    ensures cmd0 > 15 || cmd1 > 7 || |data| > MAX_DATA ==> r == Err(InvalidParam)
    ensures cmd0 <= 15 && cmd1 <= 7 && |data| <= MAX_DATA ==>
      if output.Length < |data| + 4 then r == Err(Overflow)
      else r == Ok(|data| + 4) &&
           output[..] == Encode(CommandByte(cmd0, cmd1, waitForAck), data) + old(output[..])[|data| + 4..]
  {
    if cmd0 > 15 || cmd1 > 7 || |data| > MAX_DATA {
      return Err(InvalidParam);
    }
    var length := |data| + 1;
    if output.Length < 3 + length {
      return Err(Overflow);
    }
    var commandByte := CommandByte(cmd0, cmd1, waitForAck);
    var checksum := ComputeChecksum(commandByte, length, data);
    output[0] := commandByte;
    output[1] := length % 0x100;
    output[2] := length / 0x100;
    forall k | 0 <= k < |data| { output[3 + k] := data[k]; }
    output[3 + |data|] := checksum;
    r := Ok(3 + length);
  }

  lemma {:induction false} SumAppend(a: seq<u8>, b: seq<u8>)
    ensures Sum(a + b) == Sum(a) + Sum(b)
    decreases |b|
  {
    if b == [] {
      assert a + b == a;
    } else {
      var n := |b| - 1;
      SumAppend(a, b[..n]);
      assert (a + b)[..|a + b| - 1] == a + b[..n];
    }
  }

  lemma SumOfOne(b: u8)
    ensures Sum([b]) == b
  {
    assert [b][..0] == [];
  }

  lemma SumOfThree(a: u8, b: u8, c: u8)
    ensures Sum([a, b, c]) == a + b + c
  {
    SumOfOne(a);
    SumOfOne(b);
    SumOfOne(c);
    SumAppend([a], [b]);
    SumAppend([a] + [b], [c]);
    assert [a] + [b] + [c] == [a, b, c];
  }

  // Seen as bytes: the length is little-endian and counts data and checksum, and
  // without the acknowledgement bit all bytes add up to 0xaa modulo 256.
  lemma MessageBytes(commandByte: u8, data: seq<u8>)
    requires |data| <= MAX_DATA
    ensures var w := Encode(commandByte, data);
            && w[0] == commandByte && w[1] as int + 0x100 * w[2] as int == |data| + 1 && w[3..3 + |data|] == data
            && (Sum(w) - commandByte % 2) % 0x100 == 0xaa
  {
    var length := |data| + 1;
    var head, c := [commandByte, length % 0x100, length / 0x100], Checksum(commandByte, length, data);
    SumAppend(head + data, [c]);
    SumAppend(head, data);
    SumOfThree(commandByte, length % 0x100, length / 0x100);
    SumOfOne(c);
    Completes(commandByte / 2 * 2 + length % 0x100 + length / 0x100 + Sum(data));
  }

  lemma Completes(total: nat)
    ensures (total + (CHECKSUM_TARGET - total) % 0x100) % 0x100 == 0xaa
  {
  }
}
