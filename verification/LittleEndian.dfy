// 32-bit little-endian words in byte strings.
module LittleEndian {
  import opened Words

  function Le(w: u32): (s: seq<u8>)
    ensures |s| == 4
  {
    [w % 0x100, w / 0x100 % 0x100, w / 0x1_0000 % 0x100, w / 0x100_0000]
  }

  function Number(s: seq<u8>): nat {
    if s == [] then 0 else s[0] as nat + 0x100 * Number(s[1..])
  }

  lemma {:induction false} NumberOfFour(s: seq<u8>)
    requires |s| == 4
    ensures Number(s) == s[0] as int + 0x100 * (s[1] as int + 0x100 * (s[2] as int + 0x100 * (s[3] as int)))
  {
    var t1, t2, t3 := s[1..], s[2..], s[3..];
    assert t1[1..] == t2 && t2[1..] == t3 && t3[1..] == [];
    assert Number(t3) == t3[0] as int;
    assert Number(t2) == t2[0] as int + 0x100 * Number(t3);
    assert Number(t1) == t1[0] as int + 0x100 * Number(t2);
  }

  function ReadWord(s: seq<u8>, offset: nat): u32
    requires offset + 4 <= |s|
  {
    NumberOfFour(s[offset..offset + 4]);
    Number(s[offset..offset + 4])
  }

  function Bytes(ws: seq<u32>): (s: seq<u8>)
    ensures |s| == 4 * |ws|
  {
    if ws == [] then [] else Le(ws[0]) + Bytes(ws[1..])
  }

  lemma NumberOfLe(w: u32)
    ensures Number(Le(w)) == w
  {
    NumberOfFour(Le(w));
    var h := w / 0x100;
    assert w == 0x100 * h + w % 0x100;
    assert h / 0x100 == w / 0x1_0000 && h == 0x100 * (h / 0x100) + h % 0x100;
    var g := w / 0x1_0000;
    assert g / 0x100 == w / 0x100_0000 && g == 0x100 * (g / 0x100) + g % 0x100;
  }

  lemma SplitByte(high: nat, low: u8)
    ensures (0x100 * high + low) / 0x100 == high && (0x100 * high + low) % 0x100 == low
  {
  }

  lemma DivideTwice(w: nat)
    ensures w / 0x100 / 0x100 == w / 0x1_0000 && w / 0x1_0000 / 0x100 == w / 0x100_0000
  {
  }

  lemma {:induction false} LeOfNumber(s: seq<u8>)
    requires |s| == 4
    ensures Number(s) < 0x1_0000_0000 && Le(Number(s)) == s
  {
    var h2: nat := s[2] as int + 0x100 * s[3] as int;
    var h1: nat := s[1] as int + 0x100 * h2;
    NumberOfFour(s);
    SplitByte(s[3], s[2]);
    SplitByte(h2, s[1]);
    SplitByte(h1, s[0]);
    DivideTwice(0x100 * h1 + s[0]);
  }

  lemma ReadWritten(p: seq<u8>, w: u32, t: seq<u8>)
    ensures ReadWord(p + Le(w) + t, |p|) == w
  {
    assert (p + Le(w) + t)[|p|..|p| + 4] == Le(w);
    NumberOfLe(w);
  }

  lemma WriteRead(s: seq<u8>, offset: nat)
    requires offset + 4 <= |s|
    ensures Le(ReadWord(s, offset)) == s[offset..offset + 4]
  {
    LeOfNumber(s[offset..offset + 4]);
  }

  lemma {:induction false} BytesAt(ws: seq<u32>, i: nat)
    requires i < |ws|
    ensures Bytes(ws) == Bytes(ws[..i]) + Le(ws[i]) + Bytes(ws[i + 1..])
    decreases i
  {
    if i == 0 {
      assert Bytes(ws[..0]) + Le(ws[0]) == Le(ws[0]);
    } else {
      BytesAt(ws[1..], i - 1);
      assert ws[1..][..i - 1] == ws[..i][1..] && ws[1..][i..] == ws[i + 1..];
      Assoc(Le(ws[0]), Bytes(ws[..i][1..]), Le(ws[i]));
      Assoc(Le(ws[0]), Bytes(ws[..i][1..]) + Le(ws[i]), Bytes(ws[i + 1..]));
    }
  }

  // A table of words reads back word by word.
  lemma {:induction false} ReadTable(p: seq<u8>, ws: seq<u32>, t: seq<u8>, i: nat)
    requires i < |ws|
    ensures ReadWord(p + Bytes(ws) + t, |p| + 4 * i) == ws[i]
  {
    BytesAt(ws, i);
    var q, u := p + Bytes(ws[..i]), Bytes(ws[i + 1..]) + t;
    assert p + Bytes(ws) + t == q + Le(ws[i]) + u;
    ReadWritten(q, ws[i], u);
  }

  // A byte string is the table of the words read from it.
  lemma {:induction false} TableOfReads(s: seq<u8>, offset: nat, ws: seq<u32>)
    requires offset + 4 * |ws| <= |s|
    requires forall i :: 0 <= i < |ws| ==> ws[i] == ReadWord(s, offset + 4 * i)
    ensures s[offset..offset + 4 * |ws|] == Bytes(ws)
    decreases |ws|
  {
    if ws != [] {
      assert ws[0] == ReadWord(s, offset + 4 * 0);
      forall i | 0 <= i < |ws[1..]| ensures ws[1..][i] == ReadWord(s, offset + 4 + 4 * i) {
        assert ws[i + 1] == ReadWord(s, offset + 4 * (i + 1));
      }
      TableOfReads(s, offset + 4, ws[1..]);
      WriteRead(s, offset);
      assert s[offset..offset + 4 * |ws|] == s[offset..offset + 4] + s[offset + 4..offset + 4 * |ws|];
    }
  }
}
