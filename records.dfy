/** Fixed-width integers and the byte form of trace records.
    Multi-byte fields are stored little-endian, as the traced arm64 and
    x86-64 machines store them. */
module Records {
  import opened Bits
  import opened Bytes

  type U32 = x: nat | x < 0x1_0000_0000
  type U64 = x: nat | x < 0x1_0000_0000_0000_0000

  const Mod64: nat := 0x1_0000_0000_0000_0000

  /** `a + b` and `a - b` on `uint64_t`, which wrap around modulo 2^64. */
  function Add64(a: U64, b: U64): U64
  {
    if a + b < Mod64 then a + b else a + b - Mod64
  }

  function Sub64(a: U64, b: U64): U64
  {
    if a >= b then a - b else a - b + Mod64
  }

  /** The wrap-around of Add64 and Sub64 is arithmetic modulo 2^64. */
  lemma WrapIsMod(a: U64, b: U64)
    ensures Add64(a, b) == (a + b) % Mod64
    ensures Sub64(a, b) == (a - b) % Mod64
  {
  }

  /** `log_msg_hdr`: one executed instruction, recorded by its pc. */
  datatype LogMsg = LogMsg(pc: U64)

  /** Size in bytes of one `log_msg_hdr`. */
  const MsgSize: nat := 8

  lemma Pow2SixtyFour()
    ensures Pow2(64) == 0x1_0000_0000_0000_0000
  {
    Pow2Eight();
    Pow2PlusEight(8);
    assert Pow2(16) == 0x1_0000;
    Pow2PlusEight(16);
    assert Pow2(24) == 0x100_0000;
    Pow2PlusEight(24);
    assert Pow2(32) == 0x1_0000_0000;
    Pow2PlusEight(32);
    assert Pow2(40) == 0x100_0000_0000;
    Pow2PlusEight(40);
    assert Pow2(48) == 0x1_0000_0000_0000;
    Pow2PlusEight(48);
    assert Pow2(56) == 0x100_0000_0000_0000;
    Pow2PlusEight(56);
  }

  /** The 8 little-endian bytes of a 64-bit field. */
  function U64Bytes(x: U64): (r: seq<Byte>)
    ensures |r| == 8
  {
    LeBytes(x, 8)
  }

  /** The 64-bit field stored at byte offset off. */
  function ReadU64(s: seq<Byte>, off: nat): (r: U64)
    requires off + 8 <= |s|
    ensures r == LoadLE(s, off, 8)
  {
    LoadLEBound(s, off, 8);
    Pow2SixtyFour();
    LoadLE(s, off, 8)
  }

  /** The 32-bit word stored at byte offset off. */
  function ReadU32(s: seq<Byte>, off: nat): (r: U32)
    requires off + 4 <= |s|
    ensures r == LoadLE(s, off, 4)
  {
    LoadLEBound(s, off, 4);
    Pow2Eight();
    Pow2PlusEight(8);
    assert Pow2(16) == 0x1_0000;
    Pow2PlusEight(16);
    assert Pow2(24) == 0x100_0000;
    Pow2PlusEight(24);
    LoadLE(s, off, 4)
  }

  /** Loading a word reads back the value whose bytes were stored there. */
  lemma {:induction false} LoadLEOfBytes(s: seq<Byte>, off: nat, nb: nat, x: nat)
    requires off + nb <= |s| && x < Pow2(8 * nb)
    requires s[off..off + nb] == LeBytes(x, nb)
    ensures LoadLE(s, off, nb) == x
    decreases nb
  {
    if nb > 0 {
      assert s[off] == LeBytes(x, nb)[0];
      assert s[off + 1..off + nb] == LeBytes(x / 256, nb - 1) by {
        assert s[off + 1..off + nb] == s[off..off + nb][1..];
      }
      Pow2PlusEight(8 * (nb - 1));
      LoadLEOfBytes(s, off + 1, nb - 1, x / 256);
    }
  }

  /** A 64-bit field written between p and q reads back unchanged. */
  lemma ReadU64Bytes(p: seq<Byte>, x: U64, q: seq<Byte>)
    ensures ReadU64(p + U64Bytes(x) + q, |p|) == x
  {
    var s := p + U64Bytes(x) + q;
    assert s[|p|..|p| + 8] == LeBytes(x, 8);
    Pow2SixtyFour();
    LoadLEOfBytes(s, |p|, 8, x);
  }

  /** A run of 64-bit fields, one after the other: what `log` appends for a
      sequence of pcs, one record each. */
  function EncodeWords(pcs: seq<U64>): (r: seq<Byte>)
    ensures |r| == MsgSize * |pcs|
  {
    if pcs == [] then [] else U64Bytes(pcs[0]) + EncodeWords(pcs[1..])
  }

  /** A byte buffer viewed as a span of `buf.size() / sizeof(log_msg_hdr)`
      records; a trailing partial record is not part of the span. */
  function Msgs(buf: seq<Byte>): (r: seq<LogMsg>)
    ensures |r| == |buf| / MsgSize
    decreases |buf|
  {
    if |buf| < MsgSize then [] else [LogMsg(ReadU64(buf, 0))] + Msgs(buf[MsgSize..])
  }

  function PcsOf(msgs: seq<LogMsg>): (r: seq<U64>)
    ensures |r| == |msgs| && forall i | 0 <= i < |msgs| :: r[i] == msgs[i].pc
  {
    if msgs == [] then [] else [msgs[0].pc] + PcsOf(msgs[1..])
  }

  /** Reading the records back from the bytes written for them gives the pcs again. */
  lemma {:induction false} MsgsOfEncodeWords(pcs: seq<U64>)
    ensures PcsOf(Msgs(EncodeWords(pcs))) == pcs
  {
    if pcs != [] {
      var b := EncodeWords(pcs);
      ReadU64Bytes([], pcs[0], EncodeWords(pcs[1..]));
      assert [] + U64Bytes(pcs[0]) + EncodeWords(pcs[1..]) == b;
      assert b[MsgSize..] == EncodeWords(pcs[1..]);
      MsgsOfEncodeWords(pcs[1..]);
    }
  }

  /** Appending records appends their encodings. */
  lemma {:induction false} EncodeWordsAppend(a: seq<U64>, b: seq<U64>)
    ensures EncodeWords(a + b) == EncodeWords(a) + EncodeWords(b)
  {
    if a != [] {
      assert (a + b)[1..] == a[1..] + b;
      EncodeWordsAppend(a[1..], b);
    } else {
      assert a + b == b;
    }
  }

  /** k consecutive 64-bit fields from offset off. */
  function ReadWords(s: seq<Byte>, off: nat, k: nat): (r: seq<U64>)
    requires off + MsgSize * k <= |s|
    ensures |r| == k
    decreases k
  {
    if k == 0 then [] else [ReadU64(s, off)] + ReadWords(s, off + MsgSize, k - 1)
  }

  /** A run of 64-bit fields, written between p and q, reads back unchanged. */
  lemma {:induction false} ReadWordsOfEncode(p: seq<Byte>, ws: seq<U64>, q: seq<Byte>)
    ensures |p| + MsgSize * |ws| <= |p + EncodeWords(ws) + q|
    ensures ReadWords(p + EncodeWords(ws) + q, |p|, |ws|) == ws
    decreases |ws|
  {
    if ws != [] {
      var rest := EncodeWords(ws[1..]);
      assert p + EncodeWords(ws) + q == p + U64Bytes(ws[0]) + (rest + q);
      ReadU64Bytes(p, ws[0], rest + q);
      assert p + EncodeWords(ws) + q == (p + U64Bytes(ws[0])) + rest + q;
      ReadWordsOfEncode(p + U64Bytes(ws[0]), ws[1..], q);
      assert [ws[0]] + ws[1..] == ws;
    }
  }
}
