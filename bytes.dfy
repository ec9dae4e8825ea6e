/** Byte buffers seen as little-endian bit strings.
    Bit p of a buffer is bit p % 8 of byte p / 8, which is how a
    little-endian machine numbers the bits of any word it loads from the
    buffer. Words are loaded and stored byte by byte in that order. */
module Bytes {
  import opened Bits

  type Byte = b: nat | b < 256

  /** Bit p of the buffer; bits past the end read as 0. */
  predicate BufBit(s: seq<Byte>, p: nat)
  {
    p / 8 < |s| && Bit(s[p / 8], p % 8)
  }

  /** The n-bit number whose bit j is bit p + j of the buffer: the
      reference reading of a packed field, independent of word sizes. */
  function LoadBits(s: seq<Byte>, p: nat, n: nat): nat
    decreases n
  {
    if n == 0 then 0 else (if BufBit(s, p) then 1 else 0) + 2 * LoadBits(s, p + 1, n - 1)
  }

  /** The nb-byte little-endian word stored at byte offset off. */
  function LoadLE(s: seq<Byte>, off: nat, nb: nat): nat
    requires off + nb <= |s|
    decreases nb
  {
    if nb == 0 then 0 else s[off] + 256 * LoadLE(s, off + 1, nb - 1)
  }

  /** The nb little-endian bytes of x (x is truncated to 8 * nb bits). */
  function LeBytes(x: nat, nb: nat): (r: seq<Byte>)
    ensures |r| == nb
  {
    if nb == 0 then [] else [x % 256] + LeBytes(x / 256, nb - 1)
  }

  function StoreLE(s: seq<Byte>, off: nat, nb: nat, x: nat): (r: seq<Byte>)
    requires off + nb <= |s|
    ensures |r| == |s|
  {
    s[..off] + LeBytes(x, nb) + s[off + nb..]
  }

  /** s' is s with bits [lo, lo + n) replaced by the low n bits of v. */
  ghost predicate Spliced(s: seq<Byte>, s': seq<Byte>, lo: nat, n: nat, v: nat)
  {
    |s'| == |s| && forall p: nat :: SplicedBit(s, s', lo, n, v, p)
  }

  /** Bit p of s' is bit p - lo of v inside [lo, lo + n) and bit p of s elsewhere. */
  predicate SplicedBit(s: seq<Byte>, s': seq<Byte>, lo: nat, n: nat, v: nat, p: nat)
  {
    BufBit(s', p) <==> if lo <= p < lo + n then Bit(v, p - lo) else BufBit(s, p)
  }

  lemma {:induction false} LoadBitsBit(s: seq<Byte>, p: nat, n: nat, j: nat)
    ensures Bit(LoadBits(s, p, n), j) <==> j < n && BufBit(s, p + j)
    decreases n
  {
    if n == 0 {
      BitZero(j);
    } else {
      BitDouble(LoadBits(s, p + 1, n - 1), if BufBit(s, p) then 1 else 0, j);
      if j > 0 {
        LoadBitsBit(s, p + 1, n - 1, j - 1);
      }
    }
  }

  lemma {:induction false} LoadBitsBound(s: seq<Byte>, p: nat, n: nat)
    ensures LoadBits(s, p, n) < Pow2(n)
    decreases n
  {
    if n > 0 {
      LoadBitsBound(s, p + 1, n - 1);
    }
  }

  lemma {:induction false} LoadLEBound(s: seq<Byte>, off: nat, nb: nat)
    requires off + nb <= |s|
    ensures LoadLE(s, off, nb) < Pow2(8 * nb)
    decreases nb
  {
    if nb > 0 {
      LoadLEBound(s, off + 1, nb - 1);
      Pow2PlusEight(8 * (nb - 1));
    }
  }

  /** A word load reads exactly the buffer's bits at its position. */
  lemma {:induction false} LoadLEBit(s: seq<Byte>, off: nat, nb: nat, j: nat)
    requires off + nb <= |s|
    ensures Bit(LoadLE(s, off, nb), j) <==> j < 8 * nb && BufBit(s, 8 * off + j)
    decreases nb
  {
    if nb == 0 {
      BitZero(j);
    } else {
      Pow2Eight();
      ShlEight(LoadLE(s, off + 1, nb - 1));
      BitSplit(s[off], LoadLE(s, off + 1, nb - 1), 8, j);
      if j < 8 {
        assert (8 * off + j) / 8 == off && (8 * off + j) % 8 == j;
      } else {
        LoadLEBit(s, off + 1, nb - 1, j - 8);
        assert 8 * (off + 1) + (j - 8) == 8 * off + j;
      }
      if j >= 8 * nb {
        LoadLEBound(s, off, nb);
        BitAbove(LoadLE(s, off, nb), 8 * nb, j);
      }
    }
  }

  lemma LoadLEIsLoadBits(s: seq<Byte>, off: nat, nb: nat)
    requires off + nb <= |s|
    ensures LoadLE(s, off, nb) == LoadBits(s, 8 * off, 8 * nb)
  {
    forall j: nat | j < 8 * nb
      ensures Bit(LoadLE(s, off, nb), j) <==> Bit(LoadBits(s, 8 * off, 8 * nb), j)
    {
      LoadLEBit(s, off, nb, j);
      LoadBitsBit(s, 8 * off, 8 * nb, j);
    }
    LoadLEBound(s, off, nb);
    LoadBitsBound(s, 8 * off, 8 * nb);
    Extensionality(LoadLE(s, off, nb), LoadBits(s, 8 * off, 8 * nb), 8 * nb);
  }

  lemma {:induction false} LeBytesBit(x: nat, nb: nat, k: nat, i: nat)
    requires k < nb && i < 8
    ensures Bit(LeBytes(x, nb)[k], i) <==> Bit(x, 8 * k + i)
  {
    Pow2Eight();
    ShlEight(x / 256);
    assert x == x % 256 + Shl(x / 256, 8);
    BitSplit(x % 256, x / 256, 8, 8 * k + i);
    if k > 0 {
      LeBytesBit(x / 256, nb - 1, k - 1, i);
    }
  }

  /** Storing a word splices its bits into the buffer and changes nothing else. */
  lemma StoreLESplices(s: seq<Byte>, off: nat, nb: nat, x: nat)
    requires off + nb <= |s|
    ensures Spliced(s, StoreLE(s, off, nb, x), 8 * off, 8 * nb, x)
  {
    var s' := StoreLE(s, off, nb, x);
    forall p: nat
      ensures SplicedBit(s, s', 8 * off, 8 * nb, x, p)
    {
      if 8 * off <= p < 8 * off + 8 * nb {
        var k := p / 8 - off;
        assert s'[p / 8] == LeBytes(x, nb)[k];
        LeBytesBit(x, nb, k, p % 8);
        assert 8 * k + p % 8 == p - 8 * off;
      } else if p / 8 < |s| {
        assert p / 8 < off || p / 8 >= off + nb;
        assert s'[p / 8] == s[p / 8];
      }
    }
  }

  /** Replacing bits [sb, sb + n) inside a stored word replaces those bits of the buffer. */
  lemma SplicedInWord(s: seq<Byte>, s': seq<Byte>, lo: nat, w: nat, word: nat, word': nat, sb: nat, n: nat, v: nat)
    requires sb + n <= w
    requires word == LoadBits(s, lo, w)
    requires Spliced(s, s', lo, w, word')
    requires forall j: nat :: j < w ==> (Bit(word', j) <==> if sb <= j < sb + n then Bit(v, j - sb) else Bit(word, j))
    ensures Spliced(s, s', lo + sb, n, v)
  {
    var lo' := lo + sb;
    forall p: nat
      ensures SplicedBit(s, s', lo', n, v, p)
    {
      assert SplicedBit(s, s', lo, w, word', p);
      if lo <= p < lo + w {
        LoadBitsBit(s, lo, w, p - lo);
      }
    }
  }

  // ---------------------------------------------------------------------
  // Word access to a byte array, one byte at a time in little-endian order.

  /** Reads the nb-byte little-endian word at byte offset off. */
  method LoadWord(a: array<Byte>, off: nat, nb: nat) returns (r: nat)
    requires off + nb <= a.Length
    ensures r == LoadLE(a[..], off, nb)
    ensures r < Pow2(8 * nb)
  {
    r := 0;
    var i := nb;
    while i > 0
      invariant 0 <= i <= nb
      invariant r == LoadLE(a[..], off + i, nb - i)
    {
      i := i - 1;
      r := a[off + i] + 256 * r;
    }
    LoadLEBound(a[..], off, nb);
  }

  /** Writes the low 8 * nb bits of x as an nb-byte little-endian word at byte offset off. */
  method StoreWord(a: array<Byte>, off: nat, nb: nat, x: nat)
    requires off + nb <= a.Length
    modifies a
    ensures a[..] == StoreLE(old(a[..]), off, nb, x)
  {
    var y := x;
    var i := 0;
    while i < nb
      invariant 0 <= i <= nb
      invariant forall k | 0 <= k < a.Length :: a[k] == if off <= k < off + i then LeBytes(x, nb)[k - off] else old(a[k])
      invariant LeBytes(y, nb - i) == LeBytes(x, nb)[i..]
    {
      assert LeBytes(y, nb - i)[0] == y % 256;
      a[off + i] := y % 256;
      y := y / 256;
      i := i + 1;
    }
    assert a[..] == StoreLE(old(a[..]), off, nb, x);
  }
}
