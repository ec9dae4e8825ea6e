/** The packed vectors of include/xnu-trace/BitVector.h: ExactBitVector,
    NonAtomicBitVector, AtomicBitVector and the BitVector front end that
    picks one of them from a run-time width. A vector of sz elements of
    nbits bits owns a zero-filled byte buffer; its contents are the values
    that get returns for idx < sz (PackedWords.Values). */
module BitVector {
  import opened Bits
  import opened Bytes
  import opened PackedWords
  import opened PackedLayout

  // ---------------------------------------------------------------------
  // Values of the element type.

  /** val is a value of T = int_n<nbits, signed>, the 8-, 16- or 32-bit
      integer type get returns and set takes. */
  predicate TValue(val: int, nbits: nat, signed: bool)
    requires 1 <= nbits <= 32
  {
    InRange(val, TBits(nbits), signed)
  }

  lemma TValueBounds(val: int, nbits: nat, signed: bool)
    requires 1 <= nbits <= 32 && TValue(val, nbits, signed)
    ensures -(Pow2(31) as int) <= val < Pow2(32)
  {
    var t := TBits(nbits);
    Pow2Mono(t, 32);
    Pow2Mono(t - 1, 31);
  }

  /** What the intended set leaves in an element for a value of T: the
      value's two's-complement pattern cut to nbits bits, read back. */
  function Stored(val: int, nbits: nat, signed: bool): (r: int)
    requires 1 <= nbits <= 32 && -(Pow2(31) as int) <= val < Pow2(32)
    ensures InRange(r, nbits, signed)
    ensures InRange(val, nbits, signed) ==> r == val
  {
    LowBound(Pattern32(val), nbits);
    ValueInRange(Low(Pattern32(val), nbits), nbits, signed);
    StoredInRange(val, nbits, signed);
    Value(Low(Pattern32(val), nbits), nbits, signed)
  }

  lemma StoredInRange(val: int, nbits: nat, signed: bool)
    requires 1 <= nbits <= 32 && -(Pow2(31) as int) <= val < Pow2(32)
    ensures InRange(val, nbits, signed) ==> Value(Low(Pattern32(val), nbits), nbits, signed) == val
  {
    if InRange(val, nbits, signed) {
      PatternValue(val, nbits, signed);
    }
  }

  lemma ValueInRange(p: nat, nbits: nat, signed: bool)
    requires nbits >= 1 && p < Pow2(nbits)
    ensures InRange(Value(p, nbits, signed), nbits, signed)
  {
    assert Pow2(nbits) == 2 * Pow2(nbits - 1);
  }

  // ---------------------------------------------------------------------
  // Reading and writing a field through one word load and store.

  /** Loads the nb-byte word at byte off and extracts its bits [sb, eb),
      an nbits-bit field, sign-extending it for a signed vector. */
  method ReadField(buf: array<Byte>, off: nat, nb: nat, sb: nat, eb: nat, nbits: nat, signed: bool) returns (r: int)
    requires 1 <= nbits <= 31 && off + nb <= buf.Length
    requires eb == sb + nbits && sb + nbits <= 8 * nb
    ensures r == Value(LoadBits(buf[..], 8 * off + sb, nbits), nbits, signed)
  {
    var word := LoadWord(buf, off, nb);
    var field := ExtractBits(word, sb, eb);
    FieldOfWord(buf[..], off, nb, sb, nbits);
    LoadBitsBound(buf[..], 8 * off + sb, nbits);
    if signed {
      r := SignExtend(field, nbits);
    } else {
      r := field;
    }
  }

  /** The buffer after the intended write of ins into bits [sb, sb + nbits)
      of the nb-byte word at byte off. */
  function FieldWritten(s: seq<Byte>, off: nat, nb: nat, sb: nat, nbits: nat, ins: nat): (r: seq<Byte>)
    requires off + nb <= |s| && sb + nbits <= 8 * nb
    ensures Spliced(s, r, 8 * off + sb, nbits, Low(ins, nbits))
  {
    StoreInsertField(s, off, nb, sb, nbits, ins);
    StoreLE(s, off, nb, InsertField(LoadLE(s, off, nb), ins, sb, nbits, 8 * nb))
  }

  /** Writes the intended field: ins cut to nbits bits and shifted to bit
      sb of the nb-byte word at byte off. */
  method WriteField(buf: array<Byte>, off: nat, nb: nat, sb: nat, nbits: nat, ins: nat)
    requires 1 <= nbits <= 31 && off + nb <= buf.Length && sb + nbits <= 8 * nb
    modifies buf
    ensures buf[..] == FieldWritten(old(buf[..]), off, nb, sb, nbits, ins)
  {
    var word := LoadWord(buf, off, nb);
    var word' := InsertField(word, ins, sb, nbits, 8 * nb);
    StoreWord(buf, off, nb, word');
  }

  /** Writing the cut pattern of val into the field of element idx stores
      Stored(val) there and leaves the other elements. */
  lemma FieldStored(s: seq<Byte>, nbits: nat, signed: bool, sz: nat, idx: nat, off: nat, nb: nat, sb: nat, val: int)
    requires 1 <= nbits <= 31 && idx < sz && -(Pow2(31) as int) <= val < Pow2(32)
    requires off + nb <= |s| && sb + nbits <= 8 * nb && 8 * off + sb == StartBitIdx(nbits, idx)
    ensures Values(FieldWritten(s, off, nb, sb, nbits, Pattern32(val)), nbits, signed, sz)
         == Values(s, nbits, signed, sz)[idx := Stored(val, nbits, signed)]
  {
    var v := Low(Pattern32(val), nbits);
    LowBound(Pattern32(val), nbits);
    SpliceElements(s, FieldWritten(s, off, nb, sb, nbits, Pattern32(val)), nbits, signed, sz, idx, 8 * off + sb, v);
  }

  // ---------------------------------------------------------------------
  // NonAtomicBitVector::set as written, on the buffer's bytes.

  /** The buffer after set as written: insert_bits on the word or double
      word of WordAccess, with the value's 32-bit pattern unmasked. */
  function SetAsWritten(s: seq<Byte>, nbits: nat, sz: nat, idx: nat, signed: bool, val: int): (r: seq<Byte>)
    requires 1 <= nbits <= 31 && idx < sz && |s| == NonAtomicByteSz(nbits, sz)
    requires SetSafe(nbits, idx) && TValue(val, nbits, signed)
    ensures |r| == |s|
  {
    var a := WordAccess(nbits, idx);
    WordAccessLocates(nbits, sz, idx);
    TValueBounds(val, nbits, signed);
    LoadLEBound(s, a.off, a.nb);
    StoreLE(s, a.off, a.nb, InsertBits(LoadLE(s, a.off, a.nb), Pattern32(val), a.sb, nbits, 8 * a.nb, signed))
  }

  /** When the value is non-negative and fits in nbits bits, set as written
      stores exactly the value into element idx and leaves the others. */
  lemma SetAsWrittenFits(s: seq<Byte>, nbits: nat, sz: nat, idx: nat, signed: bool, val: int)
    requires 1 <= nbits <= 31 && idx < sz && |s| == NonAtomicByteSz(nbits, sz)
    requires SetSafe(nbits, idx) && TValue(val, nbits, signed)
    requires 0 <= val && InRange(val, nbits, signed)
    ensures Values(SetAsWritten(s, nbits, sz, idx, signed, val), nbits, signed, sz) == Values(s, nbits, signed, sz)[idx := val]
  {
    var a := WordAccess(nbits, idx);
    WordAccessLocates(nbits, sz, idx);
    PatternValue(val, nbits, signed);
    LowSmall(val, nbits);
    var ins := Pattern32(val);
    assert ins == val && Value(ins, nbits, signed) == val;
    StoreInsertBits(s, a.off, a.nb, a.sb, nbits, signed, ins);
    var s' := SetAsWritten(s, nbits, sz, idx, signed, val);
    assert s' == StoreLE(s, a.off, a.nb, InsertBits(LoadLE(s, a.off, a.nb), ins, a.sb, nbits, 8 * a.nb, signed));
    SpliceElements(s, s', nbits, signed, sz, idx, 8 * a.off + a.sb, ins);
  }

  /** Below the end of the field, the buffer after insert_bits as written
      holds the low bits of ins in the field and the old bits before it. */
  lemma AsWrittenBit(s: seq<Byte>, off: nat, nb: nat, sb: nat, nbits: nat, ins: nat, signed: bool, p: nat)
    requires off + nb <= |s| && sb + nbits <= 8 * nb && sb + nbits < 32 && p < 8 * off + sb + nbits
    ensures LoadLE(s, off, nb) < Pow2(8 * nb)
    ensures BufBit(StoreLE(s, off, nb, InsertBits(LoadLE(s, off, nb), ins, sb, nbits, 8 * nb, signed)), p)
        <==> if 8 * off + sb <= p then Bit(ins, p - (8 * off + sb)) else BufBit(s, p)
  {
    LoadLEBound(s, off, nb);
    var word := LoadLE(s, off, nb);
    var word' := InsertBits(word, ins, sb, nbits, 8 * nb, signed);
    StoreLESplices(s, off, nb, word');
    assert SplicedBit(s, StoreLE(s, off, nb, word'), 8 * off, 8 * nb, word', p);
    if 8 * off <= p {
      InsertBitsBits(word, ins, sb, nbits, 8 * nb, signed, p - 8 * off);
      LoadLEBit(s, off, nb, p - 8 * off);
    }
  }

  /** insert_bits as written on the word holding element idx puts the low
      nbits bits of ins into element idx. */
  lemma AsWrittenSets(s: seq<Byte>, nbits: nat, idx: nat, off: nat, nb: nat, sb: nat, ins: nat, signed: bool)
    requires off + nb <= |s| && sb + nbits <= 8 * nb && sb + nbits < 32
    requires 8 * off + sb == StartBitIdx(nbits, idx)
    ensures LoadLE(s, off, nb) < Pow2(8 * nb)
    ensures Element(StoreLE(s, off, nb, InsertBits(LoadLE(s, off, nb), ins, sb, nbits, 8 * nb, signed)), nbits, idx)
         == Low(ins, nbits)
  {
    LoadLEBound(s, off, nb);
    var s' := StoreLE(s, off, nb, InsertBits(LoadLE(s, off, nb), ins, sb, nbits, 8 * nb, signed));
    var q := StartBitIdx(nbits, idx);
    forall k: nat | k < nbits
      ensures Bit(Element(s', nbits, idx), k) <==> Bit(Low(ins, nbits), k)
    {
      AsWrittenBit(s, off, nb, sb, nbits, ins, signed, q + k);
      LoadBitsBit(s', q, nbits, k);
      BitLow(ins, nbits, k);
    }
    LoadBitsBound(s', q, nbits);
    LowBound(ins, nbits);
    Extensionality(Element(s', nbits, idx), Low(ins, nbits), nbits);
  }

  /** insert_bits as written on the word holding element idx leaves every
      element before idx. */
  lemma AsWrittenKeepsBelow(s: seq<Byte>, nbits: nat, idx: nat, off: nat, nb: nat, sb: nat, ins: nat, signed: bool, i: nat)
    requires off + nb <= |s| && sb + nbits <= 8 * nb && sb + nbits < 32
    requires 8 * off + sb == StartBitIdx(nbits, idx) && i < idx
    ensures LoadLE(s, off, nb) < Pow2(8 * nb)
    ensures Element(StoreLE(s, off, nb, InsertBits(LoadLE(s, off, nb), ins, sb, nbits, 8 * nb, signed)), nbits, i)
         == Element(s, nbits, i)
  {
    LoadLEBound(s, off, nb);
    var s' := StoreLE(s, off, nb, InsertBits(LoadLE(s, off, nb), ins, sb, nbits, 8 * nb, signed));
    var q := StartBitIdx(nbits, i);
    ElementEnd(nbits, idx, i);
    forall k: nat | k < nbits
      ensures Bit(Element(s', nbits, i), k) <==> Bit(Element(s, nbits, i), k)
    {
      AsWrittenBit(s, off, nb, sb, nbits, ins, signed, q + k);
      LoadBitsBit(s', q, nbits, k);
      LoadBitsBit(s, q, nbits, k);
    }
    LoadBitsBound(s', q, nbits);
    LoadBitsBound(s, q, nbits);
    Extensionality(Element(s', nbits, i), Element(s, nbits, i), nbits);
  }

  /** set as written stores the value cut to nbits bits in element idx, for
      every value of T, and leaves every element before idx; only elements
      after idx can be hit by the unmasked high bits (SetAsWrittenLeaks). */
  lemma SetAsWrittenElement(s: seq<Byte>, nbits: nat, sz: nat, idx: nat, signed: bool, val: int)
    requires 1 <= nbits <= 31 && idx < sz && |s| == NonAtomicByteSz(nbits, sz)
    requires SetSafe(nbits, idx) && TValue(val, nbits, signed)
    ensures -(Pow2(31) as int) <= val < Pow2(32)
    ensures Values(SetAsWritten(s, nbits, sz, idx, signed, val), nbits, signed, sz)[idx] == Stored(val, nbits, signed)
    ensures forall i | 0 <= i < idx ::
              Values(SetAsWritten(s, nbits, sz, idx, signed, val), nbits, signed, sz)[i] == Values(s, nbits, signed, sz)[i]
  {
    var a := WordAccess(nbits, idx);
    WordAccessLocates(nbits, sz, idx);
    TValueBounds(val, nbits, signed);
    var ins := Pattern32(val);
    var s' := SetAsWritten(s, nbits, sz, idx, signed, val);
    LoadLEBound(s, a.off, a.nb);
    assert s' == StoreLE(s, a.off, a.nb, InsertBits(LoadLE(s, a.off, a.nb), ins, a.sb, nbits, 8 * a.nb, signed));
    AsWrittenSets(s, nbits, idx, a.off, a.nb, a.sb, ins, signed);
    forall i | 0 <= i < idx
      ensures Element(s', nbits, i) == Element(s, nbits, i)
    {
      AsWrittenKeepsBelow(s, nbits, idx, a.off, a.nb, a.sb, ins, signed, i);
    }
  }

  /** A negative value of an nbits-bit signed type, as a w-bit two's-
      complement pattern, has every bit from nbits to w - 1 set. */
  lemma NegativeHighBit(val: int, nbits: nat, w: nat, x: nat, j: nat)
    requires 1 <= nbits <= j < w && -(Pow2(nbits - 1) as int) <= val < 0 && x == val + Pow2(w)
    ensures Bit(x, j)
  {
    assert Pow2(nbits) == 2 * Pow2(nbits - 1);
    var lo := val + Pow2(nbits);
    OnesAbove(nbits, w - nbits);
    BitSplit(lo, Pow2(w - nbits) - 1, nbits, j);
    BitLowMask(w - nbits, j - nbits);
  }

  /** insert_bits as written with a value whose bit nbits is set sets the
      bit just above the field, buffer bit q, when that bit is inside the word. */
  lemma LeakInWord(s: seq<Byte>, off: nat, nb: nat, sb: nat, nbits: nat, ins: nat, signed: bool, q: nat)
    requires off + nb <= |s| && sb + nbits < 8 * nb && sb + nbits < 32 && Bit(ins, nbits)
    requires q == 8 * off + (sb + nbits)
    ensures LoadLE(s, off, nb) < Pow2(8 * nb)
    ensures BufBit(StoreLE(s, off, nb, InsertBits(LoadLE(s, off, nb), ins, sb, nbits, 8 * nb, signed)), q)
  {
    LoadLEBound(s, off, nb);
    var word' := InsertBits(LoadLE(s, off, nb), ins, sb, nbits, 8 * nb, signed);
    InsertBitsBits(LoadLE(s, off, nb), ins, sb, nbits, 8 * nb, signed, sb + nbits);
    StoreLESplices(s, off, nb, word');
    assert SplicedBit(s, StoreLE(s, off, nb, word'), 8 * off, 8 * nb, word', q);
  }

  /** Two fields that differ in their first bit differ. */
  lemma FirstBitDiffers(s: seq<Byte>, s': seq<Byte>, p: nat, n: nat)
    requires n >= 1 && BufBit(s', p) != BufBit(s, p)
    ensures LoadBits(s', p, n) != LoadBits(s, p, n)
  {
    LoadBitsBit(s', p, n, 0);
    LoadBitsBit(s, p, n, 0);
  }

  /** The 32-bit pattern of a negative nbits-bit value has bit nbits set. */
  lemma NegativePatternBit(val: int, nbits: nat)
    requires 1 <= nbits < 32 && -(Pow2(nbits - 1) as int) <= val < 0
    ensures -(Pow2(31) as int) <= val && Bit(Pattern32(val), nbits)
  {
    Pow2Mono(nbits - 1, 31);
    NegativeHighBit(val, nbits, 32, Pattern32(val), nbits);
  }

  /** insert_bits as written on the word holding element idx, with a value
      whose bit nbits is set, changes element idx + 1 when its first bit was
      clear and lies in the same word. */
  lemma LeakNext(s: seq<Byte>, nbits: nat, idx: nat, off: nat, nb: nat, sb: nat, ins: nat, signed: bool)
    requires 1 <= nbits && off + nb <= |s| && sb + nbits < 8 * nb && sb + nbits < 32 && Bit(ins, nbits)
    requires 8 * off + sb == StartBitIdx(nbits, idx) && !BufBit(s, StartBitIdx(nbits, idx + 1))
    ensures LoadLE(s, off, nb) < Pow2(8 * nb)
    ensures Element(StoreLE(s, off, nb, InsertBits(LoadLE(s, off, nb), ins, sb, nbits, 8 * nb, signed)), nbits, idx + 1)
         != Element(s, nbits, idx + 1)
  {
    var q := StartBitIdx(nbits, idx + 1);
    NextStart(nbits, idx);
    LeakInWord(s, off, nb, sb, nbits, ins, signed, q);
    var s' := StoreLE(s, off, nb, InsertBits(LoadLE(s, off, nb), ins, sb, nbits, 8 * nb, signed));
    FirstBitDiffers(s', s, q, nbits);
  }

  /** Setting element idx of a signed vector to a negative value as written
      also sets the first bit of element idx + 1 when that bit lies in the
      same word, so element idx + 1 changes whenever that bit was clear. */
  lemma SetAsWrittenLeaks(s: seq<Byte>, nbits: nat, sz: nat, idx: nat, val: int)
    requires 1 <= nbits <= 31 && idx + 1 < sz && |s| == NonAtomicByteSz(nbits, sz)
    requires SetSafe(nbits, idx) && InRange(val, nbits, true) && val < 0
    requires WordAccess(nbits, idx).eb < 8 * WordAccess(nbits, idx).nb
    requires !BufBit(s, StartBitIdx(nbits, idx + 1))
    ensures TValue(val, nbits, true)
    ensures Element(SetAsWritten(s, nbits, sz, idx, true, val), nbits, idx + 1) != Element(s, nbits, idx + 1)
  {
    var a := WordAccess(nbits, idx);
    WordAccessLocates(nbits, sz, idx);
    Pow2Mono(nbits - 1, TBits(nbits) - 1);
    assert TValue(val, nbits, true);
    NegativePatternBit(val, nbits);
    LeakNext(s, nbits, idx, a.off, a.nb, a.sb, Pattern32(val), true);
  }

  /** A signed 4-bit vector of two zero elements: `set(0, -1)` as written
      leaves element 1 non-zero. */
  lemma SetAsWrittenLeaksExample()
    ensures NonAtomicByteSz(4, 2) == 2 && SetSafe(4, 0) && TValue(-1, 4, true)
    ensures Element(SetAsWritten([0, 0], 4, 2, 0, true, -1), 4, 1) != 0
  {
    var s: seq<Byte> := [0, 0];
    LoadBitsZero(s, StartBitIdx(4, 1), 4);
    assert Element(s, 4, 1) == 0;
    BitZero(4);
    SetAsWrittenLeaks(s, 4, 2, 0, -1);
  }

  // ---------------------------------------------------------------------
  // The three vectors.

  /** ExactBitVector: nbits is 8, 16 or 32, and element idx is the T at
      byte idx * nbits / 8. */
  class ExactBitVector {
    const nbits: nat
    const signed: bool
    const sz: nat
    const buf: array<Byte>

    ghost predicate Valid()
    {
      (nbits == 8 || nbits == 16 || nbits == 32) && buf.Length == ExactByteSz(nbits, sz)
    }

    /** The values get returns. */
    function Contents(): seq<int>
      reads buf
      requires Valid()
    {
      Values(buf[..], nbits, signed, sz)
    }

    constructor(nbits: nat, signed: bool, sz: nat)
      requires nbits == 8 || nbits == 16 || nbits == 32
      ensures Valid() && fresh(buf)
      ensures this.nbits == nbits && this.signed == signed && this.sz == sz
      ensures Contents() == seq(sz, _ => 0)
    {
      this.nbits := nbits;
      this.signed := signed;
      this.sz := sz;
      buf := new Byte[ExactByteSz(nbits, sz)](_ => 0);
      new;
      ZeroValues(buf[..], nbits, signed, sz);
    }

    method Get(idx: nat) returns (r: int)
      requires Valid() && idx < sz
      ensures r == Contents()[idx]
    {
      var e, off := nbits / 8, ExactByteOffset(nbits, idx);
      ExactOffset(nbits, sz, idx);
      var word := LoadWord(buf, off, e);
      ExactElement(buf[..], nbits, idx, off, e);
      r := Value(word, nbits, signed);
    }

    method Set(idx: nat, val: int)
      requires Valid() && idx < sz && InRange(val, nbits, signed)
      modifies buf
      ensures Contents() == old(Contents())[idx := val]
    {
      var e, off := nbits / 8, ExactByteOffset(nbits, idx);
      ExactOffset(nbits, sz, idx);
      PatternValue(val, nbits, signed);
      ghost var s := buf[..];
      StoreWord(buf, off, e, Pattern32(val));
      ExactStore(s, nbits, signed, sz, idx, off, e, val);
    }
  }

  /** Element idx of an exact vector is the T at byte idx * (nbits / 8),
      inside the buffer. */
  lemma ExactOffset(nbits: nat, sz: nat, idx: nat)
    requires (nbits == 8 || nbits == 16 || nbits == 32) && idx < sz
    ensures nbits == 8 * (nbits / 8)
    ensures 8 * ExactByteOffset(nbits, idx) == StartBitIdx(nbits, idx)
    ensures ExactByteOffset(nbits, idx) + nbits / 8 <= ExactByteSz(nbits, sz)
  {
    var e := nbits / 8;
    assert nbits == 8 * e;
    MulMono(e, idx + 1, sz);
    assert 8 * (sz * e) == nbits * sz;
  }

  lemma ExactElement(s: seq<Byte>, nbits: nat, idx: nat, off: nat, e: nat)
    requires nbits == 8 * e && 8 * off == StartBitIdx(nbits, idx) && off + e <= |s|
    ensures LoadLE(s, off, e) == Element(s, nbits, idx)
  {
    LoadLEIsLoadBits(s, off, e);
  }

  /** Storing the 32-bit pattern of an in-range value as the T of element
      idx sets that element to the value and leaves the others. */
  lemma ExactStore(s: seq<Byte>, nbits: nat, signed: bool, sz: nat, idx: nat, off: nat, e: nat, val: int)
    requires 1 <= nbits <= 32 && nbits == 8 * e && idx < sz
    requires 8 * off == StartBitIdx(nbits, idx) && off + e <= |s|
    requires -(Pow2(31) as int) <= val < Pow2(32)
    requires Value(Low(Pattern32(val), nbits), nbits, signed) == val
    ensures Values(StoreLE(s, off, e, Pattern32(val)), nbits, signed, sz) == Values(s, nbits, signed, sz)[idx := val]
  {
    var s' := StoreLE(s, off, e, Pattern32(val));
    StoreLESplices(s, off, e, Pattern32(val));
    SplicedLow(s, s', 8 * off, nbits, Pattern32(val));
    SpliceElements(s, s', nbits, signed, sz, idx, 8 * off, Low(Pattern32(val), nbits));
  }

  /** NonAtomicBitVector: nbits in 1..31 other than 8 and 16, packed into a
      buffer of whole double words. Get and Set are the code as written
      (defined where GetSafe and SetSafe hold); GetFixed and SetFixed make
      the access the code means to make, for every index. */
  class NonAtomicBitVector {
    const nbits: nat
    const signed: bool
    const sz: nat
    const buf: array<Byte>

    ghost predicate Valid()
    {
      1 <= nbits <= 31 && nbits != 8 && nbits != 16 && buf.Length == NonAtomicByteSz(nbits, sz)
    }

    /** The values get returns. */
    function Contents(): seq<int>
      reads buf
      requires Valid()
    {
      Values(buf[..], nbits, signed, sz)
    }

    constructor(nbits: nat, signed: bool, sz: nat)
      requires 1 <= nbits <= 31 && nbits != 8 && nbits != 16
      ensures Valid() && fresh(buf)
      ensures this.nbits == nbits && this.signed == signed && this.sz == sz
      ensures Contents() == seq(sz, _ => 0)
    {
      this.nbits := nbits;
      this.signed := signed;
      this.sz := sz;
      buf := new Byte[NonAtomicByteSz(nbits, sz)](_ => 0);
      new;
      ZeroValues(buf[..], nbits, signed, sz);
    }

    /** get as written. */
    method Get(idx: nat) returns (r: int)
      requires Valid() && idx < sz && GetSafe(nbits, idx)
      ensures r == Contents()[idx]
    {
      var a := WordAccess(nbits, idx);
      WordAccessLocates(nbits, sz, idx);
      r := ReadField(buf, a.off, a.nb, a.sb, a.eb, nbits, signed);
    }

    /** set as written. */
    method Set(idx: nat, val: int)
      requires Valid() && idx < sz && SetSafe(nbits, idx) && TValue(val, nbits, signed)
      modifies buf
      ensures buf[..] == SetAsWritten(old(buf[..]), nbits, sz, idx, signed, val)
      ensures -(Pow2(31) as int) <= val < Pow2(32)
      ensures Contents()[idx] == Stored(val, nbits, signed)
      ensures InRange(val, nbits, signed) ==> Contents()[idx] == val
      ensures forall i | 0 <= i < idx :: Contents()[i] == old(Contents())[i]
      ensures 0 <= val && InRange(val, nbits, signed) ==> Contents() == old(Contents())[idx := val]
    {
      var a := WordAccess(nbits, idx);
      WordAccessLocates(nbits, sz, idx);
      TValueBounds(val, nbits, signed);
      var word := LoadWord(buf, a.off, a.nb);
      var word' := InsertBits(word, Pattern32(val), a.sb, nbits, 8 * a.nb, signed);
      StoreWord(buf, a.off, a.nb, word');
      SetAsWrittenElement(old(buf[..]), nbits, sz, idx, signed, val);
      if 0 <= val && InRange(val, nbits, signed) {
        SetAsWrittenFits(old(buf[..]), nbits, sz, idx, signed, val);
      }
    }

    /** get reading the intended word or pair of words. */
    method GetFixed(idx: nat) returns (r: int)
      requires Valid() && idx < sz
      ensures r == Contents()[idx]
    {
      var a := FixedAccess(nbits, idx);
      FixedAccessLocates(nbits, sz, idx);
      r := ReadField(buf, a.off, a.nb, a.sb, a.eb, nbits, signed);
    }

    /** set writing the intended word or pair of words, with the value cut
      to the element's width. */
    method SetFixed(idx: nat, val: int)
      requires Valid() && idx < sz && TValue(val, nbits, signed)
      modifies buf
      ensures -(Pow2(31) as int) <= val < Pow2(32)
      ensures Contents() == old(Contents())[idx := Stored(val, nbits, signed)]
    {
      var a := FixedAccess(nbits, idx);
      FixedAccessLocates(nbits, sz, idx);
      TValueBounds(val, nbits, signed);
      WriteField(buf, a.off, a.nb, a.sb, nbits, Pattern32(val));
      FieldStored(old(buf[..]), nbits, signed, sz, idx, a.off, a.nb, a.sb, val);
    }
  }

  /** AtomicBitVector: only its buffer size is implemented; get returns 0
      and set does nothing. */
  class AtomicBitVector {
    const nbits: nat
    const signed: bool
    const sz: nat
    const buf: array<Byte>

    ghost predicate Valid()
    {
      1 <= nbits <= 31 && nbits != 8 && nbits != 16 && buf.Length == AtomicByteSz(nbits, sz)
    }

    /** The values get returns. */
    function Contents(): (r: seq<int>)
      ensures |r| == sz && forall i | 0 <= i < sz :: r[i] == 0
    {
      seq(sz, _ => 0)
    }

    constructor(nbits: nat, signed: bool, sz: nat)
      requires 1 <= nbits <= 31 && nbits != 8 && nbits != 16
      ensures Valid() && fresh(buf)
      ensures this.nbits == nbits && this.signed == signed && this.sz == sz
    {
      this.nbits := nbits;
      this.signed := signed;
      this.sz := sz;
      buf := new Byte[AtomicByteSz(nbits, sz)](_ => 0);
    }

    method Get(idx: nat) returns (r: int)
      requires Valid() && idx < sz
      ensures r == Contents()[idx] && r == 0
    {
      r := 0;
    }

    method Set(idx: nat, val: int)
      requires Valid() && idx < sz && TValue(val, nbits, signed)
    {
    }
  }

  // ---------------------------------------------------------------------
  // The BitVector front end.

  /** The implementation the constructor picks. */
  datatype Kind = ExactKind | NonAtomicKind | AtomicKind | NoKind

  /** is_pow2: n is a power of two. */
  predicate IsPow2(n: nat)
  {
    n == 1 || (n > 1 && n % 2 == 0 && IsPow2(n / 2))
  }

  lemma {:induction false} Pow2Below256(n: nat)
    requires IsPow2(n) && n < 256
    ensures n == 1 || n == 2 || n == 4 || n == 8 || n == 16 || n == 32 || n == 64 || n == 128
  {
    if n != 1 {
      Pow2Below256(n / 2);
    }
  }

  /** The constructor's choice for a uint8_t width: an exact vector for a
      power of two of at least 8 that it handles (8, 16, 32), otherwise the
      packed vector of the width when it is one of 1..31. */
  function Choose(nbits: nat, atomicWrite: bool): Kind
    requires nbits < 256
  {
    if nbits >= 8 && IsPow2(nbits) then
      if nbits == 8 || nbits == 16 || nbits == 32 then ExactKind else NoKind
    else if 1 <= nbits < 32 then
      if atomicWrite then AtomicKind else NonAtomicKind
    else
      NoKind
  }

  /** Which widths get which vector; 0, 64, 128 and every width above 32
      leave the front end without a vector. */
  lemma ChooseKinds(nbits: nat, atomicWrite: bool)
    requires nbits < 256
    ensures Choose(nbits, atomicWrite) == ExactKind <==> nbits == 8 || nbits == 16 || nbits == 32
    ensures Choose(nbits, atomicWrite) == NonAtomicKind <==>
              !atomicWrite && 1 <= nbits <= 31 && nbits != 8 && nbits != 16
    ensures Choose(nbits, atomicWrite) == AtomicKind <==>
              atomicWrite && 1 <= nbits <= 31 && nbits != 8 && nbits != 16
    ensures Choose(nbits, atomicWrite) == NoKind <==> nbits == 0 || nbits > 32
  {
    if nbits >= 8 && IsPow2(nbits) {
      Pow2Below256(nbits);
    }
    assert IsPow2(8) && IsPow2(16) && IsPow2(32);
  }

  datatype Impl =
    | ExactImpl(e: ExactBitVector)
    | NonAtomicImpl(n: NonAtomicBitVector)
    | AtomicImpl(a: AtomicBitVector)
    | NoImpl

  /** BitVector: a vector of sz elements whose width nbits is known only at
      run time, backed by the vector Choose picks. It uses the corrected
      NonAtomicBitVector operations. */
  class BitVector {
    const nbits: nat
    const signed: bool
    const sz: nat
    const atomicWrite: bool
    const impl: Impl

    function Kind(): Kind
    {
      match impl
      case ExactImpl(_) => ExactKind
      case NonAtomicImpl(_) => NonAtomicKind
      case AtomicImpl(_) => AtomicKind
      case NoImpl => NoKind
    }

    ghost predicate Valid()
    {
      nbits < 256 && Kind() == Choose(nbits, atomicWrite) &&
      match impl
      case ExactImpl(e) => e.Valid() && e.nbits == nbits && e.signed == signed && e.sz == sz
      case NonAtomicImpl(n) => n.Valid() && n.nbits == nbits && n.signed == signed && n.sz == sz
      case AtomicImpl(a) => a.Valid() && a.nbits == nbits && a.signed == signed && a.sz == sz
      case NoImpl => true
    }

    /** The buffer the chosen vector owns. */
    function Buffers(): set<object>
    {
      match impl
      case ExactImpl(e) => {e.buf}
      case NonAtomicImpl(n) => {n.buf}
      case AtomicImpl(a) => {a.buf}
      case NoImpl => {}
    }

    /** The values get returns. */
    function Contents(): (r: seq<int>)
      reads Buffers()
      requires Valid() && Kind() != NoKind
      ensures |r| == sz
    {
      match impl
      case ExactImpl(e) => e.Contents()
      case NonAtomicImpl(n) => n.Contents()
      case AtomicImpl(a) => a.Contents()
    }

    constructor(nbits: nat, signed: bool, sz: nat, atomicWrite: bool)
      requires nbits < 256
      ensures Valid() && fresh(Buffers())
      ensures this.nbits == nbits && this.signed == signed && this.sz == sz && this.atomicWrite == atomicWrite
      ensures Kind() == Choose(nbits, atomicWrite)
      ensures Kind() != NoKind ==> Contents() == seq(sz, _ => 0)
    {
      this.nbits := nbits;
      this.signed := signed;
      this.sz := sz;
      this.atomicWrite := atomicWrite;
      if nbits >= 8 && IsPow2(nbits) {
        if nbits == 8 || nbits == 16 || nbits == 32 {
          var e := new ExactBitVector(nbits, signed, sz);
          impl := ExactImpl(e);
        } else {
          impl := NoImpl;
        }
      } else if 1 <= nbits < 32 {
        ChooseKinds(nbits, atomicWrite);
        if !atomicWrite {
          var n := new NonAtomicBitVector(nbits, signed, sz);
          impl := NonAtomicImpl(n);
        } else {
          var a := new AtomicBitVector(nbits, signed, sz);
          impl := AtomicImpl(a);
        }
      } else {
        impl := NoImpl;
      }
    }

    method Get(idx: nat) returns (r: int)
      requires Valid() && Kind() != NoKind && idx < sz
      ensures r == Contents()[idx]
    {
      match impl
      case ExactImpl(e) =>
        r := e.Get(idx);
      case NonAtomicImpl(n) =>
        r := n.GetFixed(idx);
      case AtomicImpl(a) =>
        r := a.Get(idx);
    }

    /** Sets element idx to val cut to the element's width; the atomic
      vector keeps its contents. */
    method Set(idx: nat, val: int)
      requires Valid() && Kind() != NoKind && idx < sz
      requires 1 <= nbits <= 32 && TValue(val, nbits, signed)
      modifies Buffers()
      ensures -(Pow2(31) as int) <= val < Pow2(32)
      ensures Kind() == AtomicKind ==> Contents() == old(Contents())
      ensures Kind() != AtomicKind ==> Contents() == old(Contents())[idx := Stored(val, nbits, signed)]
    {
      TValueBounds(val, nbits, signed);
      match impl
      case ExactImpl(e) =>
        e.Set(idx, val);
      case NonAtomicImpl(n) =>
        n.SetFixed(idx, val);
      case AtomicImpl(a) =>
        a.Set(idx, val);
    }
  }
}
