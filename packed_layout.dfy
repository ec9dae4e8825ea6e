/** Word sizes, index arithmetic and buffer sizes of the packed vectors in
    include/xnu-trace/BitVector.h, and where get and set find an element. */
module PackedLayout {
  import opened Bits
  import opened PackedWords

  /** Bits of T = int_n<nbits>: the smallest of 8, 16 and 32 that holds nbits. */
  function TBits(nbits: nat): nat
  {
    if nbits <= 8 then 8 else if nbits <= 16 then 16 else 32
  }

  /** Bits of the double word DT. */
  function DTBits(nbits: nat): nat
  {
    2 * TBits(nbits)
  }

  /** Bits of the quad word QT of the atomic vector. */
  function QTBits(nbits: nat): nat
  {
    4 * TBits(nbits)
  }

  function StartWordIdx(nbits: nat, idx: nat): nat
  {
    StartBitIdx(nbits, idx) / TBits(nbits)
  }

  function EndWordIdx(nbits: nat, idx: nat): nat
  {
    EndBitIdx(nbits, idx) / TBits(nbits)
  }

  function StartDwordIdx(nbits: nat, idx: nat): nat
  {
    StartBitIdx(nbits, idx) / DTBits(nbits)
  }

  function EndDwordIdx(nbits: nat, idx: nat): nat
  {
    EndBitIdx(nbits, idx) / DTBits(nbits)
  }

  /** byte_sz of ExactBitVector: nbits is 8, 16 or 32, so no rounding. */
  function ExactByteSz(nbits: nat, sz: nat): (r: nat)
    requires nbits == 8 || nbits == 16 || nbits == 32
    ensures 8 * r == nbits * sz
  {
    sz * nbits / 8
  }

  /** The byte offset of element idx of ExactBitVector: the idx-th T. */
  function ExactByteOffset(nbits: nat, idx: nat): nat
  {
    idx * (nbits / 8)
  }

  /** byte_sz of NonAtomicBitVector: the packed bits rounded up to whole double words. */
  function NonAtomicByteSz(nbits: nat, sz: nat): (r: nat)
    requires 1 <= nbits <= 32
    ensures nbits * sz <= 8 * r < nbits * sz + DTBits(nbits)
    ensures (8 * r) % DTBits(nbits) == 0
  {
    RoundUpFacts(nbits * sz, DTBits(nbits));
    ((nbits * sz + DTBits(nbits) - 1) / DTBits(nbits)) * DTBits(nbits) / 8
  }

  /** byte_sz of AtomicBitVector: the packed bits rounded up to whole quad words. */
  function AtomicByteSz(nbits: nat, sz: nat): (r: nat)
    requires 1 <= nbits <= 32
    ensures nbits * sz <= 8 * r < nbits * sz + QTBits(nbits)
    ensures (8 * r) % QTBits(nbits) == 0
  {
    RoundUpFacts(nbits * sz, QTBits(nbits));
    ((nbits * sz + QTBits(nbits) - 1) / QTBits(nbits)) * QTBits(nbits) / 8
  }

  /** Rounding x up to a multiple of a word size d (16 to 128 bits) gives
      whole bytes, at least x and less than x + d. */
  lemma RoundUpFacts(x: nat, d: nat)
    requires d == 16 || d == 32 || d == 64 || d == 128
    ensures var r := ((x + d - 1) / d) * d;
      r % 8 == 0 && x <= r < x + d && r % d == 0 && 8 * (r / 8) == r
  {
    var q := (x + d - 1) / d;
    var e := d / 8;
    assert d == 8 * e;
    assert d * q == 8 * (e * q);
    DivModUnique(d * q, d, q, 0);
    DivModUnique(d * q, 8, e * q, 0);
  }

  // ---------------------------------------------------------------------
  // Where get and set look for an element.

  /** The word get or set loads is bytes [off, off + nb) of the buffer; the
      element is meant to be its bits [sb, eb). */
  datatype Access = Access(off: nat, nb: nat, sb: nat, eb: nat)

  /** The access of NonAtomicBitVector::get and ::set as written: the word
      at start_word_idx when the element starts and ends in it, otherwise the
      aligned double word start_word_idx / 2, with the bit range taken modulo
      the double word. */
  function WordAccess(nbits: nat, idx: nat): Access
  {
    WordAccessAt(StartBitIdx(nbits, idx), EndBitIdx(nbits, idx), TBits(nbits))
  }

  /** WordAccess for an element at bits [s, e) with words of t bits. */
  function WordAccessAt(s: nat, e: nat, t: nat): Access
    requires t > 0
  {
    var sw := s / t;
    if sw == e / t then
      Access(Mul(sw, t / 8), t / 8, s % t, e % t)
    else
      Access(Mul(sw / 2, 2 * t / 8), 2 * t / 8, s % (2 * t), e % (2 * t))
  }

  /** get as written is defined when the element lies in one word or in one
      double word; otherwise its bit range wraps (eb < sb) and the mask
      `1 << (eb - sb)` has a negative shift count. */
  predicate GetSafe(nbits: nat, idx: nat)
  {
    StartWordIdx(nbits, idx) == EndWordIdx(nbits, idx) ||
    StartDwordIdx(nbits, idx) == EndDwordIdx(nbits, idx)
  }

  /** set as written also shifts the int literal 1 by eb in bit_mask and the
      value by sb within 32 bits, so its field must end below bit 32 of the word. */
  predicate SetSafe(nbits: nat, idx: nat)
  {
    GetSafe(nbits, idx) && WordAccess(nbits, idx).eb < 32
  }

  /** The access the code means to make: the element starts in word
      start_word_idx; when it does not end in that word, the two words from
      start_word_idx on are loaded as one double word. */
  function FixedAccess(nbits: nat, idx: nat): Access
  {
    FixedAccessAt(StartBitIdx(nbits, idx), nbits, TBits(nbits))
  }

  /** FixedAccess for an n-bit element at bit s with words of t bits. */
  function FixedAccessAt(s: nat, n: nat, t: nat): Access
    requires t > 0
  {
    var sw := s / t;
    if n == 0 || sw == (s + n - 1) / t then
      Access(Mul(sw, t / 8), t / 8, s % t, s % t + n)
    else
      Access(Mul(sw, t / 8), 2 * t / 8, s % t, s % t + n)
  }

  /** An access that finds element idx of an sz-element vector inside its buffer. */
  predicate Locates(a: Access, nbits: nat, sz: nat, idx: nat)
    requires 1 <= nbits <= 32
  {
    LocatesAt(a, StartBitIdx(nbits, idx), nbits, NonAtomicByteSz(nbits, sz))
  }

  /** An access whose bits [sb, eb) are bits [s, s + n) of a buffer of b bytes. */
  predicate LocatesAt(a: Access, s: nat, n: nat, b: nat)
  {
    a.eb == a.sb + n && a.sb + n <= 8 * a.nb && 8 * a.off + a.sb == s && a.off + a.nb <= b
  }

  // ---------------------------------------------------------------------
  // The arithmetic behind the accesses, for a word of t bits.

  lemma WordSizes(nbits: nat)
    ensures var t := TBits(nbits); (t == 8 || t == 16 || t == 32) && t == 8 * (t / 8)
    ensures 1 <= nbits <= 32 ==> nbits <= TBits(nbits)
  {
  }

  /** A field [s, s + n) whose ends fall in the same t-bit piece lies inside it. */
  lemma SamePiece(s: nat, n: nat, t: nat)
    requires t > 0 && s / t == (s + n) / t
    ensures s % t + n < t && (s + n) % t == s % t + n
  {
    var q := s / t;
    assert s == t * q + s % t;
    assert s + n == t * q + (s + n) % t;
  }

  /** The double word holding bit s is the one at index (s / t) / 2. */
  lemma HalfIndex(s: nat, t: nat)
    requires t > 0
    ensures (s / t) / 2 == s / (2 * t)
  {
    var q, r := (s / t) / 2, (s / t) % 2;
    assert s / t == 2 * q + r;
    assert s == t * (s / t) + s % t;
    assert s == (2 * t) * q + (t * r + s % t);
    DivModUnique(s, 2 * t, q, t * r + s % t);
  }

  /** Piece s / t of t = 8 * e bits starts at byte (s / t) * e. */
  lemma PieceOffset(s: nat, t: nat, e: nat)
    requires t == 8 * e && e > 0
    ensures 8 * ((s / t) * e) + s % t == s
  {
    var q := s / t;
    assert s == t * q + s % t;
    assert 8 * (q * e) == t * q;
  }

  /** k whole pieces of t = 8 * e bits below 8 * b bits end at byte k * e <= b. */
  lemma PieceEnd(k: nat, t: nat, e: nat, b: nat)
    requires t == 8 * e && k * t <= 8 * b
    ensures k * e <= b
  {
    assert k * t == 8 * (k * e);
  }

  /** The word and the aligned double word that hold bit s of a buffer of
      total bits (a whole number of double words) lie inside it, and so do
      the two words from s / t on when an n-bit field at s crosses a word. */
  lemma Bounds(s: nat, n: nat, x: nat, t: nat, total: nat)
    requires t > 0 && 1 <= n && s + n <= x <= total && total % (2 * t) == 0
    ensures (s / t + 1) * t <= total && (s / (2 * t) + 1) * (2 * t) <= total
    ensures s / t != (s + n - 1) / t ==> (s / t + 2) * t <= total
  {
    var k := total / (2 * t);
    assert total == t * (2 * k);
    WordBound(s, t, 2 * k);
    DivModUnique(total, 2 * t, k, 0);
    WordBound(s, 2 * t, k);
    var ew := (s + n - 1) / t;
    if s / t != ew {
      CrossBound(s, s + n - 1, t, 2 * k);
    }
  }

  lemma WordBound(s: nat, t: nat, k: nat)
    requires t > 0 && s < t * k
    ensures (s / t + 1) * t <= t * k
  {
    var sw := s / t;
    assert t * sw <= s;
    MulStrict(t, sw, k);
    MulMono(t, sw + 1, k);
  }

  lemma CrossBound(s: nat, e: nat, t: nat, k: nat)
    requires t > 0 && s <= e < t * k && s / t != e / t
    ensures (s / t + 2) * t <= t * k
  {
    var sw, ew := s / t, e / t;
    assert t * sw <= s;
    assert t * ew <= e;
    assert e < t * (ew + 1);
    MulStrict(t, sw, ew + 1);
    MulStrict(t, ew, k);
    MulMono(t, sw + 2, k);
  }

  /** Where get and set as written look, element idx is, whenever they are defined. */
  lemma WordAccessLocates(nbits: nat, sz: nat, idx: nat)
    requires 1 <= nbits <= 32 && idx < sz && GetSafe(nbits, idx)
    ensures Locates(WordAccess(nbits, idx), nbits, sz, idx)
  {
    var s, t := StartBitIdx(nbits, idx), TBits(nbits);
    WordSizes(nbits);
    ElementEnd(nbits, sz, idx);
    assert EndBitIdx(nbits, idx) == s + nbits;
    WordAccessAtLocates(s, nbits, t, nbits * sz, NonAtomicByteSz(nbits, sz));
  }

  lemma WordAccessAtLocates(s: nat, n: nat, t: nat, x: nat, b: nat)
    requires t == 8 * (t / 8) && t > 0 && 1 <= n
    requires s + n <= x <= 8 * b && (8 * b) % (2 * t) == 0
    requires s / t == (s + n) / t || s / (2 * t) == (s + n) / (2 * t)
    ensures LocatesAt(WordAccessAt(s, s + n, t), s, n, b)
  {
    Bounds(s, n, x, t, 8 * b);
    if s / t == (s + n) / t {
      WordCase(s, n, t, b);
    } else {
      DwordCase(s, n, t, b);
    }
  }

  lemma WordCase(s: nat, n: nat, t: nat, b: nat)
    requires t == 8 * (t / 8) && t > 0
    requires s / t == (s + n) / t && (s / t + 1) * t <= 8 * b
    ensures LocatesAt(WordAccessAt(s, s + n, t), s, n, b)
  {
    SamePiece(s, n, t);
    var q, e := s / t, t / 8;
    PieceOffset(s, t, e);
    PieceEnd(q + 1, t, e, b);
    assert (q + 1) * e == q * e + e;
    assert WordAccessAt(s, s + n, t) == Access(q * e, e, s % t, (s + n) % t);
  }

  lemma DwordCase(s: nat, n: nat, t: nat, b: nat)
    requires t == 8 * (t / 8) && t > 0 && s / t != (s + n) / t
    requires s / (2 * t) == (s + n) / (2 * t) && (s / (2 * t) + 1) * (2 * t) <= 8 * b
    ensures LocatesAt(WordAccessAt(s, s + n, t), s, n, b)
  {
    var d := 2 * t;
    SamePiece(s, n, d);
    HalfIndex(s, t);
    var q, e := s / d, d / 8;
    assert d == 8 * e;
    PieceOffset(s, d, e);
    PieceEnd(q + 1, d, e, b);
    assert (q + 1) * e == q * e + e;
    assert WordAccessAt(s, s + n, t) == Access(q * e, e, s % d, (s + n) % d);
  }

  /** The intended access finds every element. */
  lemma FixedAccessLocates(nbits: nat, sz: nat, idx: nat)
    requires 1 <= nbits <= 32 && idx < sz
    ensures Locates(FixedAccess(nbits, idx), nbits, sz, idx)
  {
    var s, t := StartBitIdx(nbits, idx), TBits(nbits);
    WordSizes(nbits);
    ElementEnd(nbits, sz, idx);
    FixedAccessAtLocates(s, nbits, t, nbits * sz, NonAtomicByteSz(nbits, sz));
  }

  lemma FixedAccessAtLocates(s: nat, n: nat, t: nat, x: nat, b: nat)
    requires t == 8 * (t / 8) && t > 0 && 1 <= n <= t
    requires s + n <= x <= 8 * b && (8 * b) % (2 * t) == 0
    ensures LocatesAt(FixedAccessAt(s, n, t), s, n, b)
  {
    Bounds(s, n, x, t, 8 * b);
    if s / t == (s + n - 1) / t {
      FixedSame(s, n, t, b);
    } else {
      FixedCross(s, n, t, b);
    }
  }

  lemma FixedSame(s: nat, n: nat, t: nat, b: nat)
    requires t == 8 * (t / 8) && t > 0 && 1 <= n
    requires (s / t + 1) * t <= 8 * b && s / t == (s + n - 1) / t
    ensures LocatesAt(FixedAccessAt(s, n, t), s, n, b)
  {
    SamePiece(s, n - 1, t);
    var q, e := s / t, t / 8;
    PieceOffset(s, t, e);
    PieceEnd(q + 1, t, e, b);
    assert (q + 1) * e == q * e + e;
    assert FixedAccessAt(s, n, t) == Access(q * e, e, s % t, s % t + n);
  }

  lemma FixedCross(s: nat, n: nat, t: nat, b: nat)
    requires t == 8 * (t / 8) && t > 0 && 1 <= n <= t
    requires (s / t + 2) * t <= 8 * b && s / t != (s + n - 1) / t
    ensures LocatesAt(FixedAccessAt(s, n, t), s, n, b)
  {
    var q, e := s / t, t / 8;
    PieceOffset(s, t, e);
    PieceEnd(q + 2, t, e, b);
    assert (q + 2) * e == q * e + 2 * e;
    assert FixedAccessAt(s, n, t) == Access(q * e, 2 * e, s % t, s % t + n);
  }

  /** A 12-bit element that crosses a double-word boundary: get and set as
      written take the aligned double word 0 and the bit range [24, 4). */
  lemma WordAccessWraps()
    ensures !GetSafe(12, 2)
    ensures WordAccess(12, 2) == Access(0, 4, 24, 4)
    ensures FixedAccess(12, 2) == Access(2, 4, 8, 20)
  {
  }

  /** A 4-bit element that ends on a double-word boundary: the range is [12, 0). */
  lemma WordAccessEndsOnBoundary()
    ensures !GetSafe(4, 3)
    ensures WordAccess(4, 3) == Access(0, 2, 12, 0)
  {
  }
}
