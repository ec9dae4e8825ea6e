/** `sym_info`, one symbol of the traced process, and its on-disk form
    `log_sym`: the little-endian 64-bit fields base, size, name_len and
    path_len (32 bytes), then the name's bytes, then the path's bytes. Both
    trace formats lay symbol records one after the other right after the
    region records, and a walk over them reads each header to find the next. */
module SymRecords {
  import opened Bytes
  import opened Records
  import opened OrderedMaps
  import opened Framing
  import opened RegionRecords

  datatype SymInfo = SymInfo(base: U64, size: U64, name: string, path: string)

  /** `sizeof(log_sym)`. */
  const SymHdrSize: nat := 32

  /** A symbol that fits the record: byte strings whose lengths fit 64 bits. */
  predicate SymWellFormed(s: SymInfo)
  {
    ByteString(s.name) && ByteString(s.path) && |s.name| < Mod64 && |s.path| < Mod64
  }

  function SymWords(s: SymInfo): (r: seq<U64>)
    requires SymWellFormed(s)
    ensures |r| == 4
  {
    [s.base, s.size, |s.name|, |s.path|]
  }

  /** The record written for one symbol. */
  function EncodeSym(s: SymInfo): (r: seq<Byte>)
    requires SymWellFormed(s)
    ensures |r| == SymHdrSize + |s.name| + |s.path|
  {
    EncodeWords(SymWords(s)) + StrBytes(s.name) + StrBytes(s.path)
  }

  /** The symbol record at the front of buf and the bytes after it, which
      start `sizeof(log_sym) + name_len + path_len` bytes in; None when the
      record would run past the end of the buffer. */
  function DecodeSym(buf: seq<Byte>): (r: Option<(SymInfo, seq<Byte>)>)
    ensures r.Some? ==> SymHdrSize + |r.value.0.name| + |r.value.0.path| <= |buf|
                        && r.value.1 == buf[SymHdrSize + |r.value.0.name| + |r.value.0.path|..]
  {
    if SymHdrSize > |buf| then None
    else
      var w := ReadWords(buf, 0, 4);
      if SymHdrSize + w[2] + w[3] > |buf| then None
      else
        Some((SymInfo(w[0], w[1], ReadPath(buf, SymHdrSize, w[2]),
                      ReadPath(buf, SymHdrSize + w[2], w[3])),
              buf[SymHdrSize + w[2] + w[3]..]))
  }

  /** The header words of a symbol's record read back, whatever follows it. */
  lemma SymWordsBack(s: SymInfo, q: seq<Byte>)
    requires SymWellFormed(s)
    ensures ReadWords(EncodeSym(s) + q, 0, 4) == SymWords(s)
  {
    var rest := StrBytes(s.name) + StrBytes(s.path) + q;
    assert EncodeSym(s) + q == [] + EncodeWords(SymWords(s)) + rest;
    ReadWordsOfEncode([], SymWords(s), rest);
  }

  /** The name and the path of a symbol's record read back, and what follows
      the record is left as it was. */
  lemma SymStringsBack(s: SymInfo, q: seq<Byte>)
    requires SymWellFormed(s)
    ensures ReadPath(EncodeSym(s) + q, SymHdrSize, |s.name|) == s.name
    ensures ReadPath(EncodeSym(s) + q, SymHdrSize + |s.name|, |s.path|) == s.path
    ensures (EncodeSym(s) + q)[SymHdrSize + |s.name| + |s.path|..] == q
  {
    var h := EncodeWords(SymWords(s));
    var p := StrBytes(s.path);
    assert EncodeSym(s) + q == h + StrBytes(s.name) + (p + q);
    ReadPathOfStrBytes(h, s.name, p + q);
    assert EncodeSym(s) + q == (h + StrBytes(s.name)) + p + q;
    ReadPathOfStrBytes(h + StrBytes(s.name), s.path, q);
  }

  /** A record whose fields read back as a symbol's reads back as the symbol. */
  lemma DecodeSymFields(b: seq<Byte>, s: SymInfo, q: seq<Byte>)
    requires SymWellFormed(s) && SymHdrSize + |s.name| + |s.path| <= |b|
    requires ReadWords(b, 0, 4) == SymWords(s)
    requires ReadPath(b, SymHdrSize, |s.name|) == s.name
    requires ReadPath(b, SymHdrSize + |s.name|, |s.path|) == s.path
    requires b[SymHdrSize + |s.name| + |s.path|..] == q
    ensures DecodeSym(b) == Some((s, q))
  {
    var w := ReadWords(b, 0, 4);
    assert w[0] == s.base && w[1] == s.size && w[2] == |s.name| && w[3] == |s.path|;
  }

  /** The record written for a symbol reads back as the symbol, and the walk
      goes on with exactly the bytes that follow it. */
  lemma DecodeEncodeSym(s: SymInfo, q: seq<Byte>)
    requires SymWellFormed(s)
    ensures DecodeSym(EncodeSym(s) + q) == Some((s, q))
  {
    SymWordsBack(s, q);
    SymStringsBack(s, q);
    DecodeSymFields(EncodeSym(s) + q, s, q);
  }

  /** The record written for each symbol. */
  function SymEncs(syms: seq<SymInfo>): (r: seq<seq<Byte>>)
    requires forall i | 0 <= i < |syms| :: SymWellFormed(syms[i])
    ensures |r| == |syms| && forall i | 0 <= i < |syms| :: r[i] == EncodeSym(syms[i])
  {
    if syms == [] then [] else [EncodeSym(syms[0])] + SymEncs(syms[1..])
  }

  /** The records of several symbols, one after the other. */
  function EncodeSyms(syms: seq<SymInfo>): seq<Byte>
    requires forall i | 0 <= i < |syms| :: SymWellFormed(syms[i])
  {
    Join(SymEncs(syms))
  }

  /** Each symbol's record reads back as the symbol. */
  lemma {:induction false} SymsReadBack(syms: seq<SymInfo>)
    requires forall i | 0 <= i < |syms| :: SymWellFormed(syms[i])
    ensures ReadsBack(DecodeSym, SymEncs(syms), syms)
  {
    if syms != [] {
      forall q: seq<Byte> ensures DecodeSym(EncodeSym(syms[0]) + q) == Some((syms[0], q)) {
        DecodeEncodeSym(syms[0], q);
      }
      SymsReadBack(syms[1..]);
      assert SymEncs(syms)[1..] == SymEncs(syms[1..]);
    }
  }

  /** The records written for a sequence of symbols read back as those
      symbols, in order, and the walk ends with exactly the bytes after the
      last of them. */
  lemma DecodeEncodeSyms(syms: seq<SymInfo>, q: seq<Byte>)
    requires forall i | 0 <= i < |syms| :: SymWellFormed(syms[i])
    ensures Repeat(DecodeSym, EncodeSyms(syms) + q, |syms|) == Some((syms, q))
  {
    SymsReadBack(syms);
    RepeatJoin(DecodeSym, SymEncs(syms), syms, q);
  }

  /** The symbol loop of both writers: each symbol's record appended to
      out, in order. */
  method WriteSyms(out: seq<Byte>, syms: seq<SymInfo>) returns (r: seq<Byte>)
    requires forall i | 0 <= i < |syms| :: SymWellFormed(syms[i])
    ensures r == out + EncodeSyms(syms)
  {
    ghost var encs := SymEncs(syms);
    r := out;
    var i := 0;
    while i < |syms|
      invariant i <= |syms|
      invariant r + Join(encs[i..]) == out + Join(encs)
    {
      JoinFrom(encs, i);
      r := WriteSym(r, syms[i]);
      i := i + 1;
    }
    assert encs[..] == encs;
  }

  /** One turn of the symbol loop: the header, the name, then the path. */
  method WriteSym(out: seq<Byte>, sym: SymInfo) returns (r: seq<Byte>)
    requires SymWellFormed(sym)
    ensures r == out + EncodeSym(sym)
  {
    r := out + EncodeWords(SymWords(sym));
    r := r + StrBytes(sym.name);
    r := r + StrBytes(sym.path);
  }
}
