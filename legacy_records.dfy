/** The single-file trace of the legacy recorder. The file is a header
    `log_hdr` (the little-endian 64-bit fields magic, num_regions and
    num_syms), then num_regions region records, then num_syms symbol
    records, then one block per thread until the end of the file. A legacy
    region record is the 64-bit fields base, size, slide and path_len, then
    the 16-byte UUID (48 bytes in all), then the path's bytes; it carries no
    digest and no JIT flag. A thread block is `log_thread_hdr` (the 64-bit
    fields thread_id and thread_log_sz) followed by thread_log_sz bytes of
    8-byte pc records. */
module LegacyRecords {
  import opened Bytes
  import opened Records
  import opened OrderedMaps
  import opened Framing
  import opened RegionRecords
  import opened SymRecords
  import opened TraceCommon

  /** `sizeof(log_hdr)`. */
  const LogHdrSize: nat := 24

  /** `sizeof(log_region)` in the legacy layout. */
  const LegacyRegionHdrSize: nat := 48

  /** `sizeof(log_thread_hdr)` in the legacy layout. */
  const ThreadHdrSize: nat := 16

  // ---------------------------------------------------------------------
  // Region records.

  /** An image that fits a legacy record: a 16-byte UUID and a byte path. */
  predicate LegacyWellFormed(img: ImageInfo)
  {
    |img.uuid| == UuidSize && ByteString(img.path) && |img.path| < Mod64
  }

  /** What a legacy record carries of an image: no bytes, no digest, no JIT flag. */
  function LegacyHeader(img: ImageInfo): ImageInfo
  {
    img.(bytes := [], digest := [], isJit := false)
  }

  function LegacyWords(img: ImageInfo): (r: seq<U64>)
    requires LegacyWellFormed(img)
    ensures |r| == 4
  {
    [img.base, img.size, img.slide, |img.path|]
  }

  /** The legacy record written for one image. */
  function EncodeLegacyRegion(img: ImageInfo): (r: seq<Byte>)
    requires LegacyWellFormed(img)
    ensures |r| == LegacyRegionHdrSize + |img.path|
  {
    EncodeWords(LegacyWords(img)) + img.uuid + StrBytes(img.path)
  }

  /** The legacy record at the front of buf and the bytes after it, which
      start `sizeof(log_region) + path_len` bytes in. */
  function DecodeLegacyRegion(buf: seq<Byte>): (r: Option<(ImageInfo, seq<Byte>)>)
    ensures r.Some? ==> LegacyRegionHdrSize + |r.value.0.path| <= |buf|
                        && r.value.1 == buf[LegacyRegionHdrSize + |r.value.0.path|..]
  {
    if LegacyRegionHdrSize > |buf| then None
    else
      var w := ReadWords(buf, 0, 4);
      if LegacyRegionHdrSize + w[3] > |buf| then None
      else
        Some((ImageInfo(w[0], w[1], w[2], ReadPath(buf, LegacyRegionHdrSize, w[3]),
                        buf[32..32 + UuidSize], [], [], false),
              buf[LegacyRegionHdrSize + w[3]..]))
  }

  /** The fields of an image's legacy record read back, whatever follows it. */
  lemma LegacyFieldsBack(img: ImageInfo, q: seq<Byte>)
    requires LegacyWellFormed(img)
    ensures ReadWords(EncodeLegacyRegion(img) + q, 0, 4) == LegacyWords(img)
    ensures (EncodeLegacyRegion(img) + q)[32..32 + UuidSize] == img.uuid
  {
    var h := EncodeWords(LegacyWords(img));
    var rest := img.uuid + StrBytes(img.path) + q;
    assert EncodeLegacyRegion(img) + q == [] + h + rest;
    ReadWordsOfEncode([], LegacyWords(img), rest);
    assert EncodeLegacyRegion(img) + q == h + img.uuid + (StrBytes(img.path) + q);
  }

  /** The path of an image's legacy record reads back, and what follows the
      record is left as it was. */
  lemma LegacyPathBack(img: ImageInfo, q: seq<Byte>)
    requires LegacyWellFormed(img)
    ensures ReadPath(EncodeLegacyRegion(img) + q, LegacyRegionHdrSize, |img.path|) == img.path
    ensures (EncodeLegacyRegion(img) + q)[LegacyRegionHdrSize + |img.path|..] == q
  {
    var h := EncodeWords(LegacyWords(img)) + img.uuid;
    assert EncodeLegacyRegion(img) + q == h + StrBytes(img.path) + q;
    ReadPathOfStrBytes(h, img.path, q);
  }

  /** A record whose fields read back as an image's reads back as its legacy header. */
  lemma DecodeLegacyFields(s: seq<Byte>, img: ImageInfo, q: seq<Byte>)
    requires LegacyWellFormed(img) && LegacyRegionHdrSize + |img.path| <= |s|
    requires ReadWords(s, 0, 4) == LegacyWords(img)
    requires s[32..32 + UuidSize] == img.uuid
    requires ReadPath(s, LegacyRegionHdrSize, |img.path|) == img.path
    requires s[LegacyRegionHdrSize + |img.path|..] == q
    ensures DecodeLegacyRegion(s) == Some((LegacyHeader(img), q))
  {
    var w := ReadWords(s, 0, 4);
    assert w[0] == img.base && w[1] == img.size && w[2] == img.slide && w[3] == |img.path|;
  }

  /** The legacy record written for an image reads back as its legacy header,
      and the walk goes on with exactly the bytes that follow it. */
  lemma DecodeEncodeLegacyRegion(img: ImageInfo, q: seq<Byte>)
    requires LegacyWellFormed(img)
    ensures DecodeLegacyRegion(EncodeLegacyRegion(img) + q) == Some((LegacyHeader(img), q))
  {
    LegacyFieldsBack(img, q);
    LegacyPathBack(img, q);
    DecodeLegacyFields(EncodeLegacyRegion(img) + q, img, q);
  }

  function LegacyHeaders(imgs: seq<ImageInfo>): (r: seq<ImageInfo>)
    ensures |r| == |imgs| && forall i | 0 <= i < |imgs| :: r[i] == LegacyHeader(imgs[i])
  {
    if imgs == [] then [] else [LegacyHeader(imgs[0])] + LegacyHeaders(imgs[1..])
  }

  function LegacyEncs(imgs: seq<ImageInfo>): (r: seq<seq<Byte>>)
    requires forall i | 0 <= i < |imgs| :: LegacyWellFormed(imgs[i])
    ensures |r| == |imgs| && forall i | 0 <= i < |imgs| :: r[i] == EncodeLegacyRegion(imgs[i])
  {
    if imgs == [] then [] else [EncodeLegacyRegion(imgs[0])] + LegacyEncs(imgs[1..])
  }

  lemma {:induction false} LegacyRegionsReadBack(imgs: seq<ImageInfo>)
    requires forall i | 0 <= i < |imgs| :: LegacyWellFormed(imgs[i])
    ensures ReadsBack(DecodeLegacyRegion, LegacyEncs(imgs), LegacyHeaders(imgs))
  {
    if imgs != [] {
      forall q: seq<Byte>
        ensures DecodeLegacyRegion(EncodeLegacyRegion(imgs[0]) + q) == Some((LegacyHeader(imgs[0]), q))
      {
        DecodeEncodeLegacyRegion(imgs[0], q);
      }
      LegacyRegionsReadBack(imgs[1..]);
      assert LegacyEncs(imgs)[1..] == LegacyEncs(imgs[1..]);
      assert LegacyHeaders(imgs)[1..] == LegacyHeaders(imgs[1..]);
    }
  }

  // ---------------------------------------------------------------------
  // Thread blocks.

  /** A thread's id and the records parsed for it. */
  type ThreadLog = (nat, seq<LogMsg>)

  /** The block `write_to_file` writes for one thread. */
  function EncodeThread(tid: U64, buf: seq<Byte>): (r: seq<Byte>)
    requires |buf| < Mod64
    ensures |r| == ThreadHdrSize + |buf|
  {
    EncodeWords([tid, |buf|]) + buf
  }

  /** The thread block at the front of rest, its records read in order, and
      the bytes after it. None when the header or the records would run past
      the end of the buffer, or when the block does not hold whole records. */
  function DecodeThread(rest: seq<Byte>): (r: Option<(ThreadLog, seq<Byte>)>)
    ensures r.Some? ==> |r.value.1| < |rest|
  {
    if ThreadHdrSize > |rest| then None
    else
      var w := ReadWords(rest, 0, 2);
      if ThreadHdrSize + w[1] > |rest| || w[1] % MsgSize != 0 then None
      else Some(((w[0], Msgs(rest[ThreadHdrSize..ThreadHdrSize + w[1]])), rest[ThreadHdrSize + w[1]..]))
  }

  /** The header and the bytes of a thread's block read back, whatever
      follows it. */
  lemma ThreadFieldsBack(tid: U64, buf: seq<Byte>, q: seq<Byte>)
    requires |buf| < Mod64
    ensures ReadWords(EncodeThread(tid, buf) + q, 0, 2) == [tid, |buf|]
    ensures (EncodeThread(tid, buf) + q)[ThreadHdrSize..ThreadHdrSize + |buf|] == buf
    ensures (EncodeThread(tid, buf) + q)[ThreadHdrSize + |buf|..] == q
  {
    var h := EncodeWords([tid, |buf|]);
    assert EncodeThread(tid, buf) + q == [] + h + (buf + q);
    ReadWordsOfEncode([], [tid, |buf|], buf + q);
    assert EncodeThread(tid, buf) + q == h + buf + q;
  }

  /** A block whose fields read back as a thread's reads back as the thread. */
  lemma DecodeThreadFields(s: seq<Byte>, tid: U64, buf: seq<Byte>, q: seq<Byte>)
    requires |buf| < Mod64 && |buf| % MsgSize == 0 && ThreadHdrSize + |buf| <= |s|
    requires ReadWords(s, 0, 2) == [tid, |buf|]
    requires s[ThreadHdrSize..ThreadHdrSize + |buf|] == buf
    requires s[ThreadHdrSize + |buf|..] == q
    ensures DecodeThread(s) == Some(((tid, Msgs(buf)), q))
  {
    var w := ReadWords(s, 0, 2);
    assert w[0] == tid && w[1] == |buf|;
  }

  /** A thread's block reads back as its id and the records of its buffer,
      whatever follows it. */
  lemma DecodeEncodeThread(tid: U64, buf: seq<Byte>, q: seq<Byte>)
    requires |buf| < Mod64 && |buf| % MsgSize == 0
    ensures DecodeThread(EncodeThread(tid, buf) + q) == Some(((tid, Msgs(buf)), q))
  {
    ThreadFieldsBack(tid, buf, q);
    DecodeThreadFields(EncodeThread(tid, buf) + q, tid, buf, q);
  }

  /** The thread blocks from rest to the end of the buffer. */
  function Threads(rest: seq<Byte>): Option<seq<ThreadLog>>
    decreases |rest|
  {
    if rest == [] then Some([])
    else
      var d := DecodeThread(rest);
      if d.None? then None
      else
        var ts := Threads(d.value.1);
        if ts.None? then None else Some([d.value.0] + ts.value)
  }

  /** Thread ids and buffer lengths that fit the 64-bit header fields, and
      buffers of whole records. */
  predicate Writable(bufs: OrdMap<seq<Byte>>)
  {
    forall i | 0 <= i < |bufs| :: bufs[i].0 < Mod64 && |bufs[i].1| < Mod64 && |bufs[i].1| % MsgSize == 0
  }

  /** The blocks of every thread, in ascending thread id order. */
  function EncodeThreads(bufs: OrdMap<seq<Byte>>): seq<Byte>
    requires Writable(bufs)
  {
    if bufs == [] then [] else EncodeThread(bufs[0].0, bufs[0].1) + EncodeThreads(bufs[1..])
  }

  /** Each thread's id with the records of its buffer. */
  function ThreadLogs(bufs: OrdMap<seq<Byte>>): (r: seq<ThreadLog>)
    ensures |r| == |bufs|
  {
    if bufs == [] then [] else [(bufs[0].0, Msgs(bufs[0].1))] + ThreadLogs(bufs[1..])
  }

  /** The thread blocks written for the buffers read back as the buffers'
      records, thread by thread, up to the end of the file. */
  lemma {:induction false} ThreadsOfEncode(bufs: OrdMap<seq<Byte>>)
    requires Writable(bufs)
    ensures Threads(EncodeThreads(bufs)) == Some(ThreadLogs(bufs))
  {
    if bufs != [] {
      var rest := EncodeThreads(bufs[1..]);
      DecodeEncodeThread(bufs[0].0, bufs[0].1, rest);
      assert Writable(bufs[1..]) by {
        forall i | 0 <= i < |bufs[1..]|
          ensures bufs[1..][i].0 < Mod64 && |bufs[1..][i].1| < Mod64 && |bufs[1..][i].1| % MsgSize == 0
        {
          assert bufs[1..][i] == bufs[i + 1];
        }
      }
      ThreadsOfEncode(bufs[1..]);
    }
  }

  /** Looking a thread up among the parsed blocks finds the records of its
      buffer. */
  lemma {:induction false} FindThreadLogs(bufs: OrdMap<seq<Byte>>, t: nat)
    ensures Find(ThreadLogs(bufs), t)
            == if Find(bufs, t).Some? then Some(Msgs(Find(bufs, t).value)) else None
  {
    if bufs != [] {
      FindThreadLogs(bufs[1..], t);
      assert ThreadLogs(bufs)[1..] == ThreadLogs(bufs[1..]);
    }
  }

  /** `m_parsed_logs.emplace` for each parsed block in turn: the first block
      of a thread wins. */
  function EmplaceAll(m: OrdMap<seq<LogMsg>>, ts: seq<ThreadLog>): (r: OrdMap<seq<LogMsg>>)
    requires Ascending(m)
    ensures Ascending(r)
    decreases |ts|
  {
    if ts == [] then m else EmplaceAll(Emplace(m, ts[0].0, ts[0].1), ts[1..])
  }

  /** After the blocks are emplaced, a thread holds what it held before, or
      else the records of its first block. */
  lemma {:induction false} FindEmplaceAll(m: OrdMap<seq<LogMsg>>, ts: seq<ThreadLog>, t: nat)
    requires Ascending(m)
    ensures Find(EmplaceAll(m, ts), t) == if Find(m, t).Some? then Find(m, t) else Find(ts, t)
    decreases |ts|
  {
    if ts != [] {
      FindEmplaceAll(Emplace(m, ts[0].0, ts[0].1), ts[1..], t);
    }
  }

  // ---------------------------------------------------------------------
  // The whole file.

  /** What the parsing constructor reads from a trace file. */
  datatype Parsed = Parsed(numRegions: U64, numSyms: U64, regions: seq<ImageInfo>,
                           syms: seq<SymInfo>, threads: seq<ThreadLog>)

  /** A trace file read front to back; None when a record or block would run
      past its end. */
  function ParseTrace(buf: seq<Byte>): Option<Parsed>
  {
    if LogHdrSize > |buf| then None
    else
      var w := ReadWords(buf, 0, 3);
      match Repeat(DecodeLegacyRegion, buf[LogHdrSize..], w[1])
      case None => None
      case Some((rs, rest)) =>
        match Repeat(DecodeSym, rest, w[2])
        case None => None
        case Some((ss, rest')) =>
          match Threads(rest')
          case None => None
          case Some(ts) => Some(Parsed(w[1], w[2], rs, ss, ts))
  }

  /** Everything a trace file is written from fits its fields. */
  predicate FileWritable(regions: seq<ImageInfo>, syms: seq<SymInfo>, bufs: OrdMap<seq<Byte>>)
  {
    |regions| < Mod64 && |syms| < Mod64 && Writable(bufs)
    && (forall i | 0 <= i < |regions| :: LegacyWellFormed(regions[i]))
    && (forall i | 0 <= i < |syms| :: SymWellFormed(syms[i]))
  }

  /** The bytes `write_to_file` writes: the header, the region records, the
      symbol records, then the thread blocks. */
  function TraceFile(magic: U64, regions: seq<ImageInfo>, syms: seq<SymInfo>, bufs: OrdMap<seq<Byte>>)
    : seq<Byte>
    requires FileWritable(regions, syms, bufs)
  {
    FileHeader(magic, |regions|, |syms|) + Join(LegacyEncs(regions)) + EncodeSyms(syms)
    + EncodeThreads(bufs)
  }

  /** The header `write_to_file` writes first. */
  function FileHeader(magic: U64, nr: U64, ns: U64): (r: seq<Byte>)
    ensures |r| == LogHdrSize
  {
    EncodeWords([magic, nr, ns])
  }

  /** The header of a trace file reads back, whatever follows it. */
  lemma HeaderBack(magic: U64, nr: U64, ns: U64, body: seq<Byte>)
    ensures ReadWords(FileHeader(magic, nr, ns) + body, 0, 3) == [magic, nr, ns]
    ensures (FileHeader(magic, nr, ns) + body)[LogHdrSize..] == body
  {
    assert FileHeader(magic, nr, ns) + body == [] + EncodeWords([magic, nr, ns]) + body;
    ReadWordsOfEncode([], [magic, nr, ns], body);
  }

  /** A file whose header, region walk, symbol walk and thread blocks read
      back parses as them. */
  lemma ParseFields(buf: seq<Byte>, nr: U64, ns: U64, rs: seq<ImageInfo>, rest: seq<Byte>,
                    ss: seq<SymInfo>, rest': seq<Byte>, ts: seq<ThreadLog>)
    requires LogHdrSize <= |buf| && ReadWords(buf, 0, 3)[1] == nr && ReadWords(buf, 0, 3)[2] == ns
    requires Repeat(DecodeLegacyRegion, buf[LogHdrSize..], nr) == Some((rs, rest))
    requires Repeat(DecodeSym, rest, ns) == Some((ss, rest'))
    requires Threads(rest') == Some(ts)
    ensures ParseTrace(buf) == Some(Parsed(nr, ns, rs, ss, ts))
  {
  }

  /** The records after the header read back: the regions' legacy headers,
      then the symbols, then each thread's records. */
  lemma BodyParses(regions: seq<ImageInfo>, syms: seq<SymInfo>, bufs: OrdMap<seq<Byte>>)
    requires FileWritable(regions, syms, bufs)
    ensures Repeat(DecodeLegacyRegion, Join(LegacyEncs(regions)) + (EncodeSyms(syms) + EncodeThreads(bufs)),
                   |regions|)
            == Some((LegacyHeaders(regions), EncodeSyms(syms) + EncodeThreads(bufs)))
    ensures Repeat(DecodeSym, EncodeSyms(syms) + EncodeThreads(bufs), |syms|)
            == Some((syms, EncodeThreads(bufs)))
    ensures Threads(EncodeThreads(bufs)) == Some(ThreadLogs(bufs))
  {
    LegacyRegionsReadBack(regions);
    RepeatJoin(DecodeLegacyRegion, LegacyEncs(regions), LegacyHeaders(regions),
               EncodeSyms(syms) + EncodeThreads(bufs));
    DecodeEncodeSyms(syms, EncodeThreads(bufs));
    ThreadsOfEncode(bufs);
  }

  /** A trace file reads back as the legacy headers of its regions, its
      symbols and the records of each thread's buffer. */
  lemma ParseTraceFile(magic: U64, regions: seq<ImageInfo>, syms: seq<SymInfo>,
                       bufs: OrdMap<seq<Byte>>)
    requires FileWritable(regions, syms, bufs)
    ensures ParseTrace(TraceFile(magic, regions, syms, bufs))
            == Some(Parsed(|regions|, |syms|, LegacyHeaders(regions), syms, ThreadLogs(bufs)))
  {
    var tail := EncodeSyms(syms) + EncodeThreads(bufs);
    var body := Join(LegacyEncs(regions)) + tail;
    var f := TraceFile(magic, regions, syms, bufs);
    assert f == FileHeader(magic, |regions|, |syms|) + body;
    HeaderBack(magic, |regions|, |syms|, body);
    BodyParses(regions, syms, bufs);
    ParseFields(f, |regions|, |syms|, LegacyHeaders(regions), tail, syms, EncodeThreads(bufs),
                ThreadLogs(bufs));
  }
}
