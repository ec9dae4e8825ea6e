/** The trace recorder: each thread's pcs go, 8 bytes a record, either to a
    byte buffer of its own or (when streaming) to a thread file kept open
    from the thread's first instruction on. `write` lays the trace out in a
    directory: `meta.bin` with the region and symbol records, a blob per
    region, reused when one with the region's digest is already there, and a
    file per thread. The parsing constructor reads such a directory back. */
module TraceRecorder {
  import opened Bytes
  import opened Records
  import opened OrderedMaps
  import opened Framing
  import opened RegionRecords
  import opened SymRecords
  import opened PageIndex
  import opened RegionCatalog
  import opened TraceCommon
  import opened TraceDir
  import opened TraceParse

  /** An open thread file (`CompressedFile<log_thread_hdr>` in write mode):
      the header it was opened with and the records written to it so far. */
  datatype Stream = Stream(threadId: nat, numInst: nat, data: seq<Byte>)

  /** `decompressed_size()`: the bytes written to a stream. */
  function DataSize(s: Stream): nat
  {
    |s.data|
  }

  /** The bytes written to a stream. */
  function DataOf(s: Stream): seq<Byte>
  {
    s.data
  }

  /** The bytes written to each stream, under its thread id. */
  function StreamBufs(streams: OrdMap<Stream>): OrdMap<seq<Byte>>
  {
    MapValues(streams, DataOf)
  }

  /** Each stream with its header's instruction count set to its thread's
      count (`cf->header().num_inst = m_thread_num_inst[tid]`). */
  function Stamped(streams: OrdMap<Stream>, counts: OrdMap<nat>): (r: OrdMap<Stream>)
    ensures |r| == |streams|
    ensures forall i | 0 <= i < |streams| ::
              r[i] == (streams[i].0, streams[i].1.(numInst := Get(counts, streams[i].0, 0)))
  {
    if streams == [] then []
    else [(streams[0].0, streams[0].1.(numInst := Get(counts, streams[0].0, 0)))] + Stamped(streams[1..], counts)
  }

  /** The thread files the streams leave once closed: each one's header and
      records under its thread's file name. */
  function CloseStreams(d: Dir, streams: OrdMap<Stream>): Dir
    decreases |streams|
  {
    if streams == [] then d
    else
      var s := streams[0].1;
      CloseStreams(d[ThreadName(streams[0].0) := File(ThreadHdr(s.threadId, s.numInst), s.data)], streams[1..])
  }

  /** Streams opened for their own threads and stamped by `write` close into
      the very files the buffered mode writes from the same records. */
  lemma {:induction false} CloseStamped(d: Dir, streams: OrdMap<Stream>, counts: OrdMap<nat>)
    requires Opened(streams)
    ensures CloseStreams(d, Stamped(streams, counts)) == WriteThreadFiles(d, StreamBufs(streams), counts)
    decreases |streams|
  {
    if streams != [] {
      var t := streams[0].0;
      var d' := d[ThreadName(t) := File(ThreadHdr(t, Get(counts, t, 0)), streams[0].1.data)];
      assert Stamped(streams, counts)[1..] == Stamped(streams[1..], counts);
      assert StreamBufs(streams)[1..] == StreamBufs(streams[1..]);
      forall i | 0 <= i < |streams[1..]|
        ensures streams[1..][i].1 == Stream(streams[1..][i].0, 0, streams[1..][i].1.data)
      {
        assert streams[1..][i] == streams[i + 1];
      }
      CloseStamped(d', streams[1..], counts);
    }
  }

  /** A streaming log's `write`, once its streams are closed, leaves the
      directory the buffered mode leaves with the same records. */
  lemma StreamsClose(d: Dir, macho: seq<ImageInfo>, kept: seq<SymInfo>, bufs: OrdMap<seq<Byte>>,
                     streams: OrdMap<Stream>, counts: OrdMap<nat>)
    requires MetaWritable(macho, kept) && Opened(streams)
    ensures CloseStreams(WrittenDir(d, macho, kept, bufs, counts, true), Stamped(streams, counts))
            == WrittenDir(d, macho, kept, StreamBufs(streams), counts, false)
  {
    CloseStamped(BlobsWritten(d, macho, kept), streams, counts);
  }

  // ---------------------------------------------------------------------
  // The loops of `write`.

  /** The region loop that fills `meta.bin`: each region's record appended
      to out, in order. */
  method WriteRegionRecords(out: seq<Byte>, regions: seq<ImageInfo>) returns (r: seq<Byte>)
    requires forall i | 0 <= i < |regions| :: WellFormed(regions[i])
    ensures r == out + EncodeRegions(regions)
  {
    ghost var encs := RegionEncs(regions);
    r := out;
    var i := 0;
    while i < |regions|
      invariant i <= |regions|
      invariant r + Join(encs[i..]) == out + Join(encs)
    {
      JoinStep(encs, i, r);
      r := WriteRegionRecord(r, regions[i]);
      i := i + 1;
    }
    assert encs[..] == encs;
  }

  /** One turn of the region loop: the header with UUID and digest, then
      the path. */
  method WriteRegionRecord(out: seq<Byte>, region: ImageInfo) returns (r: seq<Byte>)
    requires WellFormed(region)
    ensures r == out + EncodeRegion(region)
  {
    r := out + (EncodeWords(HdrWords(region)) + region.uuid + region.digest);
    r := r + StrBytes(region.path);
  }

  /** `meta.bin`: opened with the two counts in its header, then the region
      records and the symbol records written to it. */
  method WriteMeta(macho: seq<ImageInfo>, kept: seq<SymInfo>) returns (f: File)
    requires MetaWritable(macho, kept)
    ensures f == MetaFile(macho, kept)
  {
    var payload := WriteRegionRecords([], macho);
    payload := WriteSyms(payload, kept);
    f := File(MetaHdr(|macho|, |kept|), payload);
  }

  /** The loop that finds the blobs that can stay: a region's blob name is
      noted when a file of that name exists and its header holds the
      region's digest. */
  method CollectReused(d: Dir, macho: seq<ImageInfo>) returns (reused: set<string>)
    requires forall i | 0 <= i < |macho| :: WellFormed(macho[i])
    ensures reused == Reused(d, macho)
  {
    reused := {};
    var i := 0;
    while i < |macho|
      invariant i <= |macho|
      invariant reused + Reused(d, macho[i..]) == Reused(d, macho)
    {
      assert macho[i..][1..] == macho[i + 1..];
      var p := BlobName(macho[i]);
      if p in d && d[p].hdr == RegionHdr(macho[i].digest) {
        reused := reused + {p};
      }
      i := i + 1;
    }
  }

  /** The loop that writes the blob of each region that is not reused. */
  method RewriteRegionBlobs(d: Dir, macho: seq<ImageInfo>, reused: set<string>) returns (r: Dir)
    requires forall i | 0 <= i < |macho| :: WellFormed(macho[i])
    ensures r == RewriteBlobs(d, macho, reused)
  {
    r := d;
    var i := 0;
    while i < |macho|
      invariant i <= |macho|
      invariant RewriteBlobs(r, macho[i..], reused) == RewriteBlobs(d, macho, reused)
    {
      assert macho[i..][1..] == macho[i + 1..];
      var p := BlobName(macho[i]);
      if p !in reused {
        r := r[p := Blob(macho[i])];
      }
      i := i + 1;
    }
  }

  /** The buffered mode's last loop: a file per thread, its header holding
      the thread's id and count, its records the thread's buffer. */
  method PutThreadFiles(d: Dir, bufs: OrdMap<seq<Byte>>, counts: OrdMap<nat>) returns (r: Dir)
    ensures r == WriteThreadFiles(d, bufs, counts)
  {
    r := d;
    var i := 0;
    while i < |bufs|
      invariant i <= |bufs|
      invariant WriteThreadFiles(r, bufs[i..], counts) == WriteThreadFiles(d, bufs, counts)
    {
      assert bufs[i..][1..] == bufs[i + 1..];
      var tid := bufs[i].0;
      r := r[ThreadName(tid) := File(ThreadHdr(tid, Get(counts, tid, 0)), bufs[i].1)];
      i := i + 1;
    }
  }

  /** The streaming mode's last loop: each stream's header stamped with its
      thread's count. */
  method StampStreams(streams: OrdMap<Stream>, counts: OrdMap<nat>) returns (r: OrdMap<Stream>)
    ensures r == Stamped(streams, counts)
  {
    r := [];
    var i := 0;
    while i < |streams|
      invariant i <= |streams|
      invariant r == Stamped(streams[..i], counts)
    {
      var tid := streams[i].0;
      r := r + [(tid, streams[i].1.(numInst := Get(counts, tid, 0)))];
      i := i + 1;
      assert r == Stamped(streams[..i], counts);
    }
    assert streams[..i] == streams;
  }

  /** The symbol selection of `write`: the pcs of the buffers collected,
      and the symbols picked for their intervals when symbols are given. */
  method SelectSyms(symbols: Option<seq<SymInfo>>, select: (seq<SymInfo>, set<(U64, U64)>) -> seq<SymInfo>,
                    bufs: OrdMap<seq<Byte>>) returns (kept: seq<SymInfo>)
    ensures kept == KeptSyms(symbols, select, bufs)
  {
    var pcs := CollectPcs(bufs);
    kept := [];
    if symbols.Some? {
      kept := select(symbols.value, PcIntervals(pcs));
    }
  }

  /** The directory stages of `write`: `meta.bin` written, the blobs that
      are not reused removed and the others rewritten, then (when not
      streaming) a file per thread. */
  method WriteDir(d: Dir, macho: seq<ImageInfo>, kept: seq<SymInfo>, bufs: OrdMap<seq<Byte>>,
                  counts: OrdMap<nat>, stream: bool) returns (r: Dir)
    requires MetaWritable(macho, kept)
    ensures r == WrittenDir(d, macho, kept, bufs, counts, stream)
  {
    var meta := WriteMeta(macho, kept);
    r := d[MetaName := meta];
    var reused := CollectReused(r, macho);
    r := RemoveFiles(r, n => Survives(reused, n));
    r := RewriteRegionBlobs(r, macho, reused);
    if !stream {
      r := PutThreadFiles(r, bufs, counts);
    }
  }

  /** The number of pcs logged for a thread. */
  function PcCount(pcs: seq<U64>): nat
  {
    |pcs|
  }

  /** The pcs logged per thread, with pc logged for thread t. */
  function LogOne(logged: OrdMap<seq<U64>>, t: nat, pc: U64): OrdMap<seq<U64>>
    requires Ascending(logged)
  {
    Put(logged, t, BufOf(logged, t) + [pc])
  }

  /** The stream of thread t, or the one `log` opens for it on its first
      instruction: a header with its id and no count yet, and no records. */
  function StreamOf(streams: OrdMap<Stream>, t: nat): Stream
  {
    Get(streams, t, Stream(t, 0, []))
  }

  /** Every stream is one `log` opened for the thread it is kept under:
      that thread's id in its header, no count yet, and the records written
      to it. */
  predicate Opened(streams: OrdMap<Stream>)
  {
    forall i | 0 <= i < |streams| :: streams[i].1 == Stream(streams[i].0, 0, streams[i].1.data)
  }

  /** What a recording log keeps true of its state: the buffers (or the
      streams, when streaming) hold the records of exactly the pcs logged
      per thread, each thread's count is its number of pcs, and the
      instruction count is the sum of the thread counts. */
  ghost predicate Recording(stream: bool, bufs: OrdMap<seq<Byte>>, streams: OrdMap<Stream>,
                            counts: OrdMap<nat>, numInst: nat, logged: OrdMap<seq<U64>>)
  {
    Ascending(logged) && Ascending(streams)
    && counts == MapValues(logged, PcCount) && SumBy(counts, CountOf) == numInst
    && if stream then
         bufs == [] && Opened(streams) && StreamBufs(streams) == MapValues(logged, EncodeWords)
       else
         streams == [] && bufs == MapValues(logged, EncodeWords)
  }

  /** The records of the pcs logged take 8 bytes per counted instruction. */
  lemma {:induction false} EncodedSize(logged: OrdMap<seq<U64>>)
    ensures SumLens(MapValues(logged, EncodeWords)) == MsgSize * SumBy(MapValues(logged, PcCount), CountOf)
  {
    if logged != [] {
      assert MapValues(logged, EncodeWords)[1..] == MapValues(logged[1..], EncodeWords);
      assert MapValues(logged, PcCount)[1..] == MapValues(logged[1..], PcCount);
      EncodedSize(logged[1..]);
    }
  }

  /** The streams' sizes add up to the bytes written to them. */
  lemma {:induction false} StreamSizes(streams: OrdMap<Stream>)
    ensures SumBy(streams, DataSize) == SumLens(StreamBufs(streams))
  {
    if streams != [] {
      assert StreamBufs(streams)[1..] == StreamBufs(streams[1..]);
      StreamSizes(streams[1..]);
    }
  }

  /** Storing a stream opened for its own thread keeps every stream one
      opened for its own thread. */
  lemma {:induction false} OpenedPut(streams: OrdMap<Stream>, t: nat, s: Stream)
    requires Ascending(streams) && Opened(streams) && s == Stream(t, 0, s.data)
    ensures Opened(Put(streams, t, s))
  {
    if streams != [] {
      AscendingTail(streams);
      assert Opened(streams[1..]) by {
        forall i | 0 <= i < |streams[1..]|
          ensures streams[1..][i].1 == Stream(streams[1..][i].0, 0, streams[1..][i].1.data)
        {
          assert streams[1..][i] == streams[i + 1];
        }
      }
      if streams[0].0 == t {
        assert Put(streams, t, s) == [(t, s)] + streams[1..];
      } else if t < streams[0].0 {
        assert Put(streams, t, s) == [(t, s)] + streams;
      } else {
        OpenedPut(streams[1..], t, s);
        assert Put(streams, t, s) == [streams[0]] + Put(streams[1..], t, s);
      }
    }
  }

  /** The stream a thread is logged to is the one opened for that thread,
      found or opened afresh. */
  lemma StreamOfOpened(streams: OrdMap<Stream>, t: nat)
    requires Ascending(streams) && Opened(streams)
    ensures StreamOf(streams, t) == Stream(t, 0, StreamOf(streams, t).data)
  {
    if Find(streams, t).Some? {
      FindKeys(streams, t);
      var j :| 0 <= j < |streams| && streams[j].0 == t;
      FindEntry(streams, j);
    }
  }

  /** The records of the pcs logged for a thread, with one more pc, are
      followed by that pc's record. */
  lemma EncodeOneMore(prev: seq<U64>, pc: U64)
    ensures EncodeWords(prev + [pc]) == EncodeWords(prev) + U64Bytes(pc)
  {
    EncodeWordsAppend(prev, [pc]);
    assert [pc][1..] == [] && EncodeWords([]) == [];
  }

  /** One more pc logged for a thread counts one more instruction for it
      and in all. */
  lemma CountKeeps(counts: OrdMap<nat>, numInst: nat, logged: OrdMap<seq<U64>>, t: U32, pc: U64)
    requires Ascending(logged) && counts == MapValues(logged, PcCount) && SumBy(counts, CountOf) == numInst
    ensures Ascending(counts)
    ensures var counts' := Put(counts, t, Get(counts, t, 0) + 1);
            counts' == MapValues(LogOne(logged, t, pc), PcCount)
            && SumBy(counts', CountOf) == numInst + 1
  {
    var v := BufOf(logged, t) + [pc];
    FindMapValues(logged, PcCount, t);
    assert Get(counts, t, 0) + 1 == PcCount(v);
    MapValuesPut(logged, t, v, PcCount);
    assert LogOne(logged, t, pc) == Put(logged, t, v);
    SumByPut(counts, t, PcCount(v), CountOf);
  }

  /** Appending a pc's record to a thread's buffer keeps the buffers holding
      the records of exactly the pcs logged. */
  lemma BufsKeep(bufs: OrdMap<seq<Byte>>, logged: OrdMap<seq<U64>>, t: U32, pc: U64)
    requires Ascending(logged) && bufs == MapValues(logged, EncodeWords)
    ensures Ascending(bufs)
    ensures Put(bufs, t, BufOf(bufs, t) + U64Bytes(pc)) == MapValues(LogOne(logged, t, pc), EncodeWords)
  {
    FindMapValues(logged, EncodeWords, t);
    EncodeOneMore(BufOf(logged, t), pc);
    assert EncodeWords([]) == [];
    MapValuesPut(logged, t, BufOf(logged, t) + [pc], EncodeWords);
  }

  /** Writing a pc's record to a thread's stream, opened first when the
      thread has none, keeps the streams holding the records of exactly the
      pcs logged, each under its own thread id. */
  lemma StreamsKeep(streams: OrdMap<Stream>, logged: OrdMap<seq<U64>>, t: U32, pc: U64)
    requires Ascending(logged) && Ascending(streams) && Opened(streams)
    requires StreamBufs(streams) == MapValues(logged, EncodeWords)
    ensures var s := StreamOf(streams, t);
            var streams' := Put(streams, t, s.(data := s.data + U64Bytes(pc)));
            Opened(streams') && StreamBufs(streams') == MapValues(LogOne(logged, t, pc), EncodeWords)
  {
    var s := StreamOf(streams, t);
    FindMapValues(streams, DataOf, t);
    FindMapValues(logged, EncodeWords, t);
    assert s.data == EncodeWords(BufOf(logged, t)) by {
      assert EncodeWords([]) == [];
    }
    EncodeOneMore(BufOf(logged, t), pc);
    StreamOfOpened(streams, t);
    OpenedPut(streams, t, s.(data := s.data + U64Bytes(pc)));
    MapValuesPut(streams, t, s.(data := s.data + U64Bytes(pc)), DataOf);
    MapValuesPut(logged, t, BufOf(logged, t) + [pc], EncodeWords);
  }

  /** `log` keeps a recording state consistent. */
  lemma LogKeeps(stream: bool, bufs: OrdMap<seq<Byte>>, streams: OrdMap<Stream>, counts: OrdMap<nat>,
                 numInst: nat, logged: OrdMap<seq<U64>>, t: U32, pc: U64)
    requires Recording(stream, bufs, streams, counts, numInst, logged)
    ensures Ascending(bufs) && Ascending(counts)
    ensures var s := StreamOf(streams, t);
            Recording(stream,
                      if stream then bufs else Put(bufs, t, BufOf(bufs, t) + U64Bytes(pc)),
                      if stream then Put(streams, t, s.(data := s.data + U64Bytes(pc))) else streams,
                      Put(counts, t, Get(counts, t, 0) + 1), numInst + 1,
                      LogOne(logged, t, pc))
  {
    CountKeeps(counts, numInst, logged, t, pc);
    if stream {
      StreamsKeep(streams, logged, t, pc);
    } else {
      BufsKeep(bufs, logged, t, pc);
    }
  }

  /** The state changes of `log`: the pc's record appended to the thread's
      buffer, or to its stream, opened first when the thread has none, and
      the thread's count bumped. */
  method LogStep(stream: bool, bufs: OrdMap<seq<Byte>>, streams: OrdMap<Stream>, counts: OrdMap<nat>,
                 ghost numInst: nat, ghost logged: OrdMap<seq<U64>>, t: U32, pc: U64)
    returns (bufs': OrdMap<seq<Byte>>, streams': OrdMap<Stream>, counts': OrdMap<nat>)
    requires Recording(stream, bufs, streams, counts, numInst, logged)
    ensures Recording(stream, bufs', streams', counts', numInst + 1, LogOne(logged, t, pc))
  {
    LogKeeps(stream, bufs, streams, counts, numInst, logged, t, pc);
    bufs', streams' := bufs, streams;
    if !stream {
      bufs' := Put(bufs, t, BufOf(bufs, t) + U64Bytes(pc));
    } else {
      var s: Stream;
      if Find(streams, t).None? {
        s := Stream(t, 0, []);
      } else {
        s := Find(streams, t).value;
      }
      streams' := Put(streams, t, s.(data := s.data + U64Bytes(pc)));
    }
    counts' := Put(counts, t, Get(counts, t, 0) + 1);
  }

  /** The records and counts of the pcs logged are what the thread files
      need: whole records, and a count per thread that is its number of
      records. */
  lemma LoggedCounted(logged: OrdMap<seq<U64>>)
    requires Ascending(logged)
    ensures Ascending(MapValues(logged, EncodeWords))
    ensures Counted(MapValues(logged, EncodeWords), MapValues(logged, PcCount))
  {
    var bufs, counts := MapValues(logged, EncodeWords), MapValues(logged, PcCount);
    MapValuesAt(logged, EncodeWords);
    MapValuesAt(logged, PcCount);
    MapValuesAscending(logged, EncodeWords);
    MapValuesAscending(logged, PcCount);
    forall i | 0 <= i < |bufs| ensures |bufs[i].1| % MsgSize == 0 && Get(counts, bufs[i].0, 0) == |bufs[i].1| / MsgSize {
      var pcs := logged[i].1;
      assert bufs[i] == (logged[i].0, EncodeWords(pcs)) && counts[i] == (logged[i].0, PcCount(pcs));
      FindEntry(counts, i);
      WholeRecords(|pcs|);
    }
  }

  /** n records take a whole number of record sizes, n of them. */
  lemma WholeRecords(n: nat)
    ensures (MsgSize * n) % MsgSize == 0 && (MsgSize * n) / MsgSize == n
  {
  }

  /** A log written to a directory that held only blobs (the thread files of
      a streaming log closed), then read back, gives each thread exactly the
      pcs logged for it, in order, and no other thread any, and the total
      instruction count read back is the number of pcs logged, which a
      recording log keeps as its `numInst` (Recording). */
  lemma WriteThenParse(logged: OrdMap<seq<U64>>, d: Dir, macho: seq<ImageInfo>, kept: seq<SymInfo>,
                       names: seq<string>, t: nat)
    requires Ascending(logged) && MetaWritable(macho, kept) && DistinctPaths(macho) && BlobsOnly(d)
    requires Lists(WrittenDir(d, macho, kept, MapValues(logged, EncodeWords), MapValues(logged, PcCount), false), names)
    ensures var w := WrittenDir(d, macho, kept, MapValues(logged, EncodeWords), MapValues(logged, PcCount), false);
            Readable(w)
            && var f := Find(ParsedThreads(w, names, []), t);
               (f.Some? <==> Find(logged, t).Some?)
               && (f.Some? ==> PcsOf(f.value) == Find(logged, t).value)
               && ThreadInsts(w, names) == SumBy(MapValues(logged, PcCount), CountOf)
  {
    LoggedCounted(logged);
    MapValuesAscending(logged, PcCount);
    MapValuesAt(logged, EncodeWords);
    MapValuesAt(logged, PcCount);
    WriteThenParseInsts(d, macho, kept, MapValues(logged, EncodeWords), MapValues(logged, PcCount), names);
    WriteThenParseThreads(d, macho, kept, MapValues(logged, EncodeWords), MapValues(logged, PcCount), names, t);
    FindMapValues(logged, EncodeWords, t);
    if Find(logged, t).Some? {
      MsgsOfEncodeWords(Find(logged, t).value);
    }
  }

  class TraceLog {
    /** `m_stream`: records go to thread files as they are logged. */
    const stream: bool
    /** The log directory: each file's header and contents. */
    var dir: Dir
    /** `m_num_inst`. */
    var numInst: nat
    /** `m_log_bufs`: each thread's records, as bytes. */
    var logBufs: OrdMap<seq<Byte>>
    /** `m_log_streams`: each thread's open thread file. */
    var logStreams: OrdMap<Stream>
    /** `m_thread_num_inst`: each thread's instruction count. */
    var threadNumInst: OrdMap<nat>
    /** `m_parsed_logs`: each thread's records read back from a directory. */
    const parsedLogs: OrdMap<seq<LogMsg>>
    /** `m_macho_regions` of a parsed directory. */
    const macho: MachORegions?
    /** `m_symbols` of a parsed directory. */
    const syms: seq<SymInfo>
    /** The pcs logged so far, per thread. */
    ghost var logged: OrdMap<seq<U64>>

    /** The records of each thread, wherever the mode keeps them. */
    ghost function Recorded(): OrdMap<seq<Byte>>
      reads this
    {
      if stream then StreamBufs(logStreams) else logBufs
    }

    /** A recording log: the recording state kept consistent, and any
        parsed logs kept in key order. */
    ghost predicate Valid()
      reads this
    {
      Ascending(parsedLogs) && Recording(stream, logBufs, logStreams, threadNumInst, numInst, logged)
    }

    /** The recording constructor: every file of the directory other than a
        region blob is removed, and nothing is logged yet. */
    constructor (d: Dir, stream: bool)
      ensures Valid()
      ensures this.stream == stream && dir == Kept(d, IsBlobName) && BlobsOnly(dir)
      ensures numInst == 0 && logBufs == [] && logStreams == [] && threadNumInst == []
      ensures parsedLogs == [] && macho == null && syms == [] && logged == []
    {
      this.stream := stream;
      var kept := RemoveFiles(d, IsBlobName);
      dir := kept;
      numInst := 0;
      logBufs := [];
      logStreams := [];
      threadNumInst := [];
      parsedLogs := [];
      macho := null;
      syms := [];
      logged := [];
    }

    /** The parsing constructor: the blobs collected by digest, the region
        catalog built from the records of `meta.bin`, the walk past them to
        the symbol records, then each thread file read into a vector sized
        by its header, emplaced under its thread id, its count added up. */
    constructor FromDir(d: Dir, names: seq<string>, h: map<nat, nat>)
      requires Readable(d) && Lists(d, names) && MetaReadable(d, names, h)
      ensures !stream && dir == d
      ensures numInst == ThreadInsts(d, names) && parsedLogs == ParsedThreads(d, names, [])
      ensures var meta := d[MetaName];
              var regs := Repeat(DecodeRegion, meta.payload, meta.hdr.numRegions).value;
              macho != null && fresh(macho)
              && macho.regions == SortByBase(AttachBytes(regs.0, RegionBlobs(d, names, map[])))
              && macho.hasher == h && macho.Indexed()
              && syms == Repeat(DecodeSym, regs.1, meta.hdr.numSyms).value.0
      ensures logBufs == [] && logStreams == [] && threadNumInst == [] && logged == []
    {
      stream := false;
      var meta := d[MetaName];
      var regionsBytes := CollectBlobs(d, names);
      var catalog := new MachORegions.FromRecords(meta.payload, meta.hdr.numRegions, regionsBytes, h);
      macho := catalog;
      var rest := Skip(DecodeRegion, meta.payload, meta.hdr.numRegions);
      syms := Repeat(DecodeSym, rest, meta.hdr.numSyms).value.0;
      var parsed, total := ReadThreadFiles(d, names);
      parsedLogs := parsed;
      numInst := total;
      dir := d;
      logBufs := [];
      logStreams := [];
      threadNumInst := [];
      logged := [];
    }

    /** `log`: the pc's record goes to the end of the thread's buffer, or
        of its stream, which is opened on the thread's first instruction
        only; the thread's count and the total count go up by one. */
    method Log(thread: U32, pc: U64)
      modifies this`logBufs, this`logStreams, this`threadNumInst, this`numInst, this`logged
      requires Valid()
      ensures Valid()
      ensures logged == LogOne(old(logged), thread, pc) && numInst == old(numInst) + 1
    {
      ghost var logged' := LogOne(logged, thread, pc);
      var bufs, streams, counts := LogStep(stream, logBufs, logStreams, threadNumInst, numInst, logged, thread, pc);
      logBufs, logStreams, threadNumInst, numInst, logged := bufs, streams, counts, numInst + 1, logged';
    }

    /** The directory once the log is done with: the streams, when
        streaming, closed into their thread files. */
    ghost function Closed(): Dir
      reads this
    {
      if stream then CloseStreams(dir, logStreams) else dir
    }

    /** `write`: the pcs of the buffers collected and the symbols kept for
        their intervals, `meta.bin` written, the blobs that are not reused
        removed and the others rewritten, then a file per thread, or (when
        streaming) each stream's header stamped with its thread's count. */
    method Write(macho: seq<ImageInfo>, symbols: Option<seq<SymInfo>>,
                 select: (seq<SymInfo>, set<(U64, U64)>) -> seq<SymInfo>)
      modifies this`dir, this`logStreams
      requires Valid() && MetaWritable(macho, KeptSyms(symbols, select, logBufs))
      ensures dir == WrittenDir(old(dir), macho, KeptSyms(symbols, select, logBufs), logBufs, threadNumInst, stream)
      ensures logStreams == Stamped(old(logStreams), threadNumInst)
      ensures Closed() == WrittenDir(old(dir), macho, KeptSyms(symbols, select, logBufs), old(Recorded()), threadNumInst, false)
    {
      var kept := SelectSyms(symbols, select, logBufs);
      var d := WriteDir(dir, macho, kept, logBufs, threadNumInst, stream);
      var streams := logStreams;
      if stream {
        StreamsClose(dir, macho, kept, logBufs, logStreams, threadNumInst);
        streams := StampStreams(logStreams, threadNumInst);
      }
      dir, logStreams := d, streams;
    }

    /** `num_bytes`: the sizes of all buffers, or of all streams, added up;
        in a valid log that is 8 bytes per logged instruction. */
    method NumBytes() returns (sz: nat)
      ensures sz == if stream then SumBy(logStreams, DataSize) else SumLens(logBufs)
      ensures Valid() ==> sz == MsgSize * numInst
    {
      sz := 0;
      if !stream {
        var i := 0;
        while i < |logBufs|
          invariant i <= |logBufs|
          invariant sz + SumLens(logBufs[i..]) == SumLens(logBufs)
        {
          assert logBufs[i..][1..] == logBufs[i + 1..];
          sz := sz + |logBufs[i].1|;
          i := i + 1;
        }
      } else {
        var i := 0;
        while i < |logStreams|
          invariant i <= |logStreams|
          invariant sz + SumBy(logStreams[i..], DataSize) == SumBy(logStreams, DataSize)
        {
          assert logStreams[i..][1..] == logStreams[i + 1..];
          sz := sz + DataSize(logStreams[i].1);
          i := i + 1;
        }
      }
      if Valid() {
        EncodedSize(logged);
        if stream {
          StreamSizes(logStreams);
        }
      }
    }
  }
}
