/** The legacy single-step recorder: each thread's pcs are appended, 8 bytes
    a record, to a byte buffer of its own, and the buffers are written to one
    trace file together with the memory regions and the symbols that cover
    the traced pcs. A trace file read back gives each thread's records. */
module LegacyTrace {
  import opened Bytes
  import opened Records
  import opened OrderedMaps
  import opened Framing
  import opened RegionRecords
  import opened SymRecords
  import opened TraceCommon
  import opened LegacyRecords

  /** The records of a thread block, read with a pointer that steps one
      record at a time until it reaches the end of the block. */
  method ReadBlock(block: seq<Byte>) returns (msgs: seq<LogMsg>)
    requires |block| % MsgSize == 0
    ensures msgs == Msgs(block)
  {
    msgs := [];
    var cur := block;
    while |cur| > 0
      invariant |cur| % MsgSize == 0
      invariant msgs + Msgs(cur) == Msgs(block)
    {
      msgs := msgs + [LogMsg(ReadU64(cur, 0))];
      cur := cur[MsgSize..];
    }
  }

  /** The thread loop of the parsing constructor over the blocks from rest to
      the end of the file: each block's records are emplaced under its
      thread id into m. */
  method ReadThreads(rest: seq<Byte>, m: OrdMap<seq<LogMsg>>) returns (parsed: OrdMap<seq<LogMsg>>)
    requires Ascending(m) && Threads(rest).Some?
    ensures parsed == EmplaceAll(m, Threads(rest).value)
  {
    ghost var left := Threads(rest).value;
    parsed := m;
    var cur := rest;
    while |cur| > 0
      invariant Ascending(parsed)
      invariant Threads(cur) == Some(left)
      invariant EmplaceAll(parsed, left) == EmplaceAll(m, Threads(rest).value)
      decreases |cur|
    {
      ThreadStep(cur, left);
      var tid, log, next := ReadThreadBlock(cur);
      parsed := Emplace(parsed, tid, log);
      cur := next;
      left := left[1..];
    }
  }

  /** One turn of the thread loop: the block's header, its records, and the
      pointer moved to the end of the block. */
  method ReadThreadBlock(cur: seq<Byte>) returns (tid: U64, log: seq<LogMsg>, next: seq<Byte>)
    requires DecodeThread(cur).Some?
    ensures DecodeThread(cur).value == ((tid, log), next)
  {
    ThreadHeader(cur);
    var w := ReadWords(cur, 0, 2);
    var sz := w[1];
    tid := w[0];
    log := ReadBlock(cur[ThreadHdrSize..ThreadHdrSize + sz]);
    next := cur[ThreadHdrSize + sz..];
  }

  /** A non-empty run of thread blocks starts with a whole block, and the
      blocks after it follow. */
  lemma ThreadStep(cur: seq<Byte>, left: seq<ThreadLog>)
    requires |cur| > 0 && Threads(cur) == Some(left)
    ensures DecodeThread(cur).Some? && left != []
    ensures left[0] == DecodeThread(cur).value.0
    ensures Threads(DecodeThread(cur).value.1) == Some(left[1..])
  {
  }

  /** A whole block's header gives its thread id and the size of its records. */
  lemma ThreadHeader(cur: seq<Byte>)
    requires DecodeThread(cur).Some?
    ensures ThreadHdrSize <= |cur|
    ensures var w := ReadWords(cur, 0, 2);
            ThreadHdrSize + w[1] <= |cur| && w[1] % MsgSize == 0
            && DecodeThread(cur).value
               == ((w[0], Msgs(cur[ThreadHdrSize..ThreadHdrSize + w[1]])), cur[ThreadHdrSize + w[1]..])
  {
  }

  /** The bytes `write_to_file` writes for each image's legacy record, appended
      to out one image at a time. */
  method WriteRegions(out: seq<Byte>, regions: seq<ImageInfo>) returns (r: seq<Byte>)
    requires forall i | 0 <= i < |regions| :: LegacyWellFormed(regions[i])
    ensures r == out + Join(LegacyEncs(regions))
  {
    ghost var encs := LegacyEncs(regions);
    r := out;
    var i := 0;
    while i < |regions|
      invariant i <= |regions|
      invariant r + Join(encs[i..]) == out + Join(encs)
    {
      JoinFrom(encs, i);
      r := WriteRegion(r, regions[i]);
      i := i + 1;
    }
    assert encs[..] == encs;
  }

  /** One turn of the region loop: the legacy header, then the path. */
  method WriteRegion(out: seq<Byte>, region: ImageInfo) returns (r: seq<Byte>)
    requires LegacyWellFormed(region)
    ensures r == out + EncodeLegacyRegion(region)
  {
    r := out + (EncodeWords(LegacyWords(region)) + region.uuid);
    r := r + StrBytes(region.path);
  }

  /** The bytes `write_to_file` writes for each thread's buffer, in
      ascending thread id order, appended to out. */
  method WriteThreads(out: seq<Byte>, bufs: OrdMap<seq<Byte>>) returns (r: seq<Byte>)
    requires Writable(bufs)
    ensures r == out + EncodeThreads(bufs)
  {
    ghost var left := bufs;
    r := out;
    var i := 0;
    while i < |bufs|
      invariant i <= |bufs| && left == bufs[i..] && Writable(left)
      invariant r + EncodeThreads(left) == out + EncodeThreads(bufs)
    {
      var tid, buf := bufs[i].0, bufs[i].1;
      r := r + EncodeWords([tid, |buf|]);
      r := r + buf;
      WritableTail(left);
      left := left[1..];
      i := i + 1;
    }
  }

  /** What remains after the first buffer can be written too. */
  lemma WritableTail(bufs: OrdMap<seq<Byte>>)
    requires Writable(bufs) && bufs != []
    ensures Writable(bufs[1..])
    ensures EncodeThreads(bufs) == EncodeThread(bufs[0].0, bufs[0].1) + EncodeThreads(bufs[1..])
  {
    forall i | 0 <= i < |bufs[1..]|
      ensures bufs[1..][i].0 < Mod64 && |bufs[1..][i].1| < Mod64 && |bufs[1..][i].1| % MsgSize == 0
    {
      assert bufs[1..][i] == bufs[i + 1];
    }
  }

  /** A trace file written from thread buffers parses back, for each thread,
      as the records of its buffer, and a thread without a buffer has no
      records. */
  lemma ParsedThreadsOfFile(magic: U64, regions: seq<ImageInfo>, syms: seq<SymInfo>,
                            bufs: OrdMap<seq<Byte>>, t: nat)
    requires FileWritable(regions, syms, bufs)
    ensures ParseTrace(TraceFile(magic, regions, syms, bufs)).Some?
    ensures Find(EmplaceAll([], ParseTrace(TraceFile(magic, regions, syms, bufs)).value.threads), t)
            == if Find(bufs, t).Some? then Some(Msgs(Find(bufs, t).value)) else None
  {
    ParseTraceFile(magic, regions, syms, bufs);
    FindEmplaceAll([], ThreadLogs(bufs), t);
    FindThreadLogs(bufs, t);
  }

  class LegacyTraceLog {
    /** `m_num_inst`. */
    var numInst: nat
    /** `m_log_bufs`: each thread's records, as bytes. */
    var logBufs: OrdMap<seq<Byte>>
    /** `m_parsed_logs`: each thread's records read back from a file. */
    var parsedLogs: OrdMap<seq<LogMsg>>
    /** `m_macho_regions` of a parsed file: each region's legacy header. */
    var regions: seq<ImageInfo>
    /** `m_symbols` of a parsed file. */
    var syms: seq<SymInfo>
    /** The pcs logged so far, per thread. */
    ghost var logged: map<nat, seq<U64>>

    /** Each thread's buffer holds the records of exactly the pcs logged for
        it, the threads are 32-bit thread ports, and the instruction count is
        the number of records in all buffers. */
    ghost predicate Valid()
      reads this
    {
      Ascending(logBufs) && Ascending(parsedLogs)
      && (forall t :: Find(logBufs, t) == if t in logged then Some(EncodeWords(logged[t])) else None)
      && (forall t | t in logged :: t < 0x1_0000_0000)
      && SumLens(logBufs) == MsgSize * numInst
    }

    /** The recording constructor: nothing logged yet. */
    constructor ()
      ensures Valid()
      ensures numInst == 0 && logBufs == [] && parsedLogs == [] && regions == [] && syms == []
      ensures logged == map[]
    {
      numInst := 0;
      logBufs := [];
      parsedLogs := [];
      regions := [];
      syms := [];
      logged := map[];
    }

    /** The parsing constructor: the header, a walk over the region records
        and one over the symbol records, then one thread block after the
        other to the end of the file, each block's records emplaced under
        its thread id. */
    constructor FromFile(buf: seq<Byte>)
      requires ParseTrace(buf).Some?
      ensures Valid()
      ensures numInst == 0 && logBufs == [] && logged == map[]
      ensures regions == ParseTrace(buf).value.regions && syms == ParseTrace(buf).value.syms
      ensures parsedLogs == EmplaceAll([], ParseTrace(buf).value.threads)
    {
      var w := ReadWords(buf, 0, 3);
      var numRegions, numSyms := w[1], w[2];
      var body := buf[LogHdrSize..];
      regions := Repeat(DecodeLegacyRegion, body, numRegions).value.0;
      var rest := Skip(DecodeLegacyRegion, body, numRegions);
      syms := Repeat(DecodeSym, rest, numSyms).value.0;
      rest := Skip(DecodeSym, rest, numSyms);
      var parsed := ReadThreads(rest, []);
      parsedLogs := parsed;
      numInst := 0;
      logBufs := [];
      logged := map[];
    }

    /** `log`: the pc's record is appended to the thread's buffer, which is
        created empty on first use, and one more instruction is counted. */
    method Log(thread: U32, pc: U64)
      modifies this
      requires Valid()
      ensures Valid()
      ensures logBufs == Put(old(logBufs), thread, BufOf(old(logBufs), thread) + U64Bytes(pc))
      ensures logged == old(logged)[thread := (if thread in old(logged) then old(logged)[thread] else []) + [pc]]
      ensures numInst == old(numInst) + 1
      ensures parsedLogs == old(parsedLogs) && regions == old(regions) && syms == old(syms)
    {
      ghost var prev := if thread in logged then logged[thread] else [];
      ghost var m := logBufs;
      assert BufOf(m, thread) == EncodeWords(prev);
      EncodeWordsAppend(prev, [pc]);
      assert [pc][1..] == [] && EncodeWords([]) == [];
      assert EncodeWords([pc]) == U64Bytes(pc);
      assert EncodeWords(prev + [pc]) == BufOf(m, thread) + U64Bytes(pc);
      SumLensPut(m, thread, BufOf(m, thread) + U64Bytes(pc));
      logBufs := Put(logBufs, thread, BufOf(logBufs, thread) + U64Bytes(pc));
      logged := logged[thread := prev + [pc]];
      numInst := numInst + 1;
      assert Find(logBufs, thread) == Some(EncodeWords(logged[thread]));
    }

    /** `num_bytes`: the sizes of all buffers added up; in a valid log that
        is 8 bytes per logged instruction. */
    method NumBytes() returns (sz: nat)
      ensures sz == SumLens(logBufs)
      ensures Valid() ==> sz == MsgSize * numInst
    {
      sz := 0;
      var i := 0;
      while i < |logBufs|
        invariant i <= |logBufs|
        invariant sz + SumLens(logBufs[i..]) == SumLens(logBufs)
      {
        assert logBufs[i..][1..] == logBufs[i + 1..];
        sz := sz + |logBufs[i].1|;
        i := i + 1;
      }
    }

    /** `write_to_file`: the traced pcs are collected from every buffer, the
        symbols covering them are kept, and the header, the region records,
        the symbol records and the thread blocks are written in turn. */
    method WriteToFile(magic: U64, macho: seq<ImageInfo>, symbols: Option<seq<SymInfo>>,
                       select: (seq<SymInfo>, set<(U64, U64)>) -> seq<SymInfo>)
      returns (out: seq<Byte>)
      requires FileWritable(macho, KeptSyms(symbols, select, logBufs), logBufs)
      ensures out == TraceFile(magic, macho, KeptSyms(symbols, select, logBufs), logBufs)
    {
      var pcs := CollectPcs(logBufs);
      var intervals := PcIntervals(pcs);
      var kept := if symbols.Some? then select(symbols.value, intervals) else [];
      out := FileHeader(magic, |macho|, |kept|);
      out := WriteRegions(out, macho);
      out := WriteSyms(out, kept);
      out := WriteThreads(out, logBufs);
    }

    /** Writing a valid log to a file and parsing the file gives back, for
        each thread, exactly the pcs logged for it, and no thread that
        logged nothing. */
    lemma WriteParseRoundTrip(magic: U64, macho: seq<ImageInfo>, kept: seq<SymInfo>, t: nat)
      requires Valid() && FileWritable(macho, kept, logBufs)
      ensures ParseTrace(TraceFile(magic, macho, kept, logBufs)).Some?
      ensures var f := Find(EmplaceAll([], ParseTrace(TraceFile(magic, macho, kept, logBufs)).value.threads), t);
              (f.Some? <==> t in logged) && (t in logged ==> PcsOf(f.value) == logged[t])
    {
      ParsedThreadsOfFile(magic, macho, kept, logBufs, t);
      if t in logged {
        MsgsOfEncodeWords(logged[t]);
      }
    }
  }
}
