/** Reading a trace directory back: the region blobs collected by digest,
    the region and symbol records of `meta.bin`, and each thread's file read
    into a vector sized by its header's instruction count. */
module TraceParse {
  import opened Bytes
  import opened Records
  import opened OrderedMaps
  import opened RegionRecords
  import opened SymRecords
  import opened Framing
  import opened PageIndex
  import opened RegionCatalog
  import opened TraceCommon
  import opened TraceDir

  /** A listing of the directory, as a directory iterator gives it: each of
      its files once, in some order. */
  ghost predicate Lists(d: Dir, names: seq<string>)
  {
    (forall n :: n in d <==> n in names)
    && (forall i | 0 <= i < |names| :: names[i] in d)
    && forall i, j | 0 <= i < j < |names| :: names[i] != names[j]
  }

  /** A file the thread loop reads, neither `meta.bin` nor a blob. */
  predicate IsThreadFile(n: string)
  {
    n != MetaName && !IsBlobName(n)
  }

  /** A thread file whose records fit the vector its header sizes: whole
      records, no more than its instruction count. */
  predicate ThreadReadable(f: File)
  {
    f.hdr.ThreadHdr? && |f.payload| % MsgSize == 0 && |f.payload| / MsgSize <= f.hdr.numInst
  }

  /** What the parsing constructor's reads demand of the directory:
      `meta.bin` with a metadata header, blobs with region headers, and every
      other file a `thread-` file the thread loop can read. */
  predicate Readable(d: Dir)
  {
    MetaName in d && d[MetaName].hdr.MetaHdr?
    && (forall n | n in d && IsBlobName(n) :: d[n].hdr.RegionHdr?)
    && (forall n | n in d && IsThreadFile(n) :: StartsWith(n, ThreadPrefix) && ThreadReadable(d[n]))
  }

  /** What the walks over `meta.bin` and the record constructor of the
      region catalog demand: the counted region records and symbol records
      are all there, each region finds bytes of its size under its digest,
      regions are page-aligned and h is a minimal perfect hash of their
      pages. */
  ghost predicate MetaReadable(d: Dir, names: seq<string>, h: map<nat, nat>)
    requires Readable(d) && Lists(d, names)
  {
    var meta := d[MetaName];
    var regs := Repeat(DecodeRegion, meta.payload, meta.hdr.numRegions);
    regs.Some? && Repeat(DecodeSym, regs.value.1, meta.hdr.numSyms).Some?
    && var imgs := AttachBytes(regs.value.0, RegionBlobs(d, names, map[]));
       (forall i | 0 <= i < |imgs| :: |imgs[i].bytes| == imgs[i].size)
       && AllAligned(imgs) && IsMph(h, PageKeys(SortByBase(imgs)))
  }

  /** `regions_bytes`: each blob's bytes under the digest in its header, in
      listing order, the first blob of a digest winning (`emplace`). */
  function RegionBlobs(d: Dir, names: seq<string>, m: map<seq<Byte>, seq<Byte>>)
    : map<seq<Byte>, seq<Byte>>
    requires Readable(d) && forall i | 0 <= i < |names| :: names[i] in d
    decreases |names|
  {
    if names == [] then m
    else
      var n := names[0];
      var m' := if IsBlobName(n) && d[n].hdr.digest !in m then m[d[n].hdr.digest := d[n].payload] else m;
      RegionBlobs(d, names[1..], m')
  }

  /** A blob's digest ends up in the map, holding the bytes of the first blob
      listed with that digest. */
  lemma {:induction false} RegionBlobsHas(d: Dir, names: seq<string>, m: map<seq<Byte>, seq<Byte>>, k: nat)
    requires Readable(d) && (forall i | 0 <= i < |names| :: names[i] in d)
    requires k < |names| && IsBlobName(names[k])
    ensures d[names[k]].hdr.digest in RegionBlobs(d, names, m)
    decreases |names|
  {
    var n := names[0];
    var m' := if IsBlobName(n) && d[n].hdr.digest !in m then m[d[n].hdr.digest := d[n].payload] else m;
    if k > 0 {
      assert names[1..][k - 1] == names[k];
      RegionBlobsHas(d, names[1..], m', k - 1);
    } else {
      RegionBlobsKeeps(d, names[1..], m', d[n].hdr.digest);
    }
  }

  /** A digest already in the map keeps its bytes. */
  lemma {:induction false} RegionBlobsKeeps(d: Dir, names: seq<string>, m: map<seq<Byte>, seq<Byte>>,
                                            g: seq<Byte>)
    requires Readable(d) && (forall i | 0 <= i < |names| :: names[i] in d)
    requires g in m
    ensures g in RegionBlobs(d, names, m) && RegionBlobs(d, names, m)[g] == m[g]
    decreases |names|
  {
    if names != [] {
      var n := names[0];
      var m' := if IsBlobName(n) && d[n].hdr.digest !in m then m[d[n].hdr.digest := d[n].payload] else m;
      RegionBlobsKeeps(d, names[1..], m', g);
    }
  }

  /** The loop over the directory that fills `regions_bytes`. */
  method CollectBlobs(d: Dir, names: seq<string>) returns (m: map<seq<Byte>, seq<Byte>>)
    requires Readable(d) && forall i | 0 <= i < |names| :: names[i] in d
    ensures m == RegionBlobs(d, names, map[])
  {
    m := map[];
    var i := 0;
    while i < |names|
      invariant i <= |names|
      invariant RegionBlobs(d, names[i..], m) == RegionBlobs(d, names, map[])
    {
      assert names[i..][1..] == names[i + 1..];
      var n := names[i];
      if IsBlobName(n) {
        var g := d[n].hdr.digest;
        if g !in m {
          m := m[g := d[n].payload];
        }
      }
      i := i + 1;
    }
  }

  /** The records of a thread file in a vector of its header's instruction
      count: the records first, in file order, then zeroed entries. */
  function ThreadLogOf(f: File): (r: seq<LogMsg>)
    requires ThreadReadable(f)
    ensures |r| == f.hdr.numInst
    ensures r[..|f.payload| / MsgSize] == Msgs(f.payload)
    ensures forall i | |f.payload| / MsgSize <= i < |r| :: r[i] == LogMsg(0)
  {
    Msgs(f.payload) + seq(f.hdr.numInst - |f.payload| / MsgSize, _ => LogMsg(0))
  }

  /** The body of the thread loop: a vector resized to the header's
      instruction count, then filled from the front with one record after
      the other until the end of the payload. */
  method ReadThreadFile(f: File) returns (log: seq<LogMsg>)
    requires ThreadReadable(f)
    ensures log == ThreadLogOf(f)
  {
    log := seq(f.hdr.numInst, _ => LogMsg(0));
    var cur := f.payload;
    var i := 0;
    while |cur| > 0
      invariant |cur| % MsgSize == 0 && i + |cur| / MsgSize == |f.payload| / MsgSize
      invariant |log| == f.hdr.numInst
      invariant log[..i] + Msgs(cur) == Msgs(f.payload)
      invariant forall j | i <= j < |log| :: log[j] == LogMsg(0)
    {
      ReadStep(f.payload, log, cur, i);
      log := log[i := LogMsg(ReadU64(cur, 0))];
      cur := cur[MsgSize..];
      i := i + 1;
    }
    assert log == log[..i] + log[i..];
  }

  /** One record read: it goes to position i, and the records before it
      and the rest of the payload still make up the payload's records. */
  lemma ReadStep(payload: seq<Byte>, log: seq<LogMsg>, cur: seq<Byte>, i: nat)
    requires |cur| > 0 && |cur| % MsgSize == 0 && i + |cur| / MsgSize <= |log|
    requires log[..i] + Msgs(cur) == Msgs(payload)
    ensures |cur[MsgSize..]| % MsgSize == 0 && |cur[MsgSize..]| / MsgSize == |cur| / MsgSize - 1
    ensures log[i := LogMsg(ReadU64(cur, 0))][..i + 1] + Msgs(cur[MsgSize..]) == Msgs(payload)
  {
    var log' := log[i := LogMsg(ReadU64(cur, 0))];
    assert log'[..i + 1] == log[..i] + [LogMsg(ReadU64(cur, 0))];
  }

  /** `m_parsed_logs`: each thread file's log emplaced under its header's
      thread id, in listing order, the first file of a thread winning. */
  function ParsedThreads(d: Dir, names: seq<string>, m: OrdMap<seq<LogMsg>>): (r: OrdMap<seq<LogMsg>>)
    requires Readable(d) && (forall i | 0 <= i < |names| :: names[i] in d) && Ascending(m)
    ensures Ascending(r)
    decreases |names|
  {
    if names == [] then m
    else
      var n := names[0];
      ParsedThreads(d, names[1..], if IsThreadFile(n) then Emplace(m, d[n].hdr.threadId, ThreadLogOf(d[n])) else m)
  }

  /** `m_num_inst`: the instruction counts of the thread files' headers
      added up. */
  function ThreadInsts(d: Dir, names: seq<string>): nat
    requires Readable(d) && forall i | 0 <= i < |names| :: names[i] in d
    decreases |names|
  {
    if names == [] then 0
    else (if IsThreadFile(names[0]) then d[names[0]].hdr.numInst else 0) + ThreadInsts(d, names[1..])
  }

  /** The log of the first thread file listed with thread id t, if any. */
  function FirstThread(d: Dir, names: seq<string>, t: nat): Option<seq<LogMsg>>
    requires Readable(d) && forall i | 0 <= i < |names| :: names[i] in d
    decreases |names|
  {
    if names == [] then None
    else if IsThreadFile(names[0]) && d[names[0]].hdr.threadId == t then Some(ThreadLogOf(d[names[0]]))
    else FirstThread(d, names[1..], t)
  }

  /** A thread holds what it held before the loop, or else the log of its
      first file. */
  lemma {:induction false} FindParsed(d: Dir, names: seq<string>, m: OrdMap<seq<LogMsg>>, t: nat)
    requires Readable(d) && (forall i | 0 <= i < |names| :: names[i] in d) && Ascending(m)
    ensures Find(ParsedThreads(d, names, m), t) == if Find(m, t).Some? then Find(m, t) else FirstThread(d, names, t)
    decreases |names|
  {
    if names != [] {
      var n := names[0];
      FindParsed(d, names[1..], if IsThreadFile(n) then Emplace(m, d[n].hdr.threadId, ThreadLogOf(d[n])) else m, t);
    }
  }

  /** When one listed file is the only thread file with thread id t, the
      thread's log is that file's; when there is none, the thread has none. */
  lemma {:induction false} FirstThreadIs(d: Dir, names: seq<string>, t: nat, n: string)
    requires Readable(d) && forall i | 0 <= i < |names| :: names[i] in d
    requires forall i | 0 <= i < |names| && IsThreadFile(names[i]) && d[names[i]].hdr.threadId == t
               :: names[i] == n
    requires n in names ==> n in d && IsThreadFile(n) && d[n].hdr.threadId == t
    ensures FirstThread(d, names, t) == if n in names then Some(ThreadLogOf(d[n])) else None
    decreases |names|
  {
    if names != [] {
      forall i | 0 <= i < |names[1..]| && IsThreadFile(names[1..][i]) && d[names[1..][i]].hdr.threadId == t
        ensures names[1..][i] == n
      {
        assert names[1..][i] == names[i + 1];
      }
      if n in names[1..] {
        FirstThreadIs(d, names[1..], t, n);
      } else {
        FirstThreadIs(d, names[1..], t, n);
        assert n in names ==> names[0] == n;
      }
    }
  }

  /** The loop over the directory's thread files: each one's log emplaced
      under its thread id, its instruction count added to the total. */
  method ReadThreadFiles(d: Dir, names: seq<string>) returns (parsed: OrdMap<seq<LogMsg>>, total: nat)
    requires Readable(d) && forall i | 0 <= i < |names| :: names[i] in d
    ensures parsed == ParsedThreads(d, names, []) && total == ThreadInsts(d, names)
  {
    parsed := [];
    total := 0;
    var i := 0;
    while i < |names|
      invariant i <= |names| && Ascending(parsed)
      invariant ParsedThreads(d, names[i..], parsed) == ParsedThreads(d, names, [])
      invariant total + ThreadInsts(d, names[i..]) == ThreadInsts(d, names)
    {
      assert names[i..][1..] == names[i + 1..];
      var n := names[i];
      if IsThreadFile(n) {
        var f := d[n];
        var log := ReadThreadFile(f);
        total := total + f.hdr.numInst;
        parsed := Emplace(parsed, f.hdr.threadId, log);
      }
      i := i + 1;
    }
  }

  // ---------------------------------------------------------------------
  // Reading back what `write` leaves.

  /** A directory left by the recording constructor: blobs only. */
  ghost predicate BlobsOnly(d: Dir)
  {
    forall n | n in d :: IsBlobName(n)
  }

  /** Every buffer holds whole records, and the count kept for its thread is
      their number: what `log` keeps true. */
  predicate Counted(bufs: OrdMap<seq<Byte>>, counts: OrdMap<nat>)
  {
    forall i | 0 <= i < |bufs| :: |bufs[i].1| % MsgSize == 0 && Get(counts, bufs[i].0, 0) == |bufs[i].1| / MsgSize
  }

  /** A thread file `write` leaves in a directory that held only blobs is the
      file it wrote for one of the threads. */
  lemma WrittenThreadFile(d: Dir, macho: seq<ImageInfo>, kept: seq<SymInfo>, bufs: OrdMap<seq<Byte>>,
                          counts: OrdMap<nat>, n: string)
    requires MetaWritable(macho, kept) && BlobsOnly(d) && Ascending(bufs)
    requires n in WrittenDir(d, macho, kept, bufs, counts, false) && IsThreadFile(n)
    ensures exists j | 0 <= j < |bufs| :: n == ThreadName(bufs[j].0)
              && WrittenDir(d, macho, kept, bufs, counts, false)[n]
                 == File(ThreadHdr(bufs[j].0, Get(counts, bufs[j].0, 0)), bufs[j].1)
  {
    if forall j | 0 <= j < |bufs| :: ThreadName(bufs[j].0) != n {
      WrittenOther(d, macho, kept, bufs, counts, false, n);
      assert false;
    }
    var j :| 0 <= j < |bufs| && ThreadName(bufs[j].0) == n;
    FindEntry(bufs, j);
    WrittenThread(d, macho, kept, bufs, counts, bufs[j].0);
  }

  /** What `write` leaves can be read by the parsing constructor. */
  lemma WrittenReadable(d: Dir, macho: seq<ImageInfo>, kept: seq<SymInfo>, bufs: OrdMap<seq<Byte>>,
                        counts: OrdMap<nat>)
    requires MetaWritable(macho, kept) && DistinctPaths(macho) && BlobsOnly(d)
    requires Ascending(bufs) && Counted(bufs, counts)
    ensures Readable(WrittenDir(d, macho, kept, bufs, counts, false))
  {
    var w := WrittenDir(d, macho, kept, bufs, counts, false);
    WrittenMeta(d, macho, kept, bufs, counts, false);
    forall n | n in w && IsBlobName(n) ensures w[n].hdr.RegionHdr? {
      WrittenNoStale(d, macho, kept, bufs, counts, false, n);
      var i :| 0 <= i < |macho| && BlobName(macho[i]) == n;
      WrittenBlob(d, macho, kept, bufs, counts, false, i);
    }
    forall n | n in w && IsThreadFile(n) ensures StartsWith(n, ThreadPrefix) && ThreadReadable(w[n]) {
      WrittenThreadFile(d, macho, kept, bufs, counts, n);
      var j :| 0 <= j < |bufs| && n == ThreadName(bufs[j].0)
               && w[n] == File(ThreadHdr(bufs[j].0, Get(counts, bufs[j].0, 0)), bufs[j].1);
      ThreadNameApart(bufs[j].0);
    }
  }

  /** Round trip through the directory: reading back what `write` leaves
      gives each thread exactly the records of its buffer, and no thread
      that logged nothing. The streaming mode leaves the same thread files
      once its streams are closed, `WrittenDir(.., false)` being
      `WriteThreadFiles(WrittenDir(.., true), ..)`. */
  lemma WriteThenParseThreads(d: Dir, macho: seq<ImageInfo>, kept: seq<SymInfo>, bufs: OrdMap<seq<Byte>>,
                              counts: OrdMap<nat>, names: seq<string>, t: nat)
    requires MetaWritable(macho, kept) && DistinctPaths(macho) && BlobsOnly(d)
    requires Ascending(bufs) && Counted(bufs, counts)
    requires Lists(WrittenDir(d, macho, kept, bufs, counts, false), names)
    ensures Readable(WrittenDir(d, macho, kept, bufs, counts, false))
    ensures Find(ParsedThreads(WrittenDir(d, macho, kept, bufs, counts, false), names, []), t)
            == if Find(bufs, t).Some? then Some(Msgs(Find(bufs, t).value)) else None
  {
    var w := WrittenDir(d, macho, kept, bufs, counts, false);
    WrittenReadable(d, macho, kept, bufs, counts);
    var n := ThreadName(t);
    forall i | 0 <= i < |names| && IsThreadFile(names[i]) && w[names[i]].hdr.threadId == t
      ensures names[i] == n
    {
      WrittenThreadFile(d, macho, kept, bufs, counts, names[i]);
    }
    ThreadNameApart(t);
    if Find(bufs, t).Some? {
      WrittenThread(d, macho, kept, bufs, counts, t);
      var f := w[n];
      assert ThreadLogOf(f) == Msgs(Find(bufs, t).value) by {
        FindKeys(bufs, t);
        var j :| 0 <= j < |bufs| && bufs[j].0 == t;
        FindEntry(bufs, j);
      }
    } else if n in w {
      WrittenThreadFile(d, macho, kept, bufs, counts, n);
      var j :| 0 <= j < |bufs| && n == ThreadName(bufs[j].0);
      ThreadNameInjective(bufs[j].0, t);
      FindEntry(bufs, j);
    }
    FirstThreadIs(w, names, t, n);
    FindParsed(w, names, [], t);
  }

  // ---------------------------------------------------------------------
  // The total instruction count read back.

  /** The instruction counts in the headers of the thread files keys,
      added up. */
  function FileInsts(d: Dir, keys: seq<string>): nat
    requires Readable(d) && forall i | 0 <= i < |keys| :: keys[i] in d && IsThreadFile(keys[i])
    decreases |keys|
  {
    if keys == [] then 0 else d[keys[0]].hdr.numInst + FileInsts(d, keys[1..])
  }

  lemma {:induction false} FileInstsSplit(d: Dir, a: seq<string>, b: seq<string>)
    requires Readable(d)
    requires forall i | 0 <= i < |a| :: a[i] in d && IsThreadFile(a[i])
    requires forall i | 0 <= i < |b| :: b[i] in d && IsThreadFile(b[i])
    ensures FileInsts(d, a + b) == FileInsts(d, a) + FileInsts(d, b)
    decreases |a|
  {
    if a == [] {
      assert a + b == b;
    } else {
      assert (a + b)[0] == a[0] && (a + b)[1..] == a[1..] + b;
      FileInstsSplit(d, a[1..], b);
    }
  }

  /** s with its entry at position p taken out. */
  function Without<T>(s: seq<T>, p: nat): (r: seq<T>)
    requires p < |s|
    ensures |r| == |s| - 1 && forall i | 0 <= i < |r| :: r[i] == if i < p then s[i] else s[i + 1]
  {
    s[..p] + s[p + 1..]
  }

  /** Taking the thread file at position p out of keys takes its count out
      of the sum. */
  lemma FileInstsWithout(d: Dir, keys: seq<string>, p: nat)
    requires Readable(d) && forall i | 0 <= i < |keys| :: keys[i] in d && IsThreadFile(keys[i])
    requires p < |keys|
    ensures forall i | 0 <= i < |Without(keys, p)| ::
              Without(keys, p)[i] in d && IsThreadFile(Without(keys, p)[i])
    ensures FileInsts(d, keys) == d[keys[p]].hdr.numInst + FileInsts(d, Without(keys, p))
  {
    var tail := [keys[p]] + keys[p + 1..];
    assert keys == keys[..p] + tail;
    assert tail[0] == keys[p] && tail[1..] == keys[p + 1..];
    FileInstsSplit(d, keys[..p], tail);
    FileInstsSplit(d, keys[..p], keys[p + 1..]);
  }

  /** With distinct names and keys, removing the first name n from the
      names and n from the keys keeps the keys the thread files of the
      names. */
  lemma KeysWithout(names: seq<string>, keys: seq<string>, p: nat)
    requires names != [] && p < |keys| && keys[p] == names[0]
    requires forall i, j | 0 <= i < j < |names| :: names[i] != names[j]
    requires forall i, j | 0 <= i < j < |keys| :: keys[i] != keys[j]
    requires forall i | 0 <= i < |keys| :: keys[i] in names && IsThreadFile(keys[i])
    requires forall i | 0 <= i < |names| && IsThreadFile(names[i]) :: names[i] in keys
    ensures var keys', rest := Without(keys, p), names[1..];
            (forall i, j | 0 <= i < j < |keys'| :: keys'[i] != keys'[j])
            && (forall i | 0 <= i < |keys'| :: keys'[i] in rest && IsThreadFile(keys'[i]))
            && (forall i | 0 <= i < |rest| && IsThreadFile(rest[i]) :: rest[i] in keys')
  {
    var n, rest := names[0], names[1..];
    var keys' := Without(keys, p);
    assert forall i | 0 <= i < |rest| :: rest[i] == names[i + 1];
    forall i | 0 <= i < |keys'|
      ensures keys'[i] in rest
    {
      var k := if i < p then i else i + 1;
      assert keys'[i] == keys[k] && keys[k] != n;
    }
    forall i | 0 <= i < |rest| && IsThreadFile(rest[i])
      ensures rest[i] in keys'
    {
      assert rest[i] != n;
      var q :| 0 <= q < |keys| && keys[q] == rest[i];
      if q < p {
        assert keys'[q] == rest[i];
      } else {
        assert q != p && keys'[q - 1] == rest[i];
      }
    }
  }

  /** The total the thread loop adds up over a listing of distinct names is
      the sum over the thread files among them, taken in any order. */
  lemma {:induction false} ThreadInstsByKeys(d: Dir, names: seq<string>, keys: seq<string>)
    requires Readable(d) && forall i | 0 <= i < |names| :: names[i] in d
    requires forall i, j | 0 <= i < j < |names| :: names[i] != names[j]
    requires forall i, j | 0 <= i < j < |keys| :: keys[i] != keys[j]
    requires forall i | 0 <= i < |keys| :: keys[i] in names && IsThreadFile(keys[i])
    requires forall i | 0 <= i < |names| && IsThreadFile(names[i]) :: names[i] in keys
    ensures forall i | 0 <= i < |keys| :: keys[i] in d
    ensures ThreadInsts(d, names) == FileInsts(d, keys)
    decreases |names|
  {
    if names == [] {
      if keys != [] {
        assert false;
      }
    } else {
      var n, rest := names[0], names[1..];
      assert forall i | 0 <= i < |rest| :: rest[i] == names[i + 1];
      if IsThreadFile(n) {
        var p :| 0 <= p < |keys| && keys[p] == n;
        KeysWithout(names, keys, p);
        ThreadInstsByKeys(d, rest, Without(keys, p));
        FileInstsWithout(d, keys, p);
      } else {
        forall i | 0 <= i < |keys| ensures keys[i] in rest {
          assert keys[i] != n;
        }
        ThreadInstsByKeys(d, rest, keys);
      }
    }
  }

  /** The names of the thread files `write` leaves, one per buffer, in key
      order. */
  function ThreadNames(bufs: OrdMap<seq<Byte>>): (r: seq<string>)
    ensures |r| == |bufs| && forall j | 0 <= j < |bufs| :: r[j] == ThreadName(bufs[j].0)
  {
    seq(|bufs|, j requires 0 <= j < |bufs| => ThreadName(bufs[j].0))
  }

  /** The thread files `write` leaves, from buffer k on, carry the counts
      from entry k on. */
  lemma {:induction false} WrittenInstsFrom(d: Dir, macho: seq<ImageInfo>, kept: seq<SymInfo>, bufs: OrdMap<seq<Byte>>,
                                            counts: OrdMap<nat>, k: nat)
    requires MetaWritable(macho, kept) && DistinctPaths(macho) && BlobsOnly(d)
    requires Ascending(bufs) && Counted(bufs, counts) && Ascending(counts)
    requires |counts| == |bufs| && (forall j | 0 <= j < |bufs| :: counts[j].0 == bufs[j].0) && k <= |bufs|
    ensures Readable(WrittenDir(d, macho, kept, bufs, counts, false))
    ensures forall i | 0 <= i < |ThreadNames(bufs)[k..]| ::
              ThreadNames(bufs)[k..][i] in WrittenDir(d, macho, kept, bufs, counts, false)
              && IsThreadFile(ThreadNames(bufs)[k..][i])
    ensures FileInsts(WrittenDir(d, macho, kept, bufs, counts, false), ThreadNames(bufs)[k..]) == SumBy(counts[k..], CountOf)
    decreases |bufs| - k
  {
    var w := WrittenDir(d, macho, kept, bufs, counts, false);
    WrittenReadable(d, macho, kept, bufs, counts);
    var keys := ThreadNames(bufs);
    forall i | 0 <= i < |keys[k..]| ensures keys[k..][i] in w && IsThreadFile(keys[k..][i]) {
      var t := bufs[k + i].0;
      FindEntry(bufs, k + i);
      WrittenThread(d, macho, kept, bufs, counts, t);
      ThreadNameApart(t);
    }
    if k < |bufs| {
      WrittenInstsFrom(d, macho, kept, bufs, counts, k + 1);
      var t := bufs[k].0;
      FindEntry(bufs, k);
      FindEntry(counts, k);
      WrittenThread(d, macho, kept, bufs, counts, t);
      assert keys[k..][1..] == keys[k + 1..] && counts[k..][1..] == counts[k + 1..];
      assert w[keys[k]].hdr.numInst == counts[k].1;
    }
  }

  /** Round trip of the total: the instruction count the parsing
      constructor adds up from what `write` leaves is the sum of the
      threads' counts, for any order of the listing. */
  lemma WriteThenParseInsts(d: Dir, macho: seq<ImageInfo>, kept: seq<SymInfo>, bufs: OrdMap<seq<Byte>>,
                            counts: OrdMap<nat>, names: seq<string>)
    requires MetaWritable(macho, kept) && DistinctPaths(macho) && BlobsOnly(d)
    requires Ascending(bufs) && Counted(bufs, counts) && Ascending(counts)
    requires |counts| == |bufs| && forall j | 0 <= j < |bufs| :: counts[j].0 == bufs[j].0
    requires Lists(WrittenDir(d, macho, kept, bufs, counts, false), names)
    ensures Readable(WrittenDir(d, macho, kept, bufs, counts, false))
    ensures ThreadInsts(WrittenDir(d, macho, kept, bufs, counts, false), names) == SumBy(counts, CountOf)
  {
    var w := WrittenDir(d, macho, kept, bufs, counts, false);
    var keys := ThreadNames(bufs);
    WrittenInstsFrom(d, macho, kept, bufs, counts, 0);
    assert keys[0..] == keys && counts[0..] == counts;
    ThreadNamesDistinct(bufs);
    WrittenThreadsNamed(d, macho, kept, bufs, counts, names);
    ThreadInstsByKeys(w, names, keys);
  }

  /** Distinct threads have distinct thread files. */
  lemma ThreadNamesDistinct(bufs: OrdMap<seq<Byte>>)
    requires Ascending(bufs)
    ensures forall i, j | 0 <= i < j < |ThreadNames(bufs)| :: ThreadNames(bufs)[i] != ThreadNames(bufs)[j]
  {
    var keys := ThreadNames(bufs);
    forall i, j | 0 <= i < j < |keys| ensures keys[i] != keys[j] {
      if keys[i] == keys[j] {
        ThreadNameInjective(bufs[i].0, bufs[j].0);
      }
    }
  }

  /** Every thread file listed after `write` is one of the buffers' files. */
  lemma WrittenThreadsNamed(d: Dir, macho: seq<ImageInfo>, kept: seq<SymInfo>, bufs: OrdMap<seq<Byte>>,
                            counts: OrdMap<nat>, names: seq<string>)
    requires MetaWritable(macho, kept) && BlobsOnly(d) && Ascending(bufs)
    requires forall i | 0 <= i < |names| :: names[i] in WrittenDir(d, macho, kept, bufs, counts, false)
    ensures forall i | 0 <= i < |names| && IsThreadFile(names[i]) :: names[i] in ThreadNames(bufs)
  {
    var keys := ThreadNames(bufs);
    forall i | 0 <= i < |names| && IsThreadFile(names[i]) ensures names[i] in keys {
      WrittenThreadFile(d, macho, kept, bufs, counts, names[i]);
      var j :| 0 <= j < |bufs| && names[i] == ThreadName(bufs[j].0);
      assert keys[j] == names[i];
    }
  }

  /** `meta.bin` as `write` leaves it reads back as the regions' records,
      then exactly the kept symbols, with nothing after them. */
  lemma WrittenMetaParses(d: Dir, macho: seq<ImageInfo>, kept: seq<SymInfo>, bufs: OrdMap<seq<Byte>>,
                          counts: OrdMap<nat>, stream: bool)
    requires MetaWritable(macho, kept)
    ensures MetaName in WrittenDir(d, macho, kept, bufs, counts, stream)
    ensures var meta := WrittenDir(d, macho, kept, bufs, counts, stream)[MetaName];
            meta.hdr == MetaHdr(|macho|, |kept|)
            && Repeat(DecodeRegion, meta.payload, |macho|) == Some((Headers(macho), EncodeSyms(kept)))
            && Repeat(DecodeSym, EncodeSyms(kept), |kept|) == Some((kept, []))
  {
    WrittenMeta(d, macho, kept, bufs, counts, stream);
    DecodeEncodeRegions(macho, EncodeSyms(kept));
    DecodeEncodeSyms(kept, []);
    assert EncodeSyms(kept) + [] == EncodeSyms(kept);
  }

  // ---------------------------------------------------------------------
  // The region catalog read back.

  /** No two regions share a digest. */
  predicate DistinctDigests(rs: seq<ImageInfo>)
  {
    forall i, j | 0 <= i < j < |rs| :: rs[i].digest != rs[j].digest
  }

  /** A blob already in the directory that `write` keeps for a region holds
      that region's bytes: equal SHA-256 digests stand for equal bytes. */
  predicate BlobsMatch(d: Dir, rs: seq<ImageInfo>)
    requires forall i | 0 <= i < |rs| :: WellFormed(rs[i])
  {
    forall i | 0 <= i < |rs| && Reusable(d, rs[i]) :: d[BlobName(rs[i])].payload == rs[i].bytes
  }

  /** A digest in the blob map was in m (k = -1) with its bytes there, or
      came with its bytes from the listed blob names[k]. */
  lemma {:induction false} RegionBlobsFrom(d: Dir, names: seq<string>, m: map<seq<Byte>, seq<Byte>>, g: seq<Byte>)
    returns (k: int)
    requires Readable(d) && (forall i | 0 <= i < |names| :: names[i] in d)
    requires g in RegionBlobs(d, names, m)
    ensures k == -1 ==> g in m && RegionBlobs(d, names, m)[g] == m[g]
    ensures k != -1 ==> 0 <= k < |names| && IsBlobName(names[k]) && d[names[k]].hdr.digest == g
                        && RegionBlobs(d, names, m)[g] == d[names[k]].payload
    decreases |names|
  {
    if names == [] {
      k := -1;
    } else {
      var n := names[0];
      var m' := if IsBlobName(n) && d[n].hdr.digest !in m then m[d[n].hdr.digest := d[n].payload] else m;
      var k' := RegionBlobsFrom(d, names[1..], m', g);
      if k' != -1 {
        k := k' + 1;
        assert names[1..][k'] == names[k];
      } else if IsBlobName(n) && d[n].hdr.digest !in m && d[n].hdr.digest == g {
        k := 0;
      } else {
        k := -1;
      }
    }
  }

  /** With distinct digests, the bytes collected under a region's digest
      from what `write` leaves are the region's bytes. */
  lemma WrittenBlobBytes(d: Dir, macho: seq<ImageInfo>, kept: seq<SymInfo>, bufs: OrdMap<seq<Byte>>,
                         counts: OrdMap<nat>, names: seq<string>, i: nat)
    requires MetaWritable(macho, kept) && DistinctPaths(macho) && DistinctDigests(macho)
    requires BlobsOnly(d) && BlobsMatch(d, macho) && Ascending(bufs) && Counted(bufs, counts)
    requires Lists(WrittenDir(d, macho, kept, bufs, counts, false), names) && i < |macho|
    ensures Readable(WrittenDir(d, macho, kept, bufs, counts, false))
    ensures var blobs := RegionBlobs(WrittenDir(d, macho, kept, bufs, counts, false), names, map[]);
            macho[i].digest in blobs && blobs[macho[i].digest] == macho[i].bytes
  {
    var w := WrittenDir(d, macho, kept, bufs, counts, false);
    WrittenReadable(d, macho, kept, bufs, counts);
    var p, g := BlobName(macho[i]), macho[i].digest;
    WrittenBlob(d, macho, kept, bufs, counts, false, i);
    BlobNameApart(macho[i]);
    var k0 :| 0 <= k0 < |names| && names[k0] == p;
    RegionBlobsHas(w, names, map[], k0);
    var k := RegionBlobsFrom(w, names, map[], g);
    var n := names[k];
    WrittenNoStale(d, macho, kept, bufs, counts, false, n);
    var j :| 0 <= j < |macho| && BlobName(macho[j]) == n;
    WrittenBlob(d, macho, kept, bufs, counts, false, j);
    assert macho[j].digest == g;
    assert j == i;
  }

  /** A region's header with a repeated digest is not seen before when no
      two regions share a digest. */
  lemma NotSeenBefore(macho: seq<ImageInfo>, i: nat)
    requires DistinctDigests(macho) && i < |macho|
    ensures !SeenBefore(Headers(macho), i)
  {
    var hdrs := Headers(macho);
    forall q | 0 <= q < i ensures hdrs[q].digest != hdrs[i].digest {
      assert hdrs[q].digest == macho[q].digest && hdrs[i].digest == macho[i].digest;
    }
  }

  /** Round trip of the region catalog: with distinct digests, and reused
      blobs holding their regions' bytes, the records of `meta.bin` given
      the bytes collected from the blobs `write` leaves are the regions
      written, bytes included. */
  lemma WrittenRegionsReadBack(d: Dir, macho: seq<ImageInfo>, kept: seq<SymInfo>, bufs: OrdMap<seq<Byte>>,
                               counts: OrdMap<nat>, names: seq<string>)
    requires MetaWritable(macho, kept) && DistinctPaths(macho) && DistinctDigests(macho)
    requires BlobsOnly(d) && BlobsMatch(d, macho) && Ascending(bufs) && Counted(bufs, counts)
    requires Lists(WrittenDir(d, macho, kept, bufs, counts, false), names)
    ensures Readable(WrittenDir(d, macho, kept, bufs, counts, false))
    ensures AttachBytes(Headers(macho), RegionBlobs(WrittenDir(d, macho, kept, bufs, counts, false), names, map[]))
            == macho
  {
    var w := WrittenDir(d, macho, kept, bufs, counts, false);
    WrittenReadable(d, macho, kept, bufs, counts);
    var blobs := RegionBlobs(w, names, map[]);
    var imgs := AttachBytes(Headers(macho), blobs);
    forall i | 0 <= i < |macho| ensures imgs[i] == macho[i] {
      WrittenBlobBytes(d, macho, kept, bufs, counts, names, i);
      NotSeenBefore(macho, i);
      AttachBytesAt(Headers(macho), blobs, i);
    }
  }

  /** What `write` leaves is readable by the parsing constructor, region
      catalog included: its regions have bytes of their size, are
      page-aligned, have distinct digests, and h is a minimal perfect hash of
      their pages. */
  lemma WrittenMetaReadable(d: Dir, macho: seq<ImageInfo>, kept: seq<SymInfo>, bufs: OrdMap<seq<Byte>>,
                            counts: OrdMap<nat>, names: seq<string>, h: map<nat, nat>)
    requires MetaWritable(macho, kept) && DistinctPaths(macho) && DistinctDigests(macho)
    requires BlobsOnly(d) && BlobsMatch(d, macho) && Ascending(bufs) && Counted(bufs, counts)
    requires Lists(WrittenDir(d, macho, kept, bufs, counts, false), names)
    requires (forall i | 0 <= i < |macho| :: |macho[i].bytes| == macho[i].size) && AllAligned(macho)
    requires IsMph(h, PageKeys(SortByBase(macho)))
    ensures Readable(WrittenDir(d, macho, kept, bufs, counts, false))
    ensures MetaReadable(WrittenDir(d, macho, kept, bufs, counts, false), names, h)
  {
    WrittenRegionsReadBack(d, macho, kept, bufs, counts, names);
    WrittenMetaParses(d, macho, kept, bufs, counts, false);
  }

  /** Two regions with one digest (two JIT regions with the same bytes, say):
      `write` keeps a blob for each, but the record constructor moves the
      bytes out for the first one and leaves the second with none, so the
      directory is not MetaReadable when the second region has a size, and
      the source's size assertion fails on it. */
  lemma SharedDigestUnreadable(d: Dir, macho: seq<ImageInfo>, kept: seq<SymInfo>, bufs: OrdMap<seq<Byte>>,
                               counts: OrdMap<nat>, names: seq<string>, h: map<nat, nat>, i: nat, j: nat)
    requires MetaWritable(macho, kept) && DistinctPaths(macho)
    requires BlobsOnly(d) && Ascending(bufs) && Counted(bufs, counts)
    requires Lists(WrittenDir(d, macho, kept, bufs, counts, false), names)
    requires i < j < |macho| && macho[i].digest == macho[j].digest && macho[j].size > 0
    ensures Readable(WrittenDir(d, macho, kept, bufs, counts, false))
    ensures !MetaReadable(WrittenDir(d, macho, kept, bufs, counts, false), names, h)
  {
    var w := WrittenDir(d, macho, kept, bufs, counts, false);
    WrittenReadable(d, macho, kept, bufs, counts);
    WrittenMetaParses(d, macho, kept, bufs, counts, false);
    var hdrs := Headers(macho);
    var imgs := AttachBytes(hdrs, RegionBlobs(w, names, map[]));
    assert hdrs[i].digest == hdrs[j].digest;
    AttachBytesAt(hdrs, RegionBlobs(w, names, map[]), j);
    assert imgs[j].bytes == [] && imgs[j].size == macho[j].size;
  }
}
