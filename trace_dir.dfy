/** The trace directory the recorder writes: `meta.bin` (the region and
    symbol records), one `macho-region-*.bin` blob per region holding its
    bytes under a header with its SHA-256 digest, and one
    `thread-<tid>.bin` per thread holding its pc records under a header with
    the thread id and its instruction count. Each file is a compressed file
    with a typed header; here a file is its header and its decompressed
    payload, and the directory maps file names to files. */
module TraceDir {
  import opened Bytes
  import opened Records
  import opened OrderedMaps
  import opened RegionRecords
  import opened SymRecords
  import opened RegionNames
  import opened TraceCommon

  datatype Header =
    | MetaHdr(numRegions: U64, numSyms: U64)
    | RegionHdr(digest: seq<Byte>)
    | ThreadHdr(threadId: nat, numInst: nat)

  datatype File = File(hdr: Header, payload: seq<Byte>)

  type Dir = map<string, File>

  const MetaName: string := "meta.bin"
  const ThreadPrefix: string := "thread-"

  predicate StartsWith(s: string, p: string)
  {
    |p| <= |s| && s[..|p|] == p
  }

  /** The name of a region blob. */
  predicate IsBlobName(n: string)
  {
    StartsWith(n, LogPrefix)
  }

  /** `log_path` of a region that fits its record. */
  function BlobName(r: ImageInfo): string
    requires WellFormed(r)
  {
    LogPath(r)
  }

  /** A region's blob name is a blob name, and `meta.bin` is not. */
  lemma BlobNameApart(img: ImageInfo)
    requires WellFormed(img)
    ensures IsBlobName(BlobName(img)) && !IsBlobName(MetaName) && BlobName(img) != MetaName
  {
    assert BlobName(img)[..|LogPrefix|] == LogPrefix;
  }

  /** A thread's file name starts with `thread-`, and is neither a blob name
      nor `meta.bin`. */
  lemma ThreadNameApart(t: nat)
    ensures StartsWith(ThreadName(t), ThreadPrefix)
    ensures !IsBlobName(ThreadName(t)) && ThreadName(t) != MetaName
  {
    assert ThreadName(t)[0] == 't';
    assert ThreadName(t)[..|ThreadPrefix|] == ThreadPrefix;
  }

  // ---------------------------------------------------------------------
  // Removing files.

  /** The files of d that keep lets stay. */
  function Kept(d: Dir, keep: string -> bool): (r: Dir)
  {
    map n | n in d && keep(n) :: d[n]
  }

  /** A loop over the directory's entries removing each one keep rejects
      (`fs::remove`). */
  method RemoveFiles(d: Dir, keep: string -> bool) returns (r: Dir)
    ensures r == Kept(d, keep)
    ensures forall n :: n in r <==> n in d && keep(n)
    ensures forall n | n in r :: r[n] == d[n]
  {
    r := d;
    var todo := d.Keys;
    while todo != {}
      invariant todo <= d.Keys
      invariant forall n :: n in r <==> n in d && (n in todo || keep(n))
      invariant forall n | n in r :: r[n] == d[n]
      decreases |todo|
    {
      var n :| n in todo;
      if !keep(n) {
        r := r - {n};
      }
      todo := todo - {n};
    }
  }

  // ---------------------------------------------------------------------
  // The stages of `write`.

  /** What `meta.bin` can be written from: counts and lengths that fit the
      64-bit header fields, regions with full UUIDs and digests, byte
      strings. */
  predicate MetaWritable(macho: seq<ImageInfo>, kept: seq<SymInfo>)
  {
    |macho| < Mod64 && |kept| < Mod64
    && (forall i | 0 <= i < |macho| :: WellFormed(macho[i]))
    && (forall i | 0 <= i < |kept| :: SymWellFormed(kept[i]))
  }

  /** `meta.bin`: the counts in its header, then the region records, then
      the symbol records. */
  function MetaFile(macho: seq<ImageInfo>, kept: seq<SymInfo>): File
    requires MetaWritable(macho, kept)
  {
    File(MetaHdr(|macho|, |kept|), EncodeRegions(macho) + EncodeSyms(kept))
  }

  /** A region's blob can stay: a file of its blob name exists and its
      header holds the region's digest. */
  predicate Reusable(d: Dir, r: ImageInfo)
    requires WellFormed(r)
  {
    BlobName(r) in d && d[BlobName(r)].hdr == RegionHdr(r.digest)
  }

  /** `reused_macho_regions`: the blob names of the regions whose blob can
      stay. */
  function Reused(d: Dir, rs: seq<ImageInfo>): set<string>
    requires forall i | 0 <= i < |rs| :: WellFormed(rs[i])
  {
    if rs == [] then {}
    else (if Reusable(d, rs[0]) then {BlobName(rs[0])} else {}) + Reused(d, rs[1..])
  }

  /** A name is reused exactly when it is the blob name of some region whose
      blob can stay. */
  lemma ReusedIff(d: Dir, rs: seq<ImageInfo>, p: string)
    requires forall i | 0 <= i < |rs| :: WellFormed(rs[i])
    ensures p in Reused(d, rs) <==> exists i | 0 <= i < |rs| :: BlobName(rs[i]) == p && Reusable(d, rs[i])
  {
    if p in Reused(d, rs) {
      var i := ReusedWitness(d, rs, p);
    }
    if exists i | 0 <= i < |rs| :: BlobName(rs[i]) == p && Reusable(d, rs[i]) {
      var i :| 0 <= i < |rs| && BlobName(rs[i]) == p && Reusable(d, rs[i]);
      ReusedHas(d, rs, i);
    }
  }

  /** A reused name is the blob name of a region whose blob can stay. */
  lemma {:induction false} ReusedWitness(d: Dir, rs: seq<ImageInfo>, p: string) returns (i: nat)
    requires forall j | 0 <= j < |rs| :: WellFormed(rs[j])
    requires p in Reused(d, rs)
    ensures i < |rs| && BlobName(rs[i]) == p && Reusable(d, rs[i])
  {
    if BlobName(rs[0]) == p && Reusable(d, rs[0]) {
      i := 0;
    } else {
      var k := ReusedWitness(d, rs[1..], p);
      assert rs[1..][k] == rs[k + 1];
      i := k + 1;
    }
  }

  /** The blob name of a region whose blob can stay is reused. */
  lemma {:induction false} ReusedHas(d: Dir, rs: seq<ImageInfo>, i: nat)
    requires forall j | 0 <= j < |rs| :: WellFormed(rs[j])
    requires i < |rs| && Reusable(d, rs[i])
    ensures BlobName(rs[i]) in Reused(d, rs)
  {
    if i > 0 {
      assert rs[1..][i - 1] == rs[i];
      ReusedHas(d, rs[1..], i - 1);
    }
  }

  /** A blob stays when it is no blob, or it is reused. */
  predicate Survives(reused: set<string>, n: string)
  {
    !IsBlobName(n) || n in reused
  }

  /** The blob written for a region. */
  function Blob(r: ImageInfo): File
  {
    File(RegionHdr(r.digest), r.bytes)
  }

  /** The rewriting loop of `write`: the blob of each region not reused is
      written afresh. */
  function RewriteBlobs(d: Dir, rs: seq<ImageInfo>, reused: set<string>): Dir
    requires forall i | 0 <= i < |rs| :: WellFormed(rs[i])
    decreases |rs|
  {
    if rs == [] then d
    else
      var p := BlobName(rs[0]);
      RewriteBlobs(if p in reused then d else d[p := Blob(rs[0])], rs[1..], reused)
  }

  /** Regions with different blob names: no two regions share a file name
      and the first four bytes of their digest. */
  predicate DistinctPaths(rs: seq<ImageInfo>)
    requires forall i | 0 <= i < |rs| :: WellFormed(rs[i])
  {
    forall i, j | 0 <= i < j < |rs| :: BlobName(rs[i]) != BlobName(rs[j])
  }

  /** The rewriting loop leaves a name that is no region's blob name as it
      was. */
  lemma {:induction false} RewriteOther(d: Dir, rs: seq<ImageInfo>, reused: set<string>, n: string)
    requires forall i | 0 <= i < |rs| :: WellFormed(rs[i])
    requires forall i | 0 <= i < |rs| :: BlobName(rs[i]) != n
    ensures n in RewriteBlobs(d, rs, reused) <==> n in d
    ensures n in d ==> RewriteBlobs(d, rs, reused)[n] == d[n]
    decreases |rs|
  {
    if rs != [] {
      var p := BlobName(rs[0]);
      var d' := if p in reused then d else d[p := Blob(rs[0])];
      forall i | 0 <= i < |rs[1..]| ensures BlobName(rs[1..][i]) != n {
        assert rs[1..][i] == rs[i + 1];
      }
      RewriteOther(d', rs[1..], reused, n);
    }
  }

  /** After the rewriting loop a region's blob name holds the region's blob
      when it was not reused, and what it held when it was. */
  lemma {:induction false} RewriteRegion(d: Dir, rs: seq<ImageInfo>, reused: set<string>, i: nat)
    requires forall j | 0 <= j < |rs| :: WellFormed(rs[j])
    requires DistinctPaths(rs) && i < |rs|
    ensures var r, p := RewriteBlobs(d, rs, reused), BlobName(rs[i]);
            (p !in reused ==> p in r && r[p] == Blob(rs[i]))
            && (p in reused ==> (p in r <==> p in d) && (p in d ==> r[p] == d[p]))
    decreases |rs|
  {
    var p := BlobName(rs[0]);
    var d' := if p in reused then d else d[p := Blob(rs[0])];
    assert DistinctPaths(rs[1..]) by {
      forall j, k | 0 <= j < k < |rs[1..]| ensures BlobName(rs[1..][j]) != BlobName(rs[1..][k]) {
        assert rs[1..][j] == rs[j + 1] && rs[1..][k] == rs[k + 1];
      }
    }
    if i == 0 {
      forall j | 0 <= j < |rs[1..]| ensures BlobName(rs[1..][j]) != p {
        assert rs[1..][j] == rs[j + 1];
      }
      RewriteOther(d', rs[1..], reused, p);
    } else {
      assert rs[1..][i - 1] == rs[i];
      RewriteRegion(d', rs[1..], reused, i - 1);
    }
  }

  /** Each thread's file written afresh with the thread's buffer under a
      header with its id and its instruction count. */
  function WriteThreadFiles(d: Dir, bufs: OrdMap<seq<Byte>>, counts: OrdMap<nat>): Dir
    decreases |bufs|
  {
    if bufs == [] then d
    else
      var t := bufs[0].0;
      WriteThreadFiles(d[ThreadName(t) := File(ThreadHdr(t, Get(counts, t, 0)), bufs[0].1)],
                       bufs[1..], counts)
  }

  /** The directory after `write`, one stage after the other: `meta.bin`, the
      removal of the blobs that are not reused, the rewriting of the others,
      then (when not streaming) a file per thread. */
  function WrittenDir(d: Dir, macho: seq<ImageInfo>, kept: seq<SymInfo>, bufs: OrdMap<seq<Byte>>,
                      counts: OrdMap<nat>, stream: bool): Dir
    requires MetaWritable(macho, kept)
  {
    var d3 := BlobsWritten(d, macho, kept);
    if stream then d3 else WriteThreadFiles(d3, bufs, counts)
  }

  /** The directory once `meta.bin` is written, the blobs that are not
      reused removed and the others rewritten. */
  function BlobsWritten(d: Dir, macho: seq<ImageInfo>, kept: seq<SymInfo>): Dir
    requires MetaWritable(macho, kept)
  {
    var d1 := d[MetaName := MetaFile(macho, kept)];
    var reused := Reused(d1, macho);
    var d2 := Kept(d1, n => Survives(reused, n));
    RewriteBlobs(d2, macho, reused)
  }

  // ---------------------------------------------------------------------
  // What `write` leaves in the directory.

  /** The thread files loop leaves a name that is no thread's file name as
      it was. */
  lemma {:induction false} ThreadFilesOther(d: Dir, bufs: OrdMap<seq<Byte>>, counts: OrdMap<nat>, n: string)
    requires forall i | 0 <= i < |bufs| :: ThreadName(bufs[i].0) != n
    ensures n in WriteThreadFiles(d, bufs, counts) <==> n in d
    ensures n in d ==> WriteThreadFiles(d, bufs, counts)[n] == d[n]
    decreases |bufs|
  {
    if bufs != [] {
      var t := bufs[0].0;
      forall i | 0 <= i < |bufs[1..]| ensures ThreadName(bufs[1..][i].0) != n {
        assert bufs[1..][i] == bufs[i + 1];
      }
      ThreadFilesOther(d[ThreadName(t) := File(ThreadHdr(t, Get(counts, t, 0)), bufs[0].1)],
                       bufs[1..], counts, n);
    }
  }

  /** After the thread files loop, each thread's file holds its buffer under
      a header with its id and its count. */
  lemma {:induction false} ThreadFileAt(d: Dir, bufs: OrdMap<seq<Byte>>, counts: OrdMap<nat>, t: nat)
    requires Ascending(bufs) && Find(bufs, t).Some?
    ensures ThreadName(t) in WriteThreadFiles(d, bufs, counts)
    ensures WriteThreadFiles(d, bufs, counts)[ThreadName(t)]
            == File(ThreadHdr(t, Get(counts, t, 0)), Find(bufs, t).value)
    decreases |bufs|
  {
    var t0 := bufs[0].0;
    var d' := d[ThreadName(t0) := File(ThreadHdr(t0, Get(counts, t0, 0)), bufs[0].1)];
    AscendingTail(bufs);
    if t0 == t {
      forall i | 0 <= i < |bufs[1..]| ensures ThreadName(bufs[1..][i].0) != ThreadName(t) {
        if ThreadName(bufs[1..][i].0) == ThreadName(t) {
          ThreadNameInjective(bufs[1..][i].0, t);
        }
      }
      ThreadFilesOther(d', bufs[1..], counts, ThreadName(t));
    } else {
      ThreadFileAt(d', bufs[1..], counts, t);
    }
  }

  /** `write` leaves `meta.bin` holding the region and symbol records. */
  lemma WrittenMeta(d: Dir, macho: seq<ImageInfo>, kept: seq<SymInfo>, bufs: OrdMap<seq<Byte>>,
                    counts: OrdMap<nat>, stream: bool)
    requires MetaWritable(macho, kept)
    ensures var w := WrittenDir(d, macho, kept, bufs, counts, stream);
            MetaName in w && w[MetaName] == MetaFile(macho, kept)
  {
    var d1 := d[MetaName := MetaFile(macho, kept)];
    var reused := Reused(d1, macho);
    var d2 := Kept(d1, n => Survives(reused, n));
    forall i | 0 <= i < |macho| ensures BlobName(macho[i]) != MetaName {
      BlobNameApart(macho[i]);
    }
    RewriteOther(d2, macho, reused, MetaName);
    if !stream {
      forall i | 0 <= i < |bufs| ensures ThreadName(bufs[i].0) != MetaName {
        ThreadNameApart(bufs[i].0);
      }
      ThreadFilesOther(RewriteBlobs(d2, macho, reused), bufs, counts, MetaName);
    }
  }

  /** With distinct blob names, a region's blob is reused by `write` exactly
      when a file of its blob name holds its digest, and otherwise the blob
      is written afresh from the region's bytes. */
  lemma WrittenBlob(d: Dir, macho: seq<ImageInfo>, kept: seq<SymInfo>, bufs: OrdMap<seq<Byte>>,
                    counts: OrdMap<nat>, stream: bool, i: nat)
    requires MetaWritable(macho, kept) && DistinctPaths(macho) && i < |macho|
    ensures var w, p := WrittenDir(d, macho, kept, bufs, counts, stream), BlobName(macho[i]);
            p in w && w[p].hdr == RegionHdr(macho[i].digest)
            && w[p] == if Reusable(d, macho[i]) then d[p] else Blob(macho[i])
  {
    var p := BlobName(macho[i]);
    BlobWritten(d, macho, kept, i);
    if !stream {
      forall j | 0 <= j < |bufs| ensures ThreadName(bufs[j].0) != p {
        ThreadNameApart(bufs[j].0);
      }
      ThreadFilesOther(BlobsWritten(d, macho, kept), bufs, counts, p);
    }
  }

  /** Before the thread files, a region's blob is the one found in the
      directory when reusable, and the region's own otherwise. */
  lemma BlobWritten(d: Dir, macho: seq<ImageInfo>, kept: seq<SymInfo>, i: nat)
    requires MetaWritable(macho, kept) && DistinctPaths(macho) && i < |macho|
    ensures var w, p := BlobsWritten(d, macho, kept), BlobName(macho[i]);
            p in w && w[p] == if Reusable(d, macho[i]) then d[p] else Blob(macho[i])
  {
    var p := BlobName(macho[i]);
    var d1 := d[MetaName := MetaFile(macho, kept)];
    var reused := Reused(d1, macho);
    var d2 := Kept(d1, n => Survives(reused, n));
    BlobNameApart(macho[i]);
    assert Reusable(d1, macho[i]) == Reusable(d, macho[i]);
    ReusedIff(d1, macho, p);
    assert p in reused <==> Reusable(d, macho[i]);
    RewriteRegion(d2, macho, reused, i);
  }

  /** After `write` every blob in the directory belongs to one of the
      regions written: a blob that is not reused is removed. */
  lemma WrittenNoStale(d: Dir, macho: seq<ImageInfo>, kept: seq<SymInfo>, bufs: OrdMap<seq<Byte>>,
                       counts: OrdMap<nat>, stream: bool, n: string)
    requires MetaWritable(macho, kept)
    requires n in WrittenDir(d, macho, kept, bufs, counts, stream) && IsBlobName(n)
    ensures exists i | 0 <= i < |macho| :: BlobName(macho[i]) == n
  {
    var d1 := d[MetaName := MetaFile(macho, kept)];
    var reused := Reused(d1, macho);
    var d2 := Kept(d1, n => Survives(reused, n));
    if forall i | 0 <= i < |macho| :: BlobName(macho[i]) != n {
      if !stream {
        forall j | 0 <= j < |bufs| ensures ThreadName(bufs[j].0) != n {
          ThreadNameApart(bufs[j].0);
        }
        ThreadFilesOther(RewriteBlobs(d2, macho, reused), bufs, counts, n);
      }
      RewriteOther(d2, macho, reused, n);
      assert n in reused;
      ReusedIff(d1, macho, n);
    }
  }

  /** When not streaming, `write` leaves each thread's file holding the
      thread's buffer under a header with its id and its count. */
  lemma WrittenThread(d: Dir, macho: seq<ImageInfo>, kept: seq<SymInfo>, bufs: OrdMap<seq<Byte>>,
                      counts: OrdMap<nat>, t: nat)
    requires MetaWritable(macho, kept) && Ascending(bufs) && Find(bufs, t).Some?
    ensures var w := WrittenDir(d, macho, kept, bufs, counts, false);
            ThreadName(t) in w
            && w[ThreadName(t)] == File(ThreadHdr(t, Get(counts, t, 0)), Find(bufs, t).value)
  {
    var d1 := d[MetaName := MetaFile(macho, kept)];
    var reused := Reused(d1, macho);
    var d2 := Kept(d1, n => Survives(reused, n));
    ThreadFileAt(RewriteBlobs(d2, macho, reused), bufs, counts, t);
  }

  /** `write` leaves any other file as it was: one that is neither
      `meta.bin`, nor a blob, nor the file of a thread it writes. */
  lemma WrittenOther(d: Dir, macho: seq<ImageInfo>, kept: seq<SymInfo>, bufs: OrdMap<seq<Byte>>,
                     counts: OrdMap<nat>, stream: bool, n: string)
    requires MetaWritable(macho, kept)
    requires n != MetaName && !IsBlobName(n)
    requires !stream ==> forall i | 0 <= i < |bufs| :: ThreadName(bufs[i].0) != n
    ensures var w := WrittenDir(d, macho, kept, bufs, counts, stream);
            (n in w <==> n in d) && (n in d ==> w[n] == d[n])
  {
    var d1 := d[MetaName := MetaFile(macho, kept)];
    var reused := Reused(d1, macho);
    var d2 := Kept(d1, n => Survives(reused, n));
    forall i | 0 <= i < |macho| ensures BlobName(macho[i]) != n {
      BlobNameApart(macho[i]);
    }
    RewriteOther(d2, macho, reused, n);
    if !stream {
      ThreadFilesOther(RewriteBlobs(d2, macho, reused), bufs, counts, n);
    }
  }
}
