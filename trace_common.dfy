/** What both trace recorders share: per-thread byte buffers kept in a
    `std::map` keyed by thread id, the set of traced pcs that `write` and
    `write_to_file` collect from them, and the walk over a run of records
    that only moves the read pointer. */
module TraceCommon {
  import opened Bytes
  import opened Records
  import opened OrderedMaps
  import opened Framing
  import opened BasicBlocks
  import opened RegionNames
  import opened SymRecords

  /** The total length of the buffers of a map, in key order. */
  function SumLens<T>(m: OrdMap<seq<T>>): nat
  {
    if m == [] then 0 else |m[0].1| + SumLens(m[1..])
  }

  /** The buffer stored under k, empty when there is none (`m[k]` on a map
      of vectors). */
  function BufOf<T>(m: OrdMap<seq<T>>, k: nat): seq<T>
  {
    Get(m, k, [])
  }

  /** The values of a map, measured by f, added up in key order. */
  function SumBy<V>(m: OrdMap<V>, f: V -> nat): nat
  {
    if m == [] then 0 else f(m[0].1) + SumBy(m[1..], f)
  }

  /** The number of records a count stands for. */
  function CountOf(n: nat): nat
  {
    n
  }

  /** Replacing the value under k changes the total by the difference in
      measure; a new key adds its value's measure. */
  lemma {:induction false} SumByPut<V>(m: OrdMap<V>, k: nat, v: V, f: V -> nat)
    requires Ascending(m)
    ensures SumBy(Put(m, k, v), f) + (if Find(m, k).Some? then f(Find(m, k).value) else 0)
            == SumBy(m, f) + f(v)
  {
    if m != [] {
      AscendingTail(m);
      if m[0].0 == k {
        assert (Put(m, k, v))[1..] == m[1..];
      } else if k < m[0].0 {
        FindBelow(m, k);
        assert (Put(m, k, v))[1..] == m;
      } else {
        SumByPut(m[1..], k, v, f);
        assert (Put(m, k, v))[1..] == Put(m[1..], k, v);
      }
    }
  }

  /** Replacing the buffer under k changes the total by the difference in
      length. */
  lemma {:induction false} SumLensPut<T>(m: OrdMap<seq<T>>, k: nat, v: seq<T>)
    requires Ascending(m)
    ensures SumLens(Put(m, k, v)) + |BufOf(m, k)| == SumLens(m) + |v|
  {
    if m != [] {
      AscendingTail(m);
      if m[0].0 == k {
        assert (Put(m, k, v))[1..] == m[1..];
      } else if k < m[0].0 {
        FindBelow(m, k);
        assert (Put(m, k, v))[1..] == m;
      } else {
        SumLensPut(m[1..], k, v);
        assert (Put(m, k, v))[1..] == Put(m[1..], k, v);
      }
    }
  }

  /** `thread-<tid>.bin`. */
  function ThreadName(tid: nat): string
  {
    "thread-" + DecStr(tid) + ".bin"
  }

  /** Different threads log to different files. */
  lemma ThreadNameInjective(a: nat, b: nat)
    requires ThreadName(a) == ThreadName(b)
    ensures a == b
  {
    var na := ThreadName(a);
    assert na == "thread-" + DecStr(a) + ".bin";
    assert ThreadName(b) == "thread-" + DecStr(b) + ".bin";
    assert |DecStr(a)| == |DecStr(b)|;
    assert DecStr(a) == na[7..|na| - 4];
    assert DecStr(b) == na[7..|na| - 4];
    DecValueOfDecStr(a);
    DecValueOfDecStr(b);
  }

  /** The pcs recorded in a byte buffer, one per whole record. */
  function BufPcs(buf: seq<Byte>): seq<U64>
  {
    PcsOf(Msgs(buf))
  }

  /** Every pc recorded in any thread's buffer: the set `write` collects. */
  function TracedPcs(bufs: OrdMap<seq<Byte>>): (r: set<U64>)
  {
    if bufs == [] then {} else (set pc | pc in BufPcs(bufs[0].1)) + TracedPcs(bufs[1..])
  }

  /** A pc is traced exactly when some thread's buffer records it. */
  lemma {:induction false} TracedPcsIff(bufs: OrdMap<seq<Byte>>, pc: U64)
    ensures pc in TracedPcs(bufs) <==> exists i | 0 <= i < |bufs| :: pc in BufPcs(bufs[i].1)
  {
    if bufs != [] {
      var tail := bufs[1..];
      TracedPcsIff(tail, pc);
      if pc in TracedPcs(tail) {
        var i :| 0 <= i < |tail| && pc in BufPcs(tail[i].1);
        assert tail[i] == bufs[i + 1];
      }
      if exists i | 0 <= i < |bufs| :: pc in BufPcs(bufs[i].1) {
        var i :| 0 <= i < |bufs| && pc in BufPcs(bufs[i].1);
        if i > 0 {
          assert tail[i - 1] == bufs[i];
        }
      }
    }
  }

  /** The range `[pc, pc + 4)` of each traced pc, the intervals `write`
      inserts into its interval tree to pick the symbols it keeps. */
  function PcIntervals(pcs: set<U64>): set<(U64, U64)>
  {
    set pc | pc in pcs :: (pc, Add64(pc, 4))
  }

  /** The first loop of `write`: every pc of every thread's buffer, collected
      into a set, through `extract_pcs_from_trace` on each buffer seen as
      `buf.size() / sizeof(log_msg_hdr)` records. */
  method CollectPcs(bufs: OrdMap<seq<Byte>>) returns (pcs: set<U64>)
    ensures pcs == TracedPcs(bufs)
  {
    pcs := {};
    var i := 0;
    assert bufs[0..] == bufs;
    while i < |bufs|
      invariant 0 <= i <= |bufs|
      invariant pcs + TracedPcs(bufs[i..]) == TracedPcs(bufs)
    {
      var ps := ExtractPcs(Msgs(bufs[i].1));
      assert ps == BufPcs(bufs[i].1);
      assert bufs[i..][1..] == bufs[i + 1..];
      pcs := AddAll(pcs, ps);
      i := i + 1;
    }
  }

  /** The inner loop of the first loop of `write`: `pcs.emplace(pc)` for
      each pc of one buffer. */
  method AddAll(pcs: set<U64>, ps: seq<U64>) returns (r: set<U64>)
    ensures r == pcs + set pc | pc in ps
  {
    r := pcs;
    var j := 0;
    while j < |ps|
      invariant 0 <= j <= |ps|
      invariant r == pcs + set pc | pc in ps[..j]
    {
      assert ps[..j + 1] == ps[..j] + [ps[j]];
      r := r + {ps[j]};
      j := j + 1;
    }
    assert ps[..|ps|] == ps;
  }

  /** The symbols both writers keep: those the selection
      (`get_symbols_in_intervals`) picks among all symbols for the intervals
      of the pcs traced in the buffers, or none when no symbols are given. */
  function KeptSyms(symbols: Option<seq<SymInfo>>,
                    select: (seq<SymInfo>, set<(U64, U64)>) -> seq<SymInfo>,
                    bufs: OrdMap<seq<Byte>>): seq<SymInfo>
  {
    if symbols.Some? then select(symbols.value, PcIntervals(TracedPcs(bufs))) else []
  }
}
