/** Basic-block extraction from a pc trace.
    A trace is cut into maximal runs of straight-line pcs (each pc 4 bytes
    after the one before it, in 64-bit arithmetic); every run becomes a
    basic block `{first pc, 4 * length}`, except that the last run is only
    emitted when it holds at least two instructions. */
module BasicBlocks {
  import opened Bits
  import opened Records

  /** `bb_t`: the first pc of a basic block and its size in bytes. */
  datatype Bb = Bb(pc: U64, sz: U32)

  const Mod32: nat := 0x1_0000_0000

  /** Size of one instruction. */
  const InstSize: nat := 4

  /** The `(uint32_t)` cast. */
  function Trunc32(x: U64): U32
  {
    x % Mod32
  }

  /** pc b is the instruction right after pc a. */
  predicate Follows(a: U64, b: U64)
  {
    Add64(a, InstSize) == b
  }

  // ---------------------------------------------------------------------
  // The reference reading: a trace is a sequence of maximal straight-line runs.

  /** A straight-line run: its first pc and its number of instructions. */
  datatype Run = Run(start: U64, len: nat)

  /** The pc of the k-th instruction of a run starting at start. */
  function PcAt(start: U64, k: nat): U64
  {
    if k == 0 then start else Add64(PcAt(start, k - 1), InstSize)
  }

  /** The pcs a run covers. */
  function Expand(r: Run): (s: seq<U64>)
    ensures |s| == r.len
  {
    seq(r.len, k requires 0 <= k < r.len => PcAt(r.start, k))
  }

  function LastPc(r: Run): U64
    requires r.len >= 1
  {
    PcAt(r.start, r.len - 1)
  }

  predicate NonEmptyRuns(rs: seq<Run>)
  {
    forall i | 0 <= i < |rs| :: rs[i].len >= 1
  }

  /** A trace prefix cut into runs: the runs already ended by a jump, in trace order,
      and the run still open at the end of the prefix. */
  datatype Cut = Cut(closed: seq<Run>, open: Run)

  /** The maximal straight-line runs of the first n pcs of a trace. */
  function Runs(pcs: seq<U64>, n: nat): (c: Cut)
    requires 1 <= n <= |pcs|
    ensures c.open.len >= 1 && NonEmptyRuns(c.closed)
  {
    if n == 1 then Cut([], Run(pcs[0], 1))
    else
      var c := Runs(pcs, n - 1);
      if Follows(pcs[n - 2], pcs[n - 1]) then Cut(c.closed, Run(c.open.start, c.open.len + 1))
      else Cut(c.closed + [c.open], Run(pcs[n - 1], 1))
  }

  /** All runs of a cut, in trace order. */
  function AllRuns(c: Cut): seq<Run>
  {
    c.closed + [c.open]
  }

  /** The pcs of the runs, one run after the other. */
  function Flatten(rs: seq<Run>): seq<U64>
  {
    if rs == [] then [] else Flatten(rs[..|rs| - 1]) + Expand(rs[|rs| - 1])
  }

  /** The block a run becomes: its first pc and 4 bytes per instruction, as a `uint32_t`. */
  function BlockOf(r: Run): (b: Bb)
    ensures b.pc == r.start
  {
    Bb(r.start, (InstSize * r.len) % Mod32)
  }

  function BlocksOf(rs: seq<Run>): (bs: seq<Bb>)
    ensures |bs| == |rs|
  {
    seq(|rs|, k requires 0 <= k < |rs| => BlockOf(rs[k]))
  }

  /** The blocks of a non-empty trace: every closed run, then the open one when it has
      two instructions or more. */
  function Blocks(pcs: seq<U64>): seq<Bb>
    requires |pcs| >= 1
  {
    var c := Runs(pcs, |pcs|);
    BlocksOf(c.closed) + (if c.open.len >= 2 then [BlockOf(c.open)] else [])
  }

  // ---------------------------------------------------------------------
  // The loop.

  /** `extract_bbs_from_pc_trace`. The trace must be non-empty (pcs[0] is read);
      a span of 64-bit pcs in a 64-bit address space has fewer than 2^61 elements. */
  method ExtractBbs(pcs: seq<U64>) returns (bbs: seq<Bb>)
    requires 1 <= |pcs| < 0x2000_0000_0000_0000
    ensures bbs == Blocks(pcs)
  {
    var bbStart := pcs[0];
    var lastPc := Sub64(pcs[0], InstSize);
    bbs := [];
    var i := 0;
    while i < |pcs|
      invariant 0 <= i <= |pcs|
      invariant i == 0 ==> bbStart == pcs[0] && lastPc == Sub64(pcs[0], InstSize) && bbs == []
      invariant i > 0 ==> LoopState(pcs, i, bbStart, lastPc, bbs)
    {
      var pc := pcs[i];
      if i == 0 {
        AddSub(pc);
      }
      if Add64(lastPc, InstSize) != pc {
        StepBreak(pcs, i, bbStart, lastPc, bbs);
        bbs := bbs + [Bb(bbStart, Trunc32(Sub64(Add64(lastPc, InstSize), bbStart)))];
        bbStart := pc;
      } else if i > 0 {
        StepFollow(pcs, i, bbStart, lastPc, bbs);
      }
      lastPc := pc;
      i := i + 1;
    }
    LastRunLength(pcs, |pcs|);
    FinalRun(Runs(pcs, |pcs|).open);
    if bbStart != lastPc {
      bbs := bbs + [Bb(bbStart, Trunc32(Sub64(Add64(lastPc, InstSize), bbStart)))];
    }
  }

  /** What the loop has built after reading the first n pcs: the blocks of the
      closed runs, and the open run from bbStart to lastPc, the last pc read. */
  predicate LoopState(pcs: seq<U64>, n: nat, bbStart: U64, lastPc: U64, bbs: seq<Bb>)
    requires 1 <= n <= |pcs|
  {
    var c := Runs(pcs, n);
    bbStart == c.open.start && lastPc == pcs[n - 1] && bbs == BlocksOf(c.closed)
      && lastPc == LastPc(c.open)
  }

  /** The open run is no longer than the part of the trace read. */
  lemma {:induction false} LastRunLength(pcs: seq<U64>, n: nat)
    requires 1 <= n <= |pcs|
    ensures Runs(pcs, n).open.len <= n
  {
    if n > 1 {
      LastRunLength(pcs, n - 1);
    }
  }

  /** A pc that does not follow the last one closes the open run into a block. */
  lemma StepBreak(pcs: seq<U64>, n: nat, bbStart: U64, lastPc: U64, bbs: seq<Bb>)
    requires 1 <= n < |pcs| && LoopState(pcs, n, bbStart, lastPc, bbs) && Add64(lastPc, InstSize) != pcs[n]
    ensures LoopState(pcs, n + 1, pcs[n], pcs[n], bbs + [Bb(bbStart, Trunc32(Sub64(Add64(lastPc, InstSize), bbStart)))])
  {
    var c := Runs(pcs, n);
    BlocksOfSnoc(c.closed, c.open);
    BlockSize(c.open);
  }

  /** A pc that follows the last one extends the open run. */
  lemma StepFollow(pcs: seq<U64>, n: nat, bbStart: U64, lastPc: U64, bbs: seq<Bb>)
    requires 1 <= n < |pcs| && LoopState(pcs, n, bbStart, lastPc, bbs) && Add64(lastPc, InstSize) == pcs[n]
    ensures LoopState(pcs, n + 1, bbStart, pcs[n], bbs)
  {
  }

  lemma BlocksOfSnoc(rs: seq<Run>, r: Run)
    ensures BlocksOf(rs + [r]) == BlocksOf(rs) + [BlockOf(r)]
  {
  }

  /** The k-th pc of a run is 4 * k bytes after its start, modulo 2^64. */
  lemma {:induction false} PcAtOffset(start: U64, k: nat)
    ensures PcAt(start, k) == (start + InstSize * k) % Mod64
  {
    if k > 0 {
      PcAtOffset(start, k - 1);
      WrapIsMod(PcAt(start, k - 1), InstSize);
      ModAdd(start + InstSize * (k - 1), InstSize, Mod64);
    }
  }

  lemma ModAdd(a: nat, b: nat, m: nat)
    requires m > 0
    ensures (a % m + b) % m == (a + b) % m
  {
    var q, r := a / m, a % m;
    var c := r + b;
    var q2, r2 := c / m, c % m;
    assert a + b == m * (q + q2) + r2;
    DivModUnique(a + b, m, q + q2, r2);
  }

  lemma ModMultiple(x: nat, q: nat, m: nat)
    requires m > 0
    ensures (x + m * q) % m == x % m
  {
    assert x + m * q == m * (q + x / m) + x % m;
    DivModUnique(x + m * q, m, q + x / m, x % m);
  }

  lemma ModMinusMultiple(x: nat, q: nat, m: nat)
    requires m > 0
    ensures (x - m * q) % m == x % m
  {
    assert x - m * q == m * (x / m - q) + x % m;
    DivModUnique(x - m * q, m, x / m - q, x % m);
  }

  lemma ModOfMod(x: nat, m: nat, k: nat)
    requires m > 0 && k > 0
    ensures (x % (m * k)) % m == x % m
  {
    var q := x / (m * k);
    assert x == x % (m * k) + m * (k * q);
    ModMultiple(x % (m * k), k * q, m);
  }

  /** Going back one instruction and forward again returns to the same pc. */
  lemma AddSub(pc: U64)
    ensures Add64(Sub64(pc, InstSize), InstSize) == pc
  {
  }

  /** The size the loop computes for a run is 4 bytes per instruction, truncated to 32 bits. */
  lemma BlockSize(r: Run)
    requires r.len >= 1
    ensures Trunc32(Sub64(Add64(LastPc(r), InstSize), r.start)) == (InstSize * r.len) % Mod32
  {
    PcAtOffset(r.start, r.len);
    var e := r.start + InstSize * r.len;
    assert Add64(LastPc(r), InstSize) == e % Mod64;
    WrapIsMod(e % Mod64, r.start);
    var q := e / Mod64;
    assert e % Mod64 - r.start == InstSize * r.len - Mod64 * q;
    assert Sub64(Add64(LastPc(r), InstSize), r.start) == (InstSize * r.len) % Mod64 by {
      ModMinusMultiple(InstSize * r.len, q, Mod64);
    }
    ModOfMod(InstSize * r.len, Mod32, 0x1_0000_0000);
  }

  /** The open run ends on a pc different from its first exactly when it has two
      instructions or more (it is shorter than 2^62 pcs). */
  lemma FinalRun(r: Run)
    requires 1 <= r.len < 0x2000_0000_0000_0000
    ensures (r.start != LastPc(r)) <==> r.len >= 2
    ensures r.len >= 2 ==> Trunc32(Sub64(Add64(LastPc(r), InstSize), r.start)) == (InstSize * r.len) % Mod32
  {
    if r.len >= 2 {
      PcAtOffset(r.start, r.len - 1);
      var d := InstSize * (r.len - 1);
      assert 0 < d < Mod64;
      if r.start + d < Mod64 {
        assert LastPc(r) == r.start + d;
      } else {
        assert r.start + d < 2 * Mod64;
        assert LastPc(r) == r.start + d - Mod64;
      }
      BlockSize(r);
    }
  }

  // ---------------------------------------------------------------------
  // What the runs and blocks are.

  /** The open run ends on the last pc read. */
  lemma {:induction false} RunsLast(pcs: seq<U64>, n: nat)
    requires 1 <= n <= |pcs|
    ensures LastPc(Runs(pcs, n).open) == pcs[n - 1]
  {
    if n > 1 {
      RunsLast(pcs, n - 1);
    }
  }

  /** The runs cover the pcs read exactly, in order. */
  lemma {:induction false} RunsCover(pcs: seq<U64>, n: nat)
    requires 1 <= n <= |pcs|
    ensures Flatten(AllRuns(Runs(pcs, n))) == pcs[..n]
  {
    if n > 1 {
      RunsCover(pcs, n - 1);
      RunsLast(pcs, n - 1);
      var c := Runs(pcs, n - 1);
      var rs' := AllRuns(Runs(pcs, n));
      assert pcs[..n] == pcs[..n - 1] + [pcs[n - 1]];
      assert AllRuns(c)[..|AllRuns(c)| - 1] == c.closed;
      if Follows(pcs[n - 2], pcs[n - 1]) {
        assert rs'[..|rs'| - 1] == c.closed;
        ExpandSnoc(c.open);
      } else {
        assert rs'[..|rs'| - 1] == AllRuns(c);
        assert Expand(Run(pcs[n - 1], 1)) == [pcs[n - 1]];
      }
    } else {
      assert Expand(Run(pcs[0], 1)) == [pcs[0]];
    }
  }

  lemma ExpandSnoc(r: Run)
    requires r.len >= 1
    ensures Expand(Run(r.start, r.len + 1)) == Expand(r) + [Add64(LastPc(r), InstSize)]
  {
  }

  /** Consecutive runs are separated by a jump: the pc after the end of one run is not
      the start of the next, so no run could be extended. */
  lemma {:induction false} RunsBreak(pcs: seq<U64>, n: nat, i: nat)
    requires 1 <= n <= |pcs| && i + 1 < |AllRuns(Runs(pcs, n))|
    ensures !Follows(LastPc(AllRuns(Runs(pcs, n))[i]), AllRuns(Runs(pcs, n))[i + 1].start)
  {
    var c := Runs(pcs, n - 1);
    if Follows(pcs[n - 2], pcs[n - 1]) {
      RunsBreak(pcs, n - 1, i);
    } else if i + 1 < |AllRuns(c)| {
      RunsBreak(pcs, n - 1, i);
    } else {
      RunsLast(pcs, n - 1);
    }
  }

  /** A straight-line trace of n >= 2 instructions is one block of 4 * n bytes. */
  lemma ContiguousOneBlock(pcs: seq<U64>)
    requires |pcs| >= 2
    requires forall i | 0 <= i < |pcs| - 1 :: Follows(pcs[i], pcs[i + 1])
    ensures Blocks(pcs) == [Bb(pcs[0], (InstSize * |pcs|) % Mod32)]
  {
    ContiguousOneRun(pcs, |pcs|);
  }

  lemma {:induction false} ContiguousOneRun(pcs: seq<U64>, n: nat)
    requires 1 <= n <= |pcs|
    requires forall i | 0 <= i < |pcs| - 1 :: Follows(pcs[i], pcs[i + 1])
    ensures Runs(pcs, n) == Cut([], Run(pcs[0], n))
  {
    if n > 1 {
      ContiguousOneRun(pcs, n - 1);
    }
  }

  /** A final instruction that does not follow the one before it yields no block:
      the blocks are those of every run before it, the run it ends included. */
  lemma TrailingSingleDropped(pcs: seq<U64>)
    requires |pcs| >= 2 && !Follows(pcs[|pcs| - 2], pcs[|pcs| - 1])
    ensures Blocks(pcs) == BlocksOf(AllRuns(Runs(pcs, |pcs| - 1)))
  {
  }

  /** `[100, 104, 108, 200, 204]` gives `[{100, 12}, {200, 8}]`. */
  lemma TwoRunsExample(pcs: seq<U64>)
    requires pcs == [100, 104, 108, 200, 204]
    ensures Blocks(pcs) == [Bb(100, 12), Bb(200, 8)]
  {
    assert Runs(pcs, 1) == Cut([], Run(100, 1));
    assert Runs(pcs, 2) == Cut([], Run(100, 2));
    assert Runs(pcs, 3) == Cut([], Run(100, 3));
    assert Runs(pcs, 4) == Cut([Run(100, 3)], Run(200, 1));
    assert Runs(pcs, 5) == Cut([Run(100, 3)], Run(200, 2));
  }

  // ---------------------------------------------------------------------

  /** `extract_pcs_from_trace`: the pc of every record, in order. */
  method ExtractPcs(msgs: seq<LogMsg>) returns (pcs: seq<U64>)
    ensures |pcs| == |msgs|
    ensures forall i | 0 <= i < |msgs| :: pcs[i] == msgs[i].pc
  {
    var a := new U64[|msgs|];
    var i := 0;
    for k := 0 to |msgs|
      invariant i == k
      invariant forall j | 0 <= j < k :: a[j] == msgs[j].pc
    {
      a[i] := msgs[k].pc;
      i := i + 1;
    }
    pcs := a[..];
  }
}
