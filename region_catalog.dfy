/** `MachORegions`: the catalog of a traced process's memory regions. It
    keeps the regions sorted and, beside them, a page table indexed through
    a minimal perfect hash of page numbers, so that the instruction word at
    any traced address is read with one hash and one load. */
module RegionCatalog {
  import opened Bytes
  import opened Records
  import opened OrderedMaps
  import opened RegionRecords
  import opened RegionNames
  import opened PageIndex
  import opened Framing
  import opened RegionScan

  predicate SortedByBase(rs: seq<ImageInfo>)
  {
    forall i, j | 0 <= i < j < |rs| :: rs[i].base <= rs[j].base
  }

  function InsertByBase(s: seq<ImageInfo>, x: ImageInfo): (r: seq<ImageInfo>)
    requires SortedByBase(s)
    ensures |r| == |s| + 1 && (r[0] == x || (s != [] && r[0] == s[0]))
    ensures SortedByBase(r) && multiset(r) == multiset(s) + multiset{x}
  {
    if s == [] || x.base <= s[0].base then [x] + s
    else
      assert s == [s[0]] + s[1..];
      [s[0]] + InsertByBase(s[1..], x)
  }

  /** `std::sort` of the regions, ordered by base. */
  function SortByBase(rs: seq<ImageInfo>): (r: seq<ImageInfo>)
    ensures SortedByBase(r) && multiset(r) == multiset(rs)
  {
    if rs == [] then []
    else
      assert rs == [rs[0]] + rs[1..];
      InsertByBase(SortByBase(rs[1..]), rs[0])
  }

  /** `base <= addr && addr < base + size`, the end computed in `uint64_t`. */
  predicate Covers(r: ImageInfo, addr: U64)
  {
    r.base <= addr < Add64(r.base, r.size)
  }

  /** The file name of the region's path is name. */
  predicate Named(r: ImageInfo, name: string)
  {
    Filename(r.path) == name
  }

  /** The positions, ascending, of the first n regions whose path's file
      name is name. */
  function Matches(rs: seq<ImageInfo>, n: nat, name: string): (m: seq<nat>)
    requires n <= |rs|
    decreases n
  {
    if n == 0 then []
    else Matches(rs, n - 1, name) + (if Named(rs[n - 1], name) then [n - 1] else [])
  }

  /** The scan lists, in ascending order, exactly the positions of the
      regions named name. */
  lemma {:induction false} MatchesAre(rs: seq<ImageInfo>, n: nat, name: string)
    requires n <= |rs|
    ensures StrictlyAscending(Matches(rs, n, name))
    ensures forall j | 0 <= j < |Matches(rs, n, name)| ::
              Matches(rs, n, name)[j] < n && Named(rs[Matches(rs, n, name)[j]], name)
    ensures forall i | 0 <= i < n && Named(rs[i], name) :: i in Matches(rs, n, name)
    decreases n
  {
    if n > 0 {
      MatchesAre(rs, n - 1, name);
    }
  }

  /** When region u is the only one named name, the scan finds u alone
      once it has passed u, and nothing before. */
  lemma {:induction false} UniqueMatches(rs: seq<ImageInfo>, n: nat, name: string, u: nat)
    requires n <= |rs| && u < |rs| && Named(rs[u], name)
    requires forall j | 0 <= j < |rs| && Named(rs[j], name) :: j == u
    ensures Matches(rs, n, name) == if u < n then [u] else []
    decreases n
  {
    if n > 0 {
      UniqueMatches(rs, n - 1, name, u);
      assert Named(rs[n - 1], name) <==> n - 1 == u;
    }
  }

  /** Exactly one region's file name is name. */
  ghost predicate UniqueName(rs: seq<ImageInfo>, name: string)
  {
    exists i | 0 <= i < |rs| :: Named(rs[i], name)
      && forall j | 0 <= j < |rs| && Named(rs[j], name) :: j == i
  }

  /** The word `lookup_inst(addr)` loads lies within the bytes of the region
      owning addr's page. */
  ghost predicate InstReadable(rs: seq<ImageInfo>, addr: U64)
  {
    var o := Owner(rs, addr / PageSize);
    o.Some? && rs[o.value].base <= addr && addr - rs[o.value].base + 4 <= |rs[o.value].bytes|
  }

  /** The regions read from a trace's records, each given the bytes kept
      under its digest: `regions_bytes[digest]` is moved out, so the entry
      is left empty (and made empty when there was none). */
  function AttachBytes(hdrs: seq<ImageInfo>, m: map<seq<Byte>, seq<Byte>>): (r: seq<ImageInfo>)
    ensures |r| == |hdrs|
  {
    if hdrs == [] then []
    else
      var d := hdrs[0].digest;
      [hdrs[0].(bytes := if d in m then m[d] else [])] + AttachBytes(hdrs[1..], m[d := []])
  }

  /** Attaching the bytes of the regions still to read, one region at a time. */
  lemma AttachStep(done: seq<ImageInfo>, hs: seq<ImageInfo>, m: map<seq<Byte>, seq<Byte>>)
    requires hs != []
    ensures done + AttachBytes(hs, m)
            == (done + [hs[0].(bytes := if hs[0].digest in m then m[hs[0].digest] else [])])
               + AttachBytes(hs[1..], m[hs[0].digest := []])
  {
  }

  /** The loop of the record constructor: numRegions records, each read at
      the read pointer, which then moves past the record's path; each region
      takes its bytes out of m. */
  method ReadRecords(buf: seq<Byte>, numRegions: nat, regionsBytes: map<seq<Byte>, seq<Byte>>)
    returns (rs: seq<ImageInfo>)
    requires Repeat(DecodeRegion, buf, numRegions).Some?
    requires var imgs := AttachBytes(Repeat(DecodeRegion, buf, numRegions).value.0, regionsBytes);
             forall i | 0 <= i < |imgs| :: |imgs[i].bytes| == imgs[i].size
    ensures rs == AttachBytes(Repeat(DecodeRegion, buf, numRegions).value.0, regionsBytes)
  {
    ghost var left := Repeat(DecodeRegion, buf, numRegions).value.0;
    ghost var tail := Repeat(DecodeRegion, buf, numRegions).value.1;
    ghost var imgs := AttachBytes(left, regionsBytes);
    var rest := buf;
    var m := regionsBytes;
    rs := [];
    var i := 0;
    while i < numRegions
      invariant i <= numRegions && |left| == numRegions - i
      invariant WalksTo(rest, left, tail)
      invariant rs + AttachBytes(left, m) == imgs
    {
      RecordStep(left, tail, imgs, rest, rs, m);
      var d := DecodeRegion(rest).value;
      var hdr, after := d.0, d.1;
      var bytes := if hdr.digest in m then m[hdr.digest] else [];
      m := m[hdr.digest := []];
      assert |bytes| == hdr.size;
      rs := rs + [hdr.(bytes := bytes)];
      rest := after;
      left := left[1..];
      i := i + 1;
    }
  }

  /** The records from rest on read back as hs, and the walk ends at tail. */
  ghost predicate WalksTo(rest: seq<Byte>, hs: seq<ImageInfo>, tail: seq<Byte>)
  {
    Repeat(DecodeRegion, rest, |hs|) == Some((hs, tail))
  }

  /** One turn of the record loop: the record at the read pointer is the
      next region, the walk goes on with the rest, and the region is given
      its bytes. */
  lemma RecordStep(left: seq<ImageInfo>, tail: seq<Byte>, imgs: seq<ImageInfo>, rest: seq<Byte>,
                   rs: seq<ImageInfo>, m: map<seq<Byte>, seq<Byte>>)
    requires left != [] && WalksTo(rest, left, tail)
    requires rs + AttachBytes(left, m) == imgs
    ensures DecodeRegion(rest).Some?
    ensures var hdr, after := DecodeRegion(rest).value.0, DecodeRegion(rest).value.1;
            var bytes := if hdr.digest in m then m[hdr.digest] else [];
            WalksTo(after, left[1..], tail)
            && (rs + [hdr.(bytes := bytes)]) + AttachBytes(left[1..], m[hdr.digest := []]) == imgs
            && ((forall j | 0 <= j < |imgs| :: |imgs[j].bytes| == imgs[j].size) ==> |bytes| == hdr.size)
  {
    RepeatStep(DecodeRegion, rest, |left|, left, tail);
    AttachStep(rs, left, m);
    assert imgs[|rs|] == AttachBytes(left, m)[0];
  }

  /** The bases loop of `reset`. */
  method CollectBases(rs: seq<ImageInfo>) returns (bases: seq<U64>)
    ensures bases == Bases(rs)
  {
    bases := [];
    var i := 0;
    while i < |rs|
      invariant i <= |rs| && bases == Bases(rs[..i])
    {
      BasesSnoc(rs, i);
      bases := bases + [rs[i].base];
      i := i + 1;
    }
    assert rs[..|rs|] == rs;
  }

  /** An earlier region has the same digest as region j. */
  ghost predicate SeenBefore(hdrs: seq<ImageInfo>, j: nat)
    requires j < |hdrs|
  {
    exists i | 0 <= i < j :: hdrs[i].digest == hdrs[j].digest
  }

  /** Each region gets the bytes stored under its digest, except that a
      region whose digest an earlier one already had gets none. */
  lemma {:induction false} AttachBytesAt(hdrs: seq<ImageInfo>, m: map<seq<Byte>, seq<Byte>>, j: nat)
    requires j < |hdrs|
    ensures AttachBytes(hdrs, m)[j]
            == hdrs[j].(bytes := if SeenBefore(hdrs, j) || hdrs[j].digest !in m then []
                                 else m[hdrs[j].digest])
    decreases j
  {
    if j > 0 {
      var d := hdrs[0].digest;
      var tl := hdrs[1..];
      AttachBytesAt(tl, m[d := []], j - 1);
      assert tl[j - 1] == hdrs[j];
      if hdrs[j].digest == d {
        assert SeenBefore(hdrs, j);
      } else {
        if SeenBefore(hdrs, j) {
          var i :| 0 <= i < j && hdrs[i].digest == hdrs[j].digest;
          assert tl[i - 1] == hdrs[i];
        }
        if SeenBefore(tl, j - 1) {
          var i :| 0 <= i < j - 1 && tl[i].digest == tl[j - 1].digest;
          assert hdrs[i + 1] == tl[i];
        }
      }
    }
  }

  /** Sorting keeps every region, so it keeps them page-aligned. */
  lemma AlignedPermutation(a: seq<ImageInfo>, b: seq<ImageInfo>)
    requires multiset(a) == multiset(b) && AllAligned(a)
    ensures AllAligned(b)
  {
    forall i | 0 <= i < |b|
      ensures Aligned(b[i])
    {
      assert b[i] in multiset(a);
    }
  }

  /** Every key hashes into a table of n slots, and every page of every
      region is a key. */
  ghost predicate HashCovers(rs: seq<ImageInfo>, h: map<nat, nat>, n: nat)
  {
    (forall k | k in h :: h[k] < n)
    && forall i, k | 0 <= i < |rs| && OnPage(rs[i], k) :: k in h
  }

  lemma MphCovers(rs: seq<ImageInfo>, h: map<nat, nat>)
    requires IsMph(h, PageKeys(rs))
    ensures HashCovers(rs, h, |PageKeys(rs)|) && Injective(h)
  {
    forall i, k | 0 <= i < |rs| && OnPage(rs[i], k)
      ensures k in h
    {
      PageKeysCover(rs, k);
    }
  }

  /** The slot of page k once region r, at position i, has written its pages
      over prev. */
  function Over(r: ImageInfo, i: nat, k: nat, prev: PageRef): PageRef
  {
    if OnPage(r, k) then At(i, PageOff(r, k)) else prev
  }

  /** One more region in a pass writes its pages over what the pass left. */
  lemma FillStep(rs: seq<ImageInfo>, n: nat, k: nat, jitOnly: bool, prev: PageRef)
    requires n < |rs|
    ensures Fill(rs, n + 1, k, jitOnly, prev)
            == if rs[n].isJit || !jitOnly then Over(rs[n], n, k, Fill(rs, n, k, jitOnly, prev))
               else Fill(rs, n, k, jitOnly, prev)
  {
  }

  /** One region's pages written into the table: the inner loop of either
      pass of `create_hash`, each slot set to `region.bytes.data() + off`. */
  method WriteRegion(table: seq<PageRef>, h: map<nat, nat>, r: ImageInfo, i: nat)
    returns (t: seq<PageRef>)
    requires Aligned(r) && Injective(h)
    requires forall k | OnPage(r, k) :: k in h
    requires forall k | k in h :: h[k] < |table|
    ensures |t| == |table|
    ensures forall k | k in h :: t[h[k]] == Over(r, i, k, table[h[k]])
  {
    t := table;
    var off := 0;
    ghost var j := 0;
    while off < r.size
      invariant off == j * PageSize && j <= PageCount(r)
      invariant |t| == |table|
      invariant forall k | k in h ::
                  t[h[k]] == if FirstPage(r) <= k < FirstPage(r) + j then At(i, PageOff(r, k))
                             else table[h[k]]
      decreases r.size - off
    {
      PageOfOffset(r, j);
      var page := (r.base + off) / PageSize;
      assert OnPage(r, page);
      t := t[h[page] := At(i, off)];
      off := off + PageSize;
      j := j + 1;
    }
  }

  class MachORegions {
    /** `m_regions`, sorted by base. */
    var regions: seq<ImageInfo>
    /** `m_page_addr_hasher`: page number to table slot. */
    var hasher: map<nat, nat>
    /** `m_regions_bufs`: one slot per distinct page. */
    var bufs: seq<PageRef>

    /** The page table is built for the current regions: the hash is a
        minimal perfect hash of their pages and each page's slot is the
        one the two passes leave. */
    ghost predicate Indexed()
      reads this
    {
      AllAligned(regions) && IsMph(hasher, PageKeys(regions)) && |bufs| == |PageKeys(regions)|
      && forall k | k in hasher :: bufs[hasher[k]] == Slot(regions, k)
    }

    /** The record constructor: numRegions records read one after the other
        from buf, each given its bytes from regionsBytes, then sorted and
        indexed with the hash built over their pages. */
    constructor FromRecords(buf: seq<Byte>, numRegions: nat,
                            regionsBytes: map<seq<Byte>, seq<Byte>>, h: map<nat, nat>)
      requires Repeat(DecodeRegion, buf, numRegions).Some?
      requires var imgs := AttachBytes(Repeat(DecodeRegion, buf, numRegions).value.0, regionsBytes);
               (forall i | 0 <= i < |imgs| :: |imgs[i].bytes| == imgs[i].size)
               && AllAligned(imgs) && IsMph(h, PageKeys(SortByBase(imgs)))
      ensures regions
              == SortByBase(AttachBytes(Repeat(DecodeRegion, buf, numRegions).value.0, regionsBytes))
      ensures hasher == h && Indexed()
    {
      var rs := ReadRecords(buf, numRegions, regionsBytes);
      regions := SortByBase(rs);
      hasher := map[];
      bufs := [];
      new;
      AlignedPermutation(rs, regions);
      CreateHash(h);
    }

    /** The constructor over a live task: an empty catalog filled by `reset`. */
    constructor FromTask(images: seq<ImageInfo>, uuidOf: U64 -> seq<Byte>, vms: seq<VmRegion>,
                         read: (U64, U64) -> seq<Byte>, sha: seq<Byte> -> seq<Byte>,
                         h: map<nat, nat>)
      requires AllAligned(ScanResult(images, uuidOf, vms, read, sha))
      requires IsMph(h, PageKeys(SortByBase(ScanResult(images, uuidOf, vms, read, sha))))
      ensures regions == SortByBase(ScanResult(images, uuidOf, vms, read, sha))
      ensures hasher == h && Indexed()
    {
      regions := [];
      hasher := map[];
      bufs := [];
      new;
      Reset(images, uuidOf, vms, read, sha, h);
    }

    /** `reset`, given what the task's images and VM ranges are, and the
        hash built over the pages of the regions it collects. */
    method Reset(images: seq<ImageInfo>, uuidOf: U64 -> seq<Byte>, vms: seq<VmRegion>,
                 read: (U64, U64) -> seq<Byte>, sha: seq<Byte> -> seq<Byte>, h: map<nat, nat>)
      modifies this
      requires AllAligned(ScanResult(images, uuidOf, vms, read, sha))
      requires IsMph(h, PageKeys(SortByBase(ScanResult(images, uuidOf, vms, read, sha))))
      ensures regions == SortByBase(ScanResult(images, uuidOf, vms, read, sha))
      ensures hasher == h && Indexed()
    {
      regions := images;
      CaptureImages(uuidOf, read, sha);
      AddJitRegions(vms, read, sha);
      var all := regions;
      regions := SortByBase(all);
      AlignedPermutation(all, regions);
      CreateHash(h);
    }

    /** The UUID loop and the rounding loop of `reset`. */
    method CaptureImages(uuidOf: U64 -> seq<Byte>, read: (U64, U64) -> seq<Byte>,
                         sha: seq<Byte> -> seq<Byte>)
      modifies this
      ensures regions == Scanned(old(regions), uuidOf, read, sha)
    {
      ghost var images := regions;
      var i := 0;
      while i < |regions|
        invariant |regions| == |images| && i <= |regions|
        invariant forall j | 0 <= j < |images| ::
                    regions[j] == if j < i then images[j].(uuid := uuidOf(images[j].base)) else images[j]
      {
        regions := regions[i := regions[i].(uuid := uuidOf(regions[i].base))];
        i := i + 1;
      }
      i := 0;
      while i < |regions|
        invariant |regions| == |images| && i <= |regions|
        invariant forall j | 0 <= j < |images| ::
                    regions[j] == if j < i then Scanned(images, uuidOf, read, sha)[j]
                                  else images[j].(uuid := uuidOf(images[j].base))
      {
        var r := regions[i];
        var size := RoundUp(r.size);
        var bytes := read(r.base, size);
        regions := regions[i := r.(size := size, bytes := bytes, digest := sha(bytes))];
        i := i + 1;
      }
    }

    /** The bases loop and the VM-range loop of `reset`: a JIT region for
        each chosen range, appended in order and numbered from 0. */
    method AddJitRegions(vms: seq<VmRegion>, read: (U64, U64) -> seq<Byte>,
                         sha: seq<Byte> -> seq<Byte>)
      modifies this
      ensures regions == old(regions) + JitImages(Selected(Bases(old(regions)), vms), read, sha)
    {
      ghost var imgs := regions;
      var bases := CollectBases(regions);
      var numJit := 0;
      var i := 0;
      while i < |vms|
        invariant i <= |vms| && numJit == |Selected(bases, vms[..i])|
        invariant regions == imgs + JitImages(Selected(bases, vms[..i]), read, sha)
      {
        var v := vms[i];
        SelectedSnoc(bases, vms, i);
        if Executable(v) && v.base !in bases && v.tag == 0xFF {
          var bytes := read(v.base, v.size);
          var img := ImageInfo(v.base, v.size, 0, JitLabel(numJit, v.tag), seq(UuidSize, _ => 0),
                               bytes, sha(bytes), true);
          JitImagesSnoc(Selected(bases, vms[..i]), v, read, sha);
          regions := regions + [img];
          numJit := numJit + 1;
        }
        i := i + 1;
      }
      assert vms[..|vms|] == vms;
    }

    /** `lookup_idx`: the first region holding addr, and its position. */
    method LookupIdx(addr: U64) returns (img: ImageInfo, idx: nat)
      requires exists i | 0 <= i < |regions| :: Covers(regions[i], addr)
      ensures idx < |regions| && img == regions[idx] && Covers(img, addr)
      ensures forall j | 0 <= j < idx :: !Covers(regions[j], addr)
    {
      idx := 0;
      while !Covers(regions[idx], addr)
        invariant idx < |regions|
        invariant forall j | 0 <= j < idx :: !Covers(regions[j], addr)
        invariant exists i | idx <= i < |regions| :: Covers(regions[i], addr)
        decreases |regions| - idx
      {
        idx := idx + 1;
      }
      img := regions[idx];
    }

    /** `lookup(addr)`: the first region holding addr. */
    method Lookup(addr: U64) returns (img: ImageInfo)
      requires exists i | 0 <= i < |regions| :: Covers(regions[i], addr)
      ensures exists i | 0 <= i < |regions| :: img == regions[i] && Covers(img, addr)
                && forall j | 0 <= j < i :: !Covers(regions[j], addr)
    {
      var idx;
      img, idx := LookupIdx(addr);
    }

    /** `lookup(image_name)`: the one region whose path's file name is name. */
    method LookupName(name: string) returns (img: ImageInfo)
      requires UniqueName(regions, name)
      ensures Filename(img.path) == name
      ensures exists i | 0 <= i < |regions| :: img == regions[i]
                && forall j | 0 <= j < |regions| && Named(regions[j], name) :: j == i
    {
      var matches: seq<nat> := [];
      var i := 0;
      while i < |regions|
        invariant i <= |regions| && matches == Matches(regions, i, name)
      {
        if Named(regions[i], name) {
          matches := matches + [i];
        }
        i := i + 1;
      }
      var u :| 0 <= u < |regions| && Named(regions[u], name)
               && forall j | 0 <= j < |regions| && Named(regions[j], name) :: j == u;
      UniqueMatches(regions, |regions|, name, u);
      img := regions[matches[0]];
    }

    /** `lookup_inst`: the 32-bit word at addr, read through the page table. */
    method LookupInst(addr: U64) returns (w: U32)
      requires Indexed() && InstReadable(regions, addr)
      ensures var i := Owner(regions, addr / PageSize).value;
              w == LoadLE(regions[i].bytes, addr - regions[i].base, 4)
    {
      var page := addr / PageSize;
      PageKeysCover(regions, page);
      var idx := hasher[page];
      var pageAddr := addr - addr % PageSize;
      var pageOff := addr - pageAddr;
      SlotIsOwner(regions, page);
      var i := Owner(regions, page).value;
      assert bufs[idx] == At(i, PageOff(regions[i], page));
      assert PageOff(regions[i], page) + pageOff == addr - regions[i].base;
      w := ReadU32(regions[bufs[idx].region].bytes, bufs[idx].off + pageOff);
    }

    /** `create_hash`, given the hash `build_in_internal_memory` makes of the
        sorted, deduplicated page numbers. */
    method CreateHash(h: map<nat, nat>)
      modifies this
      requires AllAligned(regions) && IsMph(h, PageKeys(regions))
      ensures regions == old(regions) && hasher == h
      ensures Indexed()
    {
      var rs := regions;
      var pageAddrs := CollectPages(rs);
      var keys := SortUnique(pageAddrs);
      MphCovers(rs, h);
      var table := seq(|keys|, _ => Null);
      var base := Pass(rs, h, table, false);
      table := Pass(rs, h, base, true);
      hasher := h;
      bufs := table;
    }
  }

  /** The first loop of `create_hash`: every page of every region, in turn. */
  method CollectPages(rs: seq<ImageInfo>) returns (pageAddrs: seq<nat>)
    requires AllAligned(rs)
    ensures pageAddrs == AllPages(rs)
  {
    pageAddrs := [];
    var i := 0;
    while i < |rs|
      invariant i <= |rs| && pageAddrs == AllPages(rs[..i])
    {
      var r := rs[i];
      var off := 0;
      ghost var j := 0;
      while off < r.size
        invariant off == j * PageSize && j <= PageCount(r)
        invariant pageAddrs == AllPages(rs[..i]) + RegionPages(r)[..j]
        decreases r.size - off
      {
        PageOfOffset(r, j);
        pageAddrs := pageAddrs + [(r.base + off) / PageSize];
        off := off + PageSize;
        j := j + 1;
      }
      assert rs[..i + 1][..i] == rs[..i];
      i := i + 1;
    }
    assert rs[..|rs|] == rs;
  }

  /** One pass of `create_hash` over a table whose slots were prev: every
      region's pages in order, or, when jitOnly, the JIT regions' pages only. */
  method Pass(rs: seq<ImageInfo>, h: map<nat, nat>, prev: seq<PageRef>, jitOnly: bool)
    returns (table: seq<PageRef>)
    requires AllAligned(rs) && Injective(h) && HashCovers(rs, h, |prev|)
    ensures |table| == |prev|
    ensures forall k | k in h :: table[h[k]] == Fill(rs, |rs|, k, jitOnly, prev[h[k]])
  {
    table := prev;
    var i := 0;
    while i < |rs|
      invariant i <= |rs| && |table| == |prev|
      invariant forall k | k in h :: table[h[k]] == Fill(rs, i, k, jitOnly, prev[h[k]])
    {
      var t := Visit(rs, h, table, i, jitOnly);
      PassStep(rs, h, prev, table, t, i, jitOnly);
      table := t;
      i := i + 1;
    }
  }

  /** Region i's turn in a pass: its pages written over the table when the
      pass takes it, the table left as it was when not. */
  method Visit(rs: seq<ImageInfo>, h: map<nat, nat>, table: seq<PageRef>, i: nat, jitOnly: bool)
    returns (t: seq<PageRef>)
    requires i < |rs| && AllAligned(rs) && Injective(h) && HashCovers(rs, h, |table|)
    ensures |t| == |table|
    ensures forall k | k in h ::
              t[h[k]] == if rs[i].isJit || !jitOnly then Over(rs[i], i, k, table[h[k]]) else table[h[k]]
  {
    t := table;
    if rs[i].isJit || !jitOnly {
      t := WriteRegion(table, h, rs[i], i);
    }
  }

  /** A pass that has written the first i regions and then writes region i
      (when the pass takes it) has written the first i + 1. */
  lemma PassStep(rs: seq<ImageInfo>, h: map<nat, nat>, prev: seq<PageRef>, table: seq<PageRef>,
                 t: seq<PageRef>, i: nat, jitOnly: bool)
    requires i < |rs| && |table| == |prev| == |t| && forall k | k in h :: h[k] < |prev|
    requires forall k | k in h :: table[h[k]] == Fill(rs, i, k, jitOnly, prev[h[k]])
    requires forall k | k in h ::
               t[h[k]] == if rs[i].isJit || !jitOnly then Over(rs[i], i, k, table[h[k]]) else table[h[k]]
    ensures forall k | k in h :: t[h[k]] == Fill(rs, i + 1, k, jitOnly, prev[h[k]])
  {
    forall k | k in h
      ensures t[h[k]] == Fill(rs, i + 1, k, jitOnly, prev[h[k]])
    {
      FillStep(rs, i, k, jitOnly, prev[h[k]]);
    }
  }
}
