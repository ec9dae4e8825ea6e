/** The page index of a region catalog: which pages the regions cover, the
    key set the minimal perfect hash is built over, and which region's bytes
    the index hands out for each page. Pages are numbered by address >>
    PAGE_SZ_LOG2; every base and size is a whole number of pages. */
module PageIndex {
  import opened Records
  import opened OrderedMaps
  import opened RegionRecords

  /** `PAGE_SZ_LOG2` and `PAGE_SZ`: 16 KiB pages. */
  const PageSizeLog2: nat := 14
  const PageSize: nat := 0x4000

  predicate Aligned(r: ImageInfo)
  {
    r.base % PageSize == 0 && r.size % PageSize == 0
  }

  predicate AllAligned(rs: seq<ImageInfo>)
  {
    forall i | 0 <= i < |rs| :: Aligned(rs[i])
  }

  function FirstPage(r: ImageInfo): nat
  {
    r.base / PageSize
  }

  function PageCount(r: ImageInfo): nat
  {
    r.size / PageSize
  }

  /** Page k is one of r's pages. */
  predicate OnPage(r: ImageInfo, k: nat)
  {
    FirstPage(r) <= k < FirstPage(r) + PageCount(r)
  }

  /** For an aligned region, page k is one of its pages exactly when the
      page's first address lies in [base, base + size). */
  lemma OnPageAddress(r: ImageInfo, k: nat)
    requires Aligned(r)
    ensures OnPage(r, k) <==> r.base <= k * PageSize < r.base + r.size
  {
  }

  /** The page number pushed for offset off of region r. */
  lemma PageOfOffset(r: ImageInfo, j: nat)
    requires Aligned(r)
    ensures (r.base + j * PageSize) / PageSize == FirstPage(r) + j
  {
  }

  /** The page numbers of r's pages, lowest first, one per page-sized step. */
  function RegionPages(r: ImageInfo): (ps: seq<nat>)
    ensures |ps| == PageCount(r)
    ensures forall j | 0 <= j < |ps| :: ps[j] == FirstPage(r) + j
  {
    seq(PageCount(r), j => FirstPage(r) + j)
  }

  /** The page numbers of every region in turn, repeats included. */
  function AllPages(rs: seq<ImageInfo>): seq<nat>
  {
    if rs == [] then [] else AllPages(rs[..|rs| - 1]) + RegionPages(rs[|rs| - 1])
  }

  /** Some region covers page k. */
  ghost predicate Covered(rs: seq<ImageInfo>, k: nat)
  {
    exists i | 0 <= i < |rs| :: OnPage(rs[i], k)
  }

  lemma CoveredSnoc(rs: seq<ImageInfo>, k: nat)
    requires rs != []
    ensures Covered(rs, k) <==> Covered(rs[..|rs| - 1], k) || OnPage(rs[|rs| - 1], k)
  {
    var init := rs[..|rs| - 1];
    if Covered(init, k) {
      var i :| 0 <= i < |init| && OnPage(init[i], k);
      assert rs[i] == init[i];
    }
    if Covered(rs, k) {
      var i :| 0 <= i < |rs| && OnPage(rs[i], k);
      if i < |init| {
        assert init[i] == rs[i];
      }
    }
  }

  lemma InRegionPages(r: ImageInfo, k: nat)
    ensures k in RegionPages(r) <==> OnPage(r, k)
  {
    if OnPage(r, k) {
      assert RegionPages(r)[k - FirstPage(r)] == k;
    }
  }

  lemma {:induction false} AllPagesCover(rs: seq<ImageInfo>, k: nat)
    ensures k in AllPages(rs) <==> Covered(rs, k)
  {
    if rs != [] {
      AllPagesCover(rs[..|rs| - 1], k);
      InRegionPages(rs[|rs| - 1], k);
      CoveredSnoc(rs, k);
    }
  }

  predicate StrictlyAscending(s: seq<nat>)
  {
    forall i, j | 0 <= i < j < |s| :: s[i] < s[j]
  }

  /** x put in its place in an ascending sequence without repeats. */
  function InsertUnique(s: seq<nat>, x: nat): (r: seq<nat>)
    requires StrictlyAscending(s)
    ensures StrictlyAscending(r)
    ensures forall y :: y in r <==> y in s || y == x
  {
    if s == [] then [x]
    else if x < s[0] then [x] + s
    else if x == s[0] then s
    else
      var t := InsertUnique(s[1..], x);
      assert forall j | 0 <= j < |t| :: t[j] in s[1..] || t[j] == x;
      [s[0]] + t
  }

  /** `std::sort` followed by `std::unique` and `erase`: the distinct values
      of xs, ascending. */
  function SortUnique(xs: seq<nat>): (r: seq<nat>)
    ensures StrictlyAscending(r)
    ensures forall y :: y in r <==> y in xs
  {
    if xs == [] then [] else InsertUnique(SortUnique(xs[1..]), xs[0])
  }

  /** The keys the page hash is built over. */
  function PageKeys(rs: seq<ImageInfo>): seq<nat>
  {
    SortUnique(AllPages(rs))
  }

  /** The key set is ascending, without repeats, and holds exactly the pages
      some region covers. */
  lemma PageKeysCover(rs: seq<ImageInfo>, k: nat)
    ensures StrictlyAscending(PageKeys(rs))
    ensures k in PageKeys(rs) <==> Covered(rs, k)
  {
    AllPagesCover(rs, k);
  }

  /** A minimal perfect hash over keys: defined exactly on the keys, onto
      [0, |keys|), and without collisions. */
  ghost predicate IsMph(h: map<nat, nat>, keys: seq<nat>)
  {
    (forall k :: k in h <==> k in keys)
    && (forall k | k in h :: h[k] < |keys|)
    && Injective(h)
  }

  /** No two keys hash to the same slot. */
  ghost predicate Injective(h: map<nat, nat>)
  {
    forall a, b | a in h && b in h && h[a] == h[b] :: a == b
  }

  /** Region i claims page k in a pass over all regions (jitOnly false) or
      over the JIT regions only. */
  predicate Claims(r: ImageInfo, k: nat, jitOnly: bool)
  {
    OnPage(r, k) && (r.isJit || !jitOnly)
  }

  /** The last of the first n regions that claims page k. */
  function LastClaim(rs: seq<ImageInfo>, n: nat, k: nat, jitOnly: bool): (o: Option<nat>)
    requires n <= |rs|
    ensures o.Some? ==> o.value < n && Claims(rs[o.value], k, jitOnly)
                        && forall j | o.value < j < n :: !Claims(rs[j], k, jitOnly)
    ensures o.None? ==> forall j | 0 <= j < n :: !Claims(rs[j], k, jitOnly)
    decreases n
  {
    if n == 0 then None
    else if Claims(rs[n - 1], k, jitOnly) then Some(n - 1)
    else LastClaim(rs, n - 1, k, jitOnly)
  }

  /** A slot of the page table: `nullptr`, or `region.bytes.data() + off`. */
  datatype PageRef = Null | At(region: nat, off: nat)

  /** Where page k starts in the bytes of region r. */
  function PageOff(r: ImageInfo, k: nat): nat
    requires OnPage(r, k)
  {
    (k - FirstPage(r)) * PageSize
  }

  /** The slot of page k once the first n regions have been written over
      prev by one pass. */
  function Fill(rs: seq<ImageInfo>, n: nat, k: nat, jitOnly: bool, prev: PageRef): PageRef
    requires n <= |rs|
  {
    match LastClaim(rs, n, k, jitOnly)
    case None => prev
    case Some(i) => At(i, PageOff(rs[i], k))
  }

  /** The slot of page k after both passes: all regions, then the JIT ones. */
  function Slot(rs: seq<ImageInfo>, k: nat): PageRef
  {
    Fill(rs, |rs|, k, true, Fill(rs, |rs|, k, false, Null))
  }

  /** The region whose bytes page k is read from: the last JIT region
      covering it, or else the last region covering it. */
  function Owner(rs: seq<ImageInfo>, k: nat): (o: Option<nat>)
    ensures o.Some? ==> o.value < |rs| && OnPage(rs[o.value], k)
    ensures o.None? <==> forall i | 0 <= i < |rs| :: !OnPage(rs[i], k)
  {
    var jit := LastClaim(rs, |rs|, k, true);
    if jit.Some? then jit else LastClaim(rs, |rs|, k, false)
  }

  /** The two passes leave each page's slot pointing into the owner of the
      page, at the page's offset in it, and only uncovered pages empty. */
  lemma SlotIsOwner(rs: seq<ImageInfo>, k: nat)
    ensures Slot(rs, k) == match Owner(rs, k)
                           case None => Null
                           case Some(i) => At(i, PageOff(rs[i], k))
  {
  }

  /** A page some JIT region covers is read from the last such region; any
      other covered page from the last region covering it. */
  lemma OwnerPrefersJit(rs: seq<ImageInfo>, k: nat, i: nat)
    requires i < |rs| && OnPage(rs[i], k)
    ensures Owner(rs, k).Some?
    ensures rs[i].isJit ==> Owner(rs, k).value >= i && rs[Owner(rs, k).value].isJit
    ensures !rs[i].isJit && Owner(rs, k).value < i ==> rs[Owner(rs, k).value].isJit
  {
  }
}
