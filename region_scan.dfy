/** What `MachORegions::reset` makes of a live process: the loaded images
    with their sizes rounded up to whole pages, their bytes and digests, and
    one JIT region for each executable VM range tagged 0xFF that no image
    starts at, labelled `/tmp/jit-region-<n>-tag-ff` with n counting from 0.
    Reading the target's memory and hashing are parameters: `read(base,
    size)` stands for `read_target` and `sha` for `get_sha256`. */
module RegionScan {
  import opened Bytes
  import opened Records
  import opened RegionRecords
  import opened RegionNames
  import opened PageIndex

  /** One entry of `get_vm_regions`: a mapped range, its protection bits
      and its user tag. */
  datatype VmRegion = VmRegion(base: U64, size: U64, prot: nat, tag: nat)

  const VmProtRead: nat := 1
  const VmProtExecute: nat := 4

  /** `prot & VM_PROT_EXECUTE` is not zero. */
  predicate Executable(v: VmRegion)
  {
    (v.prot / VmProtExecute) % 2 == 1
  }

  /** `roundup_pow2_mul(x, PAGE_SZ)`: `(x + PAGE_SZ - 1) & ~(PAGE_SZ - 1)`
      in `uint64_t`. */
  function RoundUp(x: U64): U64
  {
    var y := Add64(x, PageSize - 1);
    y - y % PageSize
  }

  /** Rounding gives the least multiple of the page size not below x,
      unless x is within a page of 2^64, where the sum wraps. */
  lemma RoundUpPages(x: U64)
    ensures RoundUp(x) % PageSize == 0
    ensures x + PageSize - 1 < Mod64 ==> x <= RoundUp(x) < x + PageSize
  {
  }

  /** An image as the rounding loop leaves it: size rounded up, the bytes
      read over the rounded size and their digest. */
  function Captured(img: ImageInfo, read: (U64, U64) -> seq<Byte>,
                    sha: seq<Byte> -> seq<Byte>): ImageInfo
  {
    var size := RoundUp(img.size);
    img.(size := size, bytes := read(img.base, size), digest := sha(read(img.base, size)))
  }

  function Bases(rs: seq<ImageInfo>): (bs: seq<U64>)
    ensures |bs| == |rs| && forall i | 0 <= i < |rs| :: bs[i] == rs[i].base
  {
    if rs == [] then [] else [rs[0].base] + Bases(rs[1..])
  }

  /** A VM range becomes a JIT region: it is executable, no image starts at
      its base, and its tag is 0xFF. */
  predicate Chosen(bases: seq<U64>, v: VmRegion)
  {
    Executable(v) && v.base !in bases && v.tag == 0xFF
  }

  /** The VM ranges that become JIT regions, in the order they come. */
  function Selected(bases: seq<U64>, vms: seq<VmRegion>): (r: seq<VmRegion>)
    ensures forall k | 0 <= k < |r| :: Chosen(bases, r[k])
  {
    if vms == [] then []
    else
      var init := Selected(bases, vms[..|vms| - 1]);
      if Chosen(bases, vms[|vms| - 1]) then init + [vms[|vms| - 1]] else init
  }

  /** Exactly the chosen ranges are selected. */
  lemma {:induction false} SelectedIff(bases: seq<U64>, vms: seq<VmRegion>, v: VmRegion)
    ensures v in Selected(bases, vms) <==> v in vms && Chosen(bases, v)
  {
    if vms != [] {
      var init := vms[..|vms| - 1];
      SelectedIff(bases, init, v);
      assert vms == init + [vms[|vms| - 1]];
    }
  }

  /** One more VM range: selected after the others exactly when chosen. */
  lemma SelectedSnoc(bases: seq<U64>, vms: seq<VmRegion>, i: nat)
    requires i < |vms|
    ensures Selected(bases, vms[..i + 1])
            == if Chosen(bases, vms[i]) then Selected(bases, vms[..i]) + [vms[i]]
               else Selected(bases, vms[..i])
  {
    assert vms[..i + 1][..i] == vms[..i];
  }

  const JitPrefix: string := "/tmp/jit-region-"

  /** The path `reset` gives the n-th JIT region it adds. */
  function JitLabel(n: nat, tag: Byte): string
  {
    JitPrefix + DecStr(n) + "-tag-" + Hex([tag])
  }

  /** Labels of different JIT regions differ. */
  lemma JitLabelInjective(a: nat, b: nat, tag: Byte)
    requires JitLabel(a, tag) == JitLabel(b, tag)
    ensures a == b
  {
    var sfx := "-tag-" + Hex([tag]);
    var la := JitLabel(a, tag);
    assert la == JitPrefix + DecStr(a) + sfx;
    assert JitLabel(b, tag) == JitPrefix + DecStr(b) + sfx;
    assert DecStr(a) == la[|JitPrefix|..|la| - |sfx|];
    assert DecStr(b) == la[|JitPrefix|..|la| - |sfx|];
    DecValueOfDecStr(a);
    DecValueOfDecStr(b);
  }

  /** The region `reset` adds for the n-th chosen VM range: no slide and an
      all-zero UUID, the range's bytes and their digest. */
  function JitImage(v: VmRegion, n: nat, read: (U64, U64) -> seq<Byte>,
                    sha: seq<Byte> -> seq<Byte>): ImageInfo
    requires v.tag < 256
  {
    ImageInfo(v.base, v.size, 0, JitLabel(n, v.tag), seq(UuidSize, _ => 0),
              read(v.base, v.size), sha(read(v.base, v.size)), true)
  }

  /** The JIT regions for the selected ranges, numbered in order from 0. */
  function JitImages(sel: seq<VmRegion>, read: (U64, U64) -> seq<Byte>,
                     sha: seq<Byte> -> seq<Byte>): (r: seq<ImageInfo>)
    requires forall k | 0 <= k < |sel| :: sel[k].tag == 0xFF
    ensures |r| == |sel|
  {
    seq(|sel|, k requires 0 <= k < |sel| => JitImage(sel[k], k, read, sha))
  }

  /** One more selected range adds one JIT region, numbered after the others. */
  lemma JitImagesSnoc(sel: seq<VmRegion>, v: VmRegion, read: (U64, U64) -> seq<Byte>,
                      sha: seq<Byte> -> seq<Byte>)
    requires forall k | 0 <= k < |sel| :: sel[k].tag == 0xFF
    requires v.tag == 0xFF
    ensures JitImages(sel + [v], read, sha) == JitImages(sel, read, sha) + [JitImage(v, |sel|, read, sha)]
  {
    var a := JitImages(sel + [v], read, sha);
    var b := JitImages(sel, read, sha) + [JitImage(v, |sel|, read, sha)];
    forall k | 0 <= k < |a|
      ensures a[k] == b[k]
    {
      if k < |sel| {
        assert (sel + [v])[k] == sel[k];
      }
    }
  }

  lemma BasesSnoc(rs: seq<ImageInfo>, i: nat)
    requires i < |rs|
    ensures Bases(rs[..i + 1]) == Bases(rs[..i]) + [rs[i].base]
  {
  }

  /** The images after the UUID loop and the rounding loop. */
  function Scanned(images: seq<ImageInfo>, uuidOf: U64 -> seq<Byte>,
                   read: (U64, U64) -> seq<Byte>, sha: seq<Byte> -> seq<Byte>): (r: seq<ImageInfo>)
    ensures |r| == |images|
  {
    seq(|images|, i requires 0 <= i < |images| =>
      Captured(images[i].(uuid := uuidOf(images[i].base)), read, sha))
  }

  /** All regions `reset` collects, before they are sorted: the captured
      images, then the JIT regions. */
  function ScanResult(images: seq<ImageInfo>, uuidOf: U64 -> seq<Byte>, vms: seq<VmRegion>,
                      read: (U64, U64) -> seq<Byte>, sha: seq<Byte> -> seq<Byte>): seq<ImageInfo>
  {
    var imgs := Scanned(images, uuidOf, read, sha);
    imgs + JitImages(Selected(Bases(imgs), vms), read, sha)
  }
}
