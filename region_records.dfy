/** `image_info`, one memory region of the traced process, and its on-disk
    form `log_region`: a fixed-size header followed by the path's bytes.
    The header holds, in this order, the little-endian 64-bit fields base,
    size, slide, path_len and is_jit, then the 16-byte UUID and the 32-byte
    SHA-256 digest of the region's bytes (88 bytes in all). Records are laid
    one after the other, so a walk over them reads each header to find the
    next one. */
module RegionRecords {
  import opened Bytes
  import opened Records
  import opened OrderedMaps
  import opened Framing

  datatype ImageInfo = ImageInfo(base: U64, size: U64, slide: U64, path: string,
                                 uuid: seq<Byte>, bytes: seq<Byte>, digest: seq<Byte>,
                                 isJit: bool)

  const UuidSize: nat := 16
  const DigestSize: nat := 32

  /** `sizeof(log_region)`. */
  const RegionHdrSize: nat := 88

  /** A string whose characters are single bytes, as `std::string` holds them. */
  predicate ByteString(s: string)
  {
    forall i | 0 <= i < |s| :: s[i] as int < 256
  }

  function StrBytes(s: string): (r: seq<Byte>)
    requires ByteString(s)
    ensures |r| == |s|
  {
    if s == [] then [] else [s[0] as int] + StrBytes(s[1..])
  }

  /** The n bytes from offset off, read as the characters of a path. */
  function ReadPath(buf: seq<Byte>, off: nat, n: nat): (r: string)
    requires off + n <= |buf|
    ensures |r| == n
    decreases n
  {
    if n == 0 then [] else [buf[off] as char] + ReadPath(buf, off + 1, n - 1)
  }

  /** A path written between p and q reads back unchanged. */
  lemma {:induction false} ReadPathOfStrBytes(p: seq<Byte>, path: string, q: seq<Byte>)
    requires ByteString(path)
    ensures ReadPath(p + StrBytes(path) + q, |p|, |path|) == path
    decreases |path|
  {
    if path != [] {
      var b := StrBytes(path);
      assert p + b + q == (p + [b[0]]) + StrBytes(path[1..]) + q;
      ReadPathOfStrBytes(p + [b[0]], path[1..], q);
      assert [path[0]] + path[1..] == path;
    }
  }

  /** An image that fits the record: fixed-size UUID and digest, a byte path. */
  predicate WellFormed(img: ImageInfo)
  {
    |img.uuid| == UuidSize && |img.digest| == DigestSize && ByteString(img.path)
    && |img.path| < Mod64
  }

  /** What a record carries of an image: everything but its bytes. */
  function Header(img: ImageInfo): ImageInfo
  {
    img.(bytes := [])
  }

  /** The five 64-bit fields that open an image's record. */
  function HdrWords(img: ImageInfo): (r: seq<U64>)
    requires WellFormed(img)
    ensures |r| == 5
  {
    [img.base, img.size, img.slide, |img.path|, if img.isJit then 1 else 0]
  }

  /** The record written for one image. */
  function EncodeRegion(img: ImageInfo): (r: seq<Byte>)
    requires WellFormed(img)
    ensures |r| == RegionHdrSize + |img.path|
  {
    EncodeWords(HdrWords(img)) + img.uuid + img.digest + StrBytes(img.path)
  }

  /** The record at the front of buf and the bytes after it, which start
      `sizeof(log_region) + path_len` bytes in; None when the header or the
      path would run past the end of the buffer. */
  function DecodeRegion(buf: seq<Byte>): (r: Option<(ImageInfo, seq<Byte>)>)
    ensures r.Some? ==> RegionHdrSize + |r.value.0.path| <= |buf|
                        && r.value.1 == buf[RegionHdrSize + |r.value.0.path|..]
  {
    if RegionHdrSize > |buf| then None
    else
      var w := ReadWords(buf, 0, 5);
      if RegionHdrSize + w[3] > |buf| then None
      else
        Some((ImageInfo(w[0], w[1], w[2], ReadPath(buf, RegionHdrSize, w[3]),
                        buf[40..40 + UuidSize], [], buf[56..56 + DigestSize],
                        w[4] != 0),
              buf[RegionHdrSize + w[3]..]))
  }

  /** The header words of an image's record read back, whatever follows it. */
  lemma HdrWordsBack(img: ImageInfo, q: seq<Byte>)
    requires WellFormed(img)
    ensures ReadWords(EncodeRegion(img) + q, 0, 5) == HdrWords(img)
  {
    var rest := img.uuid + img.digest + StrBytes(img.path) + q;
    assert EncodeRegion(img) + q == [] + EncodeWords(HdrWords(img)) + rest;
    ReadWordsOfEncode([], HdrWords(img), rest);
  }

  /** The UUID of an image's record reads back, whatever follows it. */
  lemma UuidBack(img: ImageInfo, q: seq<Byte>)
    requires WellFormed(img)
    ensures (EncodeRegion(img) + q)[40..40 + UuidSize] == img.uuid
  {
    var h := EncodeWords(HdrWords(img));
    var rest := img.digest + StrBytes(img.path) + q;
    assert EncodeRegion(img) + q == h + img.uuid + rest;
  }

  /** The digest of an image's record reads back, whatever follows it. */
  lemma DigestBack(img: ImageInfo, q: seq<Byte>)
    requires WellFormed(img)
    ensures (EncodeRegion(img) + q)[56..56 + DigestSize] == img.digest
  {
    var h := EncodeWords(HdrWords(img)) + img.uuid;
    var rest := StrBytes(img.path) + q;
    assert EncodeRegion(img) + q == h + img.digest + rest;
  }

  /** The path of an image's record reads back, and what follows the record
      is left as it was. */
  lemma PathBack(img: ImageInfo, q: seq<Byte>)
    requires WellFormed(img)
    ensures ReadPath(EncodeRegion(img) + q, RegionHdrSize, |img.path|) == img.path
    ensures (EncodeRegion(img) + q)[RegionHdrSize + |img.path|..] == q
  {
    var h := EncodeWords(HdrWords(img)) + img.uuid + img.digest;
    assert EncodeRegion(img) + q == h + StrBytes(img.path) + q;
    ReadPathOfStrBytes(h, img.path, q);
  }

  /** A record whose fields read back as an image's reads back as its header. */
  lemma DecodeFields(s: seq<Byte>, img: ImageInfo, q: seq<Byte>)
    requires WellFormed(img) && RegionHdrSize + |img.path| <= |s|
    requires ReadWords(s, 0, 5) == HdrWords(img)
    requires s[40..40 + UuidSize] == img.uuid
    requires s[56..56 + DigestSize] == img.digest
    requires ReadPath(s, RegionHdrSize, |img.path|) == img.path
    requires s[RegionHdrSize + |img.path|..] == q
    ensures DecodeRegion(s) == Some((Header(img), q))
  {
  }

  /** The record written for an image reads back as the image's header, and
      the walk goes on with exactly the bytes that follow it. */
  lemma DecodeEncodeRegion(img: ImageInfo, q: seq<Byte>)
    requires WellFormed(img)
    ensures DecodeRegion(EncodeRegion(img) + q) == Some((Header(img), q))
  {
    var s := EncodeRegion(img) + q;
    HdrWordsBack(img, q);
    UuidBack(img, q);
    DigestBack(img, q);
    PathBack(img, q);
    DecodeFields(s, img, q);
  }

  /** What a record carries of each image. */
  function Headers(imgs: seq<ImageInfo>): (r: seq<ImageInfo>)
    ensures |r| == |imgs| && forall i | 0 <= i < |imgs| :: r[i] == Header(imgs[i])
  {
    if imgs == [] then [] else [Header(imgs[0])] + Headers(imgs[1..])
  }

  /** The record written for each image. */
  function RegionEncs(imgs: seq<ImageInfo>): (r: seq<seq<Byte>>)
    requires forall i | 0 <= i < |imgs| :: WellFormed(imgs[i])
    ensures |r| == |imgs| && forall i | 0 <= i < |imgs| :: r[i] == EncodeRegion(imgs[i])
  {
    if imgs == [] then [] else [EncodeRegion(imgs[0])] + RegionEncs(imgs[1..])
  }

  /** The records of several images, one after the other. */
  function EncodeRegions(imgs: seq<ImageInfo>): (r: seq<Byte>)
    requires forall i | 0 <= i < |imgs| :: WellFormed(imgs[i])
  {
    Join(RegionEncs(imgs))
  }

  /** An image's record reads back as its header, whatever follows it. */
  lemma RecordReadsBack(img: ImageInfo)
    requires WellFormed(img)
    ensures ReadsBackOne(DecodeRegion, EncodeRegion(img), Header(img))
  {
    forall q: seq<Byte> ensures DecodeRegion(EncodeRegion(img) + q) == Some((Header(img), q)) {
      DecodeEncodeRegion(img, q);
    }
  }

  /** Each image's record reads back as its header. */
  lemma {:induction false} RegionsReadBack(imgs: seq<ImageInfo>)
    requires forall i | 0 <= i < |imgs| :: WellFormed(imgs[i])
    ensures ReadsBack(DecodeRegion, RegionEncs(imgs), Headers(imgs))
  {
    if imgs != [] {
      RecordReadsBack(imgs[0]);
      RegionsReadBack(imgs[1..]);
      assert RegionEncs(imgs)[1..] == RegionEncs(imgs[1..]);
      assert Headers(imgs)[1..] == Headers(imgs[1..]);
    }
  }

  /** The records written for a sequence of images read back as the images'
      headers, in order, and the walk ends with exactly the bytes after the
      last of them. */
  lemma DecodeEncodeRegions(imgs: seq<ImageInfo>, q: seq<Byte>)
    requires forall i | 0 <= i < |imgs| :: WellFormed(imgs[i])
    ensures Repeat(DecodeRegion, EncodeRegions(imgs) + q, |imgs|) == Some((Headers(imgs), q))
  {
    RegionsReadBack(imgs);
    RepeatJoin(DecodeRegion, RegionEncs(imgs), Headers(imgs), q);
  }
}
