/** The name under which a region's bytes are stored in a trace directory:
    `macho-region-<file name>-<digest>.bin`, where the digest part is the
    first four bytes of the region's SHA-256 digest in lower-case hex. */
module RegionNames {
  import opened Bytes
  import opened OrderedMaps
  import opened RegionRecords

  /** `path.filename()`: what follows the last '/' of the path. */
  function Filename(path: string): string
    decreases |path|
  {
    if path == [] then []
    else if path[|path| - 1] == '/' then []
    else Filename(path[..|path| - 1]) + [path[|path| - 1]]
  }

  /** The file name is the longest suffix of the path without a '/', so it
      is empty when the path ends in one. */
  lemma {:induction false} FilenameIsLastComponent(path: string)
    ensures '/' !in Filename(path)
    ensures |Filename(path)| <= |path| && Filename(path) == path[|path| - |Filename(path)|..]
    ensures |Filename(path)| < |path| ==> path[|path| - |Filename(path)| - 1] == '/'
    decreases |path|
  {
    if path != [] && path[|path| - 1] != '/' {
      FilenameIsLastComponent(path[..|path| - 1]);
    }
  }

  predicate LowerHex(c: char)
  {
    '0' <= c <= '9' || 'a' <= c <= 'f'
  }

  /** The digit `{:x}` prints for d. */
  function HexDigit(d: nat): (c: char)
    requires d < 16
    ensures LowerHex(c)
  {
    if d < 10 then ('0' as int + d) as char else ('a' as int + d - 10) as char
  }

  function HexValue(c: char): (d: nat)
    requires LowerHex(c)
    ensures d < 16
  {
    if c <= '9' then c as int - '0' as int else c as int - 'a' as int + 10
  }

  lemma HexValueOfDigit(d: nat)
    requires d < 16
    ensures HexValue(HexDigit(d)) == d
  {
  }

  /** Each byte as two lower-case hex digits (`{:02x}`), joined with no separator. */
  function Hex(bs: seq<Byte>): (r: string)
    ensures |r| == 2 * |bs| && forall i | 0 <= i < |r| :: LowerHex(r[i])
  {
    if bs == [] then [] else [HexDigit(bs[0] / 16), HexDigit(bs[0] % 16)] + Hex(bs[1..])
  }

  /** Reads bytes back from pairs of hex digits. */
  function UnHex(s: string): (r: seq<Byte>)
    requires |s| % 2 == 0 && forall i | 0 <= i < |s| :: LowerHex(s[i])
    ensures |r| == |s| / 2
  {
    if s == [] then [] else [16 * HexValue(s[0]) + HexValue(s[1])] + UnHex(s[2..])
  }

  lemma {:induction false} UnHexHex(bs: seq<Byte>)
    ensures UnHex(Hex(bs)) == bs
  {
    if bs != [] {
      var h := Hex(bs);
      HexValueOfDigit(bs[0] / 16);
      HexValueOfDigit(bs[0] % 16);
      assert h[2..] == Hex(bs[1..]);
      UnHexHex(bs[1..]);
      assert [bs[0]] + bs[1..] == bs;
    }
  }

  function DecDigit(d: nat): char
    requires d < 10
  {
    ('0' as int + d) as char
  }

  /** `{:d}` of a non-negative number. */
  function DecStr(n: nat): (s: string)
    ensures |s| > 0 && forall i | 0 <= i < |s| :: '0' <= s[i] <= '9'
  {
    if n < 10 then [DecDigit(n)] else DecStr(n / 10) + [DecDigit(n % 10)]
  }

  /** The number a string of decimal digits spells. */
  function DecValue(s: string): nat
    requires forall i | 0 <= i < |s| :: '0' <= s[i] <= '9'
  {
    if s == [] then 0 else 10 * DecValue(s[..|s| - 1]) + (s[|s| - 1] as int - '0' as int)
  }

  lemma {:induction false} DecValueOfDecStr(n: nat)
    ensures DecValue(DecStr(n)) == n
  {
    if n >= 10 {
      var s := DecStr(n);
      assert s[..|s| - 1] == DecStr(n / 10);
      DecValueOfDecStr(n / 10);
    }
  }

  const LogPrefix: string := "macho-region-"
  const LogSuffix: string := ".bin"

  /** `image_info::log_path`. */
  function LogPath(img: ImageInfo): (r: string)
    requires |img.digest| >= 4
  {
    LogPrefix + Filename(img.path) + ['-'] + Hex(img.digest[..4]) + LogSuffix
  }

  /** The file name and digest bytes a blob's name was made from, or None
      when the name is not of that form. */
  function ParseLogPath(s: string): (r: Option<(string, seq<Byte>)>)
    ensures r.Some? ==> |r.value.1| == 4
  {
    var hEnd := |s| - |LogSuffix|;
    var hStart := hEnd - 8;
    if hStart < |LogPrefix| + 1 || s[..|LogPrefix|] != LogPrefix || s[hEnd..] != LogSuffix
       || s[hStart - 1] != '-'
    then None
    else
      var h := s[hStart..hEnd];
      if exists i | 0 <= i < |h| :: !LowerHex(h[i]) then None
      else Some((s[|LogPrefix|..hStart - 1], UnHex(h)))
  }

  /** The pieces of a name put together as p + f + "-" + h + x come apart again. */
  lemma Pieces(s: string, p: string, f: string, h: string, x: string)
    requires s == p + f + ['-'] + h + x
    ensures |s| == |p| + |f| + 1 + |h| + |x|
    ensures s[..|p|] == p && s[|s| - |x|..] == x
    ensures s[|s| - |x| - |h|..|s| - |x|] == h && s[|s| - |x| - |h| - 1] == '-'
    ensures s[|p|..|s| - |x| - |h| - 1] == f
  {
  }

  /** A blob's name gives back the file name and the first four digest bytes
      of the region it was made for. */
  lemma ParseLogPathOfLogPath(img: ImageInfo)
    requires |img.digest| >= 4
    ensures ParseLogPath(LogPath(img)) == Some((Filename(img.path), img.digest[..4]))
  {
    var h := Hex(img.digest[..4]);
    Pieces(LogPath(img), LogPrefix, Filename(img.path), h, LogSuffix);
    UnHexHex(img.digest[..4]);
  }

  /** Two regions get the same blob name only when their file names and the
      first four bytes of their digests agree. */
  lemma LogPathDetermines(a: ImageInfo, b: ImageInfo)
    requires |a.digest| >= 4 && |b.digest| >= 4
    requires LogPath(a) == LogPath(b)
    ensures Filename(a.path) == Filename(b.path) && a.digest[..4] == b.digest[..4]
  {
    ParseLogPathOfLogPath(a);
    ParseLogPathOfLogPath(b);
  }
}
