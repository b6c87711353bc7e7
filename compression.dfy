/** Smart compression (crates/teleport-core/src/compression.rs): the
    compress-or-skip decision, the result type and the running statistics.
    zstd is a function supplied by the caller, and the Shannon-entropy test
    (floating point) is a predicate supplied by the caller. */
module Compression {
  import opened Ints
  import opened Wrappers

  /** Below this size compression is not attempted. */
  const COMPRESSION_THRESHOLD: nat := 1024
  /** The entropy test looks at no more than this many leading bytes. */
  const ENTROPY_SAMPLE_SIZE: nat := 4096
  const DEFAULT_LEVEL: int := 3
  const MIN_LEVEL: int := 1
  const MAX_LEVEL: int := 22

  /** The compressor's configuration; the entropy threshold is folded into
      the `lowEntropy` predicate the operations take. */
  datatype SmartCompressor = SmartCompressor(level: int, minSize: nat)

  function New(): (c: SmartCompressor)
    ensures c.level == DEFAULT_LEVEL && c.minSize == COMPRESSION_THRESHOLD
  {
    SmartCompressor(DEFAULT_LEVEL, COMPRESSION_THRESHOLD)
  }

  /** `with_level`: the level is clamped into zstd's range 1..=22. */
  function WithLevel(level: int): (c: SmartCompressor)
    ensures MIN_LEVEL <= c.level <= MAX_LEVEL
    ensures MIN_LEVEL <= level <= MAX_LEVEL ==> c.level == level
    ensures level < MIN_LEVEL ==> c.level == MIN_LEVEL
    ensures level > MAX_LEVEL ==> c.level == MAX_LEVEL
    ensures c.minSize == COMPRESSION_THRESHOLD
  {
    SmartCompressor(Clamp(level, MIN_LEVEL, MAX_LEVEL), COMPRESSION_THRESHOLD)
  }

  function Fast(): (c: SmartCompressor)
    ensures c.level == 1
  {
    WithLevel(1)
  }

  function MaxCompression(): (c: SmartCompressor)
    ensures c.level == 19
  {
    WithLevel(19)
  }

  /** The text after the last '.', or the whole path when it has none
      (`rsplit('.').next()`). */
  function Extension(path: string): (ext: string)
    ensures '.' !in ext
    ensures |ext| <= |path| && ext == path[|path| - |ext|..]
    ensures |ext| < |path| ==> path[|path| - |ext| - 1] == '.'
  {
    if |path| == 0 then ""
    else if path[|path| - 1] == '.' then ""
    else Extension(path[..|path| - 1]) + [path[|path| - 1]]
  }

  /** Lower-casing one character, as far as it matters for comparison with
      the ASCII extension list: 'A'..'Z' map to 'a'..'z' and the Kelvin sign
      U+212A maps to 'k'. Every other character either is unchanged or
      lower-cases to text that contains a non-ASCII character, and so can
      never equal a listed extension either way. */
  function LowerChar(c: char): (l: char)
    ensures 'a' <= l <= 'z' ==> ('a' <= c <= 'z' || 'A' <= c <= 'Z' || c as int == 0x212A)
  {
    if 'A' <= c <= 'Z' then (c as int + 32) as char
    else if c as int == 0x212A then 'k'
    else c
  }

  function Lowercase(s: string): (r: string)
    ensures |r| == |s|
    ensures forall i :: 0 <= i < |s| ==> r[i] == LowerChar(s[i])
  {
    if |s| == 0 then "" else [LowerChar(s[0])] + Lowercase(s[1..])
  }

  const EXTENSION_COUNT: nat := 45

  /** The extensions of formats that are already compressed (video, audio,
      images, archives, documents and packages), numbered in the order the
      source lists them. */
  function CompressedExtension(i: nat): string
    requires i < EXTENSION_COUNT
  {
    match i
    case 0 => "mp4" case 1 => "mkv" case 2 => "avi" case 3 => "mov" case 4 => "webm"
    case 5 => "m4v" case 6 => "wmv" case 7 => "flv"
    case 8 => "mp3" case 9 => "aac" case 10 => "m4a" case 11 => "ogg" case 12 => "opus"
    case 13 => "wma" case 14 => "flac"
    case 15 => "jpg" case 16 => "jpeg" case 17 => "png" case 18 => "gif" case 19 => "webp"
    case 20 => "heic" case 21 => "heif" case 22 => "avif"
    case 23 => "zip" case 24 => "gz" case 25 => "xz" case 26 => "zst" case 27 => "7z"
    case 28 => "rar" case 29 => "bz2" case 30 => "lz4" case 31 => "lzma"
    case 32 => "tar.gz" case 33 => "tar.xz" case 34 => "tar.bz2" case 35 => "tgz"
    case 36 => "pdf" case 37 => "docx" case 38 => "xlsx" case 39 => "pptx" case 40 => "epub"
    case 41 => "apk" case 42 => "ipa" case 43 => "dmg" case _ => "pkg"
  }

  /** The `matches!` test from entry `i` on: `e` equals a later entry. */
  predicate ListedFrom(e: string, i: nat)
    decreases EXTENSION_COUNT - i
  {
    i < EXTENSION_COUNT && (CompressedExtension(i) == e || ListedFrom(e, i + 1))
  }

  lemma {:induction false} ListedFromIff(e: string, i: nat)
    decreases EXTENSION_COUNT - i
    ensures ListedFrom(e, i) <==> exists j :: i <= j < EXTENSION_COUNT && CompressedExtension(j) == e
  {
    if i < EXTENSION_COUNT {
      ListedFromIff(e, i + 1);
      if CompressedExtension(i) == e {
        assert i <= i < EXTENSION_COUNT && CompressedExtension(i) == e;
      } else if exists j :: i <= j < EXTENSION_COUNT && CompressedExtension(j) == e {
        var j :| i <= j < EXTENSION_COUNT && CompressedExtension(j) == e;
        assert i + 1 <= j;
      }
    }
  }

  predicate IsListedExtension(e: string) {
    ListedFrom(e, 0)
  }

  predicate IsCompressedExtension(path: string) {
    IsListedExtension(Lowercase(Extension(path)))
  }

  /** Only the last dot-separated piece is ever compared, so the three
      "tar.*" entries of the list can never be the one that matches. */
  lemma DottedEntriesNeverMatch(path: string)
    ensures '.' !in Lowercase(Extension(path))
    ensures Lowercase(Extension(path)) != "tar.gz"
    ensures Lowercase(Extension(path)) != "tar.xz"
    ensures Lowercase(Extension(path)) != "tar.bz2"
  {
    var e := Extension(path);
    var l := Lowercase(e);
    forall i | 0 <= i < |l|
      ensures l[i] != '.'
    {
      assert l[i] == LowerChar(e[i]);
    }
    assert "tar.gz"[3] == '.';
    assert "tar.xz"[3] == '.';
    assert "tar.bz2"[3] == '.';
  }

  lemma GzListed()
    ensures IsListedExtension("gz")
  {
    ListedFromIff("gz", 0);
    assert CompressedExtension(24) == "gz";
  }

  lemma Mp4Listed()
    ensures IsListedExtension("mp4")
  {
    ListedFromIff("mp4", 0);
    assert CompressedExtension(0) == "mp4";
  }

  lemma RsNotListed()
    ensures !IsListedExtension("rs")
  {
    ListedFromIff("rs", 0);
    forall j | 0 <= j < EXTENSION_COUNT ensures CompressedExtension(j) != "rs" {
      if |CompressedExtension(j)| == 2 {
        assert CompressedExtension(j)[0] != 'r';
      }
    }
  }

  lemma ExtensionExampleArchive()
    ensures IsCompressedExtension("archive.tar.gz")
  {
    assert Extension("archive.tar.gz") == "gz" by {
      assert Extension("archive.tar.") == "";
      assert Extension("archive.tar.g") == "g";
    }
    assert Lowercase("gz") == "gz";
    GzListed();
  }

  lemma ExtensionExampleUppercase()
    ensures IsCompressedExtension("video.MP4")
  {
    assert Extension("video.MP4") == "MP4" by {
      assert Extension("video.") == "";
      assert Extension("video.M") == "M";
      assert Extension("video.MP") == "MP";
    }
    assert Lowercase("MP4") == "mp4" by {
      assert Lowercase("4") == "4";
      assert Lowercase("P4") == "p4";
    }
    Mp4Listed();
  }

  lemma ExtensionExampleSource()
    ensures !IsCompressedExtension("code.rs")
  {
    assert Extension("code.rs") == "rs" by {
      assert Extension("code.") == "";
      assert Extension("code.r") == "r";
    }
    assert Lowercase("rs") == "rs";
    RsNotListed();
  }

  /** `should_compress`: large enough, not a compressed format, and a sample
      of at most `ENTROPY_SAMPLE_SIZE` leading bytes passes the entropy test. */
  predicate ShouldCompress(c: SmartCompressor, lowEntropy: seq<u8> -> bool,
                           path: string, data: seq<u8>)
  {
    && |data| >= c.minSize
    && !IsCompressedExtension(path)
    && lowEntropy(data[..Min(|data|, ENTROPY_SAMPLE_SIZE)])
  }

  lemma ShouldCompressGuards(c: SmartCompressor, lowEntropy: seq<u8> -> bool,
                             path: string, data: seq<u8>)
    ensures |data| < c.minSize ==> !ShouldCompress(c, lowEntropy, path, data)
    ensures IsCompressedExtension(path) ==> !ShouldCompress(c, lowEntropy, path, data)
    ensures |data| >= ENTROPY_SAMPLE_SIZE ==>
              (ShouldCompress(c, lowEntropy, path, data) <==>
               |data| >= c.minSize && !IsCompressedExtension(path)
               && lowEntropy(data[..ENTROPY_SAMPLE_SIZE]))
  {
    if |data| >= ENTROPY_SAMPLE_SIZE {
      assert Min(|data|, ENTROPY_SAMPLE_SIZE) == ENTROPY_SAMPLE_SIZE;
    }
  }

  datatype CompressionResult =
    | Compressed(originalSize: nat, compressedSize: nat, data: seq<u8>)
    | Skipped(originalSize: nat)

  /** What `compress_smart` guarantees about the results it builds. */
  predicate WellFormed(r: CompressionResult) {
    r.Compressed? ==> r.compressedSize == |r.data| && r.compressedSize < r.originalSize
  }

  /** `compress_smart`: skip when the decision says so, when zstd fails, or
      when its output is not strictly shorter than the input. */
  function CompressSmart(c: SmartCompressor, lowEntropy: seq<u8> -> bool,
                         zstd: (seq<u8>, int) -> Result<seq<u8>, string>,
                         path: string, data: seq<u8>): (r: CompressionResult)
    ensures r.originalSize == |data|
    ensures WellFormed(r)
    ensures r.Compressed? <==>
              && ShouldCompress(c, lowEntropy, path, data)
              && zstd(data, c.level).Ok? && |zstd(data, c.level).value| < |data|
    ensures r.Compressed? ==> r.data == zstd(data, c.level).value
  {
    if !ShouldCompress(c, lowEntropy, path, data) then Skipped(|data|)
    else match zstd(data, c.level)
      case Ok(compressed) =>
        if |compressed| < |data| then Compressed(|data|, |compressed|, compressed)
        else Skipped(|data|)
      case Err(_) => Skipped(|data|)
  }

  /** Bytes saved: saturating difference when compressed, otherwise 0. */
  function BytesSaved(r: CompressionResult): (n: nat)
    ensures r.Skipped? ==> n == 0
    ensures r.Compressed? && r.compressedSize <= r.originalSize ==>
              n + r.compressedSize == r.originalSize
    ensures r.Compressed? && r.compressedSize > r.originalSize ==> n == 0
  {
    match r
    case Compressed(o, c, _) => SatSub(o, c)
    case Skipped(_) => 0
  }

  /** A result from `compress_smart` saves a positive number of bytes
      exactly when it is compressed. */
  lemma SmartResultSaves(c: SmartCompressor, lowEntropy: seq<u8> -> bool,
                         zstd: (seq<u8>, int) -> Result<seq<u8>, string>,
                         path: string, data: seq<u8>)
    ensures var r := CompressSmart(c, lowEntropy, zstd, path, data);
      BytesSaved(r) > 0 <==> r.Compressed?
  {
  }

  /** Running totals over recorded results. The counters are unbounded: a
      64-bit overflow would need 2^64 recorded bytes. */
  class CompressionStats {
    var totalInputBytes: nat
    var totalOutputBytes: nat
    var compressCount: nat
    var skipCount: nat
    var bytesSaved: nat

    /** Every input byte is either written out or saved. */
    ghost predicate Valid()
      reads this
    {
      totalOutputBytes + bytesSaved == totalInputBytes
    }

    constructor ()
      ensures Valid()
      ensures totalInputBytes == 0 && totalOutputBytes == 0 && bytesSaved == 0
      ensures compressCount == 0 && skipCount == 0
    {
      totalInputBytes, totalOutputBytes, bytesSaved := 0, 0, 0;
      compressCount, skipCount := 0, 0;
    }

    /** `record`. The source's `original - compressed` underflows (and
        panics) on a `Compressed` value whose compressed size is larger, so
        such values are excluded. */
    method Record(r: CompressionResult)
      requires Valid()
      requires r.Compressed? ==> r.compressedSize <= r.originalSize
      modifies this
      ensures Valid()
      ensures totalInputBytes == old(totalInputBytes) + r.originalSize
      ensures r.Compressed? ==>
                && totalOutputBytes == old(totalOutputBytes) + r.compressedSize
                && bytesSaved == old(bytesSaved) + BytesSaved(r)
                && compressCount == old(compressCount) + 1
                && skipCount == old(skipCount)
      ensures r.Skipped? ==>
                && totalOutputBytes == old(totalOutputBytes) + r.originalSize
                && bytesSaved == old(bytesSaved)
                && compressCount == old(compressCount)
                && skipCount == old(skipCount) + 1
    {
      match r
      case Compressed(o, c, _) =>
        totalInputBytes := totalInputBytes + o;
        totalOutputBytes := totalOutputBytes + c;
        bytesSaved := bytesSaved + (o - c);
        compressCount := compressCount + 1;
      case Skipped(o) =>
        totalInputBytes := totalInputBytes + o;
        totalOutputBytes := totalOutputBytes + o;
        skipCount := skipCount + 1;
    }
  }

  /** The statistics test: one result compressed from 1000 to 500 bytes
      and one skipped result of 1000 bytes. */
  method StatsExample() returns (input: nat, output: nat, saved: nat, compressed: nat, skipped: nat)
    ensures input == 2000 && output == 1500 && saved == 500
    ensures compressed == 1 && skipped == 1
  {
    var stats := new CompressionStats();
    stats.Record(Compressed(1000, 500, []));
    stats.Record(Skipped(1000));
    input, output, saved := stats.totalInputBytes, stats.totalOutputBytes, stats.bytesSaved;
    compressed, skipped := stats.compressCount, stats.skipCount;
  }
}
