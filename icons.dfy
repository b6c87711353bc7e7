/** The placeholder-icon writer (apps/desktop/src-tauri/icons/create_icons.py):
    a solid purple RGBA square encoded as a PNG file, following the PNG
    Specification (Second Edition, ISO/IEC 15948): the signature of
    section 5.2, the chunk layout of section 5.3 and the IHDR fields of
    section 11.2.2. zlib's `compress` and `crc32` are functions passed in by
    the caller; writing the files is left out, the bytes they would hold
    are the result. */
module Icons {
  import opened Ints
  import opened Wrappers

  /** The pixel colour #7C3AED, fully opaque, as R, G, B, A. */
  const PIXEL: seq<u8> := [124, 58, 237, 255]

  /** The scanline filter type byte "None". */
  const FILTER_NONE: u8 := 0

  /** Section 5.2: the eight bytes every PNG file begins with. */
  const SIGNATURE: seq<u8> := [0x89, 0x50, 0x4E, 0x47, 0x0D, 0x0A, 0x1A, 0x0A]

  /** Chunk types, as the ASCII bytes of their names. */
  const IHDR: seq<u8> := [0x49, 0x48, 0x44, 0x52]
  const IDAT: seq<u8> := [0x49, 0x44, 0x41, 0x54]
  const IEND: seq<u8> := [0x49, 0x45, 0x4E, 0x44]

  /** Section 11.2.2: 8 bits per sample, colour type 6 (truecolour with
      alpha), deflate compression, adaptive filtering, no interlace. */
  const IHDR_TRAILER: seq<u8> := [8, 6, 0, 0, 0]

  // ---------------------------------------------------------------------
  // The raw image

  /** `n` pixels in a row. */
  function Pixels(n: nat): (r: seq<u8>)
    ensures |r| == 4 * n
  {
    if n == 0 then [] else Pixels(n - 1) + PIXEL
  }

  /** One scanline: the filter byte, then `size` pixels. */
  function Row(size: nat): (r: seq<u8>)
    ensures |r| == 1 + 4 * size
  {
    [FILTER_NONE] + Pixels(size)
  }

  /** The first `k` scanlines. */
  function Rows(k: nat, size: nat): (r: seq<u8>)
    ensures |r| == k * (1 + 4 * size)
  {
    if k == 0 then [] else Rows(k - 1, size) + Row(size)
  }

  /** The raw image data of a `size` x `size` icon. */
  function RawImage(size: nat): seq<u8> {
    Rows(size, size)
  }

  /** Byte `c` of pixel `x` of a row of pixels. */
  lemma {:induction false} PixelsAt(n: nat, x: nat, c: nat)
    requires x < n && c < 4
    ensures 4 * x + c < |Pixels(n)| && Pixels(n)[4 * x + c] == PIXEL[c]
  {
    if x < n - 1 {
      PixelsAt(n - 1, x, c);
    }
  }

  /** Byte `j` of scanline `y` of the first `k` scanlines. */
  lemma {:induction false} RowsAt(k: nat, size: nat, y: nat, j: nat)
    requires y < k && j < 1 + 4 * size
    ensures y * (1 + 4 * size) + j < |Rows(k, size)|
    ensures Rows(k, size)[y * (1 + 4 * size) + j] == Row(size)[j]
  {
    var w := 1 + 4 * size;
    if y < k - 1 {
      RowsAt(k - 1, size, y, j);
    } else {
      assert y * w == (k - 1) * w;
    }
  }

  /** The layout of the raw data: `size` scanlines of `1 + 4 * size` bytes,
      each a filter byte 0 and then `size` copies of the pixel. */
  lemma RawLayout(size: nat, y: nat, x: nat, c: nat)
    requires y < size && x < size && c < 4
    ensures |RawImage(size)| == size * (1 + 4 * size)
    ensures y * (1 + 4 * size) + 1 + 4 * x + c < |RawImage(size)|
    ensures RawImage(size)[y * (1 + 4 * size)] == FILTER_NONE
    ensures RawImage(size)[y * (1 + 4 * size) + 1 + 4 * x + c] == PIXEL[c]
  {
    RowsAt(size, size, y, 0);
    RowsAt(size, size, y, 1 + 4 * x + c);
    RowAt(size, x, c);
  }

  /** Byte `1 + 4 * x + c` of a scanline is byte `c` of the pixel. */
  lemma RowAt(size: nat, x: nat, c: nat)
    requires x < size && c < 4
    ensures Row(size)[1 + 4 * x + c] == PIXEL[c]
  {
    PixelsAt(size, x, c);
  }

  /** The loops that build `raw_data`: per row a filter byte, then the
      pixels one by one. */
  method BuildRaw(size: nat) returns (raw: seq<u8>)
    ensures raw == RawImage(size)
  {
    raw := [];
    for y := 0 to size
      invariant raw == Rows(y, size)
    {
      raw := raw + [FILTER_NONE];
      for x := 0 to size
        invariant raw == Rows(y, size) + [FILTER_NONE] + Pixels(x)
      {
        raw := raw + PIXEL;
      }
      assert raw == Rows(y, size) + Row(size);
    }
  }

  // ---------------------------------------------------------------------
  // Chunks

  /** Section 5.3: a chunk is its length as a big-endian u32, its type, its
      data and the CRC of type and data as a big-endian u32. The length is
      the value the writer states, which is not checked against the data. */
  function ChunkBytes(length: u32, tag: seq<u8>, data: seq<u8>, crc32: seq<u8> -> nat): (r: seq<u8>)
    ensures |r| == 12 + |data| + (|tag| - 4)
  {
    BeBytes32(length) + tag + data + BeBytes32(crc32(tag + data) % TWO_32)
  }

  /** The IHDR data: width and height as big-endian u32, then the trailer. */
  function IhdrData(width: u32, height: u32): (r: seq<u8>)
    ensures |r| == 13
  {
    BeBytes32(width) + BeBytes32(height) + IHDR_TRAILER
  }

  /** `create_png`'s file: None where `struct.pack(">I", ...)` would raise,
      that is when the size or the compressed length does not fit a u32. */
  function PngFile(size: nat, compress: seq<u8> -> seq<u8>, crc32: seq<u8> -> nat): (r: Option<seq<u8>>)
    ensures r.None? <==> size >= TWO_32 || |compress(RawImage(size))| >= TWO_32
  {
    var compressed := compress(RawImage(size));
    if size >= TWO_32 || |compressed| >= TWO_32 then None
    else
      Some(SIGNATURE
           + ChunkBytes(13, IHDR, IhdrData(size, size), crc32)
           + ChunkBytes(|compressed|, IDAT, compressed, crc32)
           + ChunkBytes(0, IEND, [], crc32))
  }

  /** `create_png`, minus the file write: the raw data is built by the
      loops, compressed, and framed. */
  method CreatePng(size: nat, compress: seq<u8> -> seq<u8>, crc32: seq<u8> -> nat)
    returns (png: Option<seq<u8>>)
    ensures png == PngFile(size, compress, crc32)
  {
    var raw := BuildRaw(size);
    var compressed := compress(raw);
    if size >= TWO_32 || |compressed| >= TWO_32 {
      return None;
    }
    var ihdr := ChunkBytes(13, IHDR, IhdrData(size, size), crc32);
    var idat := ChunkBytes(|compressed|, IDAT, compressed, crc32);
    var iend := ChunkBytes(0, IEND, [], crc32);
    png := Some(SIGNATURE + ihdr + idat + iend);
  }

  // ---------------------------------------------------------------------
  // Reading a file back (the decoder side of section 5.3)

  datatype RawChunk = RawChunk(tag: seq<u8>, data: seq<u8>, crc: nat)

  /** The chunk at the front of `b`, by its length field, and what follows. */
  function ReadChunk(b: seq<u8>): (r: Option<(RawChunk, seq<u8>)>)
    ensures r.Some? ==> |b| >= 12 && |r.value.1| < |b|
  {
    if |b| < 8 then None
    else
      var length := FromBeBytes32(b[..4]);
      if |b| < 12 + length then None
      else Some((RawChunk(b[4..8], b[8..8 + length], FromBeBytes32(b[8 + length..12 + length])),
                 b[12 + length..]))
  }

  /** The chunks of a chunk stream, in order; None if one is cut short. */
  function ReadChunks(b: seq<u8>): Option<seq<RawChunk>>
    decreases |b|
  {
    if |b| == 0 then Some([])
    else match ReadChunk(b)
      case None => None
      case Some((c, rest)) =>
        match ReadChunks(rest)
        case None => None
        case Some(cs) => Some([c] + cs)
  }

  /** The chunks of a PNG file; None without the signature. */
  function ReadPng(file: seq<u8>): Option<seq<RawChunk>> {
    if |file| >= 8 && file[..8] == SIGNATURE then ReadChunks(file[8..]) else None
  }

  /** A chunk's stored CRC is the CRC of its type and data. */
  predicate CrcMatches(c: RawChunk, crc32: seq<u8> -> nat) {
    c.crc == crc32(c.tag + c.data) % TWO_32
  }

  /** A chunk written with its true length reads back as itself. */
  lemma ChunkReadsBack(tag: seq<u8>, data: seq<u8>, crc32: seq<u8> -> nat, rest: seq<u8>)
    requires |tag| == 4 && |data| < TWO_32
    ensures ReadChunk(ChunkBytes(|data|, tag, data, crc32) + rest)
         == Some((RawChunk(tag, data, crc32(tag + data) % TWO_32), rest))
  {
    var crc := crc32(tag + data) % TWO_32;
    var b := ChunkBytes(|data|, tag, data, crc32) + rest;
    var n := |data|;
    assert b[..4] == BeBytes32(n);
    BeBytesRoundTrip(n);
    assert b[4..8] == tag;
    assert b[8..8 + n] == data;
    assert b[8 + n..12 + n] == BeBytes32(crc);
    BeBytesRoundTrip(crc);
    assert b[12 + n..] == rest;
  }

  /** The chunks `create_png` writes, as a reader sees them. */
  function WrittenChunks(size: u32, compressed: seq<u8>, crc32: seq<u8> -> nat): seq<RawChunk> {
    [RawChunk(IHDR, IhdrData(size, size), crc32(IHDR + IhdrData(size, size)) % TWO_32),
     RawChunk(IDAT, compressed, crc32(IDAT + compressed) % TWO_32),
     RawChunk(IEND, [], crc32(IEND + []) % TWO_32)]
  }

  /** The file is the signature followed by the three chunks. */
  lemma PngFrames(size: nat, compress: seq<u8> -> seq<u8>, crc32: seq<u8> -> nat)
    requires PngFile(size, compress, crc32).Some?
    ensures var file := PngFile(size, compress, crc32).value;
      var compressed := compress(RawImage(size));
      |file| >= 8 && file[..8] == SIGNATURE
      && file[8..] == ChunkBytes(13, IHDR, IhdrData(size, size), crc32)
                      + (ChunkBytes(|compressed|, IDAT, compressed, crc32) + ChunkBytes(0, IEND, [], crc32))
  {
    var compressed := compress(RawImage(size));
    var ihdr := ChunkBytes(13, IHDR, IhdrData(size, size), crc32);
    var idat := ChunkBytes(|compressed|, IDAT, compressed, crc32);
    var iend := ChunkBytes(0, IEND, [], crc32);
    var file := PngFile(size, compress, crc32).value;
    assert file == SIGNATURE + (ihdr + (idat + iend));
  }

  /** The file starts with the signature and holds exactly IHDR, IDAT and
      IEND, in that order; each length field is its data's length (13 for
      IHDR, the compressed length for IDAT, 0 for IEND). */
  lemma PngReadsBack(size: nat, compress: seq<u8> -> seq<u8>, crc32: seq<u8> -> nat)
    requires PngFile(size, compress, crc32).Some?
    ensures var file := PngFile(size, compress, crc32).value;
      |file| >= 8 && file[..8] == SIGNATURE
      && ReadPng(file) == Some(WrittenChunks(size, compress(RawImage(size)), crc32))
  {
    var compressed := compress(RawImage(size));
    var ihdr := ChunkBytes(13, IHDR, IhdrData(size, size), crc32);
    var idat := ChunkBytes(|compressed|, IDAT, compressed, crc32);
    var iend := ChunkBytes(0, IEND, [], crc32);
    PngFrames(size, compress, crc32);
    ChunkReadsBack(IHDR, IhdrData(size, size), crc32, idat + iend);
    ChunkReadsBack(IDAT, compressed, crc32, iend);
    ChunkReadsBack(IEND, [], crc32, []);
    assert iend + [] == iend;
    ThreeChunks(ihdr, idat, iend, WrittenChunks(size, compressed, crc32));
  }

  /** Every chunk written carries the CRC of its type and data. */
  lemma WrittenCrcsMatch(size: u32, compressed: seq<u8>, crc32: seq<u8> -> nat)
    ensures forall c :: c in WrittenChunks(size, compressed, crc32) ==> CrcMatches(c, crc32)
  {
  }

  /** Reading three chunks that each read back. */
  lemma ThreeChunks(a: seq<u8>, b: seq<u8>, c: seq<u8>, cs: seq<RawChunk>)
    requires |cs| == 3
    requires ReadChunk(a + (b + c)) == Some((cs[0], b + c))
    requires ReadChunk(b + c) == Some((cs[1], c))
    requires ReadChunk(c) == Some((cs[2], []))
    ensures ReadChunks(a + (b + c)) == Some(cs)
  {
    var empty: seq<u8> := [];
    assert ReadChunks(empty) == Some([]);
    assert [cs[2]] + [] == [cs[2]];
    assert ReadChunks(c) == Some([cs[2]]);
    assert [cs[1]] + [cs[2]] == [cs[1], cs[2]];
    assert ReadChunks(b + c) == Some([cs[1], cs[2]]);
    assert [cs[0]] + [cs[1], cs[2]] == cs;
  }

  /** The IHDR fields read back: width and height are the icon size, and the
      trailer is 8, 6, 0, 0, 0. */
  lemma IhdrFields(size: u32)
    ensures FromBeBytes32(IhdrData(size, size)[..4]) == size
    ensures FromBeBytes32(IhdrData(size, size)[4..8]) == size
    ensures IhdrData(size, size)[8..] == IHDR_TRAILER
  {
    var d := IhdrData(size, size);
    assert d[..4] == BeBytes32(size) && d[4..8] == BeBytes32(size);
    BeBytesRoundTrip(size);
  }

  // ---------------------------------------------------------------------
  // The four icons

  /** The icon sizes, in the order the script writes them. */
  function IconSize(i: nat): nat
    requires i < 4
  {
    match i
    case 0 => 32
    case 1 => 128
    case 2 => 256
    case _ => 512
  }

  /** The file each icon is written to. */
  function IconName(i: nat): string
    requires i < 4
  {
    match i
    case 0 => "32x32.png"
    case 1 => "128x128.png"
    case 2 => "128x128@2x.png"
    case _ => "icon.png"
  }

  datatype IconFile = IconFile(name: string, bytes: seq<u8>)

  /** The script's loop: one `create_png` per size, in order, stopping at the
      first one that raises. Every size fits a u32, so only a compressed
      stream of 2^32 bytes or more can stop it. */
  method CreateIcons(compress: seq<u8> -> seq<u8>, crc32: seq<u8> -> nat)
    returns (written: seq<IconFile>)
    ensures |written| <= 4
    ensures forall i :: 0 <= i < |written| ==>
      written[i].name == IconName(i) && PngFile(IconSize(i), compress, crc32) == Some(written[i].bytes)
    ensures |written| < 4 ==> |compress(RawImage(IconSize(|written|)))| >= TWO_32
  {
    written := [];
    var i := 0;
    while i < 4
      invariant i == |written| <= 4
      invariant forall k :: 0 <= k < i ==>
        written[k].name == IconName(k) && PngFile(IconSize(k), compress, crc32) == Some(written[k].bytes)
    {
      var png := CreatePng(IconSize(i), compress, crc32);
      if png.None? {
        return;
      }
      written := written + [IconFile(IconName(i), png.value)];
      i := i + 1;
    }
  }
}
