/** Core value types (crates/teleport-core/src/types.rs and the constants of
    crates/teleport-core/src/lib.rs): chunk arithmetic, file attributes,
    share identifiers and the 16/48-bit packed global inode. */
module Types {
  import opened Ints

  /** 128 KiB: the unit in which file contents travel. */
  const CHUNK_SIZE: nat := 128 * 1024
  const MAX_PATH_LEN: nat := 4096
  const MAX_FILENAME_LEN: nat := 255
  const MAX_MESSAGE_SIZE: nat := 1024 * 1024

  type Inode = u64

  /** The root directory of a share. */
  const ROOT_INODE: Inode := 1
  /** The first inode handed out for a user path. */
  const FIRST_USER_INODE: Inode := 2

  datatype ChunkId = ChunkId(inode: Inode, index: u64)

  /** The chunk that holds byte `offset` of a file. */
  function FromOffset(inode: Inode, offset: u64): (c: ChunkId)
    ensures c.inode == inode
    ensures c.index * CHUNK_SIZE <= offset < (c.index + 1) * CHUNK_SIZE
  {
    ChunkId(inode, offset / CHUNK_SIZE)
  }

  /** The first byte of a chunk; the `u64` product wraps. */
  function ByteOffset(c: ChunkId): (r: u64)
    ensures c.index * CHUNK_SIZE < TWO_64 ==> r == c.index * CHUNK_SIZE
  {
    (c.index * CHUNK_SIZE) % TWO_64
  }

  /** The position of byte `offset` inside its chunk. */
  function OffsetInChunk(offset: u64): (r: nat)
    ensures r < CHUNK_SIZE
    ensures (offset - r) % CHUNK_SIZE == 0
  {
    offset % CHUNK_SIZE
  }

  /** Splitting an offset into chunk and position loses nothing. */
  lemma OffsetDecomposes(inode: Inode, offset: u64)
    ensures FromOffset(inode, offset).index == offset / CHUNK_SIZE
    ensures ByteOffset(FromOffset(inode, offset)) + OffsetInChunk(offset) == offset
  {
  }

  datatype FileType = File | Directory | Symlink

  datatype FileAttr = FileAttr(
    inode: Inode, fileType: FileType, size: u64, mode: u32, nlink: u32,
    uid: u32, gid: u32,
    atime: u64, atimeNsec: u32, mtime: u64, mtimeNsec: u32, ctime: u64, ctimeNsec: u32)

  const DIR_MODE: u32 := 0x1ED  // 0o755
  const FILE_MODE: u32 := 0x1A4 // 0o644

  /** Attributes of a directory created at wall-clock `secs`/`nsecs`. */
  function DirectoryAttr(inode: Inode, secs: u64, nsecs: u32): (a: FileAttr)
    ensures a.inode == inode && a.fileType == Directory && a.size == 0
    ensures a.mode == DIR_MODE && a.nlink == 2
  {
    FileAttr(inode, Directory, 0, DIR_MODE, 2, 0, 0, secs, nsecs, secs, nsecs, secs, nsecs)
  }

  /** Attributes of a regular file created at wall-clock `secs`/`nsecs`. */
  function FileAttrOf(inode: Inode, size: u64, secs: u64, nsecs: u32): (a: FileAttr)
    ensures a.inode == inode && a.fileType == File && a.size == size
    ensures a.mode == FILE_MODE && a.nlink == 1
  {
    FileAttr(inode, File, size, FILE_MODE, 1, 0, 0, secs, nsecs, secs, nsecs, secs, nsecs)
  }

  /** The number of chunks a file of `attr.size` bytes occupies. */
  function ChunkCount(attr: FileAttr): (r: nat)
    ensures attr.size == 0 <==> r == 0
    ensures r > 0 ==> (r - 1) * CHUNK_SIZE < attr.size <= r * CHUNK_SIZE
  {
    if attr.size == 0 then 0 else (attr.size - 1) / CHUNK_SIZE + 1
  }

  datatype LockType = Shared | Exclusive

  /** A 16-byte lock token (its bytes come from the system RNG). */
  type LockToken = s: seq<u8> | |s| == 16 witness [0, 0, 0, 0, 0, 0, 0, 0, 0, 0, 0, 0, 0, 0, 0, 0]

  /** An 8-byte share identifier. */
  type ShareId = s: seq<u8> | |s| == 8 witness [0, 0, 0, 0, 0, 0, 0, 0]

  /** Lowercase hexadecimal digits, as `hex::encode` writes them. */
  predicate IsHexDigit(c: char) {
    '0' <= c <= '9' || 'a' <= c <= 'f'
  }

  function HexDigit(n: nat): (c: char)
    requires n < 16
    ensures IsHexDigit(c)
  {
    if n < 10 then ('0' as int + n) as char else ('a' as int + n - 10) as char
  }

  /** The value of a lowercase hexadecimal digit. */
  function HexValue(c: char): (n: nat)
    ensures n < 16
  {
    if '0' <= c <= '9' then (c as int - '0' as int)
    else if 'a' <= c <= 'f' then (c as int - 'a' as int + 10)
    else 0
  }

  lemma HexDigitValue(n: nat)
    requires n < 16
    ensures HexValue(HexDigit(n)) == n
  {
  }

  /** The two lowercase hexadecimal digits of a byte (`{:02x}`). */
  function Hex2(b: u8): (r: string)
    ensures |r| == 2 && IsHexDigit(r[0]) && IsHexDigit(r[1])
  {
    [HexDigit(b / 16), HexDigit(b % 16)]
  }

  /** Each byte as two hexadecimal digits, concatenated. */
  function ToHex(bytes: seq<u8>): (r: string)
    ensures |r| == 2 * |bytes| && |r| % 2 == 0
  {
    if bytes == [] then [] else Hex2(bytes[0]) + ToHex(bytes[1..])
  }

  /** Characters `2i` and `2i+1` of the text are the digits of byte `i`. */
  lemma {:induction false} ToHexAt(bytes: seq<u8>, i: nat)
    requires i < |bytes|
    ensures ToHex(bytes)[2 * i] == Hex2(bytes[i])[0]
    ensures ToHex(bytes)[2 * i + 1] == Hex2(bytes[i])[1]
  {
    var h, t := Hex2(bytes[0]), ToHex(bytes[1..]);
    assert ToHex(bytes) == h + t;
    if i > 0 {
      var j := 2 * (i - 1);
      assert bytes[1..][i - 1] == bytes[i];
      ToHexAt(bytes[1..], i - 1);
      assert 2 * i == j + 2;
      assert (h + t)[j + 2] == t[j] && (h + t)[j + 3] == t[j + 1];
    }
  }

  /** Every character of the text is a lowercase hexadecimal digit. */
  lemma {:induction false} ToHexDigits(bytes: seq<u8>, k: nat)
    requires k < 2 * |bytes|
    ensures IsHexDigit(ToHex(bytes)[k])
  {
    if k >= 2 {
      ToHexDigits(bytes[1..], k - 2);
    }
  }

  /** Reads pairs of hexadecimal digits back into bytes. */
  function FromHex(s: string): (bytes: seq<u8>)
    requires |s| % 2 == 0
    ensures |bytes| == |s| / 2
  {
    if s == [] then [] else [HexValue(s[0]) * 16 + HexValue(s[1])] + FromHex(s[2..])
  }

  /** The two digits of a byte read back give the byte. */
  lemma Hex2Value(b: u8)
    ensures HexValue(Hex2(b)[0]) * 16 + HexValue(Hex2(b)[1]) == b
  {
    HexDigitValue(b / 16);
    HexDigitValue(b % 16);
  }

  lemma FromHexCons(x: string, t: string)
    requires |x| == 2 && |t| % 2 == 0
    ensures FromHex(x + t) == [HexValue(x[0]) * 16 + HexValue(x[1])] + FromHex(t)
  {
    assert (x + t)[2..] == t;
  }

  lemma {:induction false} HexRoundTrip(bytes: seq<u8>)
    ensures FromHex(ToHex(bytes)) == bytes
  {
    if bytes != [] {
      var t := ToHex(bytes[1..]);
      assert ToHex(bytes) == Hex2(bytes[0]) + t;
      FromHexCons(Hex2(bytes[0]), t);
      Hex2Value(bytes[0]);
      HexRoundTrip(bytes[1..]);
      assert bytes == [bytes[0]] + bytes[1..];
    }
  }

  /** `ShareId::to_hex`: 16 lowercase hex characters that determine the id. */
  function ShareIdToHex(id: ShareId): (r: string)
    ensures |r| == 16
    ensures forall k :: 0 <= k < 16 ==> IsHexDigit(r[k])
    ensures FromHex(r) == id
  {
    HexRoundTrip(id);
    forall k | 0 <= k < 16 ensures IsHexDigit(ToHex(id)[k]) {
      ToHexDigits(id, k);
    }
    ToHex(id)
  }

  datatype ConnectionStatus = Disconnected | Connecting | Connected | Reconnecting | Failed

  /** A share-qualified inode: 16 bits of share index over 48 bits of local inode. */
  datatype GlobalInode = GlobalInode(shareIndex: u16, localInode: Inode)

  const VIRTUAL_ROOT: GlobalInode := GlobalInode(0, 0)

  /** `from_packed`: `packed >> 48` and `packed & 0xFFFF_FFFF_FFFF`. */
  function FromPacked(packed: u64): (g: GlobalInode)
    ensures g.localInode < TWO_48
    ensures g.shareIndex * TWO_48 + g.localInode == packed
  {
    GlobalInode(packed / TWO_48, packed % TWO_48)
  }

  /** `to_packed`: the share index shifted into the top 16 bits, or-ed with the
      local inode masked to 48 bits (the bits are disjoint, so `|` is `+`). */
  function ToPacked(g: GlobalInode): (p: u64)
    ensures p / TWO_48 == g.shareIndex
    ensures p % TWO_48 == g.localInode % TWO_48
  {
    g.shareIndex * TWO_48 + g.localInode % TWO_48
  }

  lemma PackRoundTrip(g: GlobalInode)
    requires g.localInode < TWO_48
    ensures FromPacked(ToPacked(g)) == g
  {
  }

  lemma UnpackRoundTrip(p: u64)
    ensures ToPacked(FromPacked(p)) == p
  {
  }

  /** Packing forgets the bits of the local inode above bit 48. */
  lemma PackMasksLocal(g: GlobalInode)
    ensures FromPacked(ToPacked(g)) == GlobalInode(g.shareIndex, g.localInode % TWO_48)
  {
  }

  predicate IsVirtualRoot(g: GlobalInode) {
    g.shareIndex == 0 && g.localInode == 0
  }

  predicate IsShareRoot(g: GlobalInode) {
    g.shareIndex > 0 && g.localInode == ROOT_INODE
  }

  /** The virtual root packs to 0, and 0 is the only packed value that unpacks to it. */
  lemma VirtualRootPacking(p: u64)
    ensures ToPacked(VIRTUAL_ROOT) == 0
    ensures IsVirtualRoot(FromPacked(p)) <==> p == 0
    ensures !IsShareRoot(VIRTUAL_ROOT)
  {
  }

  /** A share root is never the virtual root, and its packed form is
      `index * 2^48 + 1`. */
  lemma ShareRootPacking(g: GlobalInode)
    requires IsShareRoot(g)
    ensures !IsVirtualRoot(g)
    ensures ToPacked(g) == g.shareIndex * TWO_48 + 1
  {
  }
}
