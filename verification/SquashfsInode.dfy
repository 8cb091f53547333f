/** The SquashFS superblock, inode table and fragment table. */
module SquashfsInode {
  import opened Bytes
  import opened SquashfsStream

  const SUPERBLOCK_SIZE := 96
  const INVALID_FRAG := 0xFFFF_FFFF
  const MAX_BLOCKS_PER_FILE := 0x10_0000
  const MAX_EXTRACTED_FILE_SIZE := 0x1_0000_0000
  const MIN_BLOCK_SIZE := 4096
  const MAX_BLOCK_SIZE := 0x10_0000
  const FRAGMENTS_PER_METADATA_BLOCK := 512

  // ----- the superblock -----

  datatype Superblock = Superblock(
    blockSize: uint32, fragments: uint32, compression: uint16, rootInode: uint64,
    inodeTableStart: uint64, directoryTableStart: uint64, fragmentTableStart: uint64)

  function LeField(img: bytes, p: nat, n: nat): nat
    requires p + n <= |img|
  {
    Le(img[p..p + n])
  }

  function ReadSuperblock(img: bytes): Option<Superblock> {
    if |img| < SUPERBLOCK_SIZE || img[..4] != Ascii("hsqs") then None
    else
      Pow256Widths();
      Some(Superblock(
        LeField(img, 12, 4), LeField(img, 16, 4), LeField(img, 20, 2), LeField(img, 32, 8),
        LeField(img, 64, 8), LeField(img, 72, 8), LeField(img, 80, 8)))
  }

  predicate IsPowerOfTwo(n: nat) {
    n == 1 || (n > 1 && n % 2 == 0 && IsPowerOfTwo(n / 2))
  }

  predicate ValidBlockSize(blockSize: uint32) {
    MIN_BLOCK_SIZE <= blockSize <= MAX_BLOCK_SIZE && IsPowerOfTwo(blockSize)
  }

  /** The sizes that are allowed, one by one. */
  lemma ValidBlockSizes(blockSize: uint32)
    ensures ValidBlockSize(blockSize) <==>
            blockSize in {4096, 8192, 0x4000, 0x8000, 0x1_0000, 0x2_0000, 0x4_0000, 0x8_0000, 0x10_0000}
  {
    if ValidBlockSize(blockSize) {
      PowersOfTwo(blockSize);
    }
    if blockSize in {4096, 8192, 0x4000, 0x8000, 0x1_0000, 0x2_0000, 0x4_0000, 0x8_0000, 0x10_0000} {
      ArePowersOfTwo(blockSize);
    }
  }

  lemma {:induction false} ArePowersOfTwo(n: nat)
    requires n in {1, 2, 4, 8, 16, 32, 64, 128, 256, 512, 1024, 2048} ||
             n in {4096, 8192, 0x4000, 0x8000, 0x1_0000, 0x2_0000, 0x4_0000, 0x8_0000, 0x10_0000}
    ensures IsPowerOfTwo(n)
  {
    if n > 1 {
      ArePowersOfTwo(n / 2);
    }
  }

  lemma {:induction false} PowersOfTwo(n: nat)
    requires IsPowerOfTwo(n) && n <= 0x10_0000
    ensures n in {1, 2, 4, 8, 16, 32, 64, 128, 256, 512, 1024, 2048} ||
            n in {4096, 8192, 0x4000, 0x8000, 0x1_0000, 0x2_0000, 0x4_0000, 0x8_0000, 0x10_0000}
  {
    if n > 1 {
      PowersOfTwo(n / 2);
    }
  }

  /** An image with its superblock and decompressors. */
  datatype Volume = Volume(img: bytes, codec: Codec, sb: Superblock) {
    function Src(): Source {
      Source(img, codec, sb.compression)
    }
  }

  /** Table offsets are added as 64-bit numbers. */
  function TableOffset(start: uint64, offset: uint64): uint64 {
    (start + offset) % 0x1_0000_0000_0000_0000
  }

  /** Place `p` is `offset` bytes behind `base`; places go round at 2^64. */
  ghost predicate LiesAt(base: nat, offset: nat, p: nat) {
    && p < 0x1_0000_0000_0000_0000
    && (p == base + offset || p + 0x1_0000_0000_0000_0000 == base + offset)
  }

  lemma TableOffsetIs(start: uint64, offset: uint64, p: nat)
    ensures LiesAt(start, offset, p) <==> p == TableOffset(start, offset)
  {
  }

  lemma LeFieldIs(img: bytes, p: nat, n: nat, v: nat)
    requires v < Pow256(n)
    ensures At(img, p, PutLe(v, n)) <==> p + n <= |img| && LeField(img, p, n) == v
  {
    hide Le, PutLe, Pow256;
    LeRoundTrip(v, n);
    if p + n <= |img| {
      PutLeRoundTrip(img[p..p + n]);
    }
  }

  // ----- inodes -----

  datatype DirRef = DirRef(blockIndex: uint32, blockOffset: uint16, size: uint32)

  /** Where a regular file's bytes are. */
  datatype FileRef = FileRef(blocksStart: uint64, fragIndex: uint32, fragOffset: uint32, blockSizes: seq<uint32>)

  datatype Inode =
    | DirInode(dir: DirRef)
    | FileInode(size: uint64, file: FileRef)
    | OtherInode(targetSize: uint32)

  const INODE_HEADER: seq<nat> := [2, 2, 2, 2, 4, 4]
  const BASIC_DIR: seq<nat> := [4, 4, 2, 2, 4]
  const EXTENDED_DIR: seq<nat> := [4, 4, 4, 4, 2, 2, 4]
  const BASIC_FILE: seq<nat> := [4, 4, 4, 4]
  const EXTENDED_FILE: seq<nat> := [8, 8, 8, 4, 4, 4, 4]
  const SYMLINK: seq<nat> := [4, 4]

  /** How many data blocks a file has, behind the guards on its size; None when a guard fires. */
  function BlockCount(fileSize: uint64, blockSize: uint32, fragIndex: uint32): Option<nat>
    requires blockSize > 0
  {
    if fileSize > MAX_EXTRACTED_FILE_SIZE then None
    else if fragIndex == INVALID_FRAG && fileSize > 0xFFFF_FFFF_FFFF_FFFF - (blockSize - 1) then None
    else
      var nblocks := if fragIndex == INVALID_FRAG then (fileSize + blockSize - 1) / blockSize else fileSize / blockSize;
      if nblocks > MAX_BLOCKS_PER_FILE then None else Some(nblocks)
  }

  /** Once the block size is valid, only the 4 GiB cap can fire: the other two guards are implied by it. */
  lemma OnlyTheSizeCapFires(fileSize: uint64, blockSize: uint32, fragIndex: uint32)
    requires ValidBlockSize(blockSize)
    ensures BlockCount(fileSize, blockSize, fragIndex).Some? <==> fileSize <= MAX_EXTRACTED_FILE_SIZE
  {
    if fileSize <= MAX_EXTRACTED_FILE_SIZE {
      DivideBound(fileSize, blockSize);
      DivideBound(fileSize + blockSize - 1, blockSize);
    }
  }

  /** So many block sizes does a file of this size have, if it is not too large. */
  ghost predicate CountedAs(fileSize: nat, blockSize: nat, fragIndex: nat, n: nat) {
    && fileSize <= 0x1_0000_0000 && n <= 0x10_0000 && blockSize > 0
    && n == if fragIndex == 0xFFFF_FFFF then (fileSize + blockSize - 1) / blockSize else fileSize / blockSize
  }

  lemma CountIs(fileSize: uint64, blockSize: uint32, fragIndex: uint32, n: nat)
    requires blockSize > 0
    ensures BlockCount(fileSize, blockSize, fragIndex) == Some(n) <==> CountedAs(fileSize, blockSize, fragIndex, n)
  {
  }

  lemma DivideBound(n: nat, d: nat)
    requires d >= MIN_BLOCK_SIZE && n < MAX_EXTRACTED_FILE_SIZE + d
    ensures n / d <= MAX_BLOCKS_PER_FILE
  {
    QuotientBelow(n, d, MAX_BLOCKS_PER_FILE + 1);
  }

  lemma QuotientBelow(n: nat, d: nat, k: nat)
    requires d > 0 && n < k * d
    ensures n / d < k
  {
  }

  function Repeat(n: nat, width: nat): (r: seq<nat>)
    ensures |r| == n && forall i :: 0 <= i < n ==> r[i] == width
  {
    seq(n, _ => width)
  }

  /** The block-size array that follows a file inode; it is only read when content is wanted. */
  function BlockSizes(s: bytes, fileSize: uint64, blockSize: uint32, fragIndex: uint32, wantContent: bool)
    : Option<seq<uint32>>
  {
    if !wantContent then Some([])
    else if blockSize == 0 then None
    else
      var n :- BlockCount(fileSize, blockSize, fragIndex);
      var sizes :- Fields(s, Repeat(n, 4));
      Pow256Widths();
      Some(seq(n, i requires 0 <= i < n => sizes[i]))
  }

  /** A regular file's fields, wherever its kind of inode puts them, and its block sizes. */
  function ParseFile(s: bytes, widths: seq<nat>, start: nat, frag: nat, offset: nat, size: nat,
                     blockSize: uint32, wantContent: bool): Option<Inode>
    requires start < |widths| && frag < |widths| && offset < |widths| && size < |widths|
    requires widths[start] in {4, 8} && widths[frag] == widths[offset] == 4 && widths[size] in {4, 8}
  {
    Pow256Widths();
    var f :- Fields(s, widths);
    var sizes :- BlockSizes(s[Sum(widths)..], f[size], blockSize, f[frag], wantContent);
    Some(FileInode(f[size], FileRef(f[start], f[frag], f[offset], sizes)))
  }

  /** The fields after the common header, by inode type. */
  function ParseTyped(s: bytes, kind: nat, blockSize: uint32, wantContent: bool): Option<Inode> {
    Pow256Widths();
    match kind
    case 1 =>
      var f :- Fields(s, BASIC_DIR);
      Some(DirInode(DirRef(f[0], f[3], f[2])))
    case 8 =>
      var f :- Fields(s, EXTENDED_DIR);
      Some(DirInode(DirRef(f[2], f[5], f[1])))
    case 2 =>
      ParseFile(s, BASIC_FILE, 0, 1, 2, 3, blockSize, wantContent)
    case 9 =>
      ParseFile(s, EXTENDED_FILE, 0, 4, 5, 1, blockSize, wantContent)
    case 3 =>
      var f :- Fields(s, SYMLINK);
      Some(OtherInode(f[1]))
    case 10 =>
      var f :- Fields(s, SYMLINK);
      Some(OtherInode(f[1]))
    case _ => Some(OtherInode(0))
  }

  /** The inode at the start of a stream. */
  function ParseInode(s: bytes, blockSize: uint32, wantContent: bool): Option<Inode> {
    var hdr :- Fields(s, INODE_HEADER);
    ParseTyped(s[Sum(INODE_HEADER)..], hdr[0], blockSize, wantContent)
  }

  /** The inode an inode reference points at. */
  function InodeAt(v: Volume, block: uint64, inBlock: uint16, wantContent: bool): Option<Inode> {
    var s :- StreamAt(v.Src(), TableOffset(v.sb.inodeTableStart, block), inBlock);
    ParseInode(s, v.sb.blockSize, wantContent)
  }

  method ReadBlockSizes(c: MetadataCursor, fileSize: uint64, blockSize: uint32, fragIndex: uint32)
    returns (r: Option<seq<uint32>>)
    requires c.Valid() && blockSize > 0
    modifies c, c.buf
    ensures r == BlockSizes(old(c.Remaining()), fileSize, blockSize, fragIndex, true)
  {
    hide FlatStream, Sum, Fields, MetadataCursor.Remaining;
    var n := BlockCount(fileSize, blockSize, fragIndex);
    if n.None? {
      return None;
    }
    var sizes := c.ReadFields(Repeat(n.value, 4));
    if sizes.None? {
      return None;
    }
    Pow256Widths();
    return Some(seq(n.value, i requires 0 <= i < n.value => sizes.value[i]));
  }

  method ReadInode(v: Volume, block: uint64, inBlock: uint16, wantContent: bool) returns (r: Option<Inode>)
    requires wantContent ==> v.sb.blockSize > 0
    ensures r == InodeAt(v, block, inBlock, wantContent)
  {
    hide LoadBlock, FlatStream, Fields, StreamAt, MetadataCursor.Remaining, BlockSizes, Sum;
    var c := new MetadataCursor(v.Src(), TableOffset(v.sb.inodeTableStart, block));
    var ok := c.Seek(inBlock);
    if !ok {
      return None;
    }
    var hdr := c.ReadFields(INODE_HEADER);
    if hdr.None? {
      return None;
    }
    r := ReadTypedFields(c, hdr.value[0], v.sb.blockSize, wantContent);
  }

  method ReadTypedFields(c: MetadataCursor, kind: nat, blockSize: uint32, wantContent: bool) returns (r: Option<Inode>)
    requires c.Valid() && (wantContent ==> blockSize > 0)
    modifies c, c.buf
    ensures r == ParseTyped(old(c.Remaining()), kind, blockSize, wantContent)
  {
    hide FlatStream, Fields, MetadataCursor.Remaining, BlockSizes, Sum;
    Pow256Widths();
    if kind == 1 {
      var f := c.ReadFields(BASIC_DIR);
      return if f.None? then None else Some(DirInode(DirRef(f.value[0], f.value[3], f.value[2])));
    } else if kind == 8 {
      var f := c.ReadFields(EXTENDED_DIR);
      return if f.None? then None else Some(DirInode(DirRef(f.value[2], f.value[5], f.value[1])));
    } else if kind == 2 {
      r := ReadFileFields(c, BASIC_FILE, 0, 1, 2, 3, blockSize, wantContent);
    } else if kind == 9 {
      r := ReadFileFields(c, EXTENDED_FILE, 0, 4, 5, 1, blockSize, wantContent);
    } else if kind == 3 || kind == 10 {
      var f := c.ReadFields(SYMLINK);
      return if f.None? then None else Some(OtherInode(f.value[1]));
    } else {
      return Some(OtherInode(0));
    }
  }

  method ReadFileFields(c: MetadataCursor, widths: seq<nat>, start: nat, frag: nat, offset: nat, size: nat,
                        blockSize: uint32, wantContent: bool) returns (r: Option<Inode>)
    requires c.Valid() && (wantContent ==> blockSize > 0)
    requires start < |widths| && frag < |widths| && offset < |widths| && size < |widths|
    requires widths[start] in {4, 8} && widths[frag] == widths[offset] == 4 && widths[size] in {4, 8}
    modifies c, c.buf
    ensures r == ParseFile(old(c.Remaining()), widths, start, frag, offset, size, blockSize, wantContent)
  {
    hide FlatStream, Fields, MetadataCursor.Remaining, BlockSizes, Sum;
    Pow256Widths();
    var f := c.ReadFields(widths);
    if f.None? {
      return None;
    }
    var sizes: Option<seq<uint32>> := Some([]);
    if wantContent {
      sizes := ReadBlockSizes(c, f.value[size], blockSize, f.value[frag]);
    } else {
      NoSizesWanted(c.Remaining(), f.value[size], blockSize, f.value[frag]);
    }
    if sizes.None? {
      return None;
    }
    return Some(FileInode(f.value[size], FileRef(f.value[start], f.value[frag], f.value[offset], sizes.value)));
  }

  lemma NoSizesWanted(s: bytes, fileSize: uint64, blockSize: uint32, fragIndex: uint32)
    ensures BlockSizes(s, fileSize, blockSize, fragIndex, false) == Some([])
  {
  }

  /** Reading a file's block sizes can fail, but it never changes what a listing shows. */
  lemma ContentDoesNotChangeInode(v: Volume, block: uint64, inBlock: uint16)
    requires InodeAt(v, block, inBlock, true).Some?
    ensures var full := InodeAt(v, block, inBlock, true).value;
            var bare := InodeAt(v, block, inBlock, false);
            bare == Some(if full.FileInode? then FileInode(full.size, full.file.(blockSizes := [])) else full)
  {
    hide StreamAt, Fields, Sum;
  }
}
