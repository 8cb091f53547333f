/** The cramfs reader: bit-packed inodes in either byte order, directory regions, and block pointers. */
module CramfsReader {
  import opened Bytes
  import opened DataBlocks
  import opened Paths
  import opened Walk

  const MAGIC: uint32 := 0x28cd_3d45
  const SUPER_SIZE := 76
  const ROOT_INODE_OFFSET := 64
  const INODE_SIZE := 12
  const BLOCK_SIZE := 4096
  const TYPE_DIRECTORY := 4
  const TYPE_REGULAR := 8

  // ----- inodes -----

  /** Name length and offset are kept in bytes; on disk they are counts of four-byte words. */
  datatype Inode = Inode(mode: nat, uid: nat, size: nat, gid: nat, nameLen: nat, offset: nat) {
    predicate Fits() {
      && mode < 0x1_0000 && uid < 0x1_0000 && size < 0x100_0000 && gid < 0x100
      && nameLen % 4 == 0 && nameLen < 0x100 && offset % 4 == 0 && offset < 0x1000_0000
    }

    function FileType(): nat {
      mode / 0x1000 % 0x10
    }
  }

  function DecodeInode(img: bytes, p: nat, bigEndian: bool): (r: Inode)
    requires p + INODE_SIZE <= |img|
    ensures r.Fits()
  {
    InodeOfWords(U32(img, p, bigEndian), U32(img, p + 4, bigEndian), U32(img, p + 8, bigEndian))
  }

  function InodeOfWords(w0: uint32, w1: uint32, w2: uint32): (r: Inode)
    ensures r.Fits()
  {
    Inode(w0 % 0x1_0000, w0 / 0x1_0000, w1 % 0x100_0000, w1 / 0x100_0000, w2 % 0x40 * 4, w2 / 0x40 * 4)
  }

  function Word0(i: Inode): uint32
    requires i.Fits()
  {
    i.mode + i.uid * 0x1_0000
  }

  function Word1(i: Inode): uint32
    requires i.Fits()
  {
    i.size + i.gid * 0x100_0000
  }

  function Word2(i: Inode): uint32
    requires i.Fits()
  {
    i.nameLen / 4 + i.offset / 4 * 0x40
  }

  function PutInode(i: Inode, bigEndian: bool): (s: bytes)
    requires i.Fits()
    ensures |s| == INODE_SIZE
  {
    PutU32(Word0(i), bigEndian) + (PutU32(Word1(i), bigEndian) + PutU32(Word2(i), bigEndian))
  }

  /** Packing and unpacking the three words are inverse to each other. */
  lemma WordsRoundTrip(i: Inode, w0: uint32, w1: uint32, w2: uint32)
    requires i.Fits()
    ensures i == InodeOfWords(w0, w1, w2) <==> w0 == Word0(i) && w1 == Word1(i) && w2 == Word2(i)
  {
    var n, o := i.nameLen / 4, i.offset / 4;
    assert i.nameLen == n * 4 && i.offset == o * 4;
    assert (n + o * 0x40) % 0x40 == n && (n + o * 0x40) / 0x40 == o;
  }

  /** Twelve bytes are three words exactly when each word is where it belongs. */
  lemma ThreeWords(img: bytes, p: nat, a: bytes, b: bytes, c: bytes)
    requires p + 12 <= |img| && |a| == |b| == |c| == 4
    ensures img[p..p + 12] == a + (b + c) <==> img[p..p + 4] == a && img[p + 4..p + 8] == b && img[p + 8..p + 12] == c
  {
    assert img[p..p + 12] == img[p..p + 4] + (img[p + 4..p + 8] + img[p + 8..p + 12]);
    if img[p..p + 12] == a + (b + c) {
      var s := a + (b + c);
      assert s[..4] == a && s[4..8] == b && s[8..] == c;
      assert img[p..p + 4] == img[p..p + 12][..4] && img[p + 4..p + 8] == img[p..p + 12][4..8] &&
        img[p + 8..p + 12] == img[p..p + 12][8..];
    }
  }

  /** Twelve bytes decode to an inode exactly when they are its encoding. */
  lemma InodeCodec(img: bytes, p: nat, i: Inode, bigEndian: bool)
    requires p + INODE_SIZE <= |img| && i.Fits()
    ensures DecodeInode(img, p, bigEndian) == i <==> img[p..p + INODE_SIZE] == PutInode(i, bigEndian)
  {
    hide U32, PutU32, InodeOfWords, Word0, Word1, Word2;
    WordsRoundTrip(i, U32(img, p, bigEndian), U32(img, p + 4, bigEndian), U32(img, p + 8, bigEndian));
    U32Codec(img, p, Word0(i), bigEndian);
    U32Codec(img, p + 4, Word1(i), bigEndian);
    U32Codec(img, p + 8, Word2(i), bigEndian);
    ThreeWords(img, p, PutU32(Word0(i), bigEndian), PutU32(Word1(i), bigEndian), PutU32(Word2(i), bigEndian));
  }

  // ----- the superblock -----

  datatype Super = Super(size: uint32, bigEndian: bool, root: Inode)

  function ReadSuperblock(img: bytes): Option<Super> {
    if |img| < SUPER_SIZE then None
    else if U32(img, 0, false) == MAGIC then SuperOf(img, false)
    else if U32(img, 0, true) == MAGIC then SuperOf(img, true)
    else None
  }

  function SuperOf(img: bytes, bigEndian: bool): Option<Super>
    requires |img| >= SUPER_SIZE
  {
    var size := U32(img, 4, bigEndian);
    if size < SUPER_SIZE then None else Some(Super(size, bigEndian, DecodeInode(img, ROOT_INODE_OFFSET, bigEndian)))
  }

  datatype Volume = Volume(img: bytes, zlib: Inflater, sb: Super)

  // ----- directories -----

  /** Where a directory's entries are. */
  datatype Region = Region(offset: nat, size: nat)

  datatype DirEntry = DirEntry(inode: Inode, name: bytes)

  /** What is left of a directory: the next position, and how many bytes still belong to it. */
  datatype Rest = Rest(pos: nat, remaining: nat)

  function TrimNuls(raw: bytes): bytes {
    if raw != [] && raw[|raw| - 1] == NUL then TrimNuls(raw[..|raw| - 1]) else raw
  }

  /** One entry: an inode, then its name padded with NULs to whole words. */
  function ParseEntry(img: bytes, bigEndian: bool, p: Rest): (r: Option<(DirEntry, Rest)>)
    ensures r.Some? ==> var q := r.value.1;
              q.pos + q.remaining == p.pos + p.remaining && q.remaining < p.remaining && q.pos <= |img|
  {
    if p.remaining < INODE_SIZE || p.pos + INODE_SIZE > |img| then None
    else
      var inode := DecodeInode(img, p.pos, bigEndian);
      var name := p.pos + INODE_SIZE;
      var remaining := p.remaining - INODE_SIZE;
      if inode.nameLen == 0 || inode.nameLen > remaining || name + inode.nameLen > |img| then None
      else Some((DirEntry(inode, TrimNuls(img[name..name + inode.nameLen])),
                 Rest(name + inode.nameLen, remaining - inode.nameLen)))
  }

  /** All entries of a directory, or None unless they use up its size exactly. */
  function ParseDir(img: bytes, bigEndian: bool, p: Rest): Option<seq<DirEntry>>
    decreases p.remaining
  {
    if p.remaining == 0 then Some([])
    else
      var first :- ParseEntry(img, bigEndian, p);
      var more :- ParseDir(img, bigEndian, first.1);
      Some([first.0] + more)
  }

  /** An entry that can be written: its name ends in no NUL and fits the declared length. */
  ghost predicate EntryFits(e: DirEntry) {
    && e.inode.Fits() && e.inode.nameLen > 0 && |e.name| <= e.inode.nameLen
    && (e.name != [] ==> e.name[|e.name| - 1] != NUL)
  }

  function PutEntry(e: DirEntry, bigEndian: bool): (s: bytes)
    requires EntryFits(e)
    ensures |s| == INODE_SIZE + e.inode.nameLen
  {
    PutInode(e.inode, bigEndian) + (e.name + Zeros(e.inode.nameLen - |e.name|))
  }

  ghost predicate DirFits(es: seq<DirEntry>) {
    forall i :: 0 <= i < |es| ==> EntryFits(es[i])
  }

  function PutDir(es: seq<DirEntry>, bigEndian: bool): bytes
    requires DirFits(es)
  {
    if es == [] then [] else PutEntry(es[0], bigEndian) + PutDir(es[1..], bigEndian)
  }

  lemma {:induction false} TrimPadded(name: bytes, n: nat)
    requires name != [] ==> name[|name| - 1] != NUL
    ensures TrimNuls(name + Zeros(n)) == name
  {
    var raw := name + Zeros(n);
    if n > 0 {
      assert raw[..|raw| - 1] == name + Zeros(n - 1);
      TrimPadded(name, n - 1);
    } else {
      assert raw == name;
    }
  }

  lemma {:induction false} TrimLeavesPadding(raw: bytes)
    ensures var name := TrimNuls(raw);
            && |name| <= |raw| && (name != [] ==> name[|name| - 1] != NUL)
            && raw == name + Zeros(|raw| - |name|)
  {
    if raw != [] && raw[|raw| - 1] == NUL {
      var n := |raw| - 1;
      TrimLeavesPadding(raw[..n]);
      assert raw == raw[..n] + [NUL];
      var pad := n - |TrimNuls(raw[..n])|;
      assert Zeros(pad) + [NUL] == Zeros(pad + 1);
    } else {
      assert raw + Zeros(0) == raw;
    }
  }

  /** What the parser makes of a region with room for the entry. */
  lemma EntryParts(img: bytes, bigEndian: bool, p: Rest, e: DirEntry)
    requires EntryFits(e) && INODE_SIZE + e.inode.nameLen <= p.remaining
    ensures var n := INODE_SIZE + e.inode.nameLen;
            var name := p.pos + INODE_SIZE;
            ParseEntry(img, bigEndian, p) == Some((e, Rest(p.pos + n, p.remaining - n))) <==>
            name + e.inode.nameLen <= |img| && DecodeInode(img, p.pos, bigEndian) == e.inode
            && TrimNuls(img[name..name + e.inode.nameLen]) == e.name
  {
    hide DecodeInode, TrimNuls;
  }

  /** An entry parses from a region exactly when its bytes are there and the region has room for it. */
  lemma EntryCodec(img: bytes, bigEndian: bool, p: Rest, e: DirEntry)
    requires EntryFits(e)
    ensures var n := INODE_SIZE + e.inode.nameLen;
            n <= p.remaining ==>
              (At(img, p.pos, PutEntry(e, bigEndian)) <==>
               ParseEntry(img, bigEndian, p) == Some((e, Rest(p.pos + n, p.remaining - n))))
  {
    hide DecodeInode, PutInode, TrimNuls, Zeros, ParseEntry;
    var padded := e.name + Zeros(e.inode.nameLen - |e.name|);
    AtSplits(img, p.pos, PutInode(e.inode, bigEndian), padded);
    if INODE_SIZE + e.inode.nameLen <= p.remaining {
      EntryParts(img, bigEndian, p, e);
    }
    var name := p.pos + INODE_SIZE;
    if name <= |img| {
      InodeCodec(img, p.pos, e.inode, bigEndian);
    }
    if name + e.inode.nameLen <= |img| {
      NameCodec(img[name..name + e.inode.nameLen], e.name);
    }
  }

  /** Padding and trimming a name are inverse to each other. */
  lemma NameCodec(raw: bytes, name: bytes)
    requires |name| <= |raw| && (name != [] ==> name[|name| - 1] != NUL)
    ensures raw == name + Zeros(|raw| - |name|) <==> TrimNuls(raw) == name
  {
    hide TrimNuls;
    TrimPadded(name, |raw| - |name|);
    TrimLeavesPadding(raw);
  }

  lemma ParsedEntryFits(img: bytes, bigEndian: bool, p: Rest)
    requires ParseEntry(img, bigEndian, p).Some?
    ensures EntryFits(ParseEntry(img, bigEndian, p).value.0)
  {
    hide DecodeInode, TrimNuls;
    var name := p.pos + INODE_SIZE;
    var inode := DecodeInode(img, p.pos, bigEndian);
    TrimLeavesPadding(img[name..name + inode.nameLen]);
  }

  /** Writing entries and walking exactly that region gives them back, in either byte order. */
  lemma {:induction false} DirRoundTrip(img: bytes, bigEndian: bool, pos: nat, es: seq<DirEntry>)
    requires DirFits(es) && At(img, pos, PutDir(es, bigEndian))
    ensures ParseDir(img, bigEndian, Rest(pos, |PutDir(es, bigEndian)|)) == Some(es)
    decreases |es|
  {
    hide ParseEntry, PutEntry;
    if es == [] {
    } else {
      var more := PutDir(es[1..], bigEndian);
      AtSplits(img, pos, PutEntry(es[0], bigEndian), more);
      EntryCodec(img, bigEndian, Rest(pos, |PutDir(es, bigEndian)|), es[0]);
      DirRoundTrip(img, bigEndian, pos + |PutEntry(es[0], bigEndian)|, es[1..]);
      assert [es[0]] + es[1..] == es;
    }
  }

  /** A directory parses only from a region that is, byte for byte, its written entries. */
  lemma {:induction false} DirIsWritten(img: bytes, bigEndian: bool, p: Rest)
    requires ParseDir(img, bigEndian, p).Some?
    requires p.pos <= |img|
    ensures var es := ParseDir(img, bigEndian, p).value;
            DirFits(es) && |PutDir(es, bigEndian)| == p.remaining && At(img, p.pos, PutDir(es, bigEndian))
    decreases p.remaining
  {
    hide ParseEntry, PutEntry;
    if p.remaining > 0 {
      ParsedEntryFits(img, bigEndian, p);
      var first := ParseEntry(img, bigEndian, p).value;
      EntryIsThere(img, bigEndian, p);
      DirIsWritten(img, bigEndian, first.1);
      var more := ParseDir(img, bigEndian, first.1).value;
      assert ([first.0] + more)[1..] == more;
      AtSplits(img, p.pos, PutEntry(first.0, bigEndian), PutDir(more, bigEndian));
    } else {
      assert img[p.pos..p.pos] == [];
    }
  }

  lemma EntryIsThere(img: bytes, bigEndian: bool, p: Rest)
    requires ParseEntry(img, bigEndian, p).Some?
    ensures var e, q := ParseEntry(img, bigEndian, p).value.0, ParseEntry(img, bigEndian, p).value.1;
            EntryFits(e) && At(img, p.pos, PutEntry(e, bigEndian)) && q.pos == p.pos + |PutEntry(e, bigEndian)|
            && p.remaining == |PutEntry(e, bigEndian)| + q.remaining
  {
    hide DecodeInode, TrimNuls, PutEntry;
    ParsedEntryFits(img, bigEndian, p);
    var e := ParseEntry(img, bigEndian, p).value.0;
    EntryCodec(img, bigEndian, p, e);
  }

  // ----- files -----

  /** The number of blocks of a file. */
  function BlockCount(size: nat): nat {
    (size + BLOCK_SIZE - 1) / BLOCK_SIZE
  }

  /** How long block `i` is: a whole block, or what is left of the file. */
  function BlockLen(size: nat, i: nat): nat
    requires i * BLOCK_SIZE <= size
  {
    if i * BLOCK_SIZE + BLOCK_SIZE > size then size - i * BLOCK_SIZE else BLOCK_SIZE
  }

  /** A block pointer, checked against the end of the previous block and the image's declared size. */
  function ReadBlockPointer(v: Volume, ptrPos: nat, prevEnd: nat): Option<nat> {
    if ptrPos + 4 > |v.img| then None
    else
      var next := U32(v.img, ptrPos, v.sb.bigEndian);
      if next < prevEnd || next > v.sb.size then None else Some(next)
  }

  /** One block; an empty span on disk is a hole. */
  function FetchBlock(v: Volume, expectedLen: nat, prevEnd: nat, next: nat): (r: Option<bytes>)
    requires prevEnd <= next
    ensures r.Some? ==> |r.value| == expectedLen
  {
    if prevEnd == next then Some(Zeros(expectedLen))
    else if next > |v.img| then None
    else
      var out :- v.zlib(v.img[prevEnd..next], BLOCK_SIZE);
      if |out| != expectedLen then None else Some(out)
  }

  /** The content of the first blocks, and where the last of them ends on disk. */
  datatype Progress = Progress(content: bytes, prevEnd: nat)

  function FirstBlocks(v: Volume, inode: Inode, i: nat): (r: Option<Progress>)
    requires i <= BlockCount(inode.size)
    ensures r.Some? ==> |r.value.content| == if i * BLOCK_SIZE <= inode.size then i * BLOCK_SIZE else inode.size
    decreases i
  {
    if i == 0 then Some(Progress([], inode.offset + 4 * BlockCount(inode.size)))
    else
      var p :- FirstBlocks(v, inode, i - 1);
      var next :- ReadBlockPointer(v, inode.offset + 4 * (i - 1), p.prevEnd);
      var data :- FetchBlock(v, BlockLen(inode.size, i - 1), p.prevEnd, next);
      Some(Progress(p.content + data, next))
  }

  function FileContent(v: Volume, inode: Inode): Option<bytes> {
    var p :- FirstBlocks(v, inode, BlockCount(inode.size));
    Some(p.content)
  }

  lemma {:induction false} FirstBlocksFail(v: Volume, inode: Inode, i: nat)
    requires i <= BlockCount(inode.size) && FirstBlocks(v, inode, i) == None
    ensures FileContent(v, inode) == None
    decreases BlockCount(inode.size) - i
  {
    hide ReadBlockPointer, FetchBlock, BlockCount;
    if i < BlockCount(inode.size) {
      FirstBlocksFail(v, inode, i + 1);
    }
  }

  method ExtractRegularFile(v: Volume, inode: Inode) returns (r: Option<bytes>)
    ensures r == FileContent(v, inode)
  {
    hide FetchBlock, ReadBlockPointer;
    var nblocks := BlockCount(inode.size);
    var out: bytes := [];
    var ptrPos := inode.offset;
    var prevEnd: nat := inode.offset + 4 * nblocks;
    for i := 0 to nblocks
      invariant ptrPos == inode.offset + 4 * i
      invariant FirstBlocks(v, inode, i) == Some(Progress(out, prevEnd))
    {
      var next := ReadBlockPointer(v, ptrPos, prevEnd);
      ptrPos := ptrPos + 4;
      if next.None? {
        FirstBlocksFail(v, inode, i + 1);
        return None;
      }
      PointerIsChecked(v, inode.offset + 4 * i, prevEnd);
      var expectedLen := BLOCK_SIZE;
      if |out| + expectedLen > inode.size {
        expectedLen := inode.size - |out|;
      }
      var data := FetchBlock(v, expectedLen, prevEnd, next.value);
      if data.None? {
        FirstBlocksFail(v, inode, i + 1);
        return None;
      }
      out := out + data.value;
      prevEnd := next.value;
    }
    return Some(out);
  }

  lemma PointerIsChecked(v: Volume, ptrPos: nat, prevEnd: nat)
    requires ReadBlockPointer(v, ptrPos, prevEnd).Some?
    ensures prevEnd <= ReadBlockPointer(v, ptrPos, prevEnd).value <= v.sb.size
  {
  }

  /** Where the compressed data of the first `i` blocks ends: after the pointer array, or at the pointer itself. */
  function SpanEnd(v: Volume, inode: Inode, i: nat): nat
  {
    if i == 0 then inode.offset + 4 * BlockCount(inode.size)
    else if inode.offset + 4 * i > |v.img| then 0
    else U32(v.img, inode.offset + 4 * (i - 1), v.sb.bigEndian)
  }

  lemma {:induction false} ProgressFollowsPointers(v: Volume, inode: Inode, i: nat)
    requires i <= BlockCount(inode.size)
    requires FirstBlocks(v, inode, i).Some?
    ensures FirstBlocks(v, inode, i).value.prevEnd == SpanEnd(v, inode, i)
    decreases i
  {
    hide FetchBlock;
    if i == 0 {
    } else {
      ProgressFollowsPointers(v, inode, i - 1);
    }
  }

  lemma {:induction false} EarlierBlocksSucceed(v: Volume, inode: Inode, i: nat, n: nat)
    requires i <= n <= BlockCount(inode.size)
    requires FirstBlocks(v, inode, n).Some?
    ensures FirstBlocks(v, inode, i).Some?
    ensures FirstBlocks(v, inode, i).value.content <= FirstBlocks(v, inode, n).value.content
    decreases n - i
  {
    hide FetchBlock, ReadBlockPointer;
    if i < n {
      EarlierBlocksSucceed(v, inode, i, n - 1);
    }
  }

  /** An extracted file has exactly the size its inode declares, and its pointer array lies in the image. */
  lemma FileHasItsSize(v: Volume, inode: Inode)
    requires FileContent(v, inode).Some?
    ensures |FileContent(v, inode).value| == inode.size
    ensures inode.size > 0 ==> inode.offset + 4 * BlockCount(inode.size) <= |v.img|
  {
    hide FetchBlock;
    var n := BlockCount(inode.size);
    if n > 0 {
      EarlierBlocksSucceed(v, inode, n - 1, n);
    }
  }

  /** One block, in terms of the pointers around it. */
  lemma BlockStep(v: Volume, inode: Inode, i: nat)
    requires FileContent(v, inode).Some? && i < BlockCount(inode.size)
    ensures FirstBlocks(v, inode, i).Some? && FirstBlocks(v, inode, i + 1).Some?
    ensures SpanEnd(v, inode, i) <= SpanEnd(v, inode, i + 1) <= v.sb.size
    ensures var data := FetchBlock(v, BlockLen(inode.size, i), SpanEnd(v, inode, i), SpanEnd(v, inode, i + 1));
            data.Some? &&
              FirstBlocks(v, inode, i + 1).value.content == FirstBlocks(v, inode, i).value.content + data.value
    ensures FirstBlocks(v, inode, i + 1).value.content <= FileContent(v, inode).value
  {
    hide FetchBlock, U32, SpanEnd;
    var n := BlockCount(inode.size);
    EarlierBlocksSucceed(v, inode, i, n);
    EarlierBlocksSucceed(v, inode, i + 1, n);
    ProgressFollowsPointers(v, inode, i);
    ProgressFollowsPointers(v, inode, i + 1);
  }

  /**
   The blocks of an extracted file tile it and its data on disk: block `i` fills the file from i * 4096, and its
   span starts where the previous one ends, never runs backwards, and stays within the declared image size.
   */
  lemma BlocksTile(v: Volume, inode: Inode, i: nat)
    requires FileContent(v, inode).Some? && i < BlockCount(inode.size)
    ensures var content, lo := FileContent(v, inode).value, i * BLOCK_SIZE;
            && SpanEnd(v, inode, i) <= SpanEnd(v, inode, i + 1) <= v.sb.size
            && lo < inode.size == |content|
            && BlockLen(inode.size, i) == (if i == BlockCount(inode.size) - 1 then inode.size - lo else BLOCK_SIZE)
            && FetchBlock(v, BlockLen(inode.size, i), SpanEnd(v, inode, i), SpanEnd(v, inode, i + 1)) ==
               Some(content[lo..lo + BlockLen(inode.size, i)])
  {
    hide FetchBlock, U32, SpanEnd, FileContent;
    FileHasItsSize(v, inode);
    BlockStep(v, inode, i);
    hide FirstBlocks;
    var content, lo, len := FileContent(v, inode).value, i * BLOCK_SIZE, BlockLen(inode.size, i);
    var before, after := FirstBlocks(v, inode, i).value.content, FirstBlocks(v, inode, i + 1).value.content;
    var data := FetchBlock(v, len, SpanEnd(v, inode, i), SpanEnd(v, inode, i + 1)).value;
    assert after == before + data;
    assert content[lo..lo + len] == content[..lo + len][lo..] == after[lo..] == data;
  }

  // ----- the walk -----

  /** What an entry names. */
  function ChildOf(v: Volume, e: DirEntry): Child<Region> {
    Child(e.name,
          if e.inode.FileType() == TYPE_DIRECTORY then Folder(Region(e.inode.offset, e.inode.size))
          else if e.inode.FileType() == TYPE_REGULAR then Regular(e.inode.size, FileContent(v, e.inode))
          else Special(e.inode.size))
  }

  function ChildOfEntry(v: Volume): DirEntry -> Option<Child<Region>> {
    (e: DirEntry) => Some(ChildOf(v, e))
  }

  /** The entries of a directory, whose region must lie within the declared image size. */
  function DirEntries(v: Volume, d: Region): Option<seq<DirEntry>> {
    if d.offset > v.sb.size || d.size > v.sb.size - d.offset then None
    else ParseDir(v.img, v.sb.bigEndian, Rest(d.offset, d.size))
  }

  function Children(v: Volume): Region -> Option<seq<Child<Region>>> {
    (d: Region) =>
      var es := DirEntries(v, d);
      if es.None? then None else ChildrenOf(ChildOfEntry(v), es.value)
  }

  lemma ParseNext(img: bytes, bigEndian: bool, p: Rest)
    requires p.remaining > 0
    ensures ParseDir(img, bigEndian, p) ==
            if ParseEntry(img, bigEndian, p).None? then None
            else Prepended([ParseEntry(img, bigEndian, p).value.0],
                                ParseDir(img, bigEndian, ParseEntry(img, bigEndian, p).value.1))
  {
    hide ParseEntry;
  }

  lemma ParseEnd(img: bytes, bigEndian: bool, pos: nat)
    ensures ParseDir(img, bigEndian, Rest(pos, 0)) == Some([])
  {
  }

  /** What walking these entries does to a state. */
  ghost function RunEntries(v: Volume, sink: Sink, st: State, es: Option<seq<DirEntry>>, parent: bytes,
                            depth: nat): Option<State>
    requires depth <= MAX_DIR_DEPTH
  {
    Run(sink, st, if es.None? then None else AllRecordVisits(Children(v), ChildOfEntry(v), es.value, parent, depth))
  }

  /** The loop that drops the padding after a name. */
  method TrimName(raw: bytes) returns (realLen: nat)
    ensures realLen <= |raw| && raw[..realLen] == TrimNuls(raw)
  {
    realLen := |raw|;
    assert raw[..realLen] == raw;
    while realLen > 0 && raw[realLen - 1] == NUL
      invariant realLen <= |raw|
      invariant TrimNuls(raw[..realLen]) == TrimNuls(raw)
    {
      assert raw[..realLen][..realLen - 1] == raw[..realLen - 1];
      realLen := realLen - 1;
    }
  }

  /** Reads one entry and moves the shared position and budget past it; their sum stays the same. */
  method ReadEntry(v: Volume, pos: nat, remaining: nat) returns (e: Option<DirEntry>, newPos: nat, newRemaining: nat)
    ensures var p := ParseEntry(v.img, v.sb.bigEndian, Rest(pos, remaining));
            && (e.Some? <==> p.Some?)
            && (e.Some? ==> p == Some((e.value, Rest(newPos, newRemaining))))
    ensures newPos + newRemaining == pos + remaining
  {
    hide DecodeInode, TrimNuls;
    newPos, newRemaining := pos, remaining;
    if newRemaining < INODE_SIZE || newPos + INODE_SIZE > |v.img| {
      return None, newPos, newRemaining;
    }
    var inode := DecodeInode(v.img, newPos, v.sb.bigEndian);
    newPos, newRemaining := newPos + INODE_SIZE, newRemaining - INODE_SIZE;
    if inode.nameLen == 0 || inode.nameLen > newRemaining || newPos + inode.nameLen > |v.img| {
      return None, newPos, newRemaining;
    }
    var raw := v.img[newPos..newPos + inode.nameLen];
    newPos, newRemaining := newPos + inode.nameLen, newRemaining - inode.nameLen;
    var realLen := TrimName(raw);
    return Some(DirEntry(inode, raw[..realLen])), newPos, newRemaining;
  }

  method WalkDirectory(ctx: WalkContext, v: Volume, d: Region, parent: bytes, depth: nat) returns (ok: bool)
    modifies ctx
    ensures ctx.Matches(ok, Run(ctx.sink, old(ctx.Now()), DirVisits(Children(v), d, parent, depth)))
    decreases if depth <= MAX_DIR_DEPTH then MAX_DIR_DEPTH + 1 - depth else 0, 1
  {
    hide Run, ParseDir, ParseEntry, AllRecordVisits, RecordVisits;
    ghost var before := ctx.Now();
    ghost var all := DirEntries(v, d);
    RunNone<Region>(ctx.sink, before, None);
    if depth > MAX_DIR_DEPTH {
      return false;
    }
    DirVisitsAreEntries(v, ctx.sink, before, d, parent, depth);
    if d.offset > v.sb.size || d.size > v.sb.size - d.offset {
      return false;
    }
    var pos: nat, remaining: nat := d.offset, d.size;
    ghost var done: seq<DirEntry> := [];
    NothingVisited(Children(v), ChildOfEntry(v), ctx.sink, before, parent, depth);
    PrependNothing(all);
    while remaining > 0
      invariant pos + remaining == d.offset + d.size <= v.sb.size
      invariant all == Prepended(done, ParseDir(v.img, v.sb.bigEndian, Rest(pos, remaining)))
      invariant RunEntries(v, ctx.sink, before, Some(done), parent, depth) == Some(ctx.Now())
    {
      ParseNext(v.img, v.sb.bigEndian, Rest(pos, remaining));
      var e, newPos, newRemaining := ReadEntry(v, pos, remaining);
      if e.None? {
        return false;
      }
      ghost var more := ParseDir(v.img, v.sb.bigEndian, Rest(newPos, newRemaining));
      PrependAssoc(done, e.value, more);
      pos, remaining := newPos, newRemaining;
      VisitStep(Children(v), ChildOfEntry(v), ctx.sink, before, done, e.value,
                if more.Some? then more.value else [], parent, depth);
      ok := VisitEntry(ctx, v, e.value, parent, depth);
      if !ok {
        assert more.Some? ==> done + [e.value] + more.value == done + ([e.value] + more.value);
        return false;
      }
      done := done + [e.value];
    }
    ParseEnd(v.img, v.sb.bigEndian, pos);
    assert done + [] == done;
    return true;
  }

  lemma DirVisitsAreEntries(v: Volume, sink: Sink, st: State, d: Region, parent: bytes, depth: nat)
    requires depth <= MAX_DIR_DEPTH
    ensures Run(sink, st, DirVisits(Children(v), d, parent, depth)) ==
            RunEntries(v, sink, st, DirEntries(v, d), parent, depth)
  {
    hide Run, DirEntries, ChildrenVisits;
  }

  method VisitEntry(ctx: WalkContext, v: Volume, e: DirEntry, parent: bytes, depth: nat) returns (ok: bool)
    requires depth <= MAX_DIR_DEPTH
    modifies ctx
    ensures ctx.Matches(ok, Run(ctx.sink, old(ctx.Now()), RecordVisits(Children(v), ChildOfEntry(v), e, parent, depth)))
    decreases MAX_DIR_DEPTH + 1 - depth, 0
  {
    hide Run, Apply, DirVisits, FileContent, IsSafe, IsPlainName, Children, Inode.FileType;
    ghost var visits := RecordVisits(Children(v), ChildOfEntry(v), e, parent, depth);
    ghost var before := ctx.Now();
    if visits.None? {
      RunNone(ctx.sink, before, visits);
    }
    var safe := PathComponentIsSafe(e.name);
    if !safe {
      return false;
    }
    var path := ChildPath(parent, e.name);
    if |path| >= PATH_CAP {
      return false;
    }
    var isDir := e.inode.FileType() == TYPE_DIRECTORY;
    ghost var visit := Visit(path, ChildOf(v, e).kind);
    var region := Region(e.inode.offset, e.inode.size);
    ghost var inside := if isDir then DirVisits(Children(v), region, path, depth + 1) else None;
    RunOne(ctx.sink, before, visit, inside);
    ctx.AddEntry(path, isDir, if isDir then 0 else e.inode.size);
    if ctx.sink.Extracting? {
      ok := WriteChild(ctx, v, e, path, visit);
      if !ok {
        return false;
      }
    } else {
      ListingWritesNothing(ctx.sink, before.tree, visit);
    }
    if isDir {
      ok := WalkDirectory(ctx, v, region, path, depth + 1);
    } else {
      ok := true;
    }
  }

  /** The extraction half of a visit. */
  method WriteChild(ctx: WalkContext, v: Volume, e: DirEntry, path: bytes, ghost visit: Visit<Region>)
    returns (ok: bool)
    requires ctx.sink.Extracting? && visit == Visit(path, ChildOf(v, e).kind)
    modifies ctx
    ensures ctx.entries == old(ctx.entries)
    ensures ok <==> Apply(ctx.sink, old(ctx.tree), visit).Some?
    ensures ok ==> Some(ctx.tree) == Apply(ctx.sink, old(ctx.tree), visit)
  {
    hide MakeDirectory, WriteFile, FileContent;
    if !DiskPathFits(ctx.sink, path) {
      return false;
    }
    if e.inode.FileType() == TYPE_DIRECTORY {
      ok := ctx.MakeDirectoryAt(path);
    } else if e.inode.FileType() == TYPE_REGULAR {
      var content := ExtractRegularFile(v, e.inode);
      if content.None? {
        return false;
      }
      ok := ctx.WriteFileAt(path, content.value);
    } else {
      ok := true;
    }
  }

  // ----- a whole image -----

  function ReadImage(img: bytes, zlib: Inflater, sink: Sink, tree: Tree): Option<State> {
    var sb :- ReadSuperblock(img);
    var v := Volume(img, zlib, sb);
    if sink.Extracting? && !sink.host([]) then None
    else Run(sink, State([], tree), DirVisits(Children(v), Region(sb.root.offset, sb.root.size), [], 0))
  }

  /** `made` says that the output directory was created; `left` is what it then holds, even after a failure. */
  method RunImage(img: bytes, zlib: Inflater, sink: Sink, tree: DiskTree)
    returns (r: Option<State>, made: bool, left: DiskTree)
    ensures r == ReadImage(img, zlib, sink, tree)
    ensures made <==> sink.Extracting? && ReadSuperblock(img).Some? && sink.host([])
    ensures sink.Extracting? && !made ==> r.None? && left == tree
    ensures r.Some? ==> left == r.value.tree
  {
    hide Run, DirVisits, Children, ReadSuperblock;
    var sb := ReadSuperblock(img);
    if sb.None? || (sink.Extracting? && !sink.host([])) {
      return None, false, tree;
    }
    made := sink.Extracting?;
    var ctx := new WalkContext(sink, tree);
    var ok := WalkDirectory(ctx, Volume(img, zlib, sb.value), Region(sb.value.root.offset, sb.value.root.size), [], 0);
    r, left := if ok then Some(ctx.Now()) else None, ctx.tree;
  }

  // ----- what reading an image means -----

  /** A walked directory is, byte for byte, written entries inside its region and inside the declared image size. */
  lemma DirectoryStaysInItsRegion(v: Volume, d: Region)
    requires DirEntries(v, d).Some?
    ensures var es := DirEntries(v, d).value;
            && DirFits(es) && |PutDir(es, v.sb.bigEndian)| == d.size && d.offset + d.size <= v.sb.size
            && (d.size > 0 ==> At(v.img, d.offset, PutDir(es, v.sb.bigEndian)))
  {
    hide ParseEntry;
    if d.size > 0 {
      DirIsWritten(v.img, v.sb.bigEndian, Rest(d.offset, d.size));
    }
  }

  lemma PutDirIsEmpty(es: seq<DirEntry>, bigEndian: bool)
    requires DirFits(es)
    ensures PutDir(es, bigEndian) == [] <==> es == []
  {
    if |es| > 0 {
      assert |PutEntry(es[0], bigEndian)| > 0;
    }
  }

  /** Entries written to a region that the image declares are what walking the region shows. */
  lemma WrittenDirectoryReadsBack(v: Volume, d: Region, es: seq<DirEntry>)
    requires DirFits(es) && (d.size > 0 ==> At(v.img, d.offset, PutDir(es, v.sb.bigEndian)))
    requires d.size == |PutDir(es, v.sb.bigEndian)|
    ensures DirEntries(v, d) == if d.offset + d.size <= v.sb.size then Some(es) else None
  {
    if d.size == 0 {
      PutDirIsEmpty(es, v.sb.bigEndian);
      ParseEnd(v.img, v.sb.bigEndian, d.offset);
    } else {
      hide ParseDir, PutDir;
      DirRoundTrip(v.img, v.sb.bigEndian, d.offset, es);
    }
  }

  /** Whenever extraction succeeds, listing succeeds with the same entries. */
  lemma ListingAgreesWithExtraction(img: bytes, zlib: Inflater, sink: Sink, tree: Tree)
    requires ReadImage(img, zlib, sink, tree).Some?
    ensures ReadImage(img, zlib, Listing, tree) == Some(State(ReadImage(img, zlib, sink, tree).value.entries, tree))
  {
    hide Run, DirVisits, Children, ReadSuperblock;
    var sb := ReadSuperblock(img).value;
    var v := Volume(img, zlib, sb);
    ListingAgrees(Children(v), Children(v), Region(sb.root.offset, sb.root.size), sink, tree);
  }

  /** What extraction leaves at a path: exactly what the last visit to it wrote, and only safe paths. */
  lemma ExtractedTree(img: bytes, zlib: Inflater, sink: Sink, p: bytes)
    requires sink.Extracting? && ReadImage(img, zlib, sink, map[]).Some?
    ensures var sb := ReadSuperblock(img).value;
            var tree := ReadImage(img, zlib, sink, map[]).value.tree;
            var last :=
              LastAt(DirVisits(Children(Volume(img, zlib, sb)), Region(sb.root.offset, sb.root.size), [], 0).value, p);
            && (p in tree <==> last.Some?)
            && (p in tree ==> tree[p] == NodeOf(last.value) && PathIsSafe(p) && p != [])
  {
    hide DirVisits, ReadSuperblock, Children, LastAt, NodeOf, ApplyAll;
    var sb := ReadSuperblock(img).value;
    ExtractionHoldsItsVisits(Children(Volume(img, zlib, sb)), Region(sb.root.offset, sb.root.size), sink, p);
  }
}
