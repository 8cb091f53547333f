/** Rebuilding a SquashFS file from its data blocks and its tail in a shared fragment block. */
module SquashfsFile {
  import opened Bytes
  import opened SquashfsStream
  import opened SquashfsInode

  // ----- the fragment table -----

  /** One fragment block: where it is, and its size with the stored-uncompressed flag. */
  datatype FragEntry = FragEntry(start: uint64, sizeField: uint32)

  const FRAG_ENTRY: seq<nat> := [8, 4, 4]
  const FRAG_ENTRY_SIZE := 16

  /** The low 24 bits of a size field. */
  function SizeOf(raw: uint32): nat {
    raw % 0x100_0000
  }

  /** Bit 24 of a size field marks data stored uncompressed. */
  predicate IsCompressed(raw: uint32) {
    raw / 0x100_0000 % 2 == 0
  }

  function ParseFragEntry(s: bytes): Option<FragEntry> {
    Pow256Widths();
    var f :- Fields(s, FRAG_ENTRY);
    Some(FragEntry(f[0], f[1]))
  }

  /** The two-level lookup: an array of block offsets, and blocks of 512 entries. */
  function FragmentEntry(v: Volume, fragIndex: uint32): Option<FragEntry> {
    if fragIndex >= v.sb.fragments then None
    else
      var lookup := TableOffset(v.sb.fragmentTableStart, fragIndex / FRAGMENTS_PER_METADATA_BLOCK * 8);
      if lookup + 8 > |v.img| then None
      else
        var s :- StreamAt(v.Src(), LeField(v.img, lookup, 8),
                          fragIndex % FRAGMENTS_PER_METADATA_BLOCK * FRAG_ENTRY_SIZE);
        ParseFragEntry(s)
  }

  method ReadFragmentEntry(v: Volume, fragIndex: uint32) returns (r: Option<FragEntry>)
    ensures r == FragmentEntry(v, fragIndex)
  {
    hide LoadBlock, FlatStream, Fields, StreamAt, MetadataCursor.Remaining, Sum, Le;
    if fragIndex >= v.sb.fragments {
      return None;
    }
    var blockIdx := fragIndex / FRAGMENTS_PER_METADATA_BLOCK;
    var entryIdx := fragIndex % FRAGMENTS_PER_METADATA_BLOCK;
    var lookup := TableOffset(v.sb.fragmentTableStart, blockIdx * 8);
    if lookup + 8 > |v.img| {
      return None;
    }
    var c := new MetadataCursor(v.Src(), LeField(v.img, lookup, 8));
    var ok := c.Seek(entryIdx * FRAG_ENTRY_SIZE);
    if !ok {
      return None;
    }
    var f := c.ReadFields(FRAG_ENTRY);
    Pow256Widths();
    return if f.None? then None else Some(FragEntry(f.value[0], f.value[1]));
  }

  /** A fragment entry as it is written; nobody reads its last word. */
  datatype StoredFragment = StoredFragment(entry: FragEntry, unused: uint32)

  function PutFragEntry(e: StoredFragment): (s: bytes)
    ensures |s| == 16
  {
    PutFields([e.entry.start, e.entry.sizeField, e.unused], [8, 4, 4])
  }

  function PutFragEntries(es: seq<StoredFragment>): (s: bytes)
    ensures |s| == |es| * 16
  {
    if es == [] then [] else PutFragEntry(es[0]) + PutFragEntries(es[1..])
  }

  lemma {:induction false} PutFragEntriesSuffix(es: seq<StoredFragment>, i: nat)
    requires i < |es|
    ensures i * 16 <= |PutFragEntries(es)|
    ensures PutFragEntries(es)[i * 16..] == PutFragEntry(es[i]) + PutFragEntries(es[i + 1..])
  {
    if i == 0 {
    } else {
      PutFragEntriesSuffix(es[1..], i - 1);
      var first, more := PutFragEntry(es[0]), PutFragEntries(es[1..]);
      assert (first + more)[i * 16..] == more[(i - 1) * 16..];
      assert es[1..][i..] == es[i + 1..];
    }
  }

  /** The image holds the flat table `es`: each block of up to 512 entries is where the lookup array says. */
  ghost predicate HoldsFragmentTable(v: Volume, es: seq<StoredFragment>) {
    && |es| == v.sb.fragments
    && forall b :: 0 <= b && b * 512 < |es| ==> HoldsFragmentBlock(v, es, b)
  }

  ghost predicate HoldsFragmentBlock(v: Volume, es: seq<StoredFragment>, b: nat)
    requires b * 512 < |es| == v.sb.fragments
  {
    exists lookup: nat, start: uint64, chunk: Chunk :: IsFragmentBlock(v, es, b, lookup, start, chunk)
  }

  /** The lookup array's eight bytes for block `b` lead to a metadata block with its entries. */
  ghost predicate IsFragmentBlock(v: Volume, es: seq<StoredFragment>, b: nat, lookup: nat, start: uint64, chunk: Chunk)
    requires b * 512 < |es| == v.sb.fragments
  {
    var last := if b * 512 + 512 < |es| then b * 512 + 512 else |es|;
    && LiesAt(v.sb.fragmentTableStart, b * 8, lookup) && At(v.img, lookup, PutLe(start, 8))
    && chunk.WellFormed(v.Src()) && At(v.img, start, chunk.Encoded())
    && chunk.data == PutFragEntries(es[b * 512..last])
  }

  /** Looking an index up in two levels gives the entry that the flat table holds there, and fails past its end. */
  lemma FragmentTableIsFlat(v: Volume, es: seq<StoredFragment>, fragIndex: uint32)
    requires HoldsFragmentTable(v, es)
    ensures FragmentEntry(v, fragIndex) == if fragIndex < |es| then Some(es[fragIndex].entry) else None
  {
    hide *;
    if fragIndex < |es| {
      var b, k := fragIndex / 512, fragIndex % 512;
      BlockOfIndex(|es|, fragIndex);
      var lookup, start, chunk, slice := FragmentBlock(v, es, b, k);
      PutFragEntriesSuffix(slice, k);
      var more := PutFragEntries(slice[k + 1..]);
      EntryInBlock(v, es, fragIndex, lookup, start, chunk, PutFragEntry(slice[k]), more);
      FragEntryParses(slice[k], more + FlatStream(v.Src(), start + |chunk.Encoded()|));
    } else {
      PastTheTable(v, es, fragIndex);
    }
  }

  lemma BlockOfIndex(n: nat, i: nat)
    requires i < n
    ensures var b, k := i / 512, i % 512; b * 512 + k == i && b * 512 < n && k < 512
  {
  }

  lemma PastTheTable(v: Volume, es: seq<StoredFragment>, fragIndex: uint32)
    requires HoldsFragmentTable(v, es) && fragIndex >= |es|
    ensures FragmentEntry(v, fragIndex) == None
  {
    hide HoldsFragmentBlock;
  }

  lemma FragmentBlock(v: Volume, es: seq<StoredFragment>, b: nat, k: nat)
    returns (lookup: nat, start: uint64, chunk: Chunk, slice: seq<StoredFragment>)
    requires HoldsFragmentTable(v, es) && b * 512 + k < |es| && k < 512
    ensures |es| == v.sb.fragments && IsFragmentBlock(v, es, b, lookup, start, chunk)
    ensures |chunk.Payload()| <= 8192 && chunk.data == PutFragEntries(slice)
    ensures k < |slice| && slice[k] == es[b * 512 + k]
  {
    hide PutFragEntries, At, LiesAt, Chunk.Encoded, Unpacks;
    assert HoldsFragmentBlock(v, es, b);
    lookup, start, chunk :| IsFragmentBlock(v, es, b, lookup, start, chunk);
    slice := es[b * 512..if b * 512 + 512 < |es| then b * 512 + 512 else |es|];
  }

  lemma EntryInBlock(v: Volume, es: seq<StoredFragment>, fragIndex: uint32, lookup: nat, start: uint64, chunk: Chunk,
                     entry: bytes, more: bytes)
    requires |es| == v.sb.fragments && fragIndex < |es| && fragIndex / 512 * 512 < |es| && |chunk.Payload()| <= 8192
    requires IsFragmentBlock(v, es, fragIndex / 512, lookup, start, chunk)
    requires fragIndex % 512 * 16 <= |chunk.data| && chunk.data[fragIndex % 512 * 16..] == entry + more
    ensures FragmentEntry(v, fragIndex) ==
            ParseFragEntry(entry + (more + FlatStream(v.Src(), start + |chunk.Encoded()|)))
  {
    hide LoadBlock, ParseFragEntry, FlatStream, PutFragEntries, PutLe, LeField, TableOffset, LiesAt, Chunk.Encoded,
         Chunk.WellFormed, Pow256;
    Pow256Widths();
    TableOffsetIs(v.sb.fragmentTableStart, fragIndex / 512 * 8, lookup);
    LeFieldIs(v.img, lookup, 8, start);
    ChunkLoads(v.Src(), start, chunk);
    PieceMoves(entry, more, FlatStream(v.Src(), start + |chunk.Encoded()|));
  }

  lemma FragEntryParses(e: StoredFragment, rest: bytes)
    ensures ParseFragEntry(PutFragEntry(e) + rest) == Some(e.entry)
  {
    hide Fields, PutFields;
    Pow256Widths();
    FieldsRoundTrip([e.entry.start, e.entry.sizeField, e.unused], FRAG_ENTRY, rest);
  }

  /** The fragment table's entry for an index is in the image, through the lookup array. */
  ghost predicate HoldsFragment(v: Volume, fragIndex: nat, e: StoredFragment, lookup: nat, start: uint64, cut: Cut) {
    && fragIndex < v.sb.fragments && LiesAt(v.sb.fragmentTableStart, fragIndex / 512 * 8, lookup)
    && At(v.img, lookup, PutLe(start, 8)) && HoldsAt(v.Src(), start, fragIndex % 512 * 16, cut, PutFragEntry(e))
  }

  lemma HeldFragmentIsRead(v: Volume, fragIndex: uint32, e: StoredFragment, lookup: nat, start: uint64, cut: Cut)
    requires HoldsFragment(v, fragIndex, e, lookup, start, cut)
    ensures FragmentEntry(v, fragIndex) == Some(e.entry)
  {
    hide HoldsAt, StreamAt, FlatStream, ParseFragEntry, LeField, PutLe, LiesAt, TableOffset, PutFragEntry, Pow256;
    Pow256Widths();
    TableOffsetIs(v.sb.fragmentTableStart, fragIndex / 512 * 8, lookup);
    LeFieldIs(v.img, lookup, 8, start);
    HeldIsStreamed(v.Src(), start, fragIndex % 512 * 16, cut, PutFragEntry(e));
    FragEntryParses(e, cut.after + FlatStream(v.Src(), cut.end));
  }

  lemma ReadFragmentIsHeld(v: Volume, fragIndex: uint32)
    returns (e: StoredFragment, lookup: nat, start: uint64, cut: Cut)
    requires FragmentEntry(v, fragIndex).Some?
    ensures HoldsFragment(v, fragIndex, e, lookup, start, cut) && FragmentEntry(v, fragIndex) == Some(e.entry)
  {
    hide HoldsAt, StreamAt, FlatStream, ParseFragEntry, Le, PutLe, LiesAt, TableOffset, PutFragEntry, Pow256;
    Pow256Widths();
    lookup := TableOffset(v.sb.fragmentTableStart, fragIndex / 512 * 8);
    TableOffsetIs(v.sb.fragmentTableStart, fragIndex / 512 * 8, lookup);
    start := LeField(v.img, lookup, 8);
    LeFieldIs(v.img, lookup, 8, start);
    var s := StreamAt(v.Src(), start, fragIndex % 512 * 16).value;
    var more: bytes;
    e, more := FragEntryIsWritten(s);
    cut := StreamedIsHeld(v.Src(), start, fragIndex % 512 * 16, PutFragEntry(e), more);
  }

  lemma FragEntryIsWritten(s: bytes) returns (e: StoredFragment, more: bytes)
    requires ParseFragEntry(s).Some?
    ensures s == PutFragEntry(e) + more && ParseFragEntry(s) == Some(e.entry)
  {
    hide Fields, PutFields;
    Pow256Widths();
    var f := Fields(s, FRAG_ENTRY).value;
    e := StoredFragment(FragEntry(f[0], f[1]), f[2]);
    assert f == [e.entry.start, e.entry.sizeField, e.unused];
    PutFieldsRoundTrip(s, FRAG_ENTRY);
    more := s[Sum(FRAG_ENTRY)..];
  }

  // ----- blocks -----

  /** `n` bytes from `offset` on. Reading none of them only takes a place that can be sought, even beyond the end. */
  function FetchBytes(img: bytes, offset: nat, n: nat): (r: Option<bytes>)
    ensures r.Some? ==> |r.value| == n
  {
    if n > 0 then Window(img, offset, n) else if offset < 0x8000_0000_0000_0000 then Some([]) else None
  }

  /** One data or fragment block of `size` bytes on disk, decoded. */
  function ReadBlock(v: Volume, offset: nat, size: nat, compressed: bool): (r: Option<bytes>)
    ensures r.Some? ==> |r.value| <= v.sb.blockSize
  {
    if size > v.sb.blockSize then None
    else
      var data :- FetchBytes(v.img, offset, size);
      if compressed then DecompressBlock(v.Src(), data, v.sb.blockSize) else Some(data)
  }

  /** One block of a file; a size of zero is a hole. */
  function BlockData(v: Volume, offset: nat, raw: uint32, expectedLen: nat): (r: Option<bytes>)
    ensures r.Some? ==> |r.value| == expectedLen
  {
    if SizeOf(raw) == 0 then Some(Zeros(expectedLen))
    else
      var data :- ReadBlock(v, offset, SizeOf(raw), IsCompressed(raw));
      if |data| != expectedLen then None else Some(data)
  }

  // ----- files -----

  /** How many bytes of the file come before block `i`. */
  function Before(blockSize: nat, size: nat, i: nat): (r: nat)
    ensures r <= size
  {
    if i == 0 then 0
    else
      var b := Before(blockSize, size, i - 1);
      if b + blockSize > size then size else b + blockSize
  }

  /** Where block `i` starts on disk: after the on-disk sizes of the blocks before it. */
  function BlockOffset(f: FileRef, i: nat): nat
    requires i <= |f.blockSizes|
  {
    if i == 0 then f.blocksStart else BlockOffset(f, i - 1) + SizeOf(f.blockSizes[i - 1])
  }

  function FileBlock(v: Volume, size: nat, f: FileRef, i: nat): Option<bytes>
    requires i < |f.blockSizes|
  {
    var b := Before(v.sb.blockSize, size, i);
    var len := if b + v.sb.blockSize > size then size - b else v.sb.blockSize;
    BlockData(v, BlockOffset(f, i), f.blockSizes[i], len)
  }

  /** The first `i` blocks of a file. */
  function Blocks(v: Volume, size: nat, f: FileRef, i: nat): (r: Option<bytes>)
    requires i <= |f.blockSizes|
    ensures r.Some? ==> |r.value| == Before(v.sb.blockSize, size, i)
  {
    if i == 0 then Some([])
    else
      var before :- Blocks(v, size, f, i - 1);
      var data :- FileBlock(v, size, f, i - 1);
      Some(before + data)
  }

  /** The part of the file that is in its fragment. */
  function Tail(v: Volume, size: nat, f: FileRef): Option<bytes> {
    if f.fragIndex == INVALID_FRAG then Some([])
    else
      var tailLen := size - Before(v.sb.blockSize, size, |f.blockSizes|);
      var e :- FragmentEntry(v, f.fragIndex);
      var data :- ReadBlock(v, e.start, SizeOf(e.sizeField), IsCompressed(e.sizeField));
      if f.fragOffset + tailLen > |data| then None else Some(data[f.fragOffset..f.fragOffset + tailLen])
  }

  function FileContent(v: Volume, size: nat, f: FileRef): Option<bytes> {
    var head :- Blocks(v, size, f, |f.blockSizes|);
    var tail :- Tail(v, size, f);
    Some(head + tail)
  }

  method ExtractRegularFile(v: Volume, size: nat, f: FileRef) returns (r: Option<bytes>)
    ensures r == FileContent(v, size, f)
  {
    hide BlockData, ReadBlock, FragmentEntry;
    var out: bytes := [];
    var blockOffset := f.blocksStart;
    var bytesBefore := 0;
    for i := 0 to |f.blockSizes|
      invariant blockOffset == BlockOffset(f, i)
      invariant bytesBefore == Before(v.sb.blockSize, size, i)
      invariant Blocks(v, size, f, i) == Some(out)
    {
      var expectedLen := v.sb.blockSize;
      if bytesBefore + expectedLen > size {
        expectedLen := size - bytesBefore;
      }
      var data := BlockData(v, blockOffset, f.blockSizes[i], expectedLen);
      assert data == FileBlock(v, size, f, i);
      if data.None? {
        BlocksFail(v, size, f, i + 1);
        return None;
      }
      out := out + data.value;
      blockOffset := blockOffset + SizeOf(f.blockSizes[i]);
      bytesBefore := bytesBefore + expectedLen;
    }
    if f.fragIndex != INVALID_FRAG {
      var tailLen := size - bytesBefore;
      var e := ReadFragmentEntry(v, f.fragIndex);
      if e.None? {
        return None;
      }
      var data := ReadBlock(v, e.value.start, SizeOf(e.value.sizeField), IsCompressed(e.value.sizeField));
      if data.None? || f.fragOffset + tailLen > |data.value| {
        return None;
      }
      return Some(out + data.value[f.fragOffset..f.fragOffset + tailLen]);
    }
    assert out + [] == out;
    return Some(out);
  }

  lemma {:induction false} BlocksFail(v: Volume, size: nat, f: FileRef, i: nat)
    requires i <= |f.blockSizes| && Blocks(v, size, f, i) == None
    ensures Blocks(v, size, f, |f.blockSizes|) == None
    decreases |f.blockSizes| - i
  {
    hide FileBlock, Before;
    if i < |f.blockSizes| {
      BlocksFail(v, size, f, i + 1);
    }
  }

  // ----- what reconstruction means -----

  lemma {:induction false} BlocksKeepPrefix(v: Volume, size: nat, f: FileRef, i: nat, n: nat)
    requires i < n <= |f.blockSizes| && Blocks(v, size, f, n).Some?
    ensures FileBlock(v, size, f, i).Some?
    ensures var lo, hi := Before(v.sb.blockSize, size, i), Before(v.sb.blockSize, size, i + 1);
            lo <= hi <= |Blocks(v, size, f, n).value| &&
            Blocks(v, size, f, n).value[lo..hi] == FileBlock(v, size, f, i).value
    decreases n
  {
    hide FileBlock;
    if i < n - 1 {
      BlocksKeepPrefix(v, size, f, i, n - 1);
    } else {
      FileBlockLength(v, size, f, i);
    }
  }

  lemma FileBlockLength(v: Volume, size: nat, f: FileRef, i: nat)
    requires i < |f.blockSizes| && FileBlock(v, size, f, i).Some?
    ensures |FileBlock(v, size, f, i).value| ==
            Before(v.sb.blockSize, size, i + 1) - Before(v.sb.blockSize, size, i)
  {
  }

  lemma {:induction false} BeforeIsMultiple(blockSize: nat, size: nat, i: nat)
    ensures Before(blockSize, size, i) == if i * blockSize <= size then i * blockSize else size
  {
    if i == 0 {
    } else {
      BeforeIsMultiple(blockSize, size, i - 1);
      assert i * blockSize == (i - 1) * blockSize + blockSize;
    }
  }

  lemma MulMono(a: nat, b: nat, d: nat)
    requires a <= b
    ensures a * d <= b * d
  {
  }

  /** A counted file's blocks reach its end, or leave less than a block for the fragment. */
  lemma CountCoversFile(blockSize: nat, size: nat, n: nat, hasFragment: bool)
    requires blockSize > 0
    requires n == if hasFragment then size / blockSize else (size + blockSize - 1) / blockSize
    ensures if hasFragment then n * blockSize <= size < n * blockSize + blockSize
            else n * blockSize >= size && (n > 0 ==> (n - 1) * blockSize < size)
  {
    if hasFragment {
      assert size == n * blockSize + size % blockSize;
    } else {
      var m := size + blockSize - 1;
      assert m == n * blockSize + m % blockSize;
      assert (n - 1) * blockSize == n * blockSize - blockSize;
    }
  }

  /** The inode's block-size array has as many entries as its size calls for. */
  ghost predicate Counted(v: Volume, size: uint64, f: FileRef) {
    v.sb.blockSize > 0 && BlockCount(size, v.sb.blockSize, f.fragIndex) == Some(|f.blockSizes|)
  }

  /** Every file inode read for extraction carries the number of block sizes its length calls for. */
  lemma ParsedFilesAreCounted(v: Volume, block: uint64, inBlock: uint16)
    requires v.sb.blockSize > 0
    requires InodeAt(v, block, inBlock, true).Some? && InodeAt(v, block, inBlock, true).value.FileInode?
    ensures var inode := InodeAt(v, block, inBlock, true).value; Counted(v, inode.size, inode.file)
  {
    hide StreamAt, Fields, Sum, BlockCount;
  }

  /** A file can be rebuilt exactly when each of its blocks, and its tail, can be. */
  lemma FileCanBeRebuilt(v: Volume, size: uint64, f: FileRef)
    ensures FileContent(v, size, f).Some? <==>
            Tail(v, size, f).Some? && forall i :: 0 <= i < |f.blockSizes| ==> FileBlock(v, size, f, i).Some?
  {
    hide FileBlock, Tail;
    BlocksCanBeRead(v, size, f, |f.blockSizes|);
  }

  lemma {:induction false} BlocksCanBeRead(v: Volume, size: uint64, f: FileRef, n: nat)
    requires n <= |f.blockSizes|
    ensures Blocks(v, size, f, n).Some? <==> forall i :: 0 <= i < n ==> FileBlock(v, size, f, i).Some?
  {
    hide FileBlock;
    if n == 0 {
    } else {
      BlocksCanBeRead(v, size, f, n - 1);
    }
  }

  lemma HeadLength(v: Volume, size: uint64, f: FileRef)
    requires Counted(v, size, f)
    ensures var bs, n := v.sb.blockSize, |f.blockSizes|;
            if f.fragIndex == INVALID_FRAG then Before(bs, size, n) == size
            else Before(bs, size, n) == n * bs && n * bs <= size < n * bs + bs
  {
    var bs, n := v.sb.blockSize, |f.blockSizes|;
    CountCoversFile(bs, size, n, f.fragIndex != INVALID_FRAG);
    BeforeIsMultiple(bs, size, n);
  }

  lemma ContentSplits(v: Volume, size: uint64, f: FileRef)
    requires Counted(v, size, f) && FileContent(v, size, f).Some?
    ensures var n, content := |f.blockSizes|, FileContent(v, size, f).value;
            var head := Before(v.sb.blockSize, size, n);
            && |content| == size && head <= size
            && Blocks(v, size, f, n) == Some(content[..head])
            && Tail(v, size, f) == Some(content[head..])
  {
    hide BlockData, ReadBlock, FragmentEntry, Before, BlockCount;
    HeadLength(v, size, f);
    var head, tail := Blocks(v, size, f, |f.blockSizes|).value, Tail(v, size, f).value;
    assert (head + tail)[..|head|] == head && (head + tail)[|head|..] == tail;
  }

  lemma OffsetIsMultiple(blockSize: nat, size: nat, n: nat, i: nat)
    requires i < n && (n - 1) * blockSize < size
    ensures Before(blockSize, size, i) == i * blockSize < size
  {
    hide Before;
    BeforeIsMultiple(blockSize, size, i);
    MulMono(i, n - 1, blockSize);
  }

  lemma LastBlockStartsInFile(v: Volume, size: uint64, f: FileRef)
    requires Counted(v, size, f) && |f.blockSizes| > 0
    ensures (|f.blockSizes| - 1) * v.sb.blockSize < size
  {
    var bs, n := v.sb.blockSize, |f.blockSizes|;
    CountCoversFile(bs, size, n, f.fragIndex != INVALID_FRAG);
    assert n * bs == (n - 1) * bs + bs;
  }

  /** Whenever a file is rebuilt it has exactly `size` bytes. */
  lemma FileHasItsSize(v: Volume, size: uint64, f: FileRef)
    requires Counted(v, size, f) && FileContent(v, size, f).Some?
    ensures |FileContent(v, size, f).value| == size
  {
    ContentSplits(v, size, f);
  }

  /**
   Block `i` of a rebuilt file fills it from i * blockSize, for one block or up to the end of the file, and is
   read from where the on-disk sizes of the blocks before it add up to.
   */
  lemma BlockFillsItsRange(v: Volume, size: uint64, f: FileRef, i: nat)
    requires Counted(v, size, f) && FileContent(v, size, f).Some? && i < |f.blockSizes|
    ensures var lo, hi := Before(v.sb.blockSize, size, i), Before(v.sb.blockSize, size, i + 1);
            && lo == i * v.sb.blockSize
            && hi == (if lo + v.sb.blockSize > size then size else lo + v.sb.blockSize)
            && lo < hi <= |FileContent(v, size, f).value|
            && BlockData(v, BlockOffset(f, i), f.blockSizes[i], hi - lo) == Some(FileContent(v, size, f).value[lo..hi])
  {
    hide BlockData, FileContent, Blocks, BlockOffset, BlockCount;
    var bs, n := v.sb.blockSize, |f.blockSizes|;
    LastBlockStartsInFile(v, size, f);
    OffsetIsMultiple(bs, size, n, i);
    BlockRangeInHead(v, size, f, i);
  }

  lemma BlockRangeInHead(v: Volume, size: uint64, f: FileRef, i: nat)
    requires Counted(v, size, f) && FileContent(v, size, f).Some? && i < |f.blockSizes|
    ensures var lo, hi := Before(v.sb.blockSize, size, i), Before(v.sb.blockSize, size, i + 1);
            && lo <= hi <= |FileContent(v, size, f).value|
            && FileBlock(v, size, f, i) == Some(FileContent(v, size, f).value[lo..hi])
  {
    hide FileContent, Blocks, BlockCount, FileBlock, Before, Counted;
    ContentSplits(v, size, f);
    BlocksKeepPrefix(v, size, f, i, |f.blockSizes|);
    var lo, hi := Before(v.sb.blockSize, size, i), Before(v.sb.blockSize, size, i + 1);
    var head := Before(v.sb.blockSize, size, |f.blockSizes|);
    var content := FileContent(v, size, f).value;
    assert content[..head][lo..hi] == content[lo..hi];
  }

  /** What the blocks leave over, always less than a block, is the requested part of the fragment. */
  lemma TailFillsTheRest(v: Volume, size: uint64, f: FileRef)
    requires Counted(v, size, f) && FileContent(v, size, f).Some? && f.fragIndex != INVALID_FRAG
    ensures var lo := Before(v.sb.blockSize, size, |f.blockSizes|);
            && lo == |f.blockSizes| * v.sb.blockSize && lo <= size < lo + v.sb.blockSize
            && size == |FileContent(v, size, f).value|
            && Tail(v, size, f) == Some(FileContent(v, size, f).value[lo..])
  {
    hide FileContent, Tail, Blocks, Before, BlockCount;
    HeadLength(v, size, f);
    ContentSplits(v, size, f);
  }
}
