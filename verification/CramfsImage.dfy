/** Writing a cramfs superblock and file data, in either byte order, and reading them back. */
module CramfsImage {
  import opened Bytes
  import opened DataBlocks
  import opened CramfsReader

  // ----- the superblock -----

  /** Magic, size, 56 bytes that no reader looks at, and the root inode. */
  function PutSuper(size: uint32, unread: bytes, root: Inode, bigEndian: bool): (s: bytes)
    requires |unread| == 56 && root.Fits()
    ensures |s| == SUPER_SIZE
  {
    PutU32(0x28cd_3d45, bigEndian) + (PutU32(size, bigEndian) + (unread + PutInode(root, bigEndian)))
  }

  lemma MagicInOneOrder(img: bytes, bigEndian: bool)
    requires At(img, 0, PutU32(MAGIC, bigEndian))
    ensures |img| >= 4 && U32(img, 0, bigEndian) == MAGIC && U32(img, 0, !bigEndian) != MAGIC
  {
    hide U32;
    assert PutU32(MAGIC, false)[0] == 0x45 && PutU32(MAGIC, true)[0] == 0x28;
    assert img[0..4][0] == img[0];
    U32Codec(img, 0, MAGIC, false);
    U32Codec(img, 0, MAGIC, true);
  }

  /** A written superblock reads back, and its byte order is found out, whatever the rest of the image is. */
  lemma SuperRoundTrip(size: uint32, unread: bytes, root: Inode, bigEndian: bool, rest: bytes)
    requires |unread| == 56 && root.Fits()
    ensures ReadSuperblock(PutSuper(size, unread, root, bigEndian) + rest) ==
            if size < 76 then None else Some(Super(size, bigEndian, root))
  {
    hide U32, PutU32, PutInode, DecodeInode;
    var s := PutSuper(size, unread, root, bigEndian);
    var img := s + rest;
    assert img[0..SUPER_SIZE] == s;
    var more := unread + PutInode(root, bigEndian);
    Peel(img, 0, PutU32(MAGIC, bigEndian), PutU32(size, bigEndian) + more);
    MagicInOneOrder(img, bigEndian);
    PeelU32(img, 4, size, more, bigEndian);
    Peel(img, 8, unread, PutInode(root, bigEndian));
    InodeCodec(img, ROOT_INODE_OFFSET, root, bigEndian);
  }

  // ----- file data -----

  /** Every block is a hole or in a form that zlib undoes. */
  ghost predicate BlockFits(v: Volume, b: DataBlock) {
    && !b.Raw?
    && (b.Squeezed? ==> b.packed != [] && v.zlib(b.packed, 4096) == Some(b.content))
  }

  /** Where the data of the first `i` blocks ends. */
  function EndOf(start: nat, bs: seq<DataBlock>, i: nat): nat
    requires i <= |bs|
  {
    start + |Flatten(Payloads(bs)[..i])|
  }

  lemma EndsGrow(start: nat, bs: seq<DataBlock>, i: nat)
    requires i < |bs|
    ensures EndOf(start, bs, i + 1) == EndOf(start, bs, i) + |bs[i].OnDisk()|
    ensures EndOf(start, bs, i + 1) <= start + |Flatten(Payloads(bs))|
  {
    hide Payloads, Flatten;
    FlattenSplits(Payloads(bs), i);
  }

  /** The image holds a file: blocks of 4096 bytes and a last one for the rest; pointer `i` says where block `i` ends,
      the data follows the pointers, and all of it is inside the declared image size. */
  ghost predicate HoldsFile(v: Volume, inode: Inode, bs: seq<DataBlock>) {
    var n := |bs|;
    var start := inode.offset + 4 * n;
    && (if n == 0 then inode.size == 0 else 4096 * (n - 1) < inode.size <= 4096 * n)
    && (forall i :: 0 <= i < n ==> BlockFits(v, bs[i]))
    && (forall i :: 0 <= i < n ==> |bs[i].Data()| == if i == n - 1 then inode.size - 4096 * i else 4096)
    && (forall i :: 0 < i <= n ==>
          && EndOf(start, bs, i) < 0x1_0000_0000
          && At(v.img, inode.offset + 4 * (i - 1), PutU32(EndOf(start, bs, i), v.sb.bigEndian)))
    && (n > 0 ==> At(v.img, start, Flatten(Payloads(bs))) && start + |Flatten(Payloads(bs))| <= v.sb.size)
  }

  lemma Lengths(v: Volume, inode: Inode, bs: seq<DataBlock>, i: nat)
    requires HoldsFile(v, inode, bs) && i < |bs|
    ensures |bs| == BlockCount(inode.size) && i * BLOCK_SIZE <= inode.size
    ensures |bs[i].Data()| == BlockLen(inode.size, i)
  {
    hide At, PutU32, EndOf, Payloads, Flatten, BlockFits;
  }

  lemma PointerReads(v: Volume, p: nat, prevEnd: nat, next: uint32)
    requires At(v.img, p, PutU32(next, v.sb.bigEndian)) && prevEnd <= next <= v.sb.size
    ensures ReadBlockPointer(v, p, prevEnd) == Some(next)
  {
    hide U32, PutU32;
    U32Codec(v.img, p, next, v.sb.bigEndian);
  }

  /** A written block reads back. */
  lemma BlockRoundTrip(v: Volume, b: DataBlock, p: nat)
    requires BlockFits(v, b) && At(v.img, p, b.OnDisk())
    ensures FetchBlock(v, |b.Data()|, p, p + |b.OnDisk()|) == Some(b.Data())
  {
  }

  lemma OneBlock(v: Volume, inode: Inode, bs: seq<DataBlock>, i: nat)
    requires HoldsFile(v, inode, bs) && i < |bs|
    ensures |bs| == BlockCount(inode.size) && i * BLOCK_SIZE <= inode.size
    ensures var start := inode.offset + 4 * |bs|;
            var prev, next := EndOf(start, bs, i), EndOf(start, bs, i + 1);
            && prev <= next
            && ReadBlockPointer(v, inode.offset + 4 * i, prev) == Some(next)
            && FetchBlock(v, BlockLen(inode.size, i), prev, next) == Some(bs[i].Data())
  {
    hide *;
    Lengths(v, inode, bs, i);
    OneBlockIsThere(v, inode, bs, i);
    var start := inode.offset + 4 * |bs|;
    EndsGrow(start, bs, i);
    PointerReads(v, inode.offset + 4 * i, EndOf(start, bs, i), EndOf(start, bs, i + 1));
    BlockRoundTrip(v, bs[i], EndOf(start, bs, i));
  }

  lemma OneBlockIsThere(v: Volume, inode: Inode, bs: seq<DataBlock>, i: nat)
    requires HoldsFile(v, inode, bs) && i < |bs|
    ensures var start := inode.offset + 4 * |bs|;
            && EndOf(start, bs, i + 1) < 0x1_0000_0000 && EndOf(start, bs, i + 1) <= v.sb.size
            && At(v.img, inode.offset + 4 * i, PutU32(EndOf(start, bs, i + 1), v.sb.bigEndian))
            && BlockFits(v, bs[i]) && At(v.img, EndOf(start, bs, i), bs[i].OnDisk())
  {
    hide At, PutU32, Payloads, Flatten, BlockFits, DataBlock.Data, DataBlock.OnDisk;
    var start := inode.offset + 4 * |bs|;
    EndsGrow(start, bs, i);
    AtPiece(v.img, start, Payloads(bs), i);
  }

  lemma {:induction false} FirstBlocksRoundTrip(v: Volume, inode: Inode, bs: seq<DataBlock>, i: nat)
    requires HoldsFile(v, inode, bs) && i <= |bs| == BlockCount(inode.size)
    ensures FirstBlocks(v, inode, i) ==
            Some(Progress(Flatten(Contents(bs)[..i]), EndOf(inode.offset + 4 * |bs|, bs, i)))
    decreases i
  {
    hide *;
    if i == 0 {
      NoBlocks(v, inode, bs);
    } else {
      FirstBlocksRoundTrip(v, inode, bs, i - 1);
      OneBlock(v, inode, bs, i - 1);
      FlattenSplits(Contents(bs), i - 1);
      NextBlock(v, inode, i - 1);
    }
  }

  lemma NoBlocks(v: Volume, inode: Inode, bs: seq<DataBlock>)
    requires |bs| == BlockCount(inode.size)
    ensures FirstBlocks(v, inode, 0) ==
            Some(Progress(Flatten(Contents(bs)[..0]), EndOf(inode.offset + 4 * |bs|, bs, 0)))
  {
    hide BlockCount;
    assert Contents(bs)[..0] == [] && Payloads(bs)[..0] == [];
  }

  lemma NextBlock(v: Volume, inode: Inode, i: nat)
    requires i < BlockCount(inode.size) && i * BLOCK_SIZE <= inode.size
    ensures var p := FirstBlocks(v, inode, i);
            FirstBlocks(v, inode, i + 1) == if p.None? then None else
              var next := ReadBlockPointer(v, inode.offset + 4 * i, p.value.prevEnd);
              if next.None? then None else
                var data := FetchBlock(v, BlockLen(inode.size, i), p.value.prevEnd, next.value);
                if data.None? then None else Some(Progress(p.value.content + data.value, next.value))
  {
    hide BlockCount, ReadBlockPointer, FetchBlock, BlockLen;
  }

  /** A file written block by block behind its pointer array reads back. */
  lemma FileRoundTrip(v: Volume, inode: Inode, bs: seq<DataBlock>)
    requires HoldsFile(v, inode, bs)
    ensures FileContent(v, inode) == Some(Flatten(Contents(bs)))
  {
    SameCount(v, inode, bs);
    hide HoldsFile, FirstBlocks, Contents, Flatten;
    FirstBlocksRoundTrip(v, inode, bs, |bs|);
    assert Contents(bs)[..|bs|] == Contents(bs);
  }

  lemma SameCount(v: Volume, inode: Inode, bs: seq<DataBlock>)
    requires HoldsFile(v, inode, bs)
    ensures |bs| == BlockCount(inode.size)
  {
    hide At, PutU32, EndOf, Payloads, Flatten, BlockFits;
  }

  // ----- what is read was written -----

  /** An image with a superblock starts with a written one. */
  lemma SuperIsWritten(img: bytes) returns (unread: bytes, rest: bytes)
    requires ReadSuperblock(img).Some?
    ensures var sb := ReadSuperblock(img).value;
            && |unread| == 56 && sb.root.Fits() && sb.size >= 76
            && img == PutSuper(sb.size, unread, sb.root, sb.bigEndian) + rest
  {
    hide U32, PutU32, PutInode, DecodeInode;
    var sb := ReadSuperblock(img).value;
    unread, rest := img[8..64], img[76..];
    U32Codec(img, 0, MAGIC, sb.bigEndian);
    U32Codec(img, 4, sb.size, sb.bigEndian);
    InodeCodec(img, 64, sb.root, sb.bigEndian);
    assert img == img[0..4] + (img[4..8] + (unread + img[64..76])) + rest;
  }

  /** The block of a file that was fetched. */
  function FetchedBlock(v: Volume, content: bytes, prev: nat, next: nat): DataBlock {
    if prev == next || next > |v.img| || prev > next then Hole(|content|) else Squeezed(v.img[prev..next], content)
  }

  lemma FetchedIsHeld(v: Volume, content: bytes, prev: nat, next: nat)
    requires prev <= next && FetchBlock(v, |content|, prev, next) == Some(content)
    ensures var b := FetchedBlock(v, content, prev, next);
            && BlockFits(v, b) && b.Data() == content && next == prev + |b.OnDisk()|
            && (prev < next ==> next <= |v.img| && b.OnDisk() == v.img[prev..next])
  {
  }

  /** The blocks are the first ones of a file that was rebuilt, and lie where its pointers say. */
  ghost predicate AreFirst(v: Volume, inode: Inode, bs: seq<DataBlock>) {
    var start, i := inode.offset + 4 * BlockCount(inode.size), |bs|;
    && i <= BlockCount(inode.size)
    && start + |Flatten(Payloads(bs))| == SpanEnd(v, inode, i) <= |v.img|
    && v.img[start..SpanEnd(v, inode, i)] == Flatten(Payloads(bs))
    && (forall k :: 0 < k <= i ==> EndOf(start, bs, k) == SpanEnd(v, inode, k))
    && (forall k :: 0 <= k < i ==> BlockFits(v, bs[k]))
    && (forall k :: 0 <= k < i ==> |bs[k].Data()| == BlockLen(inode.size, k))
    && FirstBlocks(v, inode, i).Some? && FirstBlocks(v, inode, i).value.content == Flatten(Contents(bs))
  }

  lemma NoneAreFirst(v: Volume, inode: Inode)
    requires FileContent(v, inode).Some? && inode.size > 0
    ensures AreFirst(v, inode, [])
  {
    FileHasItsSize(v, inode);
    assert Payloads([]) == [] && Contents([]) == [];
  }

  lemma FetchedNext(v: Volume, inode: Inode, i: nat) returns (data: bytes)
    requires FileContent(v, inode).Some? && i < BlockCount(inode.size)
    ensures var prev, next := SpanEnd(v, inode, i), SpanEnd(v, inode, i + 1);
            && prev <= next && FetchBlock(v, |data|, prev, next) == Some(data)
    ensures i * BLOCK_SIZE <= inode.size && |data| == BlockLen(inode.size, i)
    ensures FirstBlocks(v, inode, i).Some? && FirstBlocks(v, inode, i + 1).Some?
    ensures FirstBlocks(v, inode, i + 1).value.content == FirstBlocks(v, inode, i).value.content + data
  {
    hide FetchBlock, FirstBlocks, SpanEnd, FileContent;
    BlockStep(v, inode, i);
    data := FetchBlock(v, BlockLen(inode.size, i), SpanEnd(v, inode, i), SpanEnd(v, inode, i + 1)).value;
  }

  lemma OneMoreIsFirst(v: Volume, inode: Inode, before: seq<DataBlock>) returns (bs: seq<DataBlock>)
    requires FileContent(v, inode).Some? && AreFirst(v, inode, before) && |before| < BlockCount(inode.size)
    ensures |bs| == |before| + 1 && AreFirst(v, inode, bs)
  {
    hide FetchBlock, FetchedBlock, FirstBlocks, SpanEnd, FileContent, BlockFits, Payloads, Contents, Flatten, BlockLen,
         DataBlock.Data, DataBlock.OnDisk, BlockCount, EndOf;
    var i := |before|;
    var start := inode.offset + 4 * BlockCount(inode.size);
    var prev, next := SpanEnd(v, inode, i), SpanEnd(v, inode, i + 1);
    var data := FetchedNext(v, inode, i);
    var b := FetchedBlock(v, data, prev, next);
    FetchedIsHeld(v, data, prev, next);
    bs := before + [b];
    OneMoreBlock(before, b);
    SpanGrows(v.img, start, prev, next, b.OnDisk());
    forall k | 0 < k <= i + 1 ensures EndOf(start, bs, k) == SpanEnd(v, inode, k) {
      EndsOfMore(start, before, b, k);
    }
    forall k | 0 <= k < i + 1 ensures BlockFits(v, bs[k]) && |bs[k].Data()| == BlockLen(inode.size, k) {
      assert k < i ==> bs[k] == before[k];
    }
  }

  lemma EndsOfMore(start: nat, before: seq<DataBlock>, b: DataBlock, k: nat)
    requires k <= |before| + 1
    ensures k <= |before| ==> EndOf(start, before + [b], k) == EndOf(start, before, k)
    ensures k == |before| + 1 ==> EndOf(start, before + [b], k) == start + |Flatten(Payloads(before + [b]))|
  {
    hide Payloads, Flatten;
    SamePrefix(before, b, k);
  }

  lemma SpanGrows(img: bytes, start: nat, prev: nat, next: nat, more: bytes)
    requires start <= prev <= next == prev + |more| && prev <= |img|
    requires prev < next ==> next <= |img| && more == img[prev..next]
    ensures next <= |img| && img[start..next] == img[start..prev] + more
  {
  }

  lemma {:induction false} FirstBlocksAreHeld(v: Volume, inode: Inode, i: nat) returns (bs: seq<DataBlock>)
    requires FileContent(v, inode).Some? && inode.size > 0 && i <= BlockCount(inode.size)
    ensures |bs| == i && AreFirst(v, inode, bs)
    decreases i
  {
    hide *;
    if i == 0 {
      bs := [];
      NoneAreFirst(v, inode);
    } else {
      var before := FirstBlocksAreHeld(v, inode, i - 1);
      bs := OneMoreIsFirst(v, inode, before);
    }
  }

  lemma OneMoreBlock(before: seq<DataBlock>, b: DataBlock)
    ensures Flatten(Payloads(before + [b])) == Flatten(Payloads(before)) + b.OnDisk()
    ensures Flatten(Contents(before + [b])) == Flatten(Contents(before)) + b.Data()
  {
    assert Payloads(before + [b]) == Payloads(before) + [b.OnDisk()];
    assert Contents(before + [b]) == Contents(before) + [b.Data()];
    FlattenAppend(Payloads(before), [b.OnDisk()]);
    FlattenAppend(Contents(before), [b.Data()]);
    OnePiece(b.OnDisk());
    OnePiece(b.Data());
  }

  lemma OnePiece(s: bytes)
    ensures Flatten([s]) == s
  {
    assert [s][1..] == [] && s + [] == s;
  }

  lemma SamePrefix(before: seq<DataBlock>, b: DataBlock, k: nat)
    requires k <= |before| + 1
    ensures k <= |before| ==> Payloads(before + [b])[..k] == Payloads(before)[..k]
    ensures k == |before| + 1 ==> Payloads(before + [b])[..k] == Payloads(before + [b])
  {
  }

  /** A file that was rebuilt was written: its blocks are in the image as they should be. */
  lemma FileIsHeld(v: Volume, inode: Inode) returns (bs: seq<DataBlock>)
    requires FileContent(v, inode).Some?
    ensures HoldsFile(v, inode, bs) && FileContent(v, inode).value == Flatten(Contents(bs))
  {
    if inode.size == 0 {
      bs := [];
      assert Contents(bs) == [];
    } else {
      var n := BlockCount(inode.size);
      bs := FirstBlocksAreHeld(v, inode, n);
      PointersAreHeld(v, inode, bs);
      AllAreHeld(v, inode, bs);
    }
  }

  lemma AllAreHeld(v: Volume, inode: Inode, bs: seq<DataBlock>)
    requires inode.size > 0 && AreFirst(v, inode, bs) && |bs| == BlockCount(inode.size)
    requires PointersHeld(v, inode, bs) && FileContent(v, inode).Some?
    ensures HoldsFile(v, inode, bs)
  {
    hide FirstBlocks, Payloads, Contents, Flatten, PutU32, EndOf, BlockFits, SpanEnd, DataBlock.Data, FileContent;
  }

  ghost predicate PointersHeld(v: Volume, inode: Inode, bs: seq<DataBlock>) {
    var start := inode.offset + 4 * |bs|;
    && SpanEnd(v, inode, |bs|) <= v.sb.size
    && forall i :: 0 < i <= |bs| ==>
         && EndOf(start, bs, i) < 0x1_0000_0000
         && At(v.img, inode.offset + 4 * (i - 1), PutU32(EndOf(start, bs, i), v.sb.bigEndian))
  }

  lemma SomeBlocks(size: nat)
    requires size > 0
    ensures BlockCount(size) > 0
  {
  }

  lemma PointersAreHeld(v: Volume, inode: Inode, bs: seq<DataBlock>)
    requires FileContent(v, inode).Some? && inode.size > 0 && AreFirst(v, inode, bs) && |bs| == BlockCount(inode.size)
    ensures PointersHeld(v, inode, bs)
  {
    hide FirstBlocks, FetchBlock, U32, PutU32, EndOf, FileContent, Payloads, Contents, Flatten, BlockFits, BlockLen,
         BlockCount, DataBlock.Data;
    FileHasItsSize(v, inode);
    var start := inode.offset + 4 * |bs|;
    SomeBlocks(inode.size);
    BlockStep(v, inode, |bs| - 1);
    forall i | 0 < i <= |bs|
      ensures EndOf(start, bs, i) < 0x1_0000_0000
      ensures At(v.img, inode.offset + 4 * (i - 1), PutU32(EndOf(start, bs, i), v.sb.bigEndian))
    {
      BlockStep(v, inode, i - 1);
      U32Codec(v.img, inode.offset + 4 * (i - 1), EndOf(start, bs, i), v.sb.bigEndian);
    }
  }
}
