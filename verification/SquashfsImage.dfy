/** Writing the parts of a SquashFS image that the readers parse, and reading them back. */
module SquashfsImage {
  import opened Bytes
  import opened DataBlocks
  import opened SquashfsStream
  import opened SquashfsInode
  import opened SquashfsFile

  // ----- the superblock -----

  /** A superblock to write. The fields that no reader looks at are carried as raw bytes. */
  datatype SuperblockImage = SuperblockImage(sb: Superblock, counts: bytes, versions: bytes, idTables: bytes,
                                             exportTable: bytes) {
    predicate WellFormed() {
      |counts| == 8 && |versions| == 10 && |idTables| == 24 && |exportTable| == 8
    }

    function Encoded(): bytes {
      [0x68, 0x73, 0x71, 0x73] +
        (counts + (PutLe(sb.blockSize, 4) + (PutLe(sb.fragments, 4) + (PutLe(sb.compression, 2) + (versions +
      (PutLe(sb.rootInode, 8) + (idTables + (PutLe(sb.inodeTableStart, 8) + (PutLe(sb.directoryTableStart, 8) +
      (PutLe(sb.fragmentTableStart, 8) + exportTable))))))))))
    }
  }

  lemma PeelLe(img: bytes, p: nat, v: nat, n: nat, more: bytes)
    requires v < Pow256(n) && At(img, p, PutLe(v, n) + more)
    ensures p + n + |more| <= |img| && LeField(img, p, n) == v && At(img, p + n, more)
  {
    hide Le, PutLe, Pow256;
    Peel(img, p, PutLe(v, n), more);
    LeRoundTrip(v, n);
  }

  lemma SuperblockFields(img: bytes, sb: Superblock)
    requires |img| >= SUPERBLOCK_SIZE && img[..4] == Ascii("hsqs")
    requires LeField(img, 12, 4) == sb.blockSize && LeField(img, 16, 4) == sb.fragments &&
             LeField(img, 20, 2) == sb.compression
    requires LeField(img, 32, 8) == sb.rootInode && LeField(img, 64, 8) == sb.inodeTableStart
    requires LeField(img, 72, 8) == sb.directoryTableStart && LeField(img, 80, 8) == sb.fragmentTableStart
    ensures ReadSuperblock(img) == Some(sb)
  {
    hide LeField, Ascii;
  }

  lemma TableFields(img: bytes, sb: Superblock, exportTable: bytes)
    requires |exportTable| == 8
    requires At(img, 64, PutLe(sb.inodeTableStart, 8) +
                (PutLe(sb.directoryTableStart, 8) + (PutLe(sb.fragmentTableStart, 8) + exportTable)))
    ensures |img| >= SUPERBLOCK_SIZE
    ensures LeField(img, 64, 8) == sb.inodeTableStart && LeField(img, 72, 8) == sb.directoryTableStart
    ensures LeField(img, 80, 8) == sb.fragmentTableStart
  {
    hide Le, PutLe, LeField, Pow256;
    Pow256Widths();
    var fragments := PutLe(sb.fragmentTableStart, 8) + exportTable;
    PeelLe(img, 64, sb.inodeTableStart, 8, PutLe(sb.directoryTableStart, 8) + fragments);
    PeelLe(img, 72, sb.directoryTableStart, 8, fragments);
    PeelLe(img, 80, sb.fragmentTableStart, 8, exportTable);
  }

  lemma MagicText()
    ensures Ascii("hsqs") == [0x68, 0x73, 0x71, 0x73]
  {
  }

  /** A written superblock reads back, whatever the rest of the image is. */
  lemma SuperblockRoundTrip(s: SuperblockImage, rest: bytes)
    requires s.WellFormed()
    ensures ReadSuperblock(s.Encoded() + rest) == Some(s.sb)
  {
    hide Le, PutLe, LeField, Pow256, ReadSuperblock, Ascii;
    Pow256Widths();
    var img, sb := s.Encoded() + rest, s.sb;
    var tables := PutLe(sb.inodeTableStart, 8) +
      (PutLe(sb.directoryTableStart, 8) + (PutLe(sb.fragmentTableStart, 8) + s.exportTable));
    var root := PutLe(sb.rootInode, 8) + (s.idTables + tables);
    var sizes := PutLe(sb.fragments, 4) + (PutLe(sb.compression, 2) + (s.versions + root));
    var all := s.counts + (PutLe(sb.blockSize, 4) + sizes);
    assert img[0..|s.Encoded()|] == s.Encoded();
    assert Ascii("hsqs") == [0x68, 0x73, 0x71, 0x73] by {
      MagicText();
    }
    Peel(img, 0, Ascii("hsqs"), all);
    Peel(img, 4, s.counts, PutLe(sb.blockSize, 4) + sizes);
    PeelLe(img, 12, sb.blockSize, 4, sizes);
    PeelLe(img, 16, sb.fragments, 4, PutLe(sb.compression, 2) + (s.versions + root));
    PeelLe(img, 20, sb.compression, 2, s.versions + root);
    Peel(img, 22, s.versions, root);
    PeelLe(img, 32, sb.rootInode, 8, s.idTables + tables);
    Peel(img, 40, s.idTables, tables);
    TableFields(img, sb, s.exportTable);
    SuperblockFields(img, sb);
  }

  // ----- inodes -----

  datatype InodeHeader = InodeHeader(permissions: uint16, uid: uint16, gid: uint16, mtime: uint32, number: uint32)

  /** Inodes as they are stored, field by field in the order of the format. */
  datatype StoredInode =
    | BasicDirectory(blockIndex: uint32, links: uint32, dirSize: uint16, blockOffset: uint16, parent: uint32)
    | ExtendedDirectory(links: uint32, longSize: uint32, blockIndex: uint32, parent: uint32, indexCount: uint16,
                        blockOffset: uint16, xattr: uint32)
    | BasicFile(shortStart: uint32, fragIndex: uint32, fragOffset: uint32, fileSize: uint32, sizes: seq<uint32>)
    | ExtendedFile(blocksStart: uint64, longFileSize: uint64, sparse: uint64, links: uint32, fragIndex: uint32,
                   fragOffset: uint32, xattr: uint32, sizes: seq<uint32>)
    | Symlink(extended: bool, links: uint32, targetSize: uint32)
    | Other(kind: uint16, fields: bytes)
  {
    function Kind(): uint16 {
      match this
      case BasicDirectory(_, _, _, _, _) => 1
      case ExtendedDirectory(_, _, _, _, _, _, _) => 8
      case BasicFile(_, _, _, _, _) => 2
      case ExtendedFile(_, _, _, _, _, _, _, _) => 9
      case Symlink(extended, _, _) => if extended then 10 else 3
      case Other(kind, _) => kind
    }

    function Body(): bytes {
      match this
      case BasicDirectory(index, links, size, offset, parent) =>
        PutFields([index, links, size, offset, parent], [4, 4, 2, 2, 4])
      case ExtendedDirectory(links, size, index, parent, count, offset, xattr) =>
        PutFields([links, size, index, parent, count, offset, xattr], [4, 4, 4, 4, 2, 2, 4])
      case BasicFile(start, frag, offset, size, sizes) =>
        PutFields([start, frag, offset, size], [4, 4, 4, 4]) + PutFields(sizes, Repeat(|sizes|, 4))
      case ExtendedFile(start, size, sparse, links, frag, offset, xattr, sizes) =>
        PutFields([start, size, sparse, links, frag, offset, xattr], [8, 8, 8, 4, 4, 4, 4]) +
          PutFields(sizes, Repeat(|sizes|, 4))
      case Symlink(_, links, size) => PutFields([links, size], [4, 4])
      case Other(_, fields) => fields
    }

    function Encoded(h: InodeHeader): bytes {
      PutFields([Kind(), h.permissions, h.uid, h.gid, h.mtime, h.number], [2, 2, 2, 2, 4, 4]) + Body()
    }

    /** The inode a reader should see; block sizes only matter when content is wanted. */
    function Meaning(wantContent: bool): Inode {
      match this
      case BasicDirectory(index, _, size, offset, _) => DirInode(DirRef(index, offset, size))
      case ExtendedDirectory(_, size, index, _, _, offset, _) => DirInode(DirRef(index, offset, size))
      case BasicFile(start, frag, offset, size, sizes) =>
        FileInode(size, FileRef(start, frag, offset, if wantContent then sizes else []))
      case ExtendedFile(start, size, _, _, frag, offset, _, sizes) =>
        FileInode(size, FileRef(start, frag, offset, if wantContent then sizes else []))
      case Symlink(_, _, size) => OtherInode(size)
      case Other(_, _) => OtherInode(0)
    }

    /** A file whose content matters carries as many block sizes as its size calls for; other kinds are not one of
        the known ones. */
    ghost predicate WellFormed(blockSize: uint32, wantContent: bool) {
      match this
      case BasicFile(_, frag, _, size, sizes) => wantContent ==> CountedAs(size, blockSize, frag, |sizes|)
      case ExtendedFile(_, size, _, _, frag, _, _, sizes) => wantContent ==> CountedAs(size, blockSize, frag, |sizes|)
      case Other(kind, _) => kind !in {1, 2, 3, 8, 9, 10}
      case _ => true
    }
  }

  lemma BlockSizesAre(s: bytes, sizes: seq<uint32>, fileSize: uint64, blockSize: uint32, frag: uint32,
                      wantContent: bool)
    requires wantContent ==> CountedAs(fileSize, blockSize, frag, |sizes|)
    requires Fields(s, Repeat(|sizes|, 4)) == Some(sizes)
    ensures BlockSizes(s, fileSize, blockSize, frag, wantContent) == Some(if wantContent then sizes else [])
  {
    hide Fields, BlockCount, CountedAs, Pow256, Repeat;
    if wantContent {
      CountedBlocks(fileSize, blockSize, frag, |sizes|);
      CountIs(fileSize, blockSize, frag, |sizes|);
      var r := BlockSizes(s, fileSize, blockSize, frag, true);
      assert r.Some?;
      assert |r.value| == |sizes|;
      assert forall i :: 0 <= i < |sizes| ==> r.value[i] == sizes[i];
      assert r.value == sizes;
    }
  }

  lemma CountedBlocks(fileSize: nat, blockSize: nat, frag: nat, n: nat)
    requires CountedAs(fileSize, blockSize, frag, n)
    ensures blockSize > 0
  {
  }

  lemma SizesFit(sizes: seq<uint32>)
    ensures Fit(sizes, Repeat(|sizes|, 4))
  {
    hide Pow256;
    Pow256Widths();
  }

  lemma BlockSizesRoundTrip(sizes: seq<uint32>, rest: bytes, fileSize: uint64, blockSize: uint32, frag: uint32,
                            wantContent: bool)
    requires wantContent ==> CountedAs(fileSize, blockSize, frag, |sizes|)
    ensures BlockSizes(PutFields(sizes, Repeat(|sizes|, 4)) + rest, fileSize, blockSize, frag, wantContent) ==
            Some(if wantContent then sizes else [])
  {
    hide *;
    SizesFit(sizes);
    FieldsRoundTrip(sizes, Repeat(|sizes|, 4), rest);
    BlockSizesAre(PutFields(sizes, Repeat(|sizes|, 4)) + rest, sizes, fileSize, blockSize, frag, wantContent);
  }

  lemma PutThen(vals: seq<nat>, widths: seq<nat>, more: bytes)
    requires Fit(vals, widths)
    ensures Fields(PutFields(vals, widths) + more, widths) == Some(vals)
    ensures (PutFields(vals, widths) + more)[Sum(widths)..] == more
  {
    hide Fields;
    FieldsRoundTrip(vals, widths, more);
  }

  /** Which of a file's fields are used. */
  predicate FileColumns(widths: seq<nat>, start: nat, frag: nat, offset: nat, size: nat) {
    && start < |widths| && frag < |widths| && offset < |widths| && size < |widths|
    && widths[start] in {4, 8} && widths[frag] == widths[offset] == 4 && widths[size] in {4, 8}
  }

  lemma ParseFileIs(s: bytes, vals: seq<nat>, widths: seq<nat>, start: nat, frag: nat, offset: nat, size: nat,
                    sizes: seq<uint32>, blockSize: uint32, wantContent: bool)
    requires FileColumns(widths, start, frag, offset, size) && Fields(s, widths) == Some(vals) && |vals| == |widths|
    requires vals[start] < 0x1_0000_0000_0000_0000 && vals[size] < 0x1_0000_0000_0000_0000
    requires vals[frag] < 0x1_0000_0000 && vals[offset] < 0x1_0000_0000
    requires BlockSizes(s[Sum(widths)..], vals[size], blockSize, vals[frag], wantContent) == Some(sizes)
    ensures ParseFile(s, widths, start, frag, offset, size, blockSize, wantContent) ==
            Some(FileInode(vals[size], FileRef(vals[start], vals[frag], vals[offset], sizes)))
  {
    hide Fields, BlockSizes, Sum, Pow256;
  }

  lemma FileBodyParses(vals: seq<nat>, widths: seq<nat>, start: nat, frag: nat, offset: nat, size: nat,
                       sizes: seq<uint32>, blockSize: uint32, wantContent: bool, rest: bytes)
    requires Fit(vals, widths) && FileColumns(widths, start, frag, offset, size)
    requires vals[start] < 0x1_0000_0000_0000_0000 && vals[size] < 0x1_0000_0000_0000_0000
    requires vals[frag] < 0x1_0000_0000 && vals[offset] < 0x1_0000_0000
    requires wantContent ==> CountedAs(vals[size], blockSize, vals[frag], |sizes|)
    ensures ParseFile(PutFields(vals, widths) + PutFields(sizes, Repeat(|sizes|, 4)) + rest, widths, start, frag,
                      offset, size,
                      blockSize, wantContent) ==
            Some(FileInode(vals[size],
                           FileRef(vals[start], vals[frag], vals[offset], if wantContent then sizes else [])))
  {
    hide Fields, PutFields, BlockCount, CountedAs, BlockSizes, Pow256, Sum, ParseFile, Repeat;
    var more := PutFields(sizes, Repeat(|sizes|, 4)) + rest;
    var s := PutFields(vals, widths) + more;
    assert PutFields(vals, widths) + PutFields(sizes, Repeat(|sizes|, 4)) + rest == s;
    PutThen(vals, widths, more);
    BlockSizesRoundTrip(sizes, rest, vals[size], blockSize, vals[frag], wantContent);
    ParseFileIs(s, vals, widths, start, frag, offset, size, if wantContent then sizes else [], blockSize, wantContent);
  }

  lemma BodyParses(i: StoredInode, blockSize: uint32, wantContent: bool, rest: bytes)
    requires i.WellFormed(blockSize, wantContent)
    ensures ParseTyped(i.Body() + rest, i.Kind(), blockSize, wantContent) == Some(i.Meaning(wantContent))
  {
    hide Fields, PutFields, BlockCount, CountedAs, BlockSizes, Pow256, Sum, ParseFile;
    Pow256Widths();
    match i
    case BasicDirectory(index, links, size, offset, parent) =>
      PutThen([index, links, size, offset, parent], BASIC_DIR, rest);
    case ExtendedDirectory(links, size, index, parent, count, offset, xattr) =>
      PutThen([links, size, index, parent, count, offset, xattr], EXTENDED_DIR, rest);
    case BasicFile(start, frag, offset, size, sizes) =>
      FileBodyParses([start, frag, offset, size], BASIC_FILE, 0, 1, 2, 3, sizes, blockSize, wantContent, rest);
    case ExtendedFile(start, size, sparse, links, frag, offset, xattr, sizes) =>
      FileBodyParses([start, size, sparse, links, frag, offset, xattr], EXTENDED_FILE, 0, 4, 5, 1, sizes, blockSize,
                     wantContent, rest);
    case Symlink(_, links, size) =>
      PutThen([links, size], SYMLINK, rest);
    case Other(_, _) =>
  }

  /** An inode of any kind, written and read back. */
  lemma InodeRoundTrip(h: InodeHeader, i: StoredInode, blockSize: uint32, wantContent: bool, rest: bytes)
    requires i.WellFormed(blockSize, wantContent)
    ensures ParseInode(i.Encoded(h) + rest, blockSize, wantContent) == Some(i.Meaning(wantContent))
  {
    hide Fields, PutFields, Pow256, Sum, ParseTyped, StoredInode.Body, StoredInode.Meaning, StoredInode.WellFormed;
    Pow256Widths();
    var vals: seq<nat> := [i.Kind(), h.permissions, h.uid, h.gid, h.mtime, h.number];
    assert i.Encoded(h) + rest == PutFields(vals, INODE_HEADER) + (i.Body() + rest);
    PutThen(vals, INODE_HEADER, i.Body() + rest);
    BodyParses(i, blockSize, wantContent, rest);
  }

  /** The same through the inode table, whatever metadata blocks it was cut into. */
  lemma StoredInodeReadsBack(v: Volume, block: uint64, inBlock: uint16, h: InodeHeader, i: StoredInode,
                             wantContent: bool, start: nat, cut: Cut)
    requires i.WellFormed(v.sb.blockSize, wantContent)
    requires LiesAt(v.sb.inodeTableStart, block, start) && HoldsAt(v.Src(), start, inBlock, cut, i.Encoded(h))
    ensures InodeAt(v, block, inBlock, wantContent) == Some(i.Meaning(wantContent))
  {
    hide *;
    TableOffsetIs(v.sb.inodeTableStart, block, start);
    HeldIsStreamed(v.Src(), start, inBlock, cut, i.Encoded(h));
    InodeRoundTrip(h, i, v.sb.blockSize, wantContent, cut.after + FlatStream(v.Src(), cut.end));
    InodeAtIs(v, block, inBlock, wantContent);
  }

  lemma InodeAtIs(v: Volume, block: uint64, inBlock: uint16, wantContent: bool)
    ensures var s := StreamAt(v.Src(), TableOffset(v.sb.inodeTableStart, block), inBlock);
            InodeAt(v, block, inBlock, wantContent) == if s.None? then None
              else ParseInode(s.value, v.sb.blockSize, wantContent)
  {
    hide StreamAt, ParseInode, TableOffset;
  }

  // ----- whatever is read was written -----

  lemma PushLe(img: bytes, p: nat, n: nat, more: bytes)
    requires p + n <= |img| && At(img, p + n, more)
    ensures At(img, p, PutLe(LeField(img, p, n), n) + more)
  {
    PutLeRoundTrip(img[p..p + n]);
    AtSplits(img, p, img[p..p + n], more);
  }

  /** An image that is accepted begins with a superblock. */
  lemma SuperblockIsWritten(img: bytes) returns (s: SuperblockImage, rest: bytes)
    requires ReadSuperblock(img).Some?
    ensures s.WellFormed() && img == s.Encoded() + rest && ReadSuperblock(img) == Some(s.sb)
  {
    hide Le, PutLe, LeField, Pow256, Ascii, At;
    Pow256Widths();
    var sb := ReadSuperblock(img).value;
    s := SuperblockImage(sb, img[4..12], img[22..32], img[40..64], img[88..96]);
    rest := img[96..];
    MagicText();
    TablesAreWritten(img, sb);
    var tables := PutLe(sb.inodeTableStart, 8) +
      (PutLe(sb.directoryTableStart, 8) + (PutLe(sb.fragmentTableStart, 8) + s.exportTable));
    PushSlice(img, 40, 64, tables);
    PushLe(img, 32, 8, s.idTables + tables);
    var root := PutLe(sb.rootInode, 8) + (s.idTables + tables);
    PushSlice(img, 22, 32, root);
    PushLe(img, 20, 2, s.versions + root);
    PushLe(img, 16, 4, PutLe(sb.compression, 2) + (s.versions + root));
    var sizes := PutLe(sb.fragments, 4) + (PutLe(sb.compression, 2) + (s.versions + root));
    PushLe(img, 12, 4, sizes);
    PushSlice(img, 4, 12, PutLe(sb.blockSize, 4) + sizes);
    PushSlice(img, 0, 4, s.counts + (PutLe(sb.blockSize, 4) + sizes));
    assert img[..4] == img[0..4];
    StartsWith(img, s.Encoded());
  }

  lemma StartsWith(img: bytes, s: bytes)
    requires At(img, 0, s)
    ensures |s| <= |img| && img == s + img[|s|..]
  {
  }

  lemma TablesAreWritten(img: bytes, sb: Superblock)
    requires ReadSuperblock(img) == Some(sb)
    ensures At(img, 64, PutLe(sb.inodeTableStart, 8) +
               (PutLe(sb.directoryTableStart, 8) + (PutLe(sb.fragmentTableStart, 8) + img[88..96])))
  {
    hide Le, PutLe, LeField, Pow256, Ascii, At;
    WholeAt(img, 88, 96);
    PushLe(img, 80, 8, img[88..96]);
    PushLe(img, 72, 8, PutLe(sb.fragmentTableStart, 8) + img[88..96]);
    PushLe(img, 64, 8, PutLe(sb.directoryTableStart, 8) + (PutLe(sb.fragmentTableStart, 8) + img[88..96]));
  }

  lemma WholeAt(img: bytes, p: nat, end: nat)
    requires p <= end <= |img|
    ensures At(img, p, img[p..end])
  {
  }

  /** The fields that are read are what lies there. */
  lemma FieldsAreWritten(s: bytes, widths: seq<nat>, vals: seq<nat>) returns (more: bytes)
    requires Fields(s, widths) == Some(vals)
    ensures |vals| == |widths| && s == PutFields(vals, widths) + more && more == s[Sum(widths)..]
  {
    hide Fields, PutFields;
    PutFieldsRoundTrip(s, widths);
    more := s[Sum(widths)..];
  }

  lemma SizesAreWritten(s: bytes, fileSize: uint64, blockSize: uint32, frag: uint32, wantContent: bool,
                        sizes: seq<uint32>) returns (more: bytes)
    requires wantContent ==> blockSize > 0
    requires BlockSizes(s, fileSize, blockSize, frag, wantContent) == Some(sizes)
    ensures s == PutFields(sizes, Repeat(|sizes|, 4)) + more
    ensures wantContent ==> CountedAs(fileSize, blockSize, frag, |sizes|)
  {
    hide Fields, BlockCount, CountedAs, Pow256;
    if wantContent {
      var n := BlockCount(fileSize, blockSize, frag).value;
      CountIs(fileSize, blockSize, frag, n);
      var vals := Fields(s, Repeat(n, 4)).value;
      assert vals == sizes;
      more := FieldsAreWritten(s, Repeat(n, 4), vals);
    } else {
      more := s;
    }
  }

  lemma FileFields(s: bytes, widths: seq<nat>, start: nat, frag: nat, offset: nat, size: nat, blockSize: uint32,
                   wantContent: bool) returns (f: seq<nat>, sizes: seq<uint32>, more: bytes)
    requires FileColumns(widths, start, frag, offset, size) && (wantContent ==> blockSize > 0)
    requires ParseFile(s, widths, start, frag, offset, size, blockSize, wantContent).Some?
    ensures Fields(s, widths) == Some(f) && |f| == |widths|
    ensures s == PutFields(f, widths) + (PutFields(sizes, Repeat(|sizes|, 4)) + more)
    ensures f[size] < 0x1_0000_0000_0000_0000 && f[start] < 0x1_0000_0000_0000_0000
    ensures f[frag] < 0x1_0000_0000 && f[offset] < 0x1_0000_0000
    ensures wantContent ==> CountedAs(f[size], blockSize, f[frag], |sizes|)
    ensures ParseFile(s, widths, start, frag, offset, size, blockSize, wantContent) ==
            Some(FileInode(f[size], FileRef(f[start], f[frag], f[offset], sizes)))
    ensures !wantContent ==> sizes == []
  {
    hide Fields, PutFields, BlockSizes, CountedAs, Pow256, Sum, Repeat;
    Pow256Widths();
    f := Fields(s, widths).value;
    var tail := FieldsAreWritten(s, widths, f);
    sizes := BlockSizes(tail, f[size], blockSize, f[frag], wantContent).value;
    more := SizesAreWritten(tail, f[size], blockSize, f[frag], wantContent, sizes);
    if !wantContent {
      NoSizesWanted(tail, f[size], blockSize, f[frag]);
    }
  }

  /** What the bytes `s` behind an inode header begin with. */
  ghost predicate IsBodyOf(s: bytes, i: StoredInode, kind: uint16, blockSize: uint32, wantContent: bool, more: bytes,
                           meaning: Inode) {
    && i.Kind() == kind && i.WellFormed(blockSize, wantContent) && s == i.Body() + more
    && i.Meaning(wantContent) == meaning
  }

  lemma FileBodyIsWritten(s: bytes, kind: uint16, blockSize: uint32, wantContent: bool)
    returns (i: StoredInode, more: bytes)
    requires kind in {2, 9} && (wantContent ==> blockSize > 0)
    requires ParseTyped(s, kind, blockSize, wantContent).Some?
    ensures IsBodyOf(s, i, kind, blockSize, wantContent, more, ParseTyped(s, kind, blockSize, wantContent).value)
  {
    hide Fields, PutFields, CountedAs, Pow256, Sum, ParseFile, Repeat;
    Pow256Widths();
    var f: seq<nat>, sizes: seq<uint32>;
    if kind == 2 {
      f, sizes, more := FileFields(s, [4, 4, 4, 4], 0, 1, 2, 3, blockSize, wantContent);
      i := BasicFile(f[0], f[1], f[2], f[3], sizes);
      assert f == [f[0], f[1], f[2], f[3]];
    } else {
      f, sizes, more := FileFields(s, [8, 8, 8, 4, 4, 4, 4], 0, 4, 5, 1, blockSize, wantContent);
      i := ExtendedFile(f[0], f[1], f[2], f[3], f[4], f[5], f[6], sizes);
      assert f == [f[0], f[1], f[2], f[3], f[4], f[5], f[6]];
    }
    assert s == i.Body() + more;
  }

  lemma BodyIsWritten(s: bytes, kind: uint16, blockSize: uint32, wantContent: bool)
    returns (i: StoredInode, more: bytes)
    requires ParseTyped(s, kind, blockSize, wantContent).Some? && (wantContent ==> blockSize > 0)
    ensures IsBodyOf(s, i, kind, blockSize, wantContent, more, ParseTyped(s, kind, blockSize, wantContent).value)
  {
    hide Fields, PutFields, CountedAs, Pow256, Sum, ParseFile, Repeat;
    Pow256Widths();
    if kind in {2, 9} {
      i, more := FileBodyIsWritten(s, kind, blockSize, wantContent);
    } else if kind == 1 {
      var f := Fields(s, [4, 4, 2, 2, 4]).value;
      more := FieldsAreWritten(s, [4, 4, 2, 2, 4], f);
      i := BasicDirectory(f[0], f[1], f[2], f[3], f[4]);
      assert f == [f[0], f[1], f[2], f[3], f[4]];
    } else if kind == 8 {
      var f := Fields(s, [4, 4, 4, 4, 2, 2, 4]).value;
      more := FieldsAreWritten(s, [4, 4, 4, 4, 2, 2, 4], f);
      i := ExtendedDirectory(f[0], f[1], f[2], f[3], f[4], f[5], f[6]);
      assert f == [f[0], f[1], f[2], f[3], f[4], f[5], f[6]];
    } else if kind == 3 || kind == 10 {
      var f := Fields(s, [4, 4]).value;
      more := FieldsAreWritten(s, [4, 4], f);
      i := Symlink(kind == 10, f[0], f[1]);
      assert f == [f[0], f[1]];
    } else {
      i, more := Other(kind, []), s;
    }
  }

  lemma InodeIsWritten(s: bytes, blockSize: uint32, wantContent: bool)
    returns (h: InodeHeader, i: StoredInode, more: bytes)
    requires ParseInode(s, blockSize, wantContent).Some? && (wantContent ==> blockSize > 0)
    ensures i.WellFormed(blockSize, wantContent) && s == i.Encoded(h) + more
    ensures ParseInode(s, blockSize, wantContent) == Some(i.Meaning(wantContent))
  {
    hide Fields, PutFields, Pow256, Sum, ParseTyped, StoredInode.Body, StoredInode.WellFormed, StoredInode.Meaning,
         StoredInode.Kind;
    Pow256Widths();
    var f := Fields(s, [2, 2, 2, 2, 4, 4]).value;
    var body := FieldsAreWritten(s, [2, 2, 2, 2, 4, 4], f);
    h := InodeHeader(f[1], f[2], f[3], f[4], f[5]);
    i, more := BodyIsWritten(body, f[0], blockSize, wantContent);
    assert f == [f[0], f[1], f[2], f[3], f[4], f[5]];
  }

  /** Every inode that is read is in the inode table. */
  lemma ReadInodeIsStored(v: Volume, block: uint64, inBlock: uint16, wantContent: bool)
    returns (h: InodeHeader, i: StoredInode, start: nat, cut: Cut)
    requires InodeAt(v, block, inBlock, wantContent).Some? && (wantContent ==> v.sb.blockSize > 0)
    ensures i.WellFormed(v.sb.blockSize, wantContent)
    ensures LiesAt(v.sb.inodeTableStart, block, start) && HoldsAt(v.Src(), start, inBlock, cut, i.Encoded(h))
    ensures InodeAt(v, block, inBlock, wantContent) == Some(i.Meaning(wantContent))
  {
    hide *;
    start := TableOffset(v.sb.inodeTableStart, block);
    TableOffsetIs(v.sb.inodeTableStart, block, start);
    InodeAtIs(v, block, inBlock, wantContent);
    var more: bytes;
    h, i, more := InodeIsWritten(StreamAt(v.Src(), start, inBlock).value, v.sb.blockSize, wantContent);
    cut := StreamedIsHeld(v.Src(), start, inBlock, i.Encoded(h), more);
  }

  // ----- file data -----

  /** A block that is stored, or in any form that the image's decompressor undoes. */
  ghost predicate BlockFits(v: Volume, b: DataBlock) {
    && (!b.Hole? ==> |b.OnDisk()| <= v.sb.blockSize && |b.OnDisk()| < 0x100_0000)
    && (b.Squeezed? ==> Unpacks(v.Src(), b.packed, v.sb.blockSize, b.content))
  }

  /** A size field: 24 bits of size, then a flag for data that is not compressed; the rest is not looked at. */
  ghost predicate Describes(raw: nat, b: DataBlock) {
    raw % 0x100_0000 == |b.OnDisk()| && (!b.Hole? ==> (b.Raw? <==> raw / 0x100_0000 % 2 == 1))
  }

  /** The bytes are in the image; if there are none, any place that can be sought will do. */
  ghost predicate HasBytes(img: bytes, p: nat, s: bytes) {
    if s == [] then p < 0x8000_0000_0000_0000 else At(img, p, s)
  }

  lemma SizeField(raw: uint32, b: DataBlock)
    requires Describes(raw, b)
    ensures SizeOf(raw) == |b.OnDisk()| && (!b.Hole? ==> (IsCompressed(raw) <==> b.Squeezed?))
  {
  }

  /** A written block reads back. */
  lemma BlockReads(v: Volume, offset: nat, raw: uint32, b: DataBlock)
    requires BlockFits(v, b) && !b.Hole? && Describes(raw, b) && HasBytes(v.img, offset, b.OnDisk())
    ensures ReadBlock(v, offset, SizeOf(raw), IsCompressed(raw)) == Some(b.Data())
  {
    hide DecompressBlock, Unpacks, SizeOf, IsCompressed;
    SizeField(raw, b);
    if b.Squeezed? {
      UnpackedIff(v.Src(), b.packed, v.sb.blockSize, b.content);
    }
  }

  /** Whatever reads as a block was written as one. */
  lemma ReadBlockIsWritten(v: Volume, offset: nat, raw: uint32) returns (b: DataBlock)
    requires ReadBlock(v, offset, SizeOf(raw), IsCompressed(raw)).Some?
    ensures BlockFits(v, b) && !b.Hole? && Describes(raw, b) && HasBytes(v.img, offset, b.OnDisk())
    ensures ReadBlock(v, offset, SizeOf(raw), IsCompressed(raw)) == Some(b.Data())
  {
    hide DecompressBlock, Unpacks;
    var packed := FetchBytes(v.img, offset, SizeOf(raw)).value;
    var data := ReadBlock(v, offset, SizeOf(raw), IsCompressed(raw)).value;
    if IsCompressed(raw) {
      b := Squeezed(packed, data);
      UnpackedIff(v.Src(), packed, v.sb.blockSize, data);
    } else {
      b := Raw(data);
    }
  }

  /** A written block reads back, holes included. */
  lemma BlockRoundTrip(v: Volume, offset: nat, raw: uint32, b: DataBlock)
    requires BlockFits(v, b) && Describes(raw, b) && (b.Hole? <==> b.OnDisk() == [])
    requires !b.Hole? ==> At(v.img, offset, b.OnDisk())
    ensures BlockData(v, offset, raw, |b.Data()|) == Some(b.Data())
  {
    hide ReadBlock, At, SizeOf, IsCompressed, Unpacks;
    SizeField(raw, b);
    if !b.Hole? {
      BlockReads(v, offset, raw, b);
    }
  }

  lemma BlockIsWritten(v: Volume, offset: nat, raw: uint32, len: nat) returns (b: DataBlock)
    requires BlockData(v, offset, raw, len).Some?
    ensures BlockFits(v, b) && Describes(raw, b) && (b.Hole? <==> b.OnDisk() == [])
    ensures !b.Hole? ==> At(v.img, offset, b.OnDisk())
    ensures BlockData(v, offset, raw, len) == Some(b.Data()) && |b.Data()| == len
  {
    hide ReadBlock, At, Unpacks;
    if SizeOf(raw) == 0 {
      b := Hole(len);
    } else {
      b := ReadBlockIsWritten(v, offset, raw);
    }
  }

  /** Block `i` of a file is full, unless the file ends in it, or before it. */
  function LengthOf(blockSize: nat, size: nat, i: nat): nat {
    if (i + 1) * blockSize <= size then blockSize else if i * blockSize <= size then size - i * blockSize else 0
  }

  lemma LengthIs(blockSize: nat, size: nat, i: nat)
    ensures LengthOf(blockSize, size, i) == Before(blockSize, size, i + 1) - Before(blockSize, size, i)
    ensures var b := Before(blockSize, size, i);
            LengthOf(blockSize, size, i) == if b + blockSize > size then size - b else blockSize
  {
    hide Before;
    BeforeIsMultiple(blockSize, size, i);
    BeforeIsMultiple(blockSize, size, i + 1);
    BeforeNext(blockSize, size, i);
    assert (i + 1) * blockSize == i * blockSize + blockSize;
  }

  lemma BeforeNext(blockSize: nat, size: nat, i: nat)
    ensures var b := Before(blockSize, size, i);
            Before(blockSize, size, i + 1) == if b + blockSize > size then size else b + blockSize
  {
  }

  /** How much of the image the first `i` blocks take. */
  function OnDiskBefore(bs: seq<DataBlock>, i: nat): nat
    requires i <= |bs|
  {
    if i == 0 then 0 else OnDiskBefore(bs, i - 1) + |bs[i - 1].OnDisk()|
  }

  /** The image holds the blocks one after the other, and the inode describes them. */
  ghost predicate HoldsFile(v: Volume, size: nat, f: FileRef, bs: seq<DataBlock>) {
    |bs| == |f.blockSizes| && forall i :: 0 <= i < |bs| ==> HoldsBlock(v, size, f, bs, i)
  }

  ghost predicate HoldsBlock(v: Volume, size: nat, f: FileRef, bs: seq<DataBlock>, i: nat)
    requires i < |bs| == |f.blockSizes|
  {
    && BlockFits(v, bs[i]) && Describes(f.blockSizes[i], bs[i]) && (bs[i].Hole? <==> bs[i].OnDisk() == [])
    && |bs[i].Data()| == LengthOf(v.sb.blockSize, size, i)
    && (!bs[i].Hole? ==> At(v.img, f.blocksStart + OnDiskBefore(bs, i), bs[i].OnDisk()))
  }

  lemma {:induction false} OffsetsAddUp(v: Volume, size: nat, f: FileRef, bs: seq<DataBlock>, i: nat)
    requires HoldsFile(v, size, f, bs) && i <= |bs|
    ensures BlockOffset(f, i) == f.blocksStart + OnDiskBefore(bs, i)
  {
    hide At, LengthOf, BlockFits, SizeOf;
    if i == 0 {
    } else {
      OffsetsAddUp(v, size, f, bs, i - 1);
      assert HoldsBlock(v, size, f, bs, i - 1);
      SizeField(f.blockSizes[i - 1], bs[i - 1]);
    }
  }

  lemma OneBlockOfFile(v: Volume, size: nat, f: FileRef, bs: seq<DataBlock>, i: nat)
    requires HoldsFile(v, size, f, bs) && i < |bs|
    ensures FileBlock(v, size, f, i) == Some(bs[i].Data())
  {
    hide At, BlockData, LengthOf, BlockFits, BlockOffset, OnDiskBefore, Before, Describes;
    OffsetsAddUp(v, size, f, bs, i);
    assert HoldsBlock(v, size, f, bs, i);
    BlockRoundTrip(v, BlockOffset(f, i), f.blockSizes[i], bs[i]);
    LengthIs(v.sb.blockSize, size, i);
  }

  lemma {:induction false} BlocksRoundTrip(v: Volume, size: nat, f: FileRef, bs: seq<DataBlock>, i: nat)
    requires HoldsFile(v, size, f, bs) && i <= |bs|
    ensures Blocks(v, size, f, i) == Some(Flatten(Contents(bs)[..i]))
  {
    hide FileBlock, HoldsFile, Contents;
    SameCount(v, size, f, bs);
    if i == 0 {
    } else {
      BlocksRoundTrip(v, size, f, bs, i - 1);
      OneBlockOfFile(v, size, f, bs, i - 1);
      FlattenSplits(Contents(bs), i - 1);
    }
  }

  lemma SameCount(v: Volume, size: nat, f: FileRef, bs: seq<DataBlock>)
    requires HoldsFile(v, size, f, bs)
    ensures |bs| == |f.blockSizes|
  {
  }

  /** Every block that can be read was written. */
  lemma {:induction false} BlocksAreWritten(v: Volume, size: nat, f: FileRef, n: nat) returns (bs: seq<DataBlock>)
    requires n <= |f.blockSizes| && Blocks(v, size, f, n).Some?
    ensures |bs| == n && HoldsFile(v, size, f.(blockSizes := f.blockSizes[..n]), bs)
    decreases n
  {
    hide FileBlock, HoldsBlock;
    if n == 0 {
      bs := [];
    } else {
      var before := BlocksAreWritten(v, size, f, n - 1);
      var b := NextBlockIsWritten(v, size, f, n - 1, before);
      bs := before + [b];
      var g, g' := f.(blockSizes := f.blockSizes[..n - 1]), f.(blockSizes := f.blockSizes[..n]);
      forall i | 0 <= i < n ensures HoldsBlock(v, size, g', bs, i) {
        if i < n - 1 {
          assert HoldsBlock(v, size, g, before, i);
          MoreBlocks(v, size, f, before, b, i);
        }
      }
    }
  }

  lemma {:induction false} OnDiskAppend(bs: seq<DataBlock>, b: DataBlock, i: nat)
    requires i <= |bs|
    ensures OnDiskBefore(bs + [b], i) == OnDiskBefore(bs, i)
  {
    if i > 0 {
      OnDiskAppend(bs, b, i - 1);
    }
  }

  lemma MoreBlocks(v: Volume, size: nat, f: FileRef, bs: seq<DataBlock>, b: DataBlock, i: nat)
    requires i < |bs| < |f.blockSizes| && HoldsBlock(v, size, f.(blockSizes := f.blockSizes[..|bs|]), bs, i)
    ensures HoldsBlock(v, size, f.(blockSizes := f.blockSizes[..|bs| + 1]), bs + [b], i)
  {
    hide At, LengthOf, BlockFits, OnDiskBefore, Describes;
    OnDiskAppend(bs, b, i);
  }

  lemma NextBlockIsWritten(v: Volume, size: nat, f: FileRef, i: nat, bs: seq<DataBlock>) returns (b: DataBlock)
    requires |bs| == i < |f.blockSizes| && HoldsFile(v, size, f.(blockSizes := f.blockSizes[..i]), bs)
    requires FileBlock(v, size, f, i).Some?
    ensures HoldsBlock(v, size, f.(blockSizes := f.blockSizes[..i + 1]), bs + [b], i)
  {
    hide At, BlockData, LengthOf, BlockFits, OnDiskBefore, Before, Describes, HoldsFile;
    var g := f.(blockSizes := f.blockSizes[..i]);
    OffsetsAddUp(v, size, g, bs, i);
    OffsetOfPrefix(f, i, i);
    LengthIs(v.sb.blockSize, size, i);
    b := BlockIsWritten(v, BlockOffset(f, i), f.blockSizes[i], LengthOf(v.sb.blockSize, size, i));
    OnDiskAppend(bs, b, i);
  }

  lemma {:induction false} OffsetOfPrefix(f: FileRef, n: nat, i: nat)
    requires i <= n <= |f.blockSizes|
    ensures BlockOffset(f.(blockSizes := f.blockSizes[..n]), i) == BlockOffset(f, i)
  {
    if i > 0 {
      OffsetOfPrefix(f, n, i - 1);
    }
  }

  // ----- whole files -----

  /** Where the tail of a file is: in this block, which this entry of the fragment table leads to. */
  datatype TailIn = TailIn(shared: DataBlock, entry: StoredFragment, lookup: nat, start: uint64, cut: Cut)

  ghost predicate HoldsTail(v: Volume, f: FileRef, tail: bytes, t: TailIn) {
    && HoldsFragment(v, f.fragIndex, t.entry, t.lookup, t.start, t.cut)
    && !t.shared.Hole? && BlockFits(v, t.shared) && Describes(t.entry.entry.sizeField, t.shared)
    && HasBytes(v.img, t.entry.entry.start, t.shared.OnDisk())
    && f.fragOffset + |tail| <= |t.shared.Data()|
    && tail == t.shared.Data()[f.fragOffset..f.fragOffset + |tail|]
  }

  /** The content is in the file's own blocks, in order, and then in its part of a shared block if it has one. */
  ghost predicate HoldsContent(v: Volume, f: FileRef, content: bytes, bs: seq<DataBlock>, tail: bytes, t: TailIn) {
    && HoldsFile(v, |content|, f, bs) && content == Flatten(Contents(bs)) + tail
    && if f.fragIndex == 0xFFFF_FFFF then tail == [] else HoldsTail(v, f, tail, t)
  }

  lemma HeadIs(v: Volume, size: nat, f: FileRef, bs: seq<DataBlock>)
    requires HoldsFile(v, size, f, bs)
    ensures Blocks(v, size, f, |f.blockSizes|) == Some(Flatten(Contents(bs)))
    ensures |Flatten(Contents(bs))| == Before(v.sb.blockSize, size, |f.blockSizes|)
  {
    hide HoldsFile, Contents;
    SameCount(v, size, f, bs);
    BlocksRoundTrip(v, size, f, bs, |bs|);
    assert Contents(bs)[..|bs|] == Contents(bs);
  }

  lemma TailReads(v: Volume, size: nat, f: FileRef, tail: bytes, t: TailIn)
    requires f.fragIndex != 0xFFFF_FFFF && HoldsTail(v, f, tail, t)
    requires |tail| == size - Before(v.sb.blockSize, size, |f.blockSizes|)
    ensures Tail(v, size, f) == Some(tail)
  {
    hide HoldsFragment, FragmentEntry, Before, ReadBlock, BlockFits, Describes, HasBytes, SizeOf, IsCompressed;
    HeldFragmentIsRead(v, f.fragIndex, t.entry, t.lookup, t.start, t.cut);
    BlockReads(v, t.entry.entry.start, t.entry.entry.sizeField, t.shared);
  }

  /** A file written as holes, stored blocks and packed blocks, with its tail in a fragment block, reads back. */
  lemma FileRoundTrip(v: Volume, f: FileRef, content: bytes, bs: seq<DataBlock>, tail: bytes, t: TailIn)
    requires HoldsContent(v, f, content, bs, tail, t)
    ensures FileContent(v, |content|, f) == Some(content)
  {
    hide HoldsFile, Blocks, Before, HoldsTail, FragmentEntry, Contents, Flatten, ReadBlock;
    HeadIs(v, |content|, f, bs);
    if f.fragIndex != 0xFFFF_FFFF {
      TailReads(v, |content|, f, tail, t);
    }
  }

  lemma TailIsWritten(v: Volume, size: nat, f: FileRef) returns (tail: bytes, t: TailIn)
    requires f.fragIndex != 0xFFFF_FFFF && Tail(v, size, f).Some?
    ensures Tail(v, size, f) == Some(tail) && HoldsTail(v, f, tail, t)
  {
    hide HoldsFragment, FragmentEntry, Before, ReadBlock, BlockFits, Describes, HasBytes, SizeOf, IsCompressed;
    tail := Tail(v, size, f).value;
    var e, lookup, start, cut := ReadFragmentIsHeld(v, f.fragIndex);
    var shared := ReadBlockIsWritten(v, e.entry.start, e.entry.sizeField);
    t := TailIn(shared, e, lookup, start, cut);
  }

  /** Every file that can be rebuilt was written so. */
  lemma FileIsWritten(v: Volume, f: FileRef, content: bytes) returns (bs: seq<DataBlock>, tail: bytes, t: TailIn)
    requires FileContent(v, |content|, f) == Some(content)
    ensures HoldsContent(v, f, content, bs, tail, t)
  {
    hide HoldsFile, Blocks, Before, HoldsTail, FragmentEntry, Contents, Flatten, ReadBlock;
    bs := BlocksAreWritten(v, |content|, f, |f.blockSizes|);
    assert f.(blockSizes := f.blockSizes[..|f.blockSizes|]) == f;
    HeadIs(v, |content|, f, bs);
    tail := Tail(v, |content|, f).value;
    if f.fragIndex != 0xFFFF_FFFF {
      tail, t := TailIsWritten(v, |content|, f);
    } else {
      t := TailIn(Hole(0), StoredFragment(FragEntry(0, 0), 0), 0, 0, Cut([], 0, [], []));
    }
  }
}
