/** What it means that a SquashFS image was written from a directory tree; and that it reads back as the tree. */
module SquashfsTree {
  import opened Bytes
  import opened DataBlocks
  import opened Walk
  import opened WrittenTree
  import opened SquashfsStream
  import opened SquashfsInode
  import opened SquashfsFile
  import opened SquashfsReader
  import opened SquashfsImage

  // ----- images that hold a tree -----

  /** The image holds the node at an inode reference. */
  ghost predicate HoldsNode(v: Volume, block: uint64, inBlock: uint16, n: Node)
    decreases n, 1
  {
    exists h: InodeHeader, i: StoredInode, start: nat, cut: Cut :: HoldsInode(v, block, inBlock, n, h, i, start, cut)
  }

  /** The inode is in the inode table, and what it describes is the node. */
  ghost predicate HoldsInode(v: Volume, block: uint64, inBlock: uint16, n: Node, h: InodeHeader, i: StoredInode,
                             start: nat, cut: Cut)
    decreases n, 0
  {
    && i.WellFormed(v.sb.blockSize, true)
    && LiesAt(v.sb.inodeTableStart, block, start) && HoldsAt(v.Src(), start, inBlock, cut, i.Encoded(h))
    && match i.Meaning(true)
       case DirInode(d) => n.Dir? && HoldsDir(v, d, n.entries)
       case FileInode(size, f) => n.Data? && size == |n.content| && HoldsData(v, f, n.content)
       case OtherInode(size) => n == Odd(size)
  }

  ghost predicate HoldsData(v: Volume, f: FileRef, content: bytes) {
    exists bs: seq<DataBlock>, tail: bytes, t: TailIn :: HoldsContent(v, f, content, bs, tail, t)
  }

  ghost predicate HoldsDir(v: Volume, d: DirRef, es: seq<Named>)
    decreases es, 2
  {
    || (d.size < 4 && es == [])
    || exists gs: seq<Group>, start: nat, cut: Cut :: HoldsListing(v, d, es, gs, start, cut)
  }

  /** The listing is in the directory table, and each of its entries leads to what the tree has under its name. */
  ghost predicate HoldsListing(v: Volume, d: DirRef, es: seq<Named>, gs: seq<Group>, start: nat, cut: Cut)
    decreases es, 1
  {
    HoldsGroups(v, d, gs, start, cut) && HoldsEntries(v, gs, es, 0)
  }

  /** The groups list the tree's entries from `at` on: each in its turn, with its group's block and its own offset. */
  ghost predicate HoldsEntries(v: Volume, gs: seq<Group>, es: seq<Named>, at: nat)
    decreases es, 0, |gs|
  {
    if gs == [] then at == |es|
    else
      var n := |gs[0].entries|;
      && at + n <= |es|
      && (forall k :: 0 <= k < n ==>
            && gs[0].entries[k].name == es[at + k].name
            && HoldsNode(v, gs[0].start, gs[0].entries[k].offset, es[at + k].node))
      && HoldsEntries(v, gs[1..], es, at + n)
  }

  /** A reference leads to an entry of the tree. */
  ghost predicate RefHolds(v: Volume, r: Ref, e: Named) {
    r.entry.name == e.name && HoldsNode(v, r.start, r.entry.offset, e.node)
  }

  lemma {:induction false} GroupRefsAre(start: uint32, ds: seq<DirEntry>)
    ensures |GroupRefs(start, ds)| == |ds|
    ensures forall k :: 0 <= k < |ds| ==> GroupRefs(start, ds)[k] == Ref(start, ds[k])
  {
    if ds == [] {
    } else {
      GroupRefsAre(start, ds[1..]);
    }
  }

  ghost predicate RefsHold(v: Volume, refs: seq<Ref>, es: seq<Named>, at: nat) {
    at + |refs| <= |es| && forall i :: 0 <= i < |refs| ==> RefHolds(v, refs[i], es[at + i])
  }

  lemma RefsAppend(v: Volume, a: seq<Ref>, b: seq<Ref>, es: seq<Named>, at: nat)
    ensures RefsHold(v, a + b, es, at) <==> RefsHold(v, a, es, at) && RefsHold(v, b, es, at + |a|)
  {
    hide RefHolds;
    var all := a + b;
    if RefsHold(v, all, es, at) {
      forall i | 0 <= i < |a| ensures RefHolds(v, a[i], es[at + i]) {
        assert all[i] == a[i];
      }
      forall i | 0 <= i < |b| ensures RefHolds(v, b[i], es[at + |a| + i]) {
        assert all[|a| + i] == b[i];
      }
    }
    if RefsHold(v, a, es, at) && RefsHold(v, b, es, at + |a|) {
      forall i | 0 <= i < |all| ensures RefHolds(v, all[i], es[at + i]) {
        if i >= |a| {
          assert RefHolds(v, b[i - |a|], es[at + |a| + (i - |a|)]);
        }
      }
    }
  }

  lemma GroupHolds(v: Volume, g: Group, es: seq<Named>, at: nat)
    requires at + |g.entries| <= |es|
    ensures RefsHold(v, GroupRefs(g.start, g.entries), es, at) <==>
            forall k :: 0 <= k < |g.entries| ==>
                          && g.entries[k].name == es[at + k].name
                          && HoldsNode(v, g.start, g.entries[k].offset, es[at + k].node)
  {
    hide HoldsNode, GroupRefs;
    GroupRefsAre(g.start, g.entries);
    var refs := GroupRefs(g.start, g.entries);
    if RefsHold(v, refs, es, at) {
      forall k | 0 <= k < |g.entries|
        ensures g.entries[k].name == es[at + k].name && HoldsNode(v, g.start, g.entries[k].offset, es[at + k].node)
      {
        assert RefHolds(v, refs[k], es[at + k]);
      }
    }
  }

  /** Group by group or reference by reference, it is the same tree. */
  lemma {:induction false} EntriesAreRefs(v: Volume, gs: seq<Group>, es: seq<Named>, at: nat)
    requires at <= |es|
    ensures HoldsEntries(v, gs, es, at) <==> at + |ListingRefs(gs)| == |es| && RefsHold(v, ListingRefs(gs), es, at)
    decreases |gs|
  {
    hide HoldsNode, RefsHold, GroupRefs;
    if gs == [] {
      assert RefsHold(v, [], es, at) by {
        NoRefsHold(v, es, at);
      }
    } else {
      var g, more := gs[0], ListingRefs(gs[1..]);
      GroupRefsAre(g.start, g.entries);
      RefsAppend(v, GroupRefs(g.start, g.entries), more, es, at);
      if at + |g.entries| <= |es| {
        EntriesAreRefs(v, gs[1..], es, at + |g.entries|);
        GroupHolds(v, g, es, at);
      }
    }
  }

  lemma NoRefsHold(v: Volume, es: seq<Named>, at: nat)
    requires at <= |es|
    ensures RefsHold(v, [], es, at)
  {
  }

  // ----- reading them -----

  lemma HeldInodeIsRead(v: Volume, block: uint64, inBlock: uint16, n: Node, h: InodeHeader, i: StoredInode, start: nat,
                        cut: Cut, contents: bool)
    requires HoldsInode(v, block, inBlock, n, h, i, start, cut)
    ensures InodeAt(v, block, inBlock, contents) == Some(i.Meaning(contents))
  {
    hide InodeAt, ChunksAt, HoldsAt, LiesAt, StoredInode.Meaning, StoredInode.Encoded, StoredInode.WellFormed, HoldsDir,
         HoldsData;
    WellFormedAnyway(i, v.sb.blockSize, contents);
    StoredInodeReadsBack(v, block, inBlock, h, i, contents, start, cut);
  }

  lemma WellFormedAnyway(i: StoredInode, blockSize: uint32, contents: bool)
    requires i.WellFormed(blockSize, true)
    ensures i.WellFormed(blockSize, contents)
  {
    hide CountedAs;
  }

  lemma {:induction false} HeldDirIsShown(v: Volume, d: DirRef, es: seq<Named>, contents: bool)
    requires HoldsDir(v, d, es)
    ensures Shows(Children(v, contents), d, es, contents)
    decreases es, 1
  {
    hide ChildOf, HoldsNode, HoldsGroups, HoldsEntries, ListingRefs, DirRefs, ShowsNode;
    if d.size < 4 && es == [] {
      EmptyDirIsRead(v, d);
      RefsAreShown(v, d, es, [], contents);
    } else {
      var gs, start, cut :| HoldsListing(v, d, es, gs, start, cut);
      var refs := ListingRefs(gs);
      DirectoryIgnoresBlockCuts(v, d, gs, start, cut);
      EntriesAreRefs(v, gs, es, 0);
      forall i | 0 <= i < |es| ensures IsShown(v, refs[i], es[i], contents) {
        assert RefHolds(v, refs[i], es[0 + i]);
        HeldNodeIsShown(v, refs[i], es[i].node, contents);
      }
      RefsAreShown(v, d, es, refs, contents);
    }
  }

  ghost predicate IsShown(v: Volume, r: Ref, e: Named, contents: bool) {
    && ChildOf(v, contents, r).Some?
    && var c := ChildOf(v, contents, r).value;
       c.name == e.name && ShowsNode(Children(v, contents), c.kind, e.node, contents)
  }

  lemma EmptyDirIsRead(v: Volume, d: DirRef)
    requires d.size < 4
    ensures DirRefs(v, d) == Some([])
  {
  }

  lemma RefsAreShown(v: Volume, d: DirRef, es: seq<Named>, refs: seq<Ref>, contents: bool)
    requires DirRefs(v, d) == Some(refs) && |refs| == |es|
    requires forall i :: 0 <= i < |es| ==> IsShown(v, refs[i], es[i], contents)
    ensures Shows(Children(v, contents), d, es, contents)
  {
    hide DirRefs, ChildOf, ShowsNode;
    forall i | 0 <= i < |refs| ensures ChildOfRef(v, contents)(refs[i]).Some? {
      assert IsShown(v, refs[i], es[i], contents);
    }
    ChildrenOfEach(ChildOfRef(v, contents), refs);
    var cs := ChildrenOf(ChildOfRef(v, contents), refs).value;
    forall i | 0 <= i < |es|
      ensures cs[i].name == es[i].name && ShowsNode(Children(v, contents), cs[i].kind, es[i].node, contents)
    {
      assert IsShown(v, refs[i], es[i], contents);
    }
  }

  lemma MeaningWithContents(i: StoredInode, contents: bool)
    ensures i.Meaning(contents) == match i.Meaning(true)
                                   case FileInode(size, f) =>
                                     FileInode(size, if contents then f else f.(blockSizes := []))
                                   case other => other
  {
  }

  lemma {:induction false} HeldNodeIsShown(v: Volume, r: Ref, n: Node, contents: bool)
    requires HoldsNode(v, r.start, r.entry.offset, n)
    ensures IsShown(v, r, Named(r.entry.name, n), contents)
    decreases n, 0
  {
    hide HoldsDir, Shows, HoldsContent, Children, FileContent, StoredInode.WellFormed, StoredInode.Meaning, HoldsAt,
         LiesAt, InodeAt;
    var h, i, start, cut :| HoldsInode(v, r.start, r.entry.offset, n, h, i, start, cut);
    HeldInodeIsRead(v, r.start, r.entry.offset, n, h, i, start, cut, contents);
    MeaningWithContents(i, contents);
    match i.Meaning(true)
    case DirInode(d) =>
      HeldDirIsShown(v, d, n.entries, contents);
    case FileInode(size, f) =>
      var bs, tail, t :| HoldsContent(v, f, n.content, bs, tail, t);
      FileRoundTrip(v, f, n.content, bs, tail, t);
    case OtherInode(size) =>
  }

  /** The superblock's root inode is the directory with these entries; a root of another kind holds nothing. */
  ghost predicate HoldsRoot(v: Volume, es: seq<Named>) {
    exists block: uint64, inBlock: uint16, h: InodeHeader, i: StoredInode, start: nat, cut: Cut ::
      IsRoot(v, es, block, inBlock, h, i, start, cut)
  }

  ghost predicate IsRoot(v: Volume, es: seq<Named>, block: uint64, inBlock: uint16, h: InodeHeader, i: StoredInode,
                         start: nat, cut: Cut) {
    && v.sb.rootInode == block * 0x1_0000 + inBlock && i.WellFormed(v.sb.blockSize, false)
    && LiesAt(v.sb.inodeTableStart, block, start) && HoldsAt(v.Src(), start, inBlock, cut, i.Encoded(h))
    && match i.Meaning(false)
       case DirInode(d) => HoldsDir(v, d, es)
       case _ => es == []
  }

  lemma RootParts(block: uint64, inBlock: uint16, root: uint64)
    requires root == block * 0x1_0000 + inBlock
    ensures root / 0x1_0000 == block && root % 0x1_0000 == inBlock
  {
  }

  lemma RootIsShown(v: Volume, es: seq<Named>, contents: bool) returns (root: Inode)
    requires HoldsRoot(v, es)
    ensures InodeAt(v, v.sb.rootInode / 0x1_0000, v.sb.rootInode % 0x1_0000, false) == Some(root)
    ensures Shows(Children(v, contents), RootDir(root), es, contents)
  {
    hide Shows, Children, HoldsDir, InodeAt, HoldsAt, LiesAt, StoredInode.WellFormed, StoredInode.Meaning;
    var block, inBlock, h, i, start, cut :| IsRoot(v, es, block, inBlock, h, i, start, cut);
    RootParts(block, inBlock, v.sb.rootInode);
    StoredInodeReadsBack(v, block, inBlock, h, i, false, start, cut);
    root := i.Meaning(false);
    if !root.DirInode? {
      NothingIsHeld(v, RootDir(root), es);
    }
    HeldDirIsShown(v, RootDir(root), es, contents);
  }

  lemma NothingIsHeld(v: Volume, d: DirRef, es: seq<Named>)
    requires d.size < 4 && es == []
    ensures HoldsDir(v, d, es)
  {
  }

  /**
   An image written from a tree reads as the tree: the same listing, the same extraction into anything, the same
   failures; and extracted into an empty directory it leaves exactly the tree. Extraction only takes block sizes that
   are powers of two from 4 KiB to 1 MiB.
   */
  lemma TreeRoundTrip(img: bytes, s: SuperblockImage, rest: bytes, codec: Codec, es: seq<Named>, sink: Sink, tree: Tree)
    requires s.WellFormed() && img == s.Encoded() + rest && HoldsRoot(Volume(img, codec, s.sb), es)
    ensures ReadImage(img, codec, sink, tree) == (if Refused(s.sb, sink) then None else ReadTree(es, sink, tree))
    ensures IsListed(es, tree, ReadImage(img, codec, Listing, tree))
    ensures sink.Extracting? && !Refused(s.sb, sink) && Distinct(es) ==>
              IsExtracted(es, sink, ReadImage(img, codec, sink, map[]))
  {
    hide *;
    SuperblockRoundTrip(s, rest);
    var v := Volume(img, codec, s.sb);
    ReadsAsTree(v, es, sink, tree);
    ReadsAsTree(v, es, Listing, tree);
    NeverRefused(s.sb);
    TreeIsListed(es, tree);
    if sink.Extracting? && !Refused(s.sb, sink) && Distinct(es) {
      ReadsAsTree(v, es, sink, map[]);
      TreeIsExtracted(es, sink);
    }
  }

  ghost predicate Refused(sb: Superblock, sink: Sink) {
    && sink.Extracting?
    && sb.blockSize !in {4096, 8192, 0x4000, 0x8000, 0x1_0000, 0x2_0000, 0x4_0000, 0x8_0000, 0x10_0000}
  }

  lemma NeverRefused(sb: Superblock)
    ensures !Refused(sb, Listing)
  {
  }

  lemma ReadsAsTree(v: Volume, es: seq<Named>, sink: Sink, tree: Tree)
    requires ReadSuperblock(v.img) == Some(v.sb) && HoldsRoot(v, es)
    ensures ReadImage(v.img, v.codec, sink, tree) ==
            if Refused(v.sb, sink) then None else ReadTree(es, sink, tree)
  {
    hide Shows, Children, Run, DirVisits, ReadSuperblock, InodeAt, HoldsRoot, ValidBlockSize;
    ValidBlockSizes(v.sb.blockSize);
    var root := RootIsShown(v, es, sink.Extracting?);
    ShownIsRead(Children(v, sink.Extracting?), RootDir(root), es, sink, State([], tree));
  }

  // ----- whatever is extracted is a tree -----

  lemma FilesAreSized(v: Volume, r: Ref)
    requires v.sb.blockSize > 0 && ChildOf(v, true, r).Some?
    ensures IsSized(ChildOf(v, true, r).value.kind)
  {
    hide InodeAt, FileContent, Counted;
    var inode := InodeAt(v, r.start, r.entry.offset, true).value;
    if inode.FileInode? && FileContent(v, inode.size, inode.file).Some? {
      ParsedFilesAreCounted(v, r.start, r.entry.offset);
      FileHasItsSize(v, inode.size, inode.file);
    }
  }

  /** Directories that show a tree hold it: nothing can be read that was not written. */
  lemma {:induction false} ShownDirIsHeld(v: Volume, d: DirRef, es: seq<Named>)
    requires v.sb.blockSize > 0 && Shows(Children(v, true), d, es, true)
    ensures HoldsDir(v, d, es)
    decreases es, 1
  {
    hide ChildOf, HoldsNode, HoldsGroups, HoldsEntries, ListingRefs, DirRefs, ShowsNode;
    var gs, start, cut := DirectoryIsWritten(v, d);
    var refs := ListingRefs(gs);
    ShownRefs(v, refs, es);
    forall i | 0 <= i < |es| ensures RefHolds(v, refs[i], es[0 + i]) {
      assert IsShown(v, refs[i], es[i], true);
      ShownNodeIsHeld(v, refs[i], es[i].name, es[i].node);
    }
    EntriesAreRefs(v, gs, es, 0);
    if d.size < 4 {
      NoRefs(gs);
    } else {
      assert HoldsListing(v, d, es, gs, start, cut);
    }
  }

  lemma NoRefs(gs: seq<Group>)
    ensures gs == [] ==> ListingRefs(gs) == []
  {
  }

  lemma ShownRefs(v: Volume, refs: seq<Ref>, es: seq<Named>)
    requires ChildrenOf(ChildOfRef(v, true), refs).Some?
    requires ShowsAll(Children(v, true), ChildrenOf(ChildOfRef(v, true), refs).value, es, true)
    ensures |refs| == |es| && forall i :: 0 <= i < |es| ==> IsShown(v, refs[i], es[i], true)
  {
    hide ChildOf, ChildOfRef, ChildrenOf, ShowsNode, IsShown;
    EachOfChildren(ChildOfRef(v, true), refs);
    var cs := ChildrenOf(ChildOfRef(v, true), refs).value;
    forall i | 0 <= i < |es| ensures IsShown(v, refs[i], es[i], true) {
      RefIsShown(v, refs[i], cs[i], es[i]);
    }
  }

  lemma RefIsShown(v: Volume, r: Ref, c: Child<DirRef>, e: Named)
    requires ChildOfRef(v, true)(r) == Some(c) && c.name == e.name
    requires ShowsNode(Children(v, true), c.kind, e.node, true)
    ensures IsShown(v, r, e, true)
  {
    hide ChildOf, ShowsNode;
  }

  /** What a shown inode says. */
  ghost predicate InodeShows(v: Volume, inode: Inode, n: Node) {
    match inode
    case DirInode(d) => n.Dir? && Shows(Children(v, true), d, n.entries, true)
    case FileInode(size, f) => n.Data? && size == |n.content| && FileContent(v, size, f) == Some(n.content)
    case OtherInode(size) => n == Odd(size)
  }

  lemma ShownInode(v: Volume, r: Ref, name: bytes, n: Node)
    requires IsShown(v, r, Named(name, n), true)
    ensures name == r.entry.name && InodeAt(v, r.start, r.entry.offset, true).Some?
    ensures InodeShows(v, InodeAt(v, r.start, r.entry.offset, true).value, n)
  {
    hide Shows, Children, InodeAt, FileContent;
  }

  lemma {:induction false} ShownNodeIsHeld(v: Volume, r: Ref, name: bytes, n: Node)
    requires v.sb.blockSize > 0 && IsShown(v, r, Named(name, n), true)
    ensures name == r.entry.name && HoldsNode(v, r.start, r.entry.offset, n)
    decreases n, 0
  {
    hide HoldsDir, HoldsContent, Shows, Children, FileContent, StoredInode.WellFormed, StoredInode.Meaning, HoldsAt,
         LiesAt, InodeAt, IsShown;
    ShownInode(v, r, name, n);
    var h, i, start, cut := ReadInodeIsStored(v, r.start, r.entry.offset, true);
    match i.Meaning(true) {
      case DirInode(d) =>
        ShownDirIsHeld(v, d, n.entries);
      case FileInode(size, f) =>
        var bs, tail, t := FileIsWritten(v, f, n.content);
        assert HoldsData(v, f, n.content);
      case OtherInode(size) =>
    }
    assert HoldsInode(v, r.start, r.entry.offset, n, h, i, start, cut);
  }

  /** An image that can be extracted was written from a tree, as which it is then listed and extracted into anything. */
  lemma ExtractedIsATree(img: bytes, codec: Codec, sink: Sink, tree: Tree)
    returns (s: SuperblockImage, rest: bytes, es: seq<Named>)
    requires sink.Extracting? && ReadImage(img, codec, sink, tree).Some?
    ensures s.WellFormed() && img == s.Encoded() + rest && !Refused(s.sb, sink)
    ensures HoldsRoot(Volume(img, codec, s.sb), es)
    ensures forall other, t :: ReadImage(img, codec, other, t) == ReadTree(es, other, t)
  {
    hide *;
    s, rest := SuperblockIsWritten(img) by {
      ReadHasSuperblock(img, codec, sink, tree);
    }
    var v := Volume(img, codec, s.sb);
    es := RootIsHeld(v, sink, tree);
    forall other, t ensures ReadImage(img, codec, other, t) == ReadTree(es, other, t) {
      ReadsAsTree(v, es, other, t);
      RefusedAlike(s.sb, sink, other);
    }
  }

  lemma ReadHasSuperblock(img: bytes, codec: Codec, sink: Sink, tree: Tree)
    requires ReadImage(img, codec, sink, tree).Some?
    ensures ReadSuperblock(img).Some?
  {
    hide ReadSuperblock, InodeAt, Run;
  }

  lemma RefusedAlike(sb: Superblock, sink: Sink, other: Sink)
    requires sink.Extracting? && !Refused(sb, sink)
    ensures !Refused(sb, other)
  {
  }

  lemma RootIsHeld(v: Volume, sink: Sink, tree: Tree) returns (es: seq<Named>)
    requires ReadSuperblock(v.img) == Some(v.sb)
    requires sink.Extracting? && ReadImage(v.img, v.codec, sink, tree).Some?
    ensures !Refused(v.sb, sink) && HoldsRoot(v, es)
  {
    hide InodeAt, ReadSuperblock, Run, DirVisits, Shows, Children, HoldsDir, HoldsAt, LiesAt, StoredInode.WellFormed,
         StoredInode.Meaning, ValidBlockSize;
    ValidBlockSizes(v.sb.blockSize);
    var block, inBlock := v.sb.rootInode / 0x1_0000, v.sb.rootInode % 0x1_0000;
    var h, i, start, cut := ReadInodeIsStored(v, block, inBlock, false);
    var root := i.Meaning(false);
    ChildrenAreSized(v);
    es := ExtractedShowsTree(Children(v, true), RootDir(root), sink, tree);
    if root.DirInode? {
      ShownDirIsHeld(v, root.dir, es);
    } else {
      NothingIsShown(v, RootDir(root), es);
    }
    assert IsRoot(v, es, block, inBlock, h, i, start, cut);
  }

  lemma NothingIsShown(v: Volume, d: DirRef, es: seq<Named>)
    requires d.size < 4 && Shows(Children(v, true), d, es, true)
    ensures es == []
  {
    EmptyDirIsRead(v, d);
  }

  lemma ChildrenAreSized(v: Volume)
    requires v.sb.blockSize > 0
    ensures AllSized(Children(v, true))
  {
    hide DirRefs, ChildOf, IsSized;
    forall d: DirRef | Children(v, true)(d).Some?
      ensures KindsAreSized(Children(v, true)(d).value)
    {
      RefsAreSized(v, DirRefs(v, d).value);
    }
  }

  lemma {:induction false} RefsAreSized(v: Volume, rs: seq<Ref>)
    requires v.sb.blockSize > 0 && ChildrenOf(ChildOfRef(v, true), rs).Some?
    ensures KindsAreSized(ChildrenOf(ChildOfRef(v, true), rs).value)
    decreases |rs|
  {
    hide ChildOf, IsSized;
    if rs == [] {
    } else {
      FilesAreSized(v, rs[0]);
      RefsAreSized(v, rs[1..]);
    }
  }
}
