/** What it means that a cramfs image was written from a directory tree; and that it reads back as the tree. */
module CramfsTree {
  import opened Bytes
  import opened DataBlocks
  import opened Walk
  import opened WrittenTree
  import opened CramfsReader
  import opened CramfsImage

  /** The image holds the node that the inode describes: file data behind block pointers, or a directory. */
  ghost predicate HoldsNode(v: Volume, inode: Inode, n: Node)
    decreases n
  {
    match n
    case Dir(es) => IsDirectoryMode(inode.mode) && HoldsDir(v, Region(inode.offset, inode.size), es)
    case Data(content) =>
      IsRegularMode(inode.mode) && exists bs :: HoldsFile(v, inode, bs) && content == Flatten(Contents(bs))
    case Odd(size) => !IsDirectoryMode(inode.mode) && !IsRegularMode(inode.mode) && inode.size == size
  }

  ghost predicate HoldsDir(v: Volume, d: Region, es: seq<Named>)
    decreases es
  {
    exists stored: seq<DirEntry> :: HoldsEntries(v, d, es, stored)
  }

  /** The region holds these entries, one after the other, and each leads to what the tree has under its name. */
  ghost predicate HoldsEntries(v: Volume, d: Region, es: seq<Named>, stored: seq<DirEntry>)
    decreases es, 0
  {
    && DirFits(stored) && (d.size > 0 ==> At(v.img, d.offset, PutDir(stored, v.sb.bigEndian)))
    && d.size == |PutDir(stored, v.sb.bigEndian)| && d.offset + d.size <= v.sb.size
    && |stored| == |es|
    && forall i :: 0 <= i < |es| ==> stored[i].name == es[i].name && HoldsNode(v, stored[i].inode, es[i].node)
  }

  lemma {:induction false} HeldDirIsShown(v: Volume, d: Region, es: seq<Named>, contents: bool)
    requires HoldsDir(v, d, es)
    ensures Shows(Children(v), d, es, contents)
    decreases es, 1
  {
    hide At, PutDir, ChildOf, HoldsNode;
    var stored :| HoldsEntries(v, d, es, stored);
    WrittenDirectoryReadsBack(v, d, stored);
    ChildrenOfEach(ChildOfEntry(v), stored);
    forall i | 0 <= i < |es|
      ensures ChildOf(v, stored[i]).name == es[i].name &&
              ShowsNode(Children(v), ChildOf(v, stored[i]).kind, es[i].node, contents)
    {
      HeldNodeIsShown(v, stored[i], es[i].node, contents);
    }
  }

  lemma {:induction false} HeldNodeIsShown(v: Volume, e: DirEntry, n: Node, contents: bool)
    requires e.inode.Fits() && HoldsNode(v, e.inode, n)
    ensures ChildOf(v, e).name == e.name && ShowsNode(Children(v), ChildOf(v, e).kind, n, contents)
    decreases n, 0
  {
    hide HoldsDir, Shows, HoldsFile, Children, FileContent, Flatten, Contents;
    match n
    case Dir(es) =>
      HeldDirIsShown(v, Region(e.inode.offset, e.inode.size), es, contents);
    case Data(content) =>
      var bs :| HoldsFile(v, e.inode, bs) && content == Flatten(Contents(bs));
      FileRoundTrip(v, e.inode, bs);
      FileHasItsSize(v, e.inode);
    case Odd(size) =>
  }

  /**
   An image written from a tree reads as the tree: the same listing, the same extraction into anything, the same
   failures; and extracted into an empty directory it leaves exactly the tree.
   */
  lemma TreeRoundTrip(img: bytes, size: uint32, unread: bytes, root: Inode, bigEndian: bool, rest: bytes,
                      zlib: Inflater,
                      es: seq<Named>, sink: Sink, tree: Tree)
    requires |unread| == 56 && root.Fits() && size >= 76
    requires img == PutSuper(size, unread, root, bigEndian) + rest
    requires HoldsDir(Volume(img, zlib, Super(size, bigEndian, root)), Region(root.offset, root.size), es)
    ensures ReadImage(img, zlib, sink, tree) == ReadTree(es, sink, tree)
    ensures sink.Extracting? && Distinct(es) ==> IsExtracted(es, sink, ReadImage(img, zlib, sink, map[]))
    ensures IsListed(es, tree, ReadImage(img, zlib, Listing, tree))
  {
    hide *;
    var v := Volume(img, zlib, Super(size, bigEndian, root));
    SuperRoundTrip(size, unread, root, bigEndian, rest);
    HeldDirIsShown(v, Region(root.offset, root.size), es, sink.Extracting?);
    ReadsAsTree(v, es, sink, tree);
    HeldDirIsShown(v, Region(root.offset, root.size), es, false);
    ReadsAsTree(v, es, Listing, tree);
    TreeIsListed(es, tree);
    if sink.Extracting? && Distinct(es) {
      ReadsAsTree(v, es, sink, map[]);
      TreeIsExtracted(es, sink);
    }
  }

  lemma ReadsAsTree(v: Volume, es: seq<Named>, sink: Sink, tree: Tree)
    requires ReadSuperblock(v.img) == Some(v.sb) &&
             Shows(Children(v), Region(v.sb.root.offset, v.sb.root.size), es, sink.Extracting?)
    ensures ReadImage(v.img, v.zlib, sink, tree) == ReadTree(es, sink, tree)
  {
    hide Shows, Children, Run, DirVisits, ReadSuperblock;
    ShownIsRead(Children(v), Region(v.sb.root.offset, v.sb.root.size), es, sink, State([], tree));
  }

  // ----- whatever is extracted is a tree -----

  lemma ChildrenAreSized(v: Volume)
    ensures AllSized(Children(v))
  {
    hide DirEntries, FileContent, IsSized;
    forall d: Region | Children(v)(d).Some? ensures KindsAreSized(Children(v)(d).value) {
      EntriesAreSized(v, DirEntries(v, d).value);
    }
  }

  lemma {:induction false} EntriesAreSized(v: Volume, es: seq<DirEntry>)
    ensures ChildrenOf(ChildOfEntry(v), es).Some? && KindsAreSized(ChildrenOf(ChildOfEntry(v), es).value)
    decreases |es|
  {
    hide FileContent;
    if es == [] {
    } else {
      if FileContent(v, es[0].inode).Some? {
        FileHasItsSize(v, es[0].inode);
      }
      EntriesAreSized(v, es[1..]);
    }
  }

  /** Directories that show a tree hold it: nothing can be read that was not written. */
  lemma {:induction false} ShownDirIsHeld(v: Volume, d: Region, es: seq<Named>)
    requires Shows(Children(v), d, es, true)
    ensures HoldsDir(v, d, es)
    decreases es, 1
  {
    hide At, PutDir, ChildOf, HoldsNode, ParseDir, ShowsNode;
    DirectoryStaysInItsRegion(v, d);
    var stored := DirEntries(v, d).value;
    ChildrenOfEach(ChildOfEntry(v), stored);
    var cs := Children(v)(d).value;
    forall i | 0 <= i < |es| ensures stored[i].name == es[i].name && HoldsNode(v, stored[i].inode, es[i].node) {
      assert cs[i] == ChildOf(v, stored[i]);
      ChildHasName(v, stored[i]);
      ShownNodeIsHeld(v, stored[i], es[i].node);
    }
    assert HoldsEntries(v, d, es, stored);
  }

  lemma ChildHasName(v: Volume, e: DirEntry)
    ensures ChildOf(v, e).name == e.name
  {
  }

  lemma {:induction false} ShownNodeIsHeld(v: Volume, e: DirEntry, n: Node)
    requires e.inode.Fits() && ShowsNode(Children(v), ChildOf(v, e).kind, n, true)
    ensures HoldsNode(v, e.inode, n)
    decreases n, 0
  {
    hide HoldsDir, Shows, HoldsFile, Children, FileContent, Flatten, Contents;
    match n
    case Dir(es) =>
      ShownDirIsHeld(v, Region(e.inode.offset, e.inode.size), es);
    case Data(content) =>
      var bs := FileIsHeld(v, e.inode);
    case Odd(size) =>
  }

  /** An image that can be extracted was written from a tree, as which it is then listed and extracted into anything. */
  lemma ExtractedIsATree(img: bytes, zlib: Inflater, sink: Sink, tree: Tree)
    returns (es: seq<Named>, unread: bytes, rest: bytes)
    requires sink.Extracting? && ReadImage(img, zlib, sink, tree).Some?
    ensures ReadSuperblock(img).Some?
    ensures var sb := ReadSuperblock(img).value;
            && |unread| == 56 && sb.root.Fits() && sb.size >= 76
            && img == PutSuper(sb.size, unread, sb.root, sb.bigEndian) + rest
            && HoldsDir(Volume(img, zlib, sb), Region(sb.root.offset, sb.root.size), es)
    ensures forall other, t :: ReadImage(img, zlib, other, t) == ReadTree(es, other, t)
  {
    hide ReadSuperblock, Run, DirVisits, Shows, Children, HoldsDir;
    var sb := ReadSuperblock(img).value;
    var v, root := Volume(img, zlib, sb), Region(sb.root.offset, sb.root.size);
    ChildrenAreSized(v);
    unread, rest := SuperIsWritten(img);
    es := ExtractedShowsTree(Children(v), root, sink, tree);
    ShownDirIsHeld(v, root, es);
    forall other, t ensures ReadImage(img, zlib, other, t) == ReadTree(es, other, t) {
      ShownForAll(Children(v), root, es, other, State([], t));
    }
  }
}
