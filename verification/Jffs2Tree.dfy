/** What it means that a JFFS2 log was written for a directory tree, and that such an image reads back as the tree. */
module Jffs2Tree {
  import opened Bytes
  import opened DataBlocks
  import opened Walk
  import opened WrittenTree
  import opened Jffs2Log
  import opened Jffs2View
  import opened Jffs2Replay
  import opened Jffs2Reader

  /** What the nodes of a log say, in the order in which they were written. */
  datatype Said = Said(dirents: seq<Dirent>, writes: seq<Write>)

  function SaidBy(items: seq<Item>): Said {
    Said(FlatMap(Nodes(items), DirentsIn()), FlatMap(Nodes(items), WritesIn()))
  }

  /** Versions are distinct within each name and each inode. */
  ghost predicate IsVersioned(said: Said) {
    && (forall a, b :: a in said.dirents && b in said.dirents && SameDirentKey(a, b) ==> a == b)
    && (forall a: Write, b: Write :: a in said.writes && b in said.writes && SameWriteKey(a, b) ==> a == b)
  }

  ghost predicate SameDirentKey(a: Dirent, b: Dirent) {
    a.pino == b.pino && a.name == b.name && a.version == b.version
  }

  ghost predicate SameWriteKey(a: Write, b: Write) {
    a.rec.ino == b.rec.ino && a.rec.version == b.rec.version
  }

  lemma VersionsTell(said: Said)
    requires IsVersioned(said)
    ensures VersionsIdentify(said.dirents, DirentLe) && VersionsIdentify(said.writes, WriteLe)
  {
    hide DirentLe;
    forall a, b | a in said.dirents && b in said.dirents && DirentLe(a, b) && DirentLe(b, a) ensures a == b {
      DirentOrder(a, b);
    }
  }

  // ----- logs that hold a tree -----

  ghost predicate IsNewestWrite(ws: seq<Write>, w: Write) {
    w in ws && forall e :: e in ws && e.rec.ino == w.rec.ino ==> e.rec.version <= w.rec.version
  }

  /** Write `w` is the newest of its inode to cover byte `j`. */
  ghost predicate Decides(ws: seq<Write>, j: nat, w: Write) {
    && w in ws && Covers(w.rec, j)
    && forall e :: e in ws && e.rec.ino == w.rec.ino && Covers(e.rec, j) ==> e.rec.version <= w.rec.version
  }

  /** The bytes that a write puts into its file. */
  function PlainOf(zlib: Inflater, w: Write): Option<bytes> {
    var data :- w.data;
    if |data| < w.rec.csize then None else Plain(zlib, w.rec, data)
  }

  /** The writes of inode `ino` that reach into the content can be undone, and each byte of it is what the newest of
      them put there, or zero. */
  ghost predicate HoldsContent(ws: seq<Write>, zlib: Inflater, ino: uint32, content: bytes) {
    && |content| <= 0x1000_0000
    && (forall w :: w in ws && w.rec.ino == ino && w.rec.dsize != 0 && w.rec.fragOffset < |content| ==>
          PlainOf(zlib, w).Some?)
    && (forall j :: 0 <= j < |content| && (forall w :: w in ws && w.rec.ino == ino ==> !Covers(w.rec, j)) ==>
        content[j] == 0)
    && (forall j, w: Write :: 0 <= j < |content| && w.rec.ino == ino && Decides(ws, j, w) ==>
          var plain := PlainOf(zlib, w);
          plain.Some? && j - w.rec.fragOffset < |plain.value| && content[j] == plain.value[j - w.rec.fragOffset])
  }

  ghost predicate HoldsNode(said: Said, zlib: Inflater, ino: uint32, n: Node)
    decreases n
  {
    exists m: Write :: HoldsInode(said, zlib, ino, n, m)
  }

  /** The newest write of the inode says what kind of node it is, and how large; the log has what is in it. */
  ghost predicate HoldsInode(said: Said, zlib: Inflater, ino: uint32, n: Node, m: Write)
    decreases n, 0
  {
    && IsNewestWrite(said.writes, m) && m.rec.ino == ino
    && match n
       case Dir(es) => IsDirectoryMode(m.rec.mode) && HoldsDir(said, zlib, ino, es)
       case Data(content) =>
         IsRegularMode(m.rec.mode) && m.rec.isize == |content| && HoldsContent(said.writes, zlib, ino, content)
       case Odd(size) => !IsDirectoryMode(m.rec.mode) && !IsRegularMode(m.rec.mode) && m.rec.isize == size
  }

  ghost predicate HoldsDir(said: Said, zlib: Inflater, ino: uint32, es: seq<Named>)
    decreases es, 1
  {
    exists ds: seq<Dirent> :: HoldsEntries(said, zlib, ino, es, ds)
  }

  ghost predicate IsCurrent(dirents: seq<Dirent>, ino: uint32, d: Dirent) {
    d.pino == ino && d.ino != 0 && IsNewest(dirents, d)
  }

  ghost predicate InDictionaryOrder(ds: seq<Dirent>) {
    forall i, j :: 0 <= i < j < |ds| ==> Before(ds[i].name, ds[j].name)
  }

  lemma DictionaryOrder(ds: seq<Dirent>)
    ensures InDictionaryOrder(ds) <==> NamesIncrease(ds)
  {
    hide NameCmp, Before;
    forall i, j | 0 <= i < j < |ds| ensures NameCmp(ds[i].name, ds[j].name) < 0 <==> Before(ds[i].name, ds[j].name) {
      NameCmpIs(ds[i].name, ds[j].name);
    }
  }

  /** The newest undeleted dirents of the directory are these, in name order, and each leads to what the tree has. */
  ghost predicate HoldsEntries(said: Said, zlib: Inflater, ino: uint32, es: seq<Named>, ds: seq<Dirent>)
    decreases es, 0
  {
    && InDictionaryOrder(ds) && (forall d :: d in ds <==> IsCurrent(said.dirents, ino, d))
    && |ds| == |es|
    && forall i :: 0 <= i < |es| ==> ds[i].name == es[i].name && HoldsNode(said, zlib, ds[i].ino, es[i].node)
  }

  // ----- reading them -----

  lemma {:induction false} NameOrderIsUnique(a: seq<Dirent>, b: seq<Dirent>)
    requires NamesIncrease(a) && NamesIncrease(b) && forall d :: d in a <==> d in b
    ensures a == b
    decreases |a|
  {
    hide NameCmp;
    if a == [] {
      if b != [] {
        HasMember(b);
        assert false;
      }
    } else {
      assert a[0] in b && b != [] && b[0] in a;
      FirstIsLeast(a, b[0]);
      FirstIsLeast(b, a[0]);
      NameCmpOrders(a[0].name, b[0].name);
      assert a[0] == b[0];
      forall d ensures d in a[1..] <==> d in b[1..] {
        FirstIsOnce(a, d);
        FirstIsOnce(b, d);
      }
      NameOrderIsUnique(a[1..], b[1..]);
      assert a == [a[0]] + a[1..] && b == [b[0]] + b[1..];
    }
  }

  lemma HasMember(b: seq<Dirent>)
    requires b != []
    ensures b[0] in b
  {
  }

  lemma FirstIsLeast(a: seq<Dirent>, d: Dirent)
    requires NamesIncrease(a) && d in a
    ensures d == a[0] || NameCmp(a[0].name, d.name) < 0
  {
  }

  lemma FirstIsOnce(a: seq<Dirent>, d: Dirent)
    requires NamesIncrease(a) && a != []
    ensures d in a[1..] <==> d in a && d != a[0]
  {
    hide NameCmp;
    NameCmpOrders(a[0].name, a[0].name);
    assert a == [a[0]] + a[1..];
    if d in a[1..] {
      var i :| 0 <= i < |a[1..]| && a[1..][i] == d;
      assert a[i + 1] == d;
    }
  }

  /** A volume, and what its records say. */
  ghost predicate Says(v: Volume, log: Log, said: Said) {
    && IsSortOf(v.dirents, log.dirents, DirentLe) && IsSortOf(v.inodes, log.inodes, InodeLe)
    && said == Said(log.dirents, FlatMap(log.inodes, WriteAt(v.img)))
    && forall r :: r in log.inodes ==> InImage(v.img, r)
  }

  lemma WriteOf(v: Volume, log: Log, said: Said, r: InodeRec) returns (w: Write)
    requires Says(v, log, said) && r in log.inodes
    ensures w in said.writes && w == WriteAt(v.img)(r)[0]
    ensures w.data.Some? && |w.data.value| == r.csize && At(v.img, r.fileOffset, w.data.value)
  {
    FlatMapOfSingles(log.inodes, WriteAt(v.img));
    var i :| 0 <= i < |log.inodes| && log.inodes[i] == r;
    w := said.writes[i];
  }

  lemma RecordOf(v: Volume, log: Log, said: Said, w: Write) returns (r: InodeRec)
    requires Says(v, log, said) && w in said.writes
    ensures r in log.inodes && w == WriteAt(v.img)(r)[0]
  {
    FlatMapOfSingles(log.inodes, WriteAt(v.img));
    var i :| 0 <= i < |said.writes| && said.writes[i] == w;
    r := log.inodes[i];
  }

  lemma CurrentIsLive(v: Volume, log: Log, said: Said, ino: uint32, ds: seq<Dirent>)
    requires Says(v, log, said) && IsVersioned(said)
    requires InDictionaryOrder(ds) && forall d :: d in ds <==> IsCurrent(said.dirents, ino, d)
    ensures Live(v.dirents, ino) == ds
  {
    hide Live, NamesIncrease, InDictionaryOrder, VersionsIdentify, IsVersioned, IsNewest;
    VersionsTell(said);
    DictionaryOrder(ds);
    DirectoryView(log.dirents, v.dirents, ino);
    forall d ensures d in Live(v.dirents, ino) <==> d in ds {
      DirectoryViewExact(log.dirents, v.dirents, ino, d);
    }
    NameOrderIsUnique(Live(v.dirents, ino), ds);
  }

  lemma NewestIsMeta(v: Volume, log: Log, said: Said, m: Write)
    requires Says(v, log, said) && IsVersioned(said) && IsNewestWrite(said.writes, m)
    ensures LastOf(v.inodes, m.rec.ino).Some? && m.rec == LastOf(v.inodes, m.rec.ino).value.(fileOffset := 0)
  {
    hide LastOf, FlatMap, IsVersioned;
    VersionsTell(said);
    var ino := m.rec.ino;
    InodeView(log.inodes, v.inodes, ino);
    var r := RecordOf(v, log, said, m);
    var best := LastOf(v.inodes, ino).value;
    var w := WriteOf(v, log, said, best);
    assert WriteLe(w, m) && WriteLe(m, w);
  }

  /** A fragment is fetched as the start of what its write put into the file. */
  lemma FragmentOf(v: Volume, log: Log, said: Said, r: InodeRec, isize: nat) returns (w: Write)
    requires Says(v, log, said) && r in log.inodes && Relevant(r, isize)
    ensures w in said.writes && w == WriteAt(v.img)(r)[0] && w.rec == r.(fileOffset := 0)
    ensures var plain := PlainOf(v.zlib, w);
            && (plain.Some? ==> |plain.value| == r.dsize)
            && FragmentData(v.img, v.zlib, r, isize) ==
               if plain.None? then None else Some(plain.value[..Usable(r, isize)])
  {
    hide Says, FragmentData;
    w := WriteOf(v, log, said, r);
    WrittenFragment(v.img, v.zlib, r, w.data.value, isize);
    assert Plain(v.zlib, w.rec, w.data.value) == Plain(v.zlib, r, w.data.value);
  }

  lemma RelevantIs(r: InodeRec, isize: nat)
    ensures Relevant(r, isize) <==> r.dsize != 0 && r.fragOffset < isize
  {
  }

  lemma HeldContentIsRead(v: Volume, log: Log, said: Said, ino: uint32, content: bytes)
    requires Says(v, log, said) && HoldsContent(said.writes, v.zlib, ino, content)
    ensures FileContent(v.img, v.zlib, v.inodes, ino, |content|) == Some(content)
  {
    hide Says, FragmentData, FileContent, PlainOf, WriteAt;
    var isize := |content|;
    SaysSorted(v, log, said);
    forall r | r in log.inodes && r.ino == ino && r.dsize != 0 && r.fragOffset < isize
      ensures FragmentData(v.img, v.zlib, r, isize).Some?
    {
      RelevantIs(r, isize);
      var w := FragmentOf(v, log, said, r, isize);
    }
    ReplayableFiles(v.img, v.zlib, log.inodes, v.inodes, ino, isize);
    var read := FileContent(v.img, v.zlib, v.inodes, ino, isize).value;
    assert FileContent(v.img, v.zlib, v.inodes, ino, isize) == Some(read);
    ContentLength(v, ino, isize, read);
    forall j | 0 <= j < isize ensures read[j] == content[j] {
      ByteIsRead(v, log, said, ino, content, j);
    }
    assert read == content;
  }

  lemma SaysSorted(v: Volume, log: Log, said: Said)
    requires Says(v, log, said)
    ensures IsSortOf(v.inodes, log.inodes, InodeLe)
  {
  }

  lemma ContentLength(v: Volume, ino: uint32, isize: nat, read: bytes)
    requires FileContent(v.img, v.zlib, v.inodes, ino, isize) == Some(read)
    ensures |read| == isize
  {
    hide Replay;
  }

  lemma ByteIsRead(v: Volume, log: Log, said: Said, ino: uint32, content: bytes, j: nat)
    requires Says(v, log, said) && HoldsContent(said.writes, v.zlib, ino, content) && j < |content|
    requires FileContent(v.img, v.zlib, v.inodes, ino, |content|).Some?
    ensures var read := FileContent(v.img, v.zlib, v.inodes, ino, |content|).value;
            |read| == |content| && read[j] == content[j]
  {
    hide Says, FragmentData, FileContent, PlainOf, WriteAt;
    var isize := |content|;
    SaysSorted(v, log, said);
    LatestWriteWins(v.img, v.zlib, log.inodes, v.inodes, ino, isize, j);
    if exists r :: r in log.inodes && r.ino == ino && Covers(r, j) {
      var r :| IsNewestCover(log.inodes, ino, j, r) && FragmentData(v.img, v.zlib, r, isize).Some?
               && FileContent(v.img, v.zlib, v.inodes, ino, isize).value[j] == ByteOf(v.img, v.zlib, r, isize, j);
      var w := FragmentOf(v, log, said, r, isize);
      assert Decides(said.writes, j, w) by {
        forall e | e in said.writes && e.rec.ino == ino && Covers(e.rec, j) ensures e.rec.version <= w.rec.version {
          var x := RecordOf(v, log, said, e);
          SameKey(v, x, e);
        }
      }
    } else {
      forall w | w in said.writes && w.rec.ino == ino ensures !Covers(w.rec, j) {
        var r := RecordOf(v, log, said, w);
        SameKey(v, r, w);
      }
    }
  }

  lemma SameKey(v: Volume, r: InodeRec, w: Write)
    requires w == WriteAt(v.img)(r)[0]
    ensures w.rec == r.(fileOffset := 0)
  {
  }

  ghost predicate IsShown(v: Volume, d: Dirent, e: Named, contents: bool) {
    && ChildOf(v, d).Some?
    && var c := ChildOf(v, d).value; c.name == e.name && ShowsNode(Children(v), c.kind, e.node, contents)
  }

  lemma {:induction false} HeldDirIsShown(v: Volume, log: Log, said: Said, ino: uint32, es: seq<Named>, contents: bool)
    requires Says(v, log, said) && IsVersioned(said) && HoldsDir(said, v.zlib, ino, es)
    ensures Shows(Children(v), ino, es, contents)
    decreases es, 1
  {
    hide Says, IsVersioned, HoldsNode, ChildOf, ShowsNode, Live, InDictionaryOrder, IsCurrent, IsShown;
    var ds :| HoldsEntries(said, v.zlib, ino, es, ds);
    CurrentIsLive(v, log, said, ino, ds);
    forall i | 0 <= i < |es| ensures IsShown(v, ds[i], es[i], contents) {
      HeldNodeIsShown(v, log, said, ds[i], es[i].node, contents);
    }
    DirentsAreShown(v, ino, ds, es, contents);
  }

  lemma DirentsAreShown(v: Volume, ino: uint32, ds: seq<Dirent>, es: seq<Named>, contents: bool)
    requires Live(v.dirents, ino) == ds && |ds| == |es|
    requires forall i :: 0 <= i < |es| ==> IsShown(v, ds[i], es[i], contents)
    ensures Shows(Children(v), ino, es, contents)
  {
    hide ChildOf, ShowsNode, Live;
    forall i | 0 <= i < |ds| ensures ChildOfRecord(v)(ds[i]).Some? {
      assert IsShown(v, ds[i], es[i], contents);
    }
    ChildrenOfEach(ChildOfRecord(v), ds);
    var cs := ChildrenOf(ChildOfRecord(v), ds).value;
    forall i | 0 <= i < |es|
      ensures cs[i].name == es[i].name && ShowsNode(Children(v), cs[i].kind, es[i].node, contents)
    {
      assert IsShown(v, ds[i], es[i], contents);
    }
  }

  lemma {:induction false} HeldNodeIsShown(v: Volume, log: Log, said: Said, d: Dirent, n: Node, contents: bool)
    requires Says(v, log, said) && IsVersioned(said) && HoldsNode(said, v.zlib, d.ino, n)
    ensures IsShown(v, d, Named(d.name, n), contents)
    decreases n, 0
  {
    hide Says, IsVersioned, HoldsDir, HoldsContent, IsNewestWrite, Shows, Children, LastOf, FileContent;
    var m :| HoldsInode(said, v.zlib, d.ino, n, m);
    NewestIsMeta(v, log, said, m);
    match n
    case Dir(es) =>
      HeldDirIsShown(v, log, said, d.ino, es, contents);
    case Data(content) =>
      HeldContentIsRead(v, log, said, d.ino, content);
    case Odd(size) =>
  }

  /**
   An image written for a tree reads as the tree, in whatever order its nodes were written: the same listing, the same
   extraction into anything, the same failures; and extracted into an empty directory it leaves exactly the tree.
   */
  lemma TreeRoundTrip(w: WrittenLog, zlib: Inflater, v: Volume, es: seq<Named>, sink: Sink, tree: Tree)
    requires w.WellFormed() && IsVolumeOf(v, w.Image(), zlib)
    requires IsVersioned(SaidBy(w.items)) && HoldsDir(SaidBy(w.items), zlib, 1, es)
    ensures ReadVolume(v, sink, tree) == ReadTree(es, sink, tree) && IsListed(es, tree, ReadVolume(v, Listing, tree))
    ensures sink.Extracting? && Distinct(es) ==> IsExtracted(es, sink, ReadVolume(v, sink, map[]))
  {
    hide *;
    VolumeSays(w, zlib, v);
    HeldDirIsShown(v, w.Records(), SaidBy(w.items), 1, es, sink.Extracting?);
    ReadsAsTree(v, es, sink, tree);
    HeldDirIsShown(v, w.Records(), SaidBy(w.items), 1, es, false);
    ReadsAsTree(v, es, Listing, tree);
    TreeIsListed(es, tree);
    if sink.Extracting? && Distinct(es) {
      ReadsAsTree(v, es, sink, map[]);
      TreeIsExtracted(es, sink);
    }
  }

  lemma VolumeSays(w: WrittenLog, zlib: Inflater, v: Volume)
    requires w.WellFormed() && IsVolumeOf(v, w.Image(), zlib)
    ensures Says(v, w.Records(), SaidBy(w.items)) && v.zlib == zlib
  {
    hide Scan, FlatMap, DirentsIn, WritesIn, WriteAt, Nodes, InImage, IsSortOf, WrittenLog.Image, WrittenLog.Records;
    WrittenLogSays(w);
    forall r | r in w.Records().inodes ensures InImage(w.Image(), r) {
      ScannedIsInImage(w.Image(), r);
    }
  }

  lemma ReadsAsTree(v: Volume, es: seq<Named>, sink: Sink, tree: Tree)
    requires Shows(Children(v), 1, es, sink.Extracting?)
    ensures ReadVolume(v, sink, tree) == ReadTree(es, sink, tree)
  {
    hide Shows, Children, Run, DirVisits;
    ShownIsRead(Children(v), 1, es, sink, State([], tree));
  }

  // ----- whatever is extracted is a tree -----

  lemma ChildrenAreSized(v: Volume)
    ensures AllSized(Children(v))
  {
    hide Live, ChildOf, IsSized;
    forall ino: uint32 | Children(v)(ino).Some? ensures KindsAreSized(Children(v)(ino).value) {
      DirentsAreSized(v, Live(v.dirents, ino));
    }
  }

  lemma {:induction false} DirentsAreSized(v: Volume, ds: seq<Dirent>)
    requires ChildrenOf(ChildOfRecord(v), ds).Some?
    ensures KindsAreSized(ChildrenOf(ChildOfRecord(v), ds).value)
    decreases |ds|
  {
    hide FileContent, LastOf;
    if ds == [] {
    } else {
      var meta := LastOf(v.inodes, ds[0].ino).value;
      var content := FileContent(v.img, v.zlib, v.inodes, ds[0].ino, meta.isize);
      if content.Some? {
        ContentLength(v, ds[0].ino, meta.isize, content.value);
      }
      DirentsAreSized(v, ds[1..]);
    }
  }

  // ----- whatever is shown was written -----

  lemma LiveIsCurrent(v: Volume, log: Log, said: Said, ino: uint32)
    requires Says(v, log, said) && IsVersioned(said)
    ensures InDictionaryOrder(Live(v.dirents, ino))
    ensures forall d :: d in Live(v.dirents, ino) <==> IsCurrent(said.dirents, ino, d)
  {
    hide Live, NamesIncrease, InDictionaryOrder, VersionsIdentify, IsVersioned, IsNewest;
    VersionsTell(said);
    DirectoryView(log.dirents, v.dirents, ino);
    DictionaryOrder(Live(v.dirents, ino));
    forall d ensures d in Live(v.dirents, ino) <==> IsCurrent(said.dirents, ino, d) {
      DirectoryViewExact(log.dirents, v.dirents, ino, d);
    }
  }

  lemma MetaIsNewest(v: Volume, log: Log, said: Said, ino: uint32) returns (m: Write)
    requires Says(v, log, said) && LastOf(v.inodes, ino).Some?
    ensures IsNewestWrite(said.writes, m) && m.rec == LastOf(v.inodes, ino).value.(fileOffset := 0) && m.rec.ino == ino
  {
    hide LastOf, FlatMap;
    InodeView(log.inodes, v.inodes, ino);
    m := WriteOf(v, log, said, LastOf(v.inodes, ino).value);
    forall e | e in said.writes && e.rec.ino == m.rec.ino ensures e.rec.version <= m.rec.version {
      var r := RecordOf(v, log, said, e);
      SameKey(v, r, e);
    }
  }

  lemma ReadContentIsHeld(v: Volume, log: Log, said: Said, ino: uint32, content: bytes)
    requires Says(v, log, said) && IsVersioned(said)
    requires FileContent(v.img, v.zlib, v.inodes, ino, |content|) == Some(content)
    ensures HoldsContent(said.writes, v.zlib, ino, content)
  {
    hide Says, FragmentData, FileContent, PlainOf, WriteAt, IsVersioned;
    var isize := |content|;
    SaysSorted(v, log, said);
    ReplayableFiles(v.img, v.zlib, log.inodes, v.inodes, ino, isize);
    forall w | w in said.writes && w.rec.ino == ino && w.rec.dsize != 0 && w.rec.fragOffset < isize
      ensures PlainOf(v.zlib, w).Some?
    {
      WriteIsPlain(v, log, said, w, isize);
    }
    forall j | 0 <= j < isize && (forall w :: w in said.writes && w.rec.ino == ino ==> !Covers(w.rec, j))
      ensures content[j] == 0
    {
      UncoveredIsZero(v, log, said, ino, content, j);
    }
    forall j, w: Write | 0 <= j < isize && w.rec.ino == ino && Decides(said.writes, j, w)
      ensures var plain := PlainOf(v.zlib, w);
              plain.Some? && j - w.rec.fragOffset < |plain.value| && content[j] == plain.value[j - w.rec.fragOffset]
    {
      DecidedByteIsHeld(v, log, said, ino, content, j, w);
    }
  }

  lemma WriteIsPlain(v: Volume, log: Log, said: Said, w: Write, isize: nat)
    requires Says(v, log, said) && w in said.writes && w.rec.dsize != 0 && w.rec.fragOffset < isize
    requires forall r :: r in log.inodes && r.ino == w.rec.ino && r.dsize != 0 && r.fragOffset < isize ==>
                           FragmentData(v.img, v.zlib, r, isize).Some?
    ensures PlainOf(v.zlib, w).Some?
  {
    hide Says, FragmentData, PlainOf, WriteAt;
    var r := RecordOf(v, log, said, w);
    SameKey(v, r, w);
    RelevantIs(r, isize);
    var x := FragmentOf(v, log, said, r, isize);
  }

  lemma UncoveredIsZero(v: Volume, log: Log, said: Said, ino: uint32, content: bytes, j: nat)
    requires Says(v, log, said) && FileContent(v.img, v.zlib, v.inodes, ino, |content|) == Some(content)
    requires j < |content| && forall w :: w in said.writes && w.rec.ino == ino ==> !Covers(w.rec, j)
    ensures content[j] == 0
  {
    hide Says, FragmentData, FileContent, WriteAt;
    SaysSorted(v, log, said);
    LatestWriteWins(v.img, v.zlib, log.inodes, v.inodes, ino, |content|, j);
    forall r | r in log.inodes && r.ino == ino ensures !Covers(r, j) {
      var w := WriteOf(v, log, said, r);
      SameKey(v, r, w);
    }
  }

  lemma DecidedByteIsHeld(v: Volume, log: Log, said: Said, ino: uint32, content: bytes, j: nat, w: Write)
    requires Says(v, log, said) && IsVersioned(said)
    requires FileContent(v.img, v.zlib, v.inodes, ino, |content|) == Some(content)
    requires j < |content| && w.rec.ino == ino && Decides(said.writes, j, w)
    ensures var plain := PlainOf(v.zlib, w);
            plain.Some? && j - w.rec.fragOffset < |plain.value| && content[j] == plain.value[j - w.rec.fragOffset]
  {
    hide Says, FragmentData, FileContent, PlainOf, WriteAt;
    var isize := |content|;
    SaysSorted(v, log, said);
    LatestWriteWins(v.img, v.zlib, log.inodes, v.inodes, ino, isize, j);
    var q := RecordOf(v, log, said, w);
    SameKey(v, q, w);
    var r :| IsNewestCover(log.inodes, ino, j, r) && FragmentData(v.img, v.zlib, r, isize).Some?
             && content[j] == ByteOf(v.img, v.zlib, r, isize, j);
    var x := FragmentOf(v, log, said, r, isize);
    assert SameWriteKey(x, w) && x == w;
  }

  lemma {:induction false} ShownDirIsHeld(v: Volume, log: Log, said: Said, ino: uint32, es: seq<Named>)
    requires Says(v, log, said) && IsVersioned(said) && Shows(Children(v), ino, es, true)
    ensures HoldsDir(said, v.zlib, ino, es)
    decreases es, 1
  {
    hide Says, IsVersioned, HoldsNode, ChildOf, ShowsNode, Live, InDictionaryOrder, IsCurrent;
    var ds := Live(v.dirents, ino);
    LiveIsCurrent(v, log, said, ino);
    ShownDirents(v, ds, es);
    forall i | 0 <= i < |es| ensures ds[i].name == es[i].name && HoldsNode(said, v.zlib, ds[i].ino, es[i].node) {
      assert IsShown(v, ds[i], es[i], true);
      ShownNodeIsHeld(v, log, said, ds[i], es[i].name, es[i].node);
    }
    assert HoldsEntries(said, v.zlib, ino, es, ds);
  }

  lemma ShownDirents(v: Volume, ds: seq<Dirent>, es: seq<Named>)
    requires ChildrenOf(ChildOfRecord(v), ds).Some?
    requires ShowsAll(Children(v), ChildrenOf(ChildOfRecord(v), ds).value, es, true)
    ensures |ds| == |es| && forall i :: 0 <= i < |es| ==> IsShown(v, ds[i], es[i], true)
  {
    hide ChildOf, ChildOfRecord, ChildrenOf, ShowsNode, Live, IsShown;
    EachOfChildren(ChildOfRecord(v), ds);
    var cs := ChildrenOf(ChildOfRecord(v), ds).value;
    forall i | 0 <= i < |es| ensures IsShown(v, ds[i], es[i], true) {
      DirentIsShown(v, ds[i], cs[i], es[i]);
    }
  }

  lemma DirentIsShown(v: Volume, d: Dirent, c: Child<uint32>, e: Named)
    requires ChildOfRecord(v)(d) == Some(c) && c.name == e.name && ShowsNode(Children(v), c.kind, e.node, true)
    ensures IsShown(v, d, e, true)
  {
    hide ChildOf, ShowsNode;
  }

  /** What the newest write of a shown inode says. */
  ghost predicate MetaShows(v: Volume, d: Dirent, n: Node, m: Write) {
    match n
    case Dir(es) => IsDirectoryMode(m.rec.mode) && Shows(Children(v), d.ino, es, true)
    case Data(content) =>
      && IsRegularMode(m.rec.mode) && m.rec.isize == |content|
      && FileContent(v.img, v.zlib, v.inodes, d.ino, |content|) == Some(content)
    case Odd(size) => !IsDirectoryMode(m.rec.mode) && !IsRegularMode(m.rec.mode) && m.rec.isize == size
  }

  lemma ShownMeta(v: Volume, d: Dirent, name: bytes, n: Node)
    requires IsShown(v, d, Named(name, n), true)
    ensures name == d.name && LastOf(v.inodes, d.ino).Some?
    ensures forall m: Write :: m.rec == LastOf(v.inodes, d.ino).value.(fileOffset := 0) ==> MetaShows(v, d, n, m)
  {
    hide Shows, Children, LastOf, FileContent;
  }

  lemma {:induction false} ShownNodeIsHeld(v: Volume, log: Log, said: Said, d: Dirent, name: bytes, n: Node)
    requires Says(v, log, said) && IsVersioned(said) && IsShown(v, d, Named(name, n), true)
    ensures name == d.name && HoldsNode(said, v.zlib, d.ino, n)
    decreases n, 0
  {
    hide Says, IsVersioned, HoldsDir, HoldsContent, IsNewestWrite, IsShown, Shows, Children, LastOf, FileContent,
         IsDirectoryMode, IsRegularMode;
    ShownMeta(v, d, name, n);
    var m := MetaIsNewest(v, log, said, d.ino);
    match n {
      case Dir(es) =>
        ShownDirIsHeld(v, log, said, d.ino, es);
      case Data(content) =>
        ReadContentIsHeld(v, log, said, d.ino, content);
      case Odd(size) =>
    }
    assert HoldsInode(said, v.zlib, d.ino, n, m);
  }

  /**
   An image that can be extracted is a written log, which lists and extracts into anything as one tree. With distinct
   versions that tree is the one that the log was written for.
   */
  lemma ExtractedIsATree(img: bytes, zlib: Inflater, v: Volume, sink: Sink, tree: Tree)
    returns (w: WrittenLog, es: seq<Named>)
    requires IsVolumeOf(v, img, zlib) && sink.Extracting? && ReadVolume(v, sink, tree).Some?
    ensures w.WellFormed() && w.Image() == img
    ensures IsVersioned(SaidBy(w.items)) ==> HoldsDir(SaidBy(w.items), zlib, 1, es)
    ensures forall other, t :: ReadVolume(v, other, t) == ReadTree(es, other, t)
  {
    hide *;
    w := ScanIsWritten(img) by {
      VolumeScans(v, img, zlib);
    }
    VolumeSays(w, zlib, v);
    es := ExtractedShows(v, sink, tree);
    if IsVersioned(SaidBy(w.items)) {
      ShownDirIsHeld(v, w.Records(), SaidBy(w.items), 1, es);
    }
    forall other, t ensures ReadVolume(v, other, t) == ReadTree(es, other, t) {
      ShownReadsAsTree(v, es, other, t);
    }
  }

  lemma VolumeScans(v: Volume, img: bytes, zlib: Inflater)
    requires IsVolumeOf(v, img, zlib)
    ensures Scan(img).Some?
  {
    hide Scan;
  }

  lemma ExtractedShows(v: Volume, sink: Sink, tree: Tree) returns (es: seq<Named>)
    requires sink.Extracting? && ReadVolume(v, sink, tree).Some?
    ensures Shows(Children(v), 1, es, true)
  {
    hide Run, DirVisits, Shows, Children;
    ChildrenAreSized(v);
    es := ExtractedShowsTree(Children(v), 1, sink, tree);
  }

  lemma ShownReadsAsTree(v: Volume, es: seq<Named>, other: Sink, t: Tree)
    requires Shows(Children(v), 1, es, true)
    ensures ReadVolume(v, other, t) == ReadTree(es, other, t)
  {
    hide Run, DirVisits, Shows, Children;
    ShownForAll(Children(v), 1, es, other, State([], t));
  }
}
