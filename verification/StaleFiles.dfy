/** What the new tree of a call owes to its image, and what to files left at the temporary path. */
module StaleFiles {
  import opened Bytes
  import opened DataBlocks
  import opened Paths
  import opened Walk
  import opened WrittenTree
  import opened RemoveTree
  import opened ReplaceProtocol
  import SquashfsStream
  import SquashfsInode
  import SquashfsReader
  import CramfsReader
  import Jffs2Reader

  /** What a reader that accepts the image visits, or None when its walk fails; the identities of directories aside. */
  function SquashfsWalk(img: bytes, codec: SquashfsStream.Codec): Option<seq<Visit<()>>> {
    var sb :- SquashfsInode.ReadSuperblock(img);
    if !SquashfsInode.ValidBlockSize(sb.blockSize) then None
    else
      var v := SquashfsInode.Volume(img, codec, sb);
      var root :- SquashfsInode.InodeAt(v, sb.rootInode / 0x1_0000, sb.rootInode % 0x1_0000, false);
      Seen(DirVisits(SquashfsReader.Children(v, true), SquashfsReader.RootDir(root), [], 0), true)
  }

  function CramfsWalk(img: bytes, zlib: Inflater): Option<seq<Visit<()>>> {
    var sb :- CramfsReader.ReadSuperblock(img);
    var root := CramfsReader.Region(sb.root.offset, sb.root.size);
    Seen(DirVisits(CramfsReader.Children(CramfsReader.Volume(img, zlib, sb)), root, [], 0), true)
  }

  function Jffs2Walk(v: Jffs2Reader.Volume): Option<seq<Visit<()>>> {
    Seen(DirVisits(Jffs2Reader.Children(v), Jffs2Reader.ROOT_INO, [], 0), true)
  }

  /** Some reader walks the image, with these visits. */
  ghost predicate IsWalkOf(img: bytes, codec: SquashfsStream.Codec, vs: seq<Visit<()>>) {
    || SquashfsWalk(img, codec) == Some(vs)
    || CramfsWalk(img, codec.zlib) == Some(vs)
    || exists v :: Jffs2Reader.IsVolumeOf(v, img, codec.zlib) && Jffs2Walk(v) == Some(vs)
  }

  /** Writing the visits over what is at the temporary path gives the product. */
  ghost predicate Writes(vs: seq<Visit<()>>, host: Host, temp: Disk, product: Option<Disk>) {
    var tree := ApplyAll(host.SinkFor(temp), TreeOf(temp), vs);
    host.SinkFor(temp).host([]) && tree.Some? && product == Some(OnDisk(tree.value))
  }

  lemma ReadsWalk(img: bytes, codec: SquashfsStream.Codec, sink: Sink, tree: Tree)
    requires sink.Extracting?
    ensures SquashfsReader.ReadImage(img, codec, sink, tree) ==
            if sink.host([]) then Run(sink, State([], tree), SquashfsWalk(img, codec)) else None
    ensures CramfsReader.ReadImage(img, codec.zlib, sink, tree) ==
            if sink.host([]) then Run(sink, State([], tree), CramfsWalk(img, codec.zlib)) else None
  {
    SquashfsReads(img, codec, sink, tree);
    CramfsReads(img, codec.zlib, sink, tree);
  }

  lemma SquashfsReads(img: bytes, codec: SquashfsStream.Codec, sink: Sink, tree: Tree)
    requires sink.Extracting?
    ensures SquashfsReader.ReadImage(img, codec, sink, tree) ==
            if sink.host([]) then Run(sink, State([], tree), SquashfsWalk(img, codec)) else None
  {
    hide Run, DirVisits, Seen, SquashfsReader.Children, SquashfsInode.InodeAt, SquashfsInode.ReadSuperblock;
    RunNone<()>(sink, State([], tree), None);
    if SquashfsInode.ReadSuperblock(img).Some? {
      var sb := SquashfsInode.ReadSuperblock(img).value;
      var v := SquashfsInode.Volume(img, codec, sb);
      var root := SquashfsInode.InodeAt(v, sb.rootInode / 0x1_0000, sb.rootInode % 0x1_0000, false);
      if root.Some? {
        RunPlainly(sink, State([], tree),
                   DirVisits(SquashfsReader.Children(v, true), SquashfsReader.RootDir(root.value), [], 0), true);
      }
    }
  }

  lemma CramfsReads(img: bytes, zlib: Inflater, sink: Sink, tree: Tree)
    requires sink.Extracting?
    ensures CramfsReader.ReadImage(img, zlib, sink, tree) ==
            if sink.host([]) then Run(sink, State([], tree), CramfsWalk(img, zlib)) else None
  {
    hide Run, DirVisits, Seen, CramfsReader.Children, CramfsReader.ReadSuperblock;
    RunNone<()>(sink, State([], tree), None);
    if CramfsReader.ReadSuperblock(img).Some? {
      var sb := CramfsReader.ReadSuperblock(img).value;
      var root := CramfsReader.Region(sb.root.offset, sb.root.size);
      RunPlainly(sink, State([], tree),
                 DirVisits(CramfsReader.Children(CramfsReader.Volume(img, zlib, sb)), root, [], 0), true);
    }
  }

  lemma Jffs2Reads(v: Jffs2Reader.Volume, sink: Sink, tree: Tree)
    requires sink.Extracting?
    ensures Jffs2Reader.ReadVolume(v, sink, tree) ==
            if sink.host([]) then Run(sink, State([], tree), Jffs2Walk(v)) else None
  {
    hide Run, DirVisits, Seen, Jffs2Reader.Children;
    RunPlainly(sink, State([], tree), DirVisits(Jffs2Reader.Children(v), Jffs2Reader.ROOT_INO, [], 0), true);
  }

  lemma ExtractsByWalking(img: bytes, codec: SquashfsStream.Codec, sink: Sink, tree: Tree, st: State)
    requires sink.Extracting?
    ensures Extracts(img, codec, sink, tree, st) <==>
            sink.host([]) && exists vs :: IsWalkOf(img, codec, vs) && Run(sink, State([], tree), Some(vs)) == Some(st)
  {
    hide SquashfsWalk, CramfsWalk, Jffs2Walk, Jffs2Reader.IsVolumeOf, Run;
    hide SquashfsReader.ReadImage, CramfsReader.ReadImage, Jffs2Reader.ReadVolume;
    ReadsWalk(img, codec, sink, tree);
    RunNone<()>(sink, State([], tree), None);
    forall v
      ensures Jffs2Reader.ReadVolume(v, sink, tree) ==
              if sink.host([]) then Run(sink, State([], tree), Jffs2Walk(v)) else None
    {
      Jffs2Reads(v, sink, tree);
    }
    if Extracts(img, codec, sink, tree, st) {
      if SquashfsReader.ReadImage(img, codec, sink, tree) == Some(st) {
        assert IsWalkOf(img, codec, SquashfsWalk(img, codec).value);
      } else if CramfsReader.ReadImage(img, codec.zlib, sink, tree) == Some(st) {
        assert IsWalkOf(img, codec, CramfsWalk(img, codec.zlib).value);
      } else {
        var v :| Jffs2Reader.IsVolumeOf(v, img, codec.zlib) && Jffs2Reader.ReadVolume(v, sink, tree) == Some(st);
        assert IsWalkOf(img, codec, Jffs2Walk(v).value);
      }
    }
  }

  lemma RunWrites<D>(sink: Sink, tree: Tree, vs: seq<Visit<D>>)
    ensures Run(sink, State([], tree), Some(vs)) ==
            (var t := ApplyAll(sink, tree, vs); if t.None? then None else Some(State([] + Entries(vs), t.value)))
  {
  }

  /** The tree that a call extracts is a walk of its image, written over what the clean-up left. */
  lemma ProductIsWritten(product: Option<Disk>, img: bytes, codec: SquashfsStream.Codec, host: Host, temp: Disk)
    ensures IsProduct(product, img, codec, host, temp) <==>
            exists vs :: IsWalkOf(img, codec, vs) && Writes(vs, host, temp, product)
  {
    hide IsWalkOf, Extracts, Run, ApplyAll, OnDisk, TreeOf, Host.SinkFor;
    var sink, tree := host.SinkFor(temp), TreeOf(temp);
    SinksExtract(host, temp);
    if IsProduct(product, img, codec, host, temp) {
      var st: State :| product == Some(OnDisk(st.tree)) && Extracts(img, codec, sink, tree, st);
      ExtractsByWalking(img, codec, sink, tree, st);
      var vs :| IsWalkOf(img, codec, vs) && Run(sink, State([], tree), Some(vs)) == Some(st);
      RunWrites(sink, tree, vs);
      assert Writes(vs, host, temp, product);
    }
    if vs :| IsWalkOf(img, codec, vs) && Writes(vs, host, temp, product) {
      RunWrites(sink, tree, vs);
      var st := Run(sink, State([], tree), Some(vs)).value;
      ExtractsByWalking(img, codec, sink, tree, st);
    }
  }

  lemma SinksExtract(host: Host, temp: Disk)
    ensures host.SinkFor(temp).Extracting?
  {
  }

  /** The walk wrote everything in the new tree. */
  ghost predicate NothingIsStale(vs: seq<Visit<()>>, product: Disk) {
    forall p :: p in product && p != [] ==> LastAt(vs, p).Some?
  }

  /**
   The new tree of a call, for every walk that wrote it. There is nothing stale in it exactly when the walk wrote over
   every path that the clean-up had left. And it is what the walk gives on a clean path exactly when the walk succeeds
   there and wrote over all that was left, directories over directories and files over files.
   */
  lemma NoStaleFilesIff(before: Snapshot, img: bytes, codec: SquashfsStream.Codec, host: Host,
                        outcome: Outcome, after: Snapshot, product: Option<Disk>, vs: seq<Visit<()>>)
    requires EndsAs(before, img, codec, host, outcome, after, product) && product.Some?
    requires IsWalkOf(img, codec, vs) && Writes(vs, host, Cleaned(host, before.temp), product)
    ensures var temp := TreeOf(Cleaned(host, before.temp));
            && (NothingIsStale(vs, product.value) <==> forall p :: p in temp ==> LastAt(vs, p).Some?)
            && (Writes(vs, host, map[], product) <==>
                host.creatable([]) && FitsOver(host.SinkFor(map[]), map[], vs) && WritesOver(temp, vs))
  {
    hide IsWalkOf, EndsAs, Cleaned, TreeOf, LastAt, ApplyAll, FitsOver, WritesOver, OnDisk;
    var temp := Cleaned(host, before.temp);
    var dirty, clean := host.SinkFor(temp), host.SinkFor(map[]);
    var tree := ApplyAll(dirty, TreeOf(temp), vs).value;
    WalksAvoidTheRoot(img, codec, vs);
    NothingStaleIff(dirty, TreeOf(temp), vs);
    NoRootInTree(temp);
    NoRootInTree(map[]);
    RootIsNotWritten(dirty, TreeOf(temp), vs);
    forall p ensures p in OnDisk(tree) && p != [] <==> p in tree {
      OnDiskHas(tree, p);
    }
    SinksAgree(dirty, clean, TreeOf(temp), vs);
    ExtractsOverIff(clean, TreeOf(temp), vs);
    ExtractsOverIff(clean, map[], vs);
    LeftoversMakeNoDifferenceIff(clean, TreeOf(temp), vs);
    if ApplyAll(clean, map[], vs).Some? {
      RootIsNotWritten(clean, map[], vs);
      OnDiskIsExact(tree, ApplyAll(clean, map[], vs).value);
    }
    NothingOnCleanPath();
  }

  lemma NothingOnCleanPath()
    ensures TreeOf(map[]) == map[]
  {
  }

  lemma OnDiskHas(tree: Tree, p: bytes)
    requires [] !in tree
    ensures p in OnDisk(tree) && p != [] <==> p in tree
  {
  }

  lemma OnDiskIsExact(a: Tree, b: Tree)
    requires [] !in a && [] !in b
    ensures OnDisk(a) == OnDisk(b) <==> a == b
  {
    if OnDisk(a) == OnDisk(b) {
      assert a == OnDisk(a) - {[]} && b == OnDisk(b) - {[]};
    }
  }

  /** Directories of any reader: its visits come in order, parents first, and none is to the root itself. */
  lemma VisitsAvoidTheRoot<D>(children: D -> Option<seq<Child<D>>>, root: D)
    requires DirVisits(children, root, [], 0).Some?
    ensures var vs := AllPlainly(DirVisits(children, root, [], 0).value, true);
            ParentsFirst([], vs) && forall v :: v in vs ==> v.path != []
  {
    hide DirVisits, HasParent;
    var ds := DirVisits(children, root, [], 0).value;
    var vs := AllPlainly(ds, true);
    WalkHasParentsFirst(children, root);
    forall i | 0 <= i < |vs| ensures HasParent([], vs[..i], vs[i].path) {
      assert HasParent([], ds[..i], ds[i].path);
      ParentsPlainly(ds[..i], ds[i].path);
      assert AllPlainly(ds[..i], true) == vs[..i];
    }
    forall v | v in vs ensures v.path != [] {
      var i :| 0 <= i < |vs| && vs[i] == v;
      WalkIsContained(children, root, ds[i]);
    }
  }

  lemma ParentsPlainly<D>(seen: seq<Visit<D>>, path: bytes)
    requires HasParent([], seen, path)
    ensures HasParent([], AllPlainly(seen, true), path)
  {
    var c := Components(path);
    if c[..|c| - 1] != Components([]) {
      var v :| v in seen && v.kind.Folder? && Components(v.path) == c[..|c| - 1];
      var i :| 0 <= i < |seen| && seen[i] == v;
      assert AllPlainly(seen, true)[i] in AllPlainly(seen, true);
    }
  }

  lemma WalksAvoidTheRoot(img: bytes, codec: SquashfsStream.Codec, vs: seq<Visit<()>>)
    requires IsWalkOf(img, codec, vs)
    ensures ParentsFirst([], vs) && forall v :: v in vs ==> v.path != []
  {
    hide DirVisits, AllPlainly, ParentsFirst, SquashfsReader.Children, CramfsReader.Children, Jffs2Reader.Children;
    hide SquashfsInode.InodeAt, SquashfsInode.ReadSuperblock, CramfsReader.ReadSuperblock, Jffs2Reader.IsVolumeOf;
    if SquashfsWalk(img, codec) == Some(vs) {
      var sb := SquashfsInode.ReadSuperblock(img).value;
      var v := SquashfsInode.Volume(img, codec, sb);
      var root := SquashfsInode.InodeAt(v, sb.rootInode / 0x1_0000, sb.rootInode % 0x1_0000, false).value;
      VisitsAvoidTheRoot(SquashfsReader.Children(v, true), SquashfsReader.RootDir(root));
    } else if CramfsWalk(img, codec.zlib) == Some(vs) {
      var sb := CramfsReader.ReadSuperblock(img).value;
      VisitsAvoidTheRoot(CramfsReader.Children(CramfsReader.Volume(img, codec.zlib, sb)),
                         CramfsReader.Region(sb.root.offset, sb.root.size));
    } else {
      var v :| Jffs2Reader.IsVolumeOf(v, img, codec.zlib) && Jffs2Walk(v) == Some(vs);
      VisitsAvoidTheRoot(Jffs2Reader.Children(v), Jffs2Reader.ROOT_INO);
    }
  }

  /**
   Leftovers make no difference at all to what one walk of an image writes, in success and in failure, exactly when:
   writing to a clean path succeeds, and the walk writes over every leftover, directories over directories and files
   over files; or it fails, and the leftovers do not help.
   */
  lemma LeftoversAreHarmlessIff(img: bytes, codec: SquashfsStream.Codec, vs: seq<Visit<()>>, host: Host, temp: Disk)
    requires IsWalkOf(img, codec, vs)
    ensures ApplyAll(host.SinkFor(temp), TreeOf(temp), vs) == ApplyAll(host.SinkFor(map[]), map[], vs) <==>
            if FitsOver(host.SinkFor(map[]), map[], vs) then WritesOver(TreeOf(temp), vs)
            else !FitsOver(host.SinkFor(map[]), TreeOf(temp), vs)
  {
    hide IsWalkOf, ApplyAll, FitsOver, WritesOver, TreeOf;
    WalksAvoidTheRoot(img, codec, vs);
    SinksAgree(host.SinkFor(temp), host.SinkFor(map[]), TreeOf(temp), vs);
    LeftoversMakeNoDifferenceIff(host.SinkFor(map[]), TreeOf(temp), vs);
  }

  lemma NoRootInTree(temp: Disk)
    ensures [] !in TreeOf(temp)
  {
  }

  lemma RootIsNotWritten<D>(sink: Sink, tree: Tree, vs: seq<Visit<D>>)
    requires sink.Extracting? && [] !in tree && (forall v :: v in vs ==> v.path != []) && ApplyAll(sink, tree, vs).Some?
    ensures [] !in ApplyAll(sink, tree, vs).value
  {
    hide ApplyAll, LastAt;
    LastVisitWins(sink, tree, vs, []);
    LastAtIsVisited(vs, []);
  }
}
