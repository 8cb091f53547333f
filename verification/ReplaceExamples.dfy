/** Calls that do not keep their promise: small images, and file systems that do not permit everything. */
module ReplaceExamples {
  import opened Bytes
  import opened DataBlocks
  import opened Paths
  import opened Walk
  import opened WrittenTree
  import opened RemoveTree
  import opened ReplaceProtocol
  import StaleFiles
  import SquashfsStream
  import CramfsReader
  import CramfsImage
  import CramfsTree
  import SquashfsReader
  import Jffs2Reader

  const OUT := Ascii("out")
  const A := Ascii("a")
  const B := Ascii("b")

  /** Everything is permitted except removing `kept` at `place`, and the rename only if `renames`. */
  function HostKeeping(place: Place, kept: bytes, renames: bool): Host {
    Host(OUT, _ => true, (q: Place, p: bytes) => !(q == place && p == kept), (_, _) => true, renames)
  }

  /** Empty directories and files. */
  const EMPTY: Disk := map[[] := Directory]
  const WITH_A: Disk := map[[] := Directory, A := File([])]
  const WITH_B: Disk := map[[] := Directory, B := File([])]
  const WITH_BOTH: Disk := map[[] := Directory, A := File([]), B := File([])]
  const WITH_DIRECTORY: Disk := map[[] := Directory, A := Directory]

  lemma NamesDiffer()
    ensures A != B && A != [] && B != []
    ensures Components(A) == [A] && Components(B) == [B] && Components([]) == []
    ensures |A| == 1 && |B| == 1 && |OUT| == 3 && IsSafe(A)
  {
    SplitName(A);
    SplitName(B);
    ReservedLengths();
    assert !IsReserved(A) by {
      assert |Lower(BaseName(A))| <= 1 by {
        BaseNamePrefix(A, 1);
      }
    }
  }

  lemma DisksAreRooted()
    ensures Rooted(map[]) && Rooted(WITH_A) && Rooted(WITH_BOTH) && Rooted(WITH_DIRECTORY)
  {
    hide Components, A, B;
    NamesDiffer();
    assert IsChild([], A) && IsChild([], B);
  }

  // ----- two images -----

  /** A superblock, and behind it the root directory with its entries. */
  function RootInode(size: nat): CramfsReader.Inode {
    CramfsReader.Inode(0x4000, 0, size, 0, 0, 76)
  }

  const FILE_INODE := CramfsReader.Inode(0x8000, 0, 0, 0, 4, 0)
  const FILE_ENTRY := CramfsReader.DirEntry(FILE_INODE, A)

  /** An image without entries, and an image with one empty file. */
  function EmptyImage(): bytes {
    CramfsImage.PutSuper(76, Zeros(56), RootInode(0), false) + []
  }

  function OneFileImage(): bytes {
    NamesDiffer();
    CramfsImage.PutSuper(92, Zeros(56), RootInode(16), false) + CramfsReader.PutEntry(FILE_ENTRY, false)
  }

  const ONE_FILE: seq<Named> := [Named(A, Data([]))]

  lemma EmptyImageIsHeld(zlib: Inflater)
    ensures var v := CramfsReader.Volume(EmptyImage(), zlib, CramfsReader.Super(76, false, RootInode(0)));
            CramfsTree.HoldsDir(v, CramfsReader.Region(76, 0), [])
  {
    hide CramfsImage.PutSuper;
    var v := CramfsReader.Volume(EmptyImage(), zlib, CramfsReader.Super(76, false, RootInode(0)));
    assert CramfsReader.PutDir([], false) == [] && CramfsReader.DirFits([]);
    assert |v.img| == 76 && v.img[76..76] == [];
    assert CramfsTree.HoldsEntries(v, CramfsReader.Region(76, 0), [], []);
  }

  lemma OneFileImageIsHeld(zlib: Inflater)
    ensures var v := CramfsReader.Volume(OneFileImage(), zlib, CramfsReader.Super(92, false, RootInode(16)));
            CramfsTree.HoldsDir(v, CramfsReader.Region(76, 16), ONE_FILE)
  {
    hide CramfsImage.PutSuper, CramfsReader.PutEntry, A;
    NamesDiffer();
    var v := CramfsReader.Volume(OneFileImage(), zlib, CramfsReader.Super(92, false, RootInode(16)));
    assert CramfsReader.EntryFits(FILE_ENTRY) && CramfsReader.DirFits([FILE_ENTRY]);
    var entry := CramfsReader.PutEntry(FILE_ENTRY, false);
    assert CramfsReader.PutDir([FILE_ENTRY], false) == entry by {
      assert [FILE_ENTRY][1..] == [] && CramfsReader.PutDir([], false) == [] && entry + [] == entry;
    }
    assert |entry| == 16 && OneFileImage()[76..92] == entry;
    assert CramfsTree.HoldsNode(v, FILE_INODE, Data([])) by {
      assert Contents([]) == [] && Payloads([]) == [] && Flatten([]) == [];
      assert CramfsImage.HoldsFile(v, FILE_INODE, []);
    }
    assert CramfsTree.HoldsEntries(v, CramfsReader.Region(76, 16), ONE_FILE, [FILE_ENTRY]);
  }

  /** The image is a cramfs one, and reads as the tree `es`. */
  ghost predicate ReadsAs(img: bytes, es: seq<Named>) {
    && CramfsAccepts(img)
    && forall zlib, sink, tree :: CramfsReader.ReadImage(img, zlib, sink, tree) == ReadTree(es, sink, tree)
  }

  lemma ImagesRead()
    ensures ReadsAs(EmptyImage(), []) && ReadsAs(OneFileImage(), ONE_FILE)
  {
    hide *;
    ImagesAreAccepted();
    forall zlib, sink, tree ensures CramfsReader.ReadImage(EmptyImage(), zlib, sink, tree) == ReadTree([], sink, tree) {
      EmptyImageReads(zlib, sink, tree);
    }
    forall zlib, sink, tree
      ensures CramfsReader.ReadImage(OneFileImage(), zlib, sink, tree) == ReadTree(ONE_FILE, sink, tree)
    {
      OneFileImageReads(zlib, sink, tree);
    }
    ReadsAsIs(EmptyImage(), []);
    ReadsAsIs(OneFileImage(), ONE_FILE);
  }

  lemma ReadsAsIs(img: bytes, es: seq<Named>)
    requires CramfsAccepts(img)
    requires forall zlib, sink, tree :: CramfsReader.ReadImage(img, zlib, sink, tree) == ReadTree(es, sink, tree)
    ensures ReadsAs(img, es)
  {
  }

  lemma ImagesAreAccepted()
    ensures CramfsAccepts(EmptyImage()) && CramfsAccepts(OneFileImage())
  {
    hide CramfsImage.PutSuper, CramfsReader.ReadSuperblock, CramfsReader.PutEntry;
    NamesDiffer();
    CramfsImage.SuperRoundTrip(76, Zeros(56), RootInode(0), false, []);
    CramfsImage.SuperRoundTrip(92, Zeros(56), RootInode(16), false, CramfsReader.PutEntry(FILE_ENTRY, false));
  }

  lemma EmptyImageReads(zlib: Inflater, sink: Sink, tree: Tree)
    ensures CramfsReader.ReadImage(EmptyImage(), zlib, sink, tree) == ReadTree([], sink, tree)
  {
    hide CramfsImage.PutSuper, CramfsReader.ReadImage, ReadTree, CramfsTree.HoldsDir;
    EmptyImageIsHeld(zlib);
    CramfsTree.TreeRoundTrip(EmptyImage(), 76, Zeros(56), RootInode(0), false, [], zlib, [], sink, tree);
  }

  lemma OneFileImageReads(zlib: Inflater, sink: Sink, tree: Tree)
    ensures CramfsReader.ReadImage(OneFileImage(), zlib, sink, tree) == ReadTree(ONE_FILE, sink, tree)
  {
    hide CramfsImage.PutSuper, CramfsReader.ReadImage, ReadTree, CramfsTree.HoldsDir, CramfsReader.PutEntry;
    NamesDiffer();
    OneFileImageIsHeld(zlib);
    CramfsTree.TreeRoundTrip(OneFileImage(), 92, Zeros(56), RootInode(16), false,
                             CramfsReader.PutEntry(FILE_ENTRY, false),
                             zlib, ONE_FILE, sink, tree);
  }

  // ----- how calls on such images end -----

  /** The tree, written onto what the clean-up left. */
  function Written(es: seq<Named>, host: Host, temp: Disk): Option<Disk> {
    var st :- ReadTree(es, host.SinkFor(temp), TreeOf(temp));
    Some(OnDisk(st.tree))
  }

  lemma OnlyCramfsReads(img: bytes, es: seq<Named>, codec: SquashfsStream.Codec, host: Host, temp: Disk,
                        product: Option<Disk>)
    requires ReadsAs(img, es)
    ensures NothingExtracts(img, codec, host.SinkFor(temp), TreeOf(temp)) <==> Written(es, host, temp) == None
    ensures IsProduct(product, img, codec, host, temp) <==> product.Some? && product == Written(es, host, temp)
  {
    hide CramfsReader.ReadImage, SquashfsReader.ReadImage, CramfsAccepts, SquashfsAccepts, Jffs2Accepts,
         Jffs2Reader.ReadVolume;
    hide TreeOf, OnDisk, Host.SinkFor, ReadTree, Jffs2Reader.IsVolumeOf;
    var sink, tree := host.SinkFor(temp), TreeOf(temp);
    StaleFiles.SinksExtract(host, temp);
    AtMostOneReaderAccepts(img);
    NotAcceptedNotRead(img, codec, sink, tree);
    forall v | Jffs2Reader.IsVolumeOf(v, img, codec.zlib) ensures false {
      VolumesAreAccepted(v, img, codec.zlib);
    }
    assert CramfsReader.ReadImage(img, codec.zlib, sink, tree) == ReadTree(es, sink, tree);
    if ReadTree(es, sink, tree).Some? {
      var st := ReadTree(es, sink, tree).value;
      assert Extracts(img, codec, sink, tree, st);
    }
  }

  /** All about the end of a call on such an image, but for what a failed extraction leaves at the temporary path. */
  lemma CallEnds(before: Snapshot, img: bytes, es: seq<Named>, codec: SquashfsStream.Codec, host: Host,
                 outcome: Outcome, after: Snapshot, product: Option<Disk>)
    requires host.outputDir == OUT && ReadsAs(img, es)
    ensures var made := Written(es, host, Cleaned(host, before.temp));
            EndsAs(before, img, codec, host, outcome, after, product) <==>
            && product == made
            && if made == None then outcome == NotExtracted && after.output == before.output
               else if host.renames && Replaceable(Cleared(host, before.output))
               then outcome == Replaced && after == Snapshot(made.value, map[])
               else outcome == NotReplaced && after == Snapshot(Cleared(host, before.output), made.value)
  {
    hide Cleaned, Cleared, Host.SinkFor, TreeOf, NothingExtracts, IsProduct, Replaceable, Written, ReadsAs;
    OnlyCramfsReads(img, es, codec, host, Cleaned(host, before.temp), product);
  }

  // ----- four calls -----

  /** When everything can go except `kept`, a path without deeper levels keeps only that entry and itself. */
  lemma KeepsOneEntry(t: Disk, rights: Rights, kept: bytes)
    requires [] in t && t[[]].Directory? && forall q :: rights.readable(q)
    requires forall q :: q in t && q != [] ==> |Components(q)| == 1 && rights.Fits(q)
    requires forall q :: rights.removable(q) <==> q != kept
    ensures forall q :: q in t ==> (q in Removed(t, rights, []) <==> q == kept || (q == [] && kept in t))
  {
    hide Components;
    forall q ensures Components([]) == [] && AtOrBelow([], q) && (AtOrBelow(q, []) <==> q == []) {
      RootIsAbove(q);
      OnlyRootIsAboveRoot(q);
    }
    forall q, z | q in t && z in t && q != [] && AtOrBelow(q, z) ensures z == q {
      BelowIsStrict(q, z);
    }
    forall q | q in t ensures Gone(t, rights, [], q) <==> q != kept && (q == [] ==> kept !in t) {
      AboveIsReflexive(q);
      forall a | a in t && Below(a, q) ensures a == [] {
        BelowIsStrict(a, q);
      }
    }
  }

  lemma NothingToWrite(host: Host, temp: Disk)
    requires (temp == map[] && host.creatable([])) || ([] in temp && temp[[]].Directory?)
    ensures Written([], host, temp) == Some(temp[[] := Directory])
  {
    assert WrittenTree.ChildrenIn([]) == [];
    assert DirVisits(InTree(), [], [], 0) == Some([]);
    StaleFiles.RunWrites<seq<Named>>(host.SinkFor(temp), TreeOf(temp), []);
    assert ApplyAll<seq<Named>>(host.SinkFor(temp), TreeOf(temp), []) == Some(TreeOf(temp));
    assert OnDisk(TreeOf(temp)) == temp[[] := Directory];
  }

  lemma OneFileToWrite(host: Host)
    requires host == HostKeeping(Temp, A, true)
    ensures Written(ONE_FILE, host, WITH_DIRECTORY) == None && Written(ONE_FILE, host, map[]) == Some(WITH_A)
  {
    hide A, OUT, Components, IsSafe;
    NamesDiffer();
    var v := Visit(A, KindOf(Data([])));
    OneVisitOfOneFile();
    assert ApplyAll(host.SinkFor(WITH_DIRECTORY), TreeOf(WITH_DIRECTORY), [v]) == None;
    var t: Tree := map[];
    assert TreeOf(map[]) == t && ParentExists(t, A);
    assert Apply(host.SinkFor(map[]), t, v) == Some(map[A := File([])]);
    assert [v][1..] == [];
    assert ApplyAll(host.SinkFor(map[]), t, [v]) == Some(map[A := File([])]);
    assert OnDisk(map[A := File([])]) == WITH_A;
  }

  lemma OneVisitOfOneFile()
    ensures DirVisits(InTree(), ONE_FILE, [], 0) == Some([Visit(A, KindOf(Data([])))])
  {
    hide A, Components, IsSafe;
    NamesDiffer();
    var cs := WrittenTree.ChildrenIn(ONE_FILE);
    var own := Visit(A, KindOf(Data([])));
    assert cs[1..] == [] && ChildPath([], A) == A;
    assert ChildVisits(InTree(), cs[0], [], 0) == Some([own]);
    assert ChildrenVisits(InTree(), cs[1..], [], 0) == Some([]);
    assert [own] + [] == [own];
  }

  /** The rename fails: the old output is gone, and the new one is not there. */
  lemma RenameFailureLosesOutput(codec: SquashfsStream.Codec, outcome: Outcome, after: Snapshot, product: Option<Disk>)
    ensures IsSound(Snapshot(WITH_A, map[]))
    ensures EndsAs(Snapshot(WITH_A, map[]), EmptyImage(), codec, HostKeeping(Output, B, false), outcome, after,
                   product) <==>
            outcome == NotReplaced && after == Snapshot(map[], EMPTY) && product == Some(EMPTY)
  {
    hide EndsAs, Removed, EmptyImage, Components, A, B, OUT, ReadsAs, Written, Rooted;
    var host := HostKeeping(Output, B, false);
    NamesDiffer();
    DisksAreRooted();
    ImagesRead();
    NothingRemoved(host.RightsAt(Temp));
    KeepsOneEntry(WITH_A, host.RightsAt(Output), B);
    assert Cleared(host, WITH_A) == map[];
    NothingToWrite(host, map[]);
    CallEnds(Snapshot(WITH_A, map[]), EmptyImage(), [], codec, host, outcome, after, product);
  }

  /** One of two old files cannot be removed: the other is lost, and the rename fails on what is left. */
  lemma StubbornFileLosesOthers(codec: SquashfsStream.Codec, outcome: Outcome, after: Snapshot, product: Option<Disk>)
    ensures IsSound(Snapshot(WITH_BOTH, map[]))
    ensures EndsAs(Snapshot(WITH_BOTH, map[]), EmptyImage(), codec, HostKeeping(Output, B, true), outcome, after,
                   product) <==>
            outcome == NotReplaced && after == Snapshot(WITH_B, EMPTY) && product == Some(EMPTY)
  {
    hide EndsAs, Removed, EmptyImage, Components, A, B, OUT, ReadsAs, Written, Rooted;
    var host := HostKeeping(Output, B, true);
    NamesDiffer();
    DisksAreRooted();
    ImagesRead();
    NothingRemoved(host.RightsAt(Temp));
    KeepsOneEntry(WITH_BOTH, host.RightsAt(Output), B);
    assert Cleared(host, WITH_BOTH) == WITH_B;
    NothingToWrite(host, map[]);
    CallEnds(Snapshot(WITH_BOTH, map[]), EmptyImage(), [], codec, host, outcome, after, product);
  }

  /** A file left at the temporary path cannot be removed: the call succeeds, and publishes it. */
  lemma LeftoversArePublished(codec: SquashfsStream.Codec, outcome: Outcome, after: Snapshot, product: Option<Disk>)
    ensures IsSound(Snapshot(map[], WITH_BOTH)) && Cleaned(HostKeeping(Temp, B, true), WITH_BOTH) == WITH_B
    ensures EndsAs(Snapshot(map[], WITH_BOTH), EmptyImage(), codec, HostKeeping(Temp, B, true), outcome, after,
                   product) <==>
            outcome == Replaced && after == Snapshot(WITH_B, map[]) && product == Some(WITH_B)
  {
    hide EndsAs, Removed, EmptyImage, Components, A, B, OUT, ReadsAs, Written, Rooted;
    var host := HostKeeping(Temp, B, true);
    NamesDiffer();
    DisksAreRooted();
    ImagesRead();
    NothingRemoved(host.RightsAt(Output));
    KeepsOneEntry(WITH_BOTH, host.RightsAt(Temp), B);
    assert Cleaned(host, WITH_BOTH) == WITH_B;
    assert WITH_B[[] := Directory] == WITH_B;
    NothingToWrite(host, WITH_B);
    CallEnds(Snapshot(map[], WITH_BOTH), EmptyImage(), [], codec, host, outcome, after, product);
  }

  /** A directory left at the temporary path cannot be removed, and the image has a file of that name: the call fails,
      although it would succeed with nothing left there. */
  lemma LeftoverDirectoryBlocksFile(codec: SquashfsStream.Codec, outcome: Outcome, after: Snapshot,
                                    product: Option<Disk>)
    ensures IsSound(Snapshot(map[], WITH_DIRECTORY)) && IsSound(Snapshot(map[], map[]))
    ensures EndsAs(Snapshot(map[], WITH_DIRECTORY), OneFileImage(), codec, HostKeeping(Temp, A, true), outcome, after,
                   product) <==>
            outcome == NotExtracted && after.output == map[] && product == None
    ensures EndsAs(Snapshot(map[], map[]), OneFileImage(), codec, HostKeeping(Temp, A, true), outcome, after,
                   product) <==>
            outcome == Replaced && after == Snapshot(WITH_A, map[]) && product == Some(WITH_A)
  {
    hide EndsAs, Cleaned, Cleared, HostKeeping, OneFileImage, A, ReadsAs, Written, Rooted, WITH_A, WITH_DIRECTORY;
    var host := HostKeeping(Temp, A, true);
    DisksAreRooted();
    ImagesRead();
    OneFileToWrite(host);
    WhatIsLeft();
    CallEnds(Snapshot(map[], WITH_DIRECTORY), OneFileImage(), ONE_FILE, codec, host, outcome, after, product);
    CallEnds(Snapshot(map[], map[]), OneFileImage(), ONE_FILE, codec, host, outcome, after, product);
  }

  lemma WhatIsLeft()
    ensures var host := HostKeeping(Temp, A, true);
            && Cleaned(host, WITH_DIRECTORY) == WITH_DIRECTORY && Cleaned(host, map[]) == map[]
            && Cleared(host, map[]) == map[] && host.outputDir == OUT && host.renames
  {
    hide Removed, Components, A, B, OUT;
    var host := HostKeeping(Temp, A, true);
    NamesDiffer();
    NothingRemoved(host.RightsAt(Output));
    NothingRemoved(host.RightsAt(Temp));
    KeepsOneEntry(WITH_DIRECTORY, host.RightsAt(Temp), A);
  }
}
