/** Listing and extracting a JFFS2 image. */
module Jffs2Reader {
  import opened Bytes
  import opened DataBlocks
  import opened Paths
  import opened Walk
  import opened Jffs2Log
  import opened Jffs2View
  import opened Jffs2Replay

  const ROOT_INO: uint32 := 1
  const TYPE_DIRECTORY := 4
  const TYPE_REGULAR := 8

  /** The file type held in the top four of an inode mode's low sixteen bits. */
  function FileType(mode: uint32): int {
    mode / 0x1000 % 0x10
  }

  /** An image whose records have been scanned and sorted. */
  datatype Volume = Volume(img: bytes, zlib: Inflater, dirents: seq<Dirent>, inodes: seq<InodeRec>) {
    ghost predicate IsSorted() {
      Sorted(dirents, DirentLe) && Sorted(inodes, InodeLe)
    }
  }

  /** What a live record names; None when its inode was never written. */
  function ChildOf(v: Volume, d: Dirent): Option<Child<uint32>> {
    var meta :- LastOf(v.inodes, d.ino);
    Some(Child(d.name,
               if FileType(meta.mode) == TYPE_DIRECTORY then Folder(d.ino)
               else if FileType(meta.mode) == TYPE_REGULAR then
                 Regular(meta.isize, FileContent(v.img, v.zlib, v.inodes, d.ino, meta.isize))
               else Special(meta.isize)))
  }

  /** What a record names, as a function of the record. */
  function ChildOfRecord(v: Volume): Dirent -> Option<Child<uint32>> {
    (d: Dirent) => ChildOf(v, d)
  }

  /** What each directory holds. */
  function Children(v: Volume): uint32 -> Option<seq<Child<uint32>>> {
    (ino: uint32) => ChildrenOf(ChildOfRecord(v), Live(v.dirents, ino))
  }

  // ----- the walk -----

  method WalkDirectory(ctx: WalkContext, v: Volume, pino: uint32, parent: bytes, depth: nat) returns (ok: bool)
    requires v.IsSorted()
    modifies ctx
    ensures ctx.Matches(ok, Run(ctx.sink, old(ctx.Now()), DirVisits(Children(v), pino, parent, depth)))
    decreases if depth <= MAX_DIR_DEPTH then MAX_DIR_DEPTH + 1 - depth else 0, 2
  {
    if depth > MAX_DIR_DEPTH {
      return false;
    }
    ok := ForEachLiveChild(ctx, v, pino, parent, depth);
  }

  /** The runs of the directory's records, each contributing its last record. */
  method ForEachLiveChild(ctx: WalkContext, v: Volume, pino: uint32, parent: bytes, depth: nat) returns (ok: bool)
    requires v.IsSorted() && depth <= MAX_DIR_DEPTH
    modifies ctx
    ensures ctx.Matches(ok,
                        Run(ctx.sink, old(ctx.Now()),
                            AllRecordVisits(Children(v), ChildOfRecord(v), Live(v.dirents, pino), parent, depth)))
    decreases MAX_DIR_DEPTH + 1 - depth, 1
  {
    hide LiveFrom, AllRecordVisits, RecordVisits, Run, Children, ChildOfRecord;
    var s := v.dirents;
    ghost var before := ctx.Now();
    ghost var done: seq<Dirent> := [];
    var i := LowerBound(s, (d: Dirent) => d.pino, pino);
    NotLiveElsewhere(s, 0, i, pino);
    NothingVisited(Children(v), ChildOfRecord(v), ctx.sink, before, parent, depth);
    assert [] + LiveFrom(s, i, pino) == LiveFrom(s, i, pino);
    while i < |s| && s[i].pino == pino
      invariant i <= |s|
      invariant forall k :: i <= k < |s| ==> s[k].pino >= pino
      invariant Live(s, pino) == done + LiveFrom(s, i, pino)
      invariant Run(ctx.sink, before, AllRecordVisits(Children(v), ChildOfRecord(v), done, parent, depth)) ==
                Some(ctx.Now())
      decreases |s| - i
    {
      var runEnd := RunEnd(s, i);
      var winner := s[runEnd - 1];
      ghost var more := LiveFrom(s, runEnd, pino);
      LiveOfRun(s, i, i, runEnd, pino);
      if winner.ino != 0 {
        VisitStep(Children(v), ChildOfRecord(v), ctx.sink, before, done, winner, more, parent, depth);
        var visited := VisitChild(ctx, v, winner, parent, depth);
        if !visited {
          return false;
        }
        assert done + [winner] + more == done + ([winner] + more);
        done := done + [winner];
      } else {
        assert [] + more == more;
      }
      i := runEnd;
    }
    forall k | i <= k < |s| ensures s[k].pino != pino {
      assert k > i ==> DirentLe(s[i], s[k]);
    }
    NotLiveElsewhere(s, i, |s|, pino);
    LiveEnds(s, pino);
    assert done + [] == done;
    return true;
  }

  lemma LiveEnds(s: seq<Dirent>, pino: uint32)
    ensures LiveFrom(s, |s|, pino) == []
  {
  }

  method VisitChild(ctx: WalkContext, v: Volume, d: Dirent, parent: bytes, depth: nat) returns (ok: bool)
    requires v.IsSorted() && depth <= MAX_DIR_DEPTH
    modifies ctx
    ensures ctx.Matches(ok,
                        Run(ctx.sink, old(ctx.Now()), RecordVisits(Children(v), ChildOfRecord(v), d, parent, depth)))
    decreases MAX_DIR_DEPTH + 1 - depth, 0
  {
    hide Run, Apply, DirVisits, LastOf, FileContent, IsSafe, IsPlainName, FileType, Sorted;
    if RecordVisits(Children(v), ChildOfRecord(v), d, parent, depth).None? {
      RunNone(ctx.sink, ctx.Now(), RecordVisits(Children(v), ChildOfRecord(v), d, parent, depth));
    }
    var safe := PathComponentIsSafe(d.name);
    if !safe {
      return false;
    }
    var meta := FindInodeMeta(v.inodes, d.ino);
    if meta.None? {
      return false;
    }
    var path := ChildPath(parent, d.name);
    if |path| >= PATH_CAP {
      return false;
    }
    var isDir := FileType(meta.value.mode) == TYPE_DIRECTORY;
    var isReg := FileType(meta.value.mode) == TYPE_REGULAR;
    var size := if isDir then 0 else meta.value.isize;
    ghost var before := ctx.Now();
    ghost var visit := Visit(path, ChildOf(v, d).value.kind);
    ghost var inside := if isDir then DirVisits(Children(v), d.ino, path, depth + 1) else None;
    RunOne(ctx.sink, before, visit, inside);
    ctx.AddEntry(path, isDir, size);
    if ctx.sink.Extracting? {
      ok := WriteChild(ctx, v, d.ino, meta.value, path, visit);
      if !ok {
        return false;
      }
    } else {
      ListingWritesNothing(ctx.sink, before.tree, visit);
    }
    if isDir {
      ok := WalkDirectory(ctx, v, d.ino, path, depth + 1);
    } else {
      ok := true;
    }
  }

  /** The extraction half of a visit: a directory is made, a regular file is rebuilt and written. */
  method WriteChild(ctx: WalkContext, v: Volume, ino: uint32, meta: InodeRec, path: bytes, ghost visit: Visit<uint32>)
    returns (ok: bool)
    requires v.IsSorted() && ctx.sink.Extracting?
    requires visit.path == path
    requires visit.kind == if FileType(meta.mode) == TYPE_DIRECTORY then Folder(ino)
                           else if FileType(meta.mode) == TYPE_REGULAR then
                             Regular(meta.isize, FileContent(v.img, v.zlib, v.inodes, ino, meta.isize))
                           else Special(meta.isize)
    modifies ctx
    ensures ctx.entries == old(ctx.entries)
    ensures ok <==> Apply(ctx.sink, old(ctx.tree), visit).Some?
    ensures ok ==> Some(ctx.tree) == Apply(ctx.sink, old(ctx.tree), visit)
  {
    hide MakeDirectory, WriteFile, FileContent, Sorted;
    if !DiskPathFits(ctx.sink, path) {
      return false;
    }
    if FileType(meta.mode) == TYPE_DIRECTORY {
      ok := ctx.MakeDirectoryAt(path);
    } else if FileType(meta.mode) == TYPE_REGULAR {
      var content := ExtractRegularFile(v.img, v.zlib, v.inodes, ino, meta.isize);
      if content.None? {
        return false;
      }
      ok := ctx.WriteFileAt(path, content.value);
    } else {
      ok := true;
    }
  }

  // ----- a whole image -----

  /** The records of the image, sorted in some way that the comparators allow. */
  ghost predicate IsVolumeOf(v: Volume, img: bytes, zlib: Inflater) {
    && v.img == img && v.zlib == zlib && Scan(img).Some?
    && IsSortOf(v.dirents, Scan(img).value.dirents, DirentLe)
    && IsSortOf(v.inodes, Scan(img).value.inodes, InodeLe)
  }

  method ScanAndSort(img: bytes, zlib: Inflater) returns (v: Option<Volume>)
    ensures v.Some? <==> Scan(img).Some?
    ensures v.Some? ==> IsVolumeOf(v.value, img, zlib)
  {
    hide ScanFrom;
    var bigEndian := DetectEndianness(img);
    if bigEndian.None? || |img| < COMMON_HEADER_SIZE {
      return None;
    }
    var log := ScanLog(img, bigEndian.value);
    if log.None? {
      return None;
    }
    ComparatorsAreTotalPreorders();
    var dirents := Qsort(log.value.dirents, DirentLe);
    var inodes := Qsort(log.value.inodes, InodeLe);
    return Some(Volume(img, zlib, dirents, inodes));
  }

  /** The walk from the root. Extracting first needs the output directory itself. */
  function ReadVolume(v: Volume, sink: Sink, tree: Tree): Option<State> {
    if sink.Extracting? && !sink.host([]) then None
    else Run(sink, State([], tree), DirVisits(Children(v), ROOT_INO, [], 0))
  }

  /** Lists or extracts an image; `v` is the sorted log it used. `made` says that the output directory was
      created; `left` is what it then holds, even after a failure. */
  method RunImage(img: bytes, zlib: Inflater, sink: Sink, tree: DiskTree)
    returns (v: Option<Volume>, r: Option<State>, made: bool, left: DiskTree)
    ensures v.Some? <==> Scan(img).Some?
    ensures v.Some? ==> IsVolumeOf(v.value, img, zlib)
    ensures r == if v.None? then None else ReadVolume(v.value, sink, tree)
    ensures made <==> sink.Extracting? && Scan(img).Some? && sink.host([])
    ensures sink.Extracting? && !made ==> r.None? && left == tree
    ensures r.Some? ==> left == r.value.tree
  {
    v := ScanAndSort(img, zlib);
    if v.None? || (sink.Extracting? && !sink.host([])) {
      return v, None, false, tree;
    }
    made := sink.Extracting?;
    var ctx := new WalkContext(sink, tree);
    var ok := WalkDirectory(ctx, v.value, ROOT_INO, [], 0);
    r, left := if ok then Some(ctx.Now()) else None, ctx.tree;
  }

  // ----- what reading an image means -----

  lemma ChildNames(v: Volume, ds: seq<Dirent>)
    requires ChildrenOf(ChildOfRecord(v), ds).Some?
    ensures |ChildrenOf(ChildOfRecord(v), ds).value| == |ds|
    ensures forall i :: 0 <= i < |ds| ==> ChildrenOf(ChildOfRecord(v), ds).value[i].name == ds[i].name
  {
    if ds != [] {
      ChildNames(v, ds[1..]);
    }
  }

  /** No directory of a JFFS2 image shows the same name twice. */
  lemma NamesAreUnique(v: Volume, ino: uint32)
    requires v.IsSorted() && Children(v)(ino).Some?
    ensures DistinctNames(Children(v)(ino).value)
  {
    hide LiveFrom, ChildOf;
    var ds := Live(v.dirents, ino);
    LiveNamesIncrease(v.dirents, 0, ino);
    ChildNames(v, ds);
    forall i, j | 0 <= i < j < |ds| ensures ds[i].name != ds[j].name {
      NameCmpOrders(ds[i].name, ds[j].name);
    }
  }

  /** Any number may be an inode's. */
  predicate CanBeInode(ino: uint32) {
    true
  }

  /** A successful walk emits no path twice, lists every directory before what it holds, and only safe paths. */
  lemma ListingIsATree(v: Volume)
    requires v.IsSorted() && DirVisits(Children(v), ROOT_INO, [], 0).Some?
    ensures var vs := DirVisits(Children(v), ROOT_INO, [], 0).value;
            DistinctPaths(vs) && ParentsFirst([], vs) && forall x :: x in vs ==> PathIsSafe(x.path)
  {
    hide DirVisits, Children;
    forall ino: uint32 | Children(v)(ino).Some? ensures DistinctNames(Children(v)(ino).value) {
      NamesAreUnique(v, ino);
    }
    WalkIsATree(Children(v), (iset ino | CanBeInode(ino)), ROOT_INO);
    forall x | x in DirVisits(Children(v), ROOT_INO, [], 0).value ensures PathIsSafe(x.path) {
      WalkIsContained(Children(v), ROOT_INO, x);
    }
  }

  /** Whenever extraction succeeds, listing succeeds with the same entries. */
  lemma ListingAgreesWithExtraction(v: Volume, sink: Sink, tree: Tree)
    requires ReadVolume(v, sink, tree).Some?
    ensures ReadVolume(v, Listing, tree) == Some(State(ReadVolume(v, sink, tree).value.entries, tree))
  {
    hide Run, DirVisits, Children;
    ListingAgrees(Children(v), Children(v), ROOT_INO, sink, tree);
  }

  /**
   Extracting into an empty directory succeeds exactly when the host accepts the output directory, the walk
   succeeds, and every visit is extractable by itself; the output is then an exact mirror of the image.
   */
  lemma ExtractionIsExact(v: Volume, sink: Sink)
    requires v.IsSorted() && sink.Extracting?
    ensures var visits := DirVisits(Children(v), ROOT_INO, [], 0);
            && (ReadVolume(v, sink, map[]).Some? <==>
                sink.host([]) && visits.Some? && AllExtractable(sink, visits.value))
            && (ReadVolume(v, sink, map[]).Some? ==> Mirrors(ReadVolume(v, sink, map[]).value.tree, visits.value))
  {
    hide DirVisits, Children, ApplyAll, AllExtractable;
    var visits := DirVisits(Children(v), ROOT_INO, [], 0);
    if visits.Some? {
      ListingIsATree(v);
      ExtractionMirrors(sink, visits.value);
    }
  }

  // ----- the order of the log -----

  lemma SameChild(v: Volume, w: Volume, d: Dirent)
    requires SameWrites(v.img, v.inodes, w.img, w.inodes) && v.zlib == w.zlib
    ensures ChildOf(v, d) == ChildOf(w, d)
  {
    hide SameWrites, FileContent, LastOf;
    SameMeta(v.img, w.img, v.inodes, w.inodes, d.ino);
    if LastOf(v.inodes, d.ino).Some? {
      SameContent(v.img, w.img, v.zlib, v.inodes, w.inodes, d.ino, LastOf(v.inodes, d.ino).value.isize);
    }
  }

  lemma {:induction false} SameChildren(v: Volume, w: Volume, ds: seq<Dirent>)
    requires SameWrites(v.img, v.inodes, w.img, w.inodes) && v.zlib == w.zlib
    ensures ChildrenOf(ChildOfRecord(v), ds) == ChildrenOf(ChildOfRecord(w), ds)
    decreases |ds|
  {
    hide SameWrites, ChildOf;
    if ds == [] {
    } else {
      SameChild(v, w, ds[0]);
      SameChildren(v, w, ds[1..]);
    }
  }

  /**
   With distinct versions, what reading an image gives depends only on what its records say: not on their order, on
   where they lie, on what is between them, on the byte order, or on how `qsort` breaks ties.
   */
  lemma ReadingIsDeterministic(v: Volume, w: Volume, img: bytes, img': bytes, zlib: Inflater, sink: Sink, tree: Tree)
    requires IsVolumeOf(v, img, zlib) && IsVolumeOf(w, img', zlib)
    requires multiset(Scan(img).value.dirents) == multiset(Scan(img').value.dirents)
    requires multiset(FlatMap(Scan(img).value.inodes, WriteAt(img))) ==
             multiset(FlatMap(Scan(img').value.inodes, WriteAt(img')))
    requires VersionsIdentify(Scan(img).value.dirents, DirentLe)
    requires VersionsIdentify(FlatMap(Scan(img).value.inodes, WriteAt(img)), WriteLe)
    ensures ReadVolume(v, sink, tree) == ReadVolume(w, sink, tree)
  {
    hide Scan, InodeLe, DirentLe, SameWrites, WriteAt, DirVisits, Run, Sorted, VersionsIdentify;
    LogOrderIsIrrelevant(Scan(img).value.dirents, Scan(img').value.dirents, v.dirents, w.dirents, ROOT_INO);
    forall r | r in Scan(img).value.inodes ensures InImage(img, r) {
      ScannedIsInImage(img, r);
    }
    SortsSayTheSame(img, img', Scan(img).value.inodes, Scan(img').value.inodes, v.inodes, w.inodes);
    forall ino: uint32 ensures Children(v)(ino) == Children(w)(ino) {
      SameChildren(v, w, Live(v.dirents, ino));
    }
    SameChildrenSameWalk(Children(v), Children(w), ROOT_INO);
  }

  lemma ScannedIsInImage(img: bytes, r: InodeRec)
    requires Scan(img).Some? && r in Scan(img).value.inodes
    ensures InImage(img, r)
  {
    hide ScanFrom, DetectEndianness;
    ScannedRecordsAreSound(img, 0, DetectEndianness(img).value);
  }

  /**
   Two images written from the same nodes, in any two orders, with any filler, padding, checksums and byte orders, list
   and extract alike, if versions are distinct within each name and each inode.
   */
  lemma WriteOrderIsIrrelevant(a: WrittenLog, b: WrittenLog, v: Volume, w: Volume, zlib: Inflater, sink: Sink,
                               tree: Tree)
    requires a.WellFormed() && b.WellFormed() && multiset(Nodes(a.items)) == multiset(Nodes(b.items))
    requires IsVolumeOf(v, a.Image(), zlib) && IsVolumeOf(w, b.Image(), zlib)
    requires VersionsIdentify(FlatMap(Nodes(a.items), DirentsIn()), DirentLe)
    requires VersionsIdentify(FlatMap(Nodes(a.items), WritesIn()), WriteLe)
    ensures ReadVolume(v, sink, tree) == ReadVolume(w, sink, tree)
  {
    hide *;
    WrittenLogSays(a);
    WrittenLogSays(b);
    FlatMapPermutes(Nodes(a.items), Nodes(b.items), DirentsIn());
    FlatMapPermutes(Nodes(a.items), Nodes(b.items), WritesIn());
    ReadingIsDeterministic(v, w, a.Image(), b.Image(), zlib, sink, tree);
  }

  /** A written log, read back: each directory shows the newest undeleted record of each name, and no other. */
  lemma WrittenDirectoriesReadBack(v: Volume, log: WrittenLog, zlib: Inflater, pino: uint32, d: Dirent)
    requires log.WellFormed() && IsVolumeOf(v, log.Image(), zlib)
    requires VersionsIdentify(log.Records().dirents, DirentLe)
    ensures d in Live(v.dirents, pino) <==>
            d.pino == pino && d.ino != 0 && IsNewest(log.Records().dirents, d)
  {
    hide Scan, WrittenLog.Image, WrittenLog.Records, LiveFrom, NameCmp;
    ScanRoundTrip(log);
    DirectoryViewExact(log.Records().dirents, v.dirents, pino, d);
  }
}
