/**
 Extracting into a temporary directory and then replacing the output directory with it, one file-system step
 at a time, and what any number of such calls can leave behind.
 */
module ReplaceProtocol {
  import opened Bytes
  import opened DataBlocks
  import opened Paths
  import opened Walk
  import opened RemoveTree
  import SquashfsStream
  import SquashfsInode
  import SquashfsReader
  import CramfsReader
  import Jffs2Log
  import Jffs2View
  import Jffs2Replay
  import Jffs2Reader

  const TEMP_PATH_CAP := 1280
  const TEMP_SUFFIX: bytes := Ascii(".tmp")

  /** What the operating system permits during one call. */
  datatype Host = Host(outputDir: bytes, creatable: bytes -> bool, removable: (Place, bytes) -> bool,
                       readable: (Place, bytes) -> bool, renames: bool)
  {
    function TempDir(): bytes {
      outputDir + TEMP_SUFFIX
    }

    function RightsAt(place: Place): Rights {
      Rights(if place.Output? then outputDir else TempDir(),
             (p: bytes) => removable(place, p), (p: bytes) => readable(place, p))
    }

    /** Extraction into the temporary path as it is now; making a directory that is there already succeeds. */
    function SinkFor(temp: Disk): Sink {
      Extracting(TempDir(), (p: bytes) => if p == [] && [] in temp then temp[[]].Directory? else creatable(p))
    }
  }

  /** A call works on two paths, the output and the output with ".tmp" behind it, each with its own rights. */
  lemma PathsOfACall(host: Host, temp: Disk)
    ensures host.RightsAt(Output).dir == host.outputDir
    ensures host.RightsAt(Temp).dir == host.SinkFor(temp).outputDir == host.outputDir + [46, 116, 109, 112]
    ensures forall place, p :: host.RightsAt(place).removable(p) == host.removable(place, p)
    ensures forall place, p :: host.RightsAt(place).readable(p) == host.readable(place, p)
    ensures forall p :: p != [] ==> host.SinkFor(temp).host(p) == host.creatable(p)
    ensures host.SinkFor(temp).host([]) == if [] in temp then temp[[]].Directory? else host.creatable([])
  {
    assert |".tmp"| == 4;
  }

  function OnDisk(tree: Tree): Disk {
    tree[[] := Directory]
  }

  function TreeOf(disk: Disk): Tree {
    disk - {[]}
  }

  lemma TreesAreRooted(tree: DiskTree)
    ensures Rooted(OnDisk(tree)) && TreeOf(OnDisk(tree)) == tree
  {
    hide Components;
    RootIsTop([]);
    forall q | q in OnDisk(tree) && q != []
      ensures exists d :: d in OnDisk(tree) && OnDisk(tree)[d].Directory? && IsChild(d, q)
    {
      assert ParentExists(tree, q);
      var c := Components(q);
      if |c| == 1 {
        assert Components([]) == [];
        assert IsChild([], q);
      } else {
        var d :| d in tree.Keys && tree[d].Directory? && Components(d) == c[..|c| - 1];
        assert IsChild(d, q);
        assert d != [];
      }
    }
    assert !ParentExists(tree, []);
  }

  lemma ParentIs(tree: Tree, d: bytes, q: bytes)
    requires IsChild(d, q) && (d == [] || (d in tree && tree[d].Directory?))
    ensures ParentExists(tree, q)
  {
    hide Components;
    var c := Components(q);
    assert Components(d) == c[..|c| - 1];
    if d == [] {
      RootIsTop(d);
    } else {
      BelowTop(d);
      assert d in tree.Keys;
    }
  }

  lemma BelowTop(d: bytes)
    requires d != []
    ensures |Components(d)| > 0
  {
  }

  lemma DisksHoldTrees(disk: Disk)
    requires Rooted(disk)
    ensures IsRooted(TreeOf(disk))
  {
    hide Components, IsChild, ParentExists;
    forall q | q in TreeOf(disk) ensures ParentExists(TreeOf(disk), q) {
      var d :| d in disk && disk[d].Directory? && IsChild(d, q);
      ParentIs(TreeOf(disk), d, q);
    }
  }

  // ----- which reader takes an image -----

  /** The reader gets as far as creating the output directory. */
  predicate SquashfsAccepts(img: bytes) {
    SquashfsReader.Accepts(img)
  }

  predicate CramfsAccepts(img: bytes) {
    CramfsReader.ReadSuperblock(img).Some?
  }

  predicate Jffs2Accepts(img: bytes) {
    Jffs2Log.Scan(img).Some?
  }

  lemma SquashfsStart(img: bytes)
    requires SquashfsAccepts(img)
    ensures |img| >= 4 && img[0] == 104 && img[1] == 115
  {
    assert img[..4][0] == img[0] && img[..4][1] == img[1];
  }

  lemma CramfsStart(img: bytes)
    requires CramfsAccepts(img)
    ensures |img| >= 4 && ((img[0] == 0x45 && img[1] == 0x3d) || (img[0] == 0x28 && img[1] == 0xcd))
  {
    hide U32, PutU32, CramfsReader.SuperOf;
    U32Codec(img, 0, CramfsReader.MAGIC, false);
    U32Codec(img, 0, CramfsReader.MAGIC, true);
    MagicBytes();
    assert img[0..4][0] == img[0] && img[0..4][1] == img[1];
  }

  lemma MagicBytes()
    ensures PutU32(CramfsReader.MAGIC, false)[0] == 0x45 && PutU32(CramfsReader.MAGIC, false)[1] == 0x3d
    ensures PutU32(CramfsReader.MAGIC, true)[0] == 0x28 && PutU32(CramfsReader.MAGIC, true)[1] == 0xcd
  {
  }

  lemma Jffs2Start(img: bytes)
    requires Jffs2Accepts(img)
    ensures |img| >= 2 && ((img[0] == 0x85 && img[1] == 0x19) || (img[0] == 0x19 && img[1] == 0x85))
  {
    hide Jffs2Log.ScanFrom;
    U16Codec(img, 0, Jffs2Log.MAGIC, false);
    U16Codec(img, 0, Jffs2Log.MAGIC, true);
    assert img[0..2][0] == img[0] && img[0..2][1] == img[1];
  }

  /** The magics exclude each other: at most one reader goes on to create anything. */
  lemma AtMostOneReaderAccepts(img: bytes)
    ensures !(SquashfsAccepts(img) && CramfsAccepts(img))
    ensures !(SquashfsAccepts(img) && Jffs2Accepts(img))
    ensures !(CramfsAccepts(img) && Jffs2Accepts(img))
  {
    hide SquashfsAccepts, CramfsAccepts, Jffs2Accepts;
    if SquashfsAccepts(img) {
      SquashfsStart(img);
    }
    if CramfsAccepts(img) {
      CramfsStart(img);
    }
    if Jffs2Accepts(img) {
      Jffs2Start(img);
    }
  }

  /** Some reader extracts the image, starting from `tree`, and ends in `st`. */
  ghost predicate Extracts(img: bytes, codec: SquashfsStream.Codec, sink: Sink, tree: Tree, st: State) {
    || SquashfsReader.ReadImage(img, codec, sink, tree) == Some(st)
    || CramfsReader.ReadImage(img, codec.zlib, sink, tree) == Some(st)
    || exists v :: Jffs2Reader.IsVolumeOf(v, img, codec.zlib) && Jffs2Reader.ReadVolume(v, sink, tree) == Some(st)
  }

  // ----- one call -----

  datatype Outcome = TooLong | NotExtracted | NotReplaced | Replaced

  /** A step of a call that replaces `before` by `product`: the output is what is left of the old one, or the new
      one; and unless the output is untouched, a complete new tree is there, in one place or the other. */
  ghost predicate SafeStep(s: Snapshot, before: Disk, product: Option<Disk>) {
    && (Within(s.output, before) || Some(s.output) == product)
    && (s.output == before || Some(s.temp) == product || Some(s.output) == product)
  }

  ghost predicate AllSafe(steps: seq<Snapshot>, before: Disk, product: Option<Disk>) {
    forall i :: 0 <= i < |steps| ==> SafeStep(steps[i], before, product)
  }

  /** What both paths hold is rooted: a call may start from here. */
  ghost predicate IsSound(s: Snapshot) {
    Rooted(s.output) && Rooted(s.temp)
  }

  ghost predicate AllSound(steps: seq<Snapshot>) {
    forall i :: 0 <= i < |steps| ==> IsSound(steps[i])
  }

  lemma StillSafe(steps: seq<Snapshot>, more: seq<Snapshot>, before: Disk, product: Option<Disk>)
    requires AllSafe(steps, before, product) && AllSafe(more, before, product)
    ensures AllSafe(steps + more, before, product)
  {
  }

  lemma TempStepsAreSafe(steps: seq<Snapshot>, output: Disk, product: Option<Disk>)
    requires OnlyTemp(steps, output)
    ensures AllSafe(steps, output, product)
  {
  }

  /** Cleaning up one of the two paths. */
  method RemovePath(fs: FileSystem, place: Place, host: Host) returns (ghost steps: seq<Snapshot>)
    requires Rooted(fs.now.At(place))
    modifies fs
    ensures fs.now == old(fs.now).With(place, Removed(old(fs.now).At(place), host.RightsAt(place), [])) &&
            Rooted(fs.now.At(place))
    ensures fs.history == old(fs.history) + steps && Removing(steps, old(fs.now), place) &&
            EndsIn(steps, old(fs.now), fs.now)
  {
    hide Rooted, Gone, Removing;
    steps := [];
    if [] in fs.now.At(place) {
      steps := fs.RemoveNode(place, host.RightsAt(place), []);
    } else {
      NoStepYet(fs.now, place);
      NothingWithoutRoot(fs.now.At(place));
    }
  }

  /** The temporary path holds the tree of a successful extraction. */
  ghost predicate Produced(temp: Disk, r: Option<State>) {
    r.Some? && IsRooted(r.value.tree) && temp == OnDisk(r.value.tree)
  }

  method TrySquashfs(fs: FileSystem, img: bytes, codec: SquashfsStream.Codec, host: Host)
    returns (ok: bool, ghost steps: seq<Snapshot>)
    requires Rooted(fs.now.temp)
    modifies fs
    ensures fs.history == old(fs.history) + steps && fs.now.output == old(fs.now).output && Rooted(fs.now.temp)
    ensures steps == [] ==> !ok && fs.now == old(fs.now)
    ensures steps != [] ==> SquashfsAccepts(img) && steps == [fs.now]
    ensures var r := SquashfsReader.ReadImage(img, codec, host.SinkFor(old(fs.now).temp), TreeOf(old(fs.now).temp));
            if ok then Produced(fs.now.temp, r) else r.None?
  {
    hide SquashfsReader.Accepts, Rooted, SquashfsReader.ReadImage;
    DisksHoldTrees(fs.now.temp);
    steps := [];
    var r, made, left := SquashfsReader.RunImage(img, codec, host.SinkFor(fs.now.temp), TreeOf(fs.now.temp));
    if made {
      steps := PutTree(fs, left);
    }
    ok := r.Some?;
  }

  method TryCramfs(fs: FileSystem, img: bytes, zlib: Inflater, host: Host)
    returns (ok: bool, ghost steps: seq<Snapshot>)
    requires Rooted(fs.now.temp)
    modifies fs
    ensures fs.history == old(fs.history) + steps && fs.now.output == old(fs.now).output && Rooted(fs.now.temp)
    ensures steps == [] ==> !ok && fs.now == old(fs.now)
    ensures steps != [] ==> CramfsAccepts(img) && steps == [fs.now]
    ensures var r := CramfsReader.ReadImage(img, zlib, host.SinkFor(old(fs.now).temp), TreeOf(old(fs.now).temp));
            if ok then Produced(fs.now.temp, r) else r.None?
  {
    hide CramfsReader.ReadSuperblock, Rooted, CramfsReader.ReadImage;
    DisksHoldTrees(fs.now.temp);
    steps := [];
    var r, made, left := CramfsReader.RunImage(img, zlib, host.SinkFor(fs.now.temp), TreeOf(fs.now.temp));
    if made {
      steps := PutTree(fs, left);
    }
    ok := r.Some?;
  }

  method TryJffs2(fs: FileSystem, img: bytes, zlib: Inflater, host: Host) returns (ok: bool, ghost steps: seq<Snapshot>)
    requires Rooted(fs.now.temp)
    modifies fs
    ensures fs.history == old(fs.history) + steps && fs.now.output == old(fs.now).output && Rooted(fs.now.temp)
    ensures steps == [] ==> !ok && fs.now == old(fs.now)
    ensures steps != [] ==> Jffs2Accepts(img) && steps == [fs.now]
    ensures Jffs2Accepts(img) ==>
              exists v :: Jffs2Reader.IsVolumeOf(v, img, zlib) &&
                          (var r := Jffs2Reader.ReadVolume(v, host.SinkFor(old(fs.now).temp), TreeOf(old(fs.now).temp));
                           if ok then Produced(fs.now.temp, r) else r.None?)
    ensures ok ==> Jffs2Accepts(img)
  {
    hide Jffs2Log.Scan, Rooted, Jffs2Reader.ReadVolume, Jffs2Reader.IsVolumeOf;
    DisksHoldTrees(fs.now.temp);
    steps := [];
    var v, r, made, left := Jffs2Reader.RunImage(img, zlib, host.SinkFor(fs.now.temp), TreeOf(fs.now.temp));
    if made {
      steps := PutTree(fs, left);
    }
    ok := r.Some?;
  }

  lemma NotAcceptedNotRead(img: bytes, codec: SquashfsStream.Codec, sink: Sink, tree: Tree)
    requires sink.Extracting?
    ensures !SquashfsAccepts(img) ==> SquashfsReader.ReadImage(img, codec, sink, tree).None?
    ensures !CramfsAccepts(img) ==> CramfsReader.ReadImage(img, codec.zlib, sink, tree).None?
  {
    hide Run, SquashfsInode.InodeAt, SquashfsInode.ReadSuperblock, CramfsReader.ReadSuperblock;
  }

  /** No reader extracts the image, whatever order the JFFS2 records were sorted in. */
  ghost predicate NothingExtracts(img: bytes, codec: SquashfsStream.Codec, sink: Sink, tree: Tree) {
    && SquashfsReader.ReadImage(img, codec, sink, tree).None?
    && CramfsReader.ReadImage(img, codec.zlib, sink, tree).None?
    && (Jffs2Accepts(img) ==>
          exists v :: Jffs2Reader.IsVolumeOf(v, img, codec.zlib) && Jffs2Reader.ReadVolume(v, sink, tree).None?)
  }

  /** The tree that replaces the output is what some reader extracted onto the cleaned temporary path. */
  ghost predicate IsProduct(product: Option<Disk>, img: bytes, codec: SquashfsStream.Codec, host: Host, temp: Disk) {
    exists st: State :: product == Some(OnDisk(st.tree)) && Extracts(img, codec, host.SinkFor(temp), TreeOf(temp), st)
  }

  /** What the readers do to the temporary path: at most one of them writes to it. */
  method ExtractDispatch(fs: FileSystem, img: bytes, codec: SquashfsStream.Codec, host: Host)
    returns (ok: bool, ghost steps: seq<Snapshot>)
    requires Rooted(fs.now.temp)
    modifies fs
    ensures fs.history == old(fs.history) + steps && |steps| <= 1
    ensures fs.now.output == old(fs.now).output && Rooted(fs.now.temp)
    ensures if steps == [] then fs.now == old(fs.now) else steps[0] == fs.now
    ensures ok ==> IsProduct(Some(fs.now.temp), img, codec, host, old(fs.now).temp)
    ensures !ok ==> NothingExtracts(img, codec, host.SinkFor(old(fs.now).temp), TreeOf(old(fs.now).temp))
  {
    hide SquashfsAccepts, CramfsAccepts, Jffs2Accepts, Rooted, Jffs2Reader.ReadVolume, Jffs2Reader.IsVolumeOf;
    hide SquashfsReader.ReadImage, CramfsReader.ReadImage, OnDisk, TreeOf;
    AtMostOneReaderAccepts(img);
    ghost var sink, start := host.SinkFor(fs.now.temp), TreeOf(fs.now.temp);
    NotAcceptedNotRead(img, codec, sink, start);
    ok, steps := TrySquashfs(fs, img, codec, host);
    if ok {
      return;
    }
    ghost var more;
    ok, more := TryCramfs(fs, img, codec.zlib, host);
    steps := steps + more;
    if ok {
      return;
    }
    ok, more := TryJffs2(fs, img, codec.zlib, host);
    steps := steps + more;
  }

  method PutTree(fs: FileSystem, tree: DiskTree) returns (ghost steps: seq<Snapshot>)
    modifies fs
    ensures fs.now == old(fs.now).With(Temp, OnDisk(tree)) && Rooted(fs.now.temp)
    ensures fs.history == old(fs.history) + steps && steps == [fs.now]
  {
    TreesAreRooted(tree);
    fs.Put(Temp, OnDisk(tree));
    steps := [fs.now];
  }

  /** What the clean-up before extraction leaves at the temporary path. */
  ghost function Cleaned(host: Host, temp: Disk): Disk {
    Removed(temp, host.RightsAt(Temp), [])
  }

  /** What the removal of the old output leaves of it. */
  ghost function Cleared(host: Host, output: Disk): Disk {
    Removed(output, host.RightsAt(Output), [])
  }

  /** These steps leave the output alone. */
  ghost predicate OnlyTemp(steps: seq<Snapshot>, output: Disk) {
    forall i :: 0 <= i < |steps| ==> steps[i].output == output
  }

  lemma OneTempStep(steps: seq<Snapshot>, output: Disk)
    requires |steps| <= 1 && (steps != [] ==> steps[0].output == output && IsSound(steps[0]))
    ensures OnlyTemp(steps, output) && AllSound(steps)
  {
  }

  lemma OnlyTempJoins(a: seq<Snapshot>, b: seq<Snapshot>, output: Disk)
    requires OnlyTemp(a, output) && OnlyTemp(b, output)
    ensures OnlyTemp(a + b, output)
  {
  }

  lemma RemovingTemp(steps: seq<Snapshot>, before: Snapshot)
    requires Removing(steps, before, Temp) && Rooted(before.output)
    ensures OnlyTemp(steps, before.output) && AllSound(steps)
  {
    hide Rooted;
  }

  lemma RemovingOutput(steps: seq<Snapshot>, before: Snapshot)
    requires Removing(steps, before, Output) && Rooted(before.temp)
    ensures AllSafe(steps, before.output, Some(before.temp)) && AllSound(steps)
  {
    hide Rooted;
  }

  lemma SoundJoins(a: seq<Snapshot>, b: seq<Snapshot>)
    requires AllSound(a) && AllSound(b)
    ensures AllSound(a + b)
  {
  }

  /** Extracts onto the cleaned temporary path, and cleans it again if that fails. */
  method StageTemp(fs: FileSystem, img: bytes, codec: SquashfsStream.Codec, host: Host)
    returns (ok: bool, ghost steps: seq<Snapshot>)
    requires IsSound(fs.now)
    modifies fs
    ensures fs.history == old(fs.history) + steps && OnlyTemp(steps, old(fs.now).output) && AllSound(steps)
    ensures EndsIn(steps, old(fs.now), fs.now)
    ensures fs.now.output == old(fs.now).output && IsSound(fs.now)
    ensures var temp := Cleaned(host, old(fs.now).temp);
            if ok then IsProduct(Some(fs.now.temp), img, codec, host, temp)
            else NothingExtracts(img, codec, host.SinkFor(temp), TreeOf(temp))
  {
    hide Rooted, NothingExtracts, IsProduct, TreeOf, Removed, Removing, OnlyTemp, AllSound, Host.SinkFor, Host.RightsAt;
    ghost var before := fs.now;
    steps := RemovePath(fs, Temp, host);
    RemovingTemp(steps, before);
    ghost var more;
    ok, more := ExtractDispatch(fs, img, codec, host);
    OneTempStep(more, before.output);
    OnlyTempJoins(steps, more, before.output);
    SoundJoins(steps, more);
    steps := steps + more;
    if !ok {
      ghost var mid := fs.now;
      more := RemovePath(fs, Temp, host);
      RemovingTemp(more, mid);
      OnlyTempJoins(steps, more, before.output);
      SoundJoins(steps, more);
      steps := steps + more;
    }
  }

  /** Removes the old output and renames the temporary path to it. */
  method ReplaceOutput(fs: FileSystem, host: Host) returns (ok: bool, ghost steps: seq<Snapshot>)
    requires IsSound(fs.now)
    modifies fs
    ensures fs.history == old(fs.history) + steps && AllSafe(steps, old(fs.now).output, Some(old(fs.now).temp)) &&
            AllSound(steps)
    ensures EndsIn(steps, old(fs.now), fs.now)
    ensures ok <==> host.renames && Replaceable(Cleared(host, old(fs.now).output))
    ensures fs.now == if ok then Snapshot(old(fs.now).temp, map[])
            else Snapshot(Cleared(host, old(fs.now).output), old(fs.now).temp)
  {
    hide Rooted, Gone, Removed, Removing, Within;
    ghost var before := fs.now;
    steps := RemovePath(fs, Output, host);
    RemovingOutput(steps, before);
    ok := fs.Rename(host.renames);
    if ok {
      steps := steps + [fs.now];
      EmptyIsRooted();
    }
  }

  lemma NothingHappened(output: Disk, product: Option<Disk>)
    ensures AllSafe([], output, product) && AllSound([])
  {
  }

  /** What a call does, whether it completes or not: from a sound start, every step is sound and safe, and what
      replaces the output is what a reader made of the image on the cleaned temporary path. */
  datatype Call = Call(start: Snapshot, img: bytes, codec: SquashfsStream.Codec, host: Host,
                       steps: seq<Snapshot>, product: Option<Disk>)
  {
    ghost predicate IsReal() {
      && IsSound(start) && AllSound(steps) && AllSafe(steps, start.output, product)
      && (product.Some? ==> IsProduct(product, img, codec, host, Cleaned(host, start.temp)))
    }

    /** The state at some moment of the call. */
    ghost predicate Passes(s: Snapshot) {
      s == start || s in steps
    }
  }

  /** How a completed call ends. */
  ghost predicate EndsAs(before: Snapshot, img: bytes, codec: SquashfsStream.Codec, host: Host,
                         outcome: Outcome, after: Snapshot, product: Option<Disk>)
  {
    var temp := Cleaned(host, before.temp);
    && (outcome.TooLong? <==> |host.outputDir| + 4 >= 1280)
    && match outcome
       case TooLong => after == before && product == None
       case NotExtracted =>
         after.output == before.output && product == None &&
           NothingExtracts(img, codec, host.SinkFor(temp), TreeOf(temp))
       case NotReplaced =>
         && IsProduct(product, img, codec, host, temp) && after == Snapshot(Cleared(host, before.output), product.value)
         && !(host.renames && Replaceable(Cleared(host, before.output)))
       case Replaced =>
         && IsProduct(product, img, codec, host, temp) && after == Snapshot(product.value, map[])
         && host.renames && Replaceable(Cleared(host, before.output))
  }

  lemma EndIsPassed(steps: seq<Snapshot>, before: Snapshot, now: Snapshot)
    requires EndsIn(steps, before, now)
    ensures now == before || now in steps
  {
  }

  lemma EndsJoin(a: seq<Snapshot>, b: seq<Snapshot>, before: Snapshot, mid: Snapshot, now: Snapshot)
    requires EndsIn(a, before, mid) && EndsIn(b, mid, now)
    ensures EndsIn(a + b, before, now)
  {
  }

  method FsExtract(fs: FileSystem, img: bytes, codec: SquashfsStream.Codec, host: Host)
    returns (outcome: Outcome, ghost steps: seq<Snapshot>, ghost product: Option<Disk>)
    requires IsSound(fs.now)
    modifies fs
    ensures fs.history == old(fs.history) + steps
    ensures EndsAs(old(fs.now), img, codec, host, outcome, fs.now, product)
    ensures var call := Call(old(fs.now), img, codec, host, steps, product); call.IsReal() && call.Passes(fs.now)
  {
    hide Rooted, NothingExtracts, IsProduct, Removed, Replaceable, TreeOf, EndsIn, OnlyTemp, AllSafe, AllSound,
         Host.SinkFor, Host.RightsAt;
    steps, product := [], None;
    ghost var before := fs.now;
    NothingHappened(before.output, product);
    if |host.outputDir| + |TEMP_SUFFIX| >= TEMP_PATH_CAP {
      return TooLong, steps, product;
    }
    var ok;
    ok, steps := StageTemp(fs, img, codec, host);
    EndIsPassed(steps, before, fs.now);
    if !ok {
      TempStepsAreSafe(steps, before.output, product);
      return NotExtracted, steps, product;
    }
    product := Some(fs.now.temp);
    TempStepsAreSafe(steps, before.output, product);
    ghost var mid := fs.now;
    ghost var more;
    ok, more := ReplaceOutput(fs, host);
    StillSafe(steps, more, before.output, product);
    SoundJoins(steps, more);
    EndsJoin(steps, more, before, mid, fs.now);
    steps := steps + more;
    EndIsPassed(steps, before, fs.now);
    return if ok then Replaced else NotReplaced, steps, product;
  }

  lemma EmptyIsRooted()
    ensures Rooted(map[])
  {
  }

  // ----- any number of calls -----

  ghost predicate Continues(calls: seq<Call>, k: nat)
    requires k + 1 < |calls|
  {
    calls[k].Passes(calls[k + 1].start)
  }

  /** Calls one after the other. Each may have been cut short: the next starts from any state it passed through. */
  ghost predicate IsRun(calls: seq<Call>) {
    && (forall k :: 0 <= k < |calls| ==> calls[k].IsReal())
    && (forall k :: 0 <= k && k + 1 < |calls| ==> Continues(calls, k))
  }

  /** Wherever a run stops, another call may start: the state there meets what a call requires, and whatever that call
      does continues the run. */
  lemma RunsGoOn(calls: seq<Call>, s: Snapshot, next: Call)
    requires IsRun(calls) && calls != [] && calls[|calls| - 1].Passes(s)
    ensures IsSound(s)
    ensures next.start == s && next.IsReal() ==> IsRun(calls + [next])
  {
    hide Rooted;
    var last := calls[|calls| - 1];
    assert last.IsReal();
    if s != last.start {
      var i :| 0 <= i < |last.steps| && last.steps[i] == s;
    }
    if next.start == s && next.IsReal() {
      var more := calls + [next];
      forall k | 0 <= k && k + 1 < |more| ensures Continues(more, k) {
        if k + 1 < |calls| {
          assert Continues(calls, k);
        }
      }
    }
  }

  /** What a call writes to the temporary path while it extracts is not recorded step by step. Whatever is there at such
      a moment, the call with that moment among its steps is as real, so a run may go on from it. */
  lemma MomentsOfExtraction(call: Call, i: nat, tree: DiskTree)
    requires call.IsReal() && i <= |call.steps|
    ensures var moment := Snapshot(call.start.output, OnDisk(tree));
            var seen := call.(steps := call.steps[..i] + [moment] + call.steps[i..]);
            seen.IsReal() && seen.Passes(moment)
  {
    hide Rooted, IsProduct, OnDisk;
    var moment := Snapshot(call.start.output, OnDisk(tree));
    TreesAreRooted(tree);
    StillSafe(call.steps[..i], [moment], call.start.output, call.product);
    StillSafe(call.steps[..i] + [moment], call.steps[i..], call.start.output, call.product);
    SoundJoins(call.steps[..i], [moment]);
    SoundJoins(call.steps[..i] + [moment], call.steps[i..]);
    assert (call.steps[..i] + [moment] + call.steps[i..])[i] == moment;
  }

  /** `out` comes from one tree: the first output, or what one of the first `n` calls extracted. */
  ghost predicate FromOneTree(calls: seq<Call>, n: nat, out: Disk)
    requires calls != []
  {
    || Within(out, calls[0].start.output)
    || exists j :: 0 <= j < n && j < |calls| && calls[j].product.Some? && Within(out, calls[j].product.value)
  }

  lemma PartOfOneTree(calls: seq<Call>, n: nat, out: Disk, part: Disk)
    requires calls != [] && FromOneTree(calls, n, out) && Within(part, out)
    ensures FromOneTree(calls, n + 1, part)
  {
    if Within(out, calls[0].start.output) {
      assert Within(part, calls[0].start.output);
    } else {
      var j :| 0 <= j < n && j < |calls| && calls[j].product.Some? && Within(out, calls[j].product.value);
      assert Within(part, calls[j].product.value);
    }
  }

  lemma SameIsWithin(out: Disk)
    ensures Within(out, out)
  {
  }

  /** However often calls are made, and wherever they are cut short, the output never mixes two trees: at every moment
      it is part of the first output, or of one tree that a single call extracted. */
  lemma {:induction false} NeverAMix(calls: seq<Call>, k: nat, s: Snapshot)
    requires IsRun(calls) && k < |calls| && calls[k].Passes(s)
    ensures FromOneTree(calls, k + 1, s.output)
    decreases k, 1
  {
    hide Within, FromOneTree, IsProduct, IsSound;
    StartIsFromOneTree(calls, k);
    SameIsWithin(s.output);
    if s == calls[k].start {
      PartOfOneTree(calls, k, s.output, s.output);
    } else {
      var i :| 0 <= i < |calls[k].steps| && calls[k].steps[i] == s;
      StepIsFromOneTree(calls, k, i);
    }
  }

  lemma StepIsFromOneTree(calls: seq<Call>, k: nat, i: nat)
    requires IsRun(calls) && k < |calls| && i < |calls[k].steps|
    requires FromOneTree(calls, k, calls[k].start.output)
    ensures FromOneTree(calls, k + 1, calls[k].steps[i].output)
  {
    hide IsProduct, IsSound;
    var s := calls[k].steps[i];
    assert calls[k].IsReal() && SafeStep(s, calls[k].start.output, calls[k].product);
    if Within(s.output, calls[k].start.output) {
      PartOfOneTree(calls, k, calls[k].start.output, s.output);
    } else {
      assert Within(s.output, calls[k].product.value);
    }
  }

  lemma {:induction false} StartIsFromOneTree(calls: seq<Call>, k: nat)
    requires IsRun(calls) && k < |calls|
    ensures FromOneTree(calls, k, calls[k].start.output)
    decreases k, 0
  {
    hide IsProduct, IsSound;
    if k == 0 {
    } else {
      assert Continues(calls, k - 1);
      NeverAMix(calls, k - 1, calls[k].start);
    }
  }

  // ----- what the new tree is -----

  /** A tree that the image of a call gives by itself. */
  ghost predicate GivenByImage(call: Call) {
    call.product.Some? && IsProduct(call.product, call.img, call.codec, call.host, map[])
  }

  /** When everything at the temporary path can be deleted, the new tree is what the image alone gives. */
  lemma CleanTempGivesTheImage(product: Option<Disk>, img: bytes, codec: SquashfsStream.Codec, host: Host, temp: Disk)
    requires Rooted(temp) && AllDeletable(temp, host.RightsAt(Temp))
    requires IsProduct(product, img, codec, host, Cleaned(host, temp))
    ensures Cleaned(host, temp) == map[] && IsProduct(product, img, codec, host, map[])
  {
    hide Rooted, AllDeletable, Removed, Extracts;
    if [] in temp {
      RemovedIsEmptyIff(temp, host.RightsAt(Temp));
    } else {
      NothingWithoutRoot(temp);
      NothingRemoved(host.RightsAt(Temp));
    }
  }

  lemma NothingRemoved(rights: Rights)
    ensures Removed(map[], rights, []) == map[]
  {
  }

  /** If the clean-up of every call can remove what it finds, the output is at every moment part of the first output, or
      of what a single image gives by itself. */
  lemma NeverAMixOfImages(calls: seq<Call>, k: nat, s: Snapshot)
    requires IsRun(calls) && k < |calls| && calls[k].Passes(s)
    requires forall j :: 0 <= j < |calls| ==> AllDeletable(calls[j].start.temp, calls[j].host.RightsAt(Temp))
    ensures || Within(s.output, calls[0].start.output)
            || exists j :: 0 <= j <= k && GivenByImage(calls[j]) && Within(s.output, calls[j].product.value)
  {
    hide Within, AllDeletable, Rooted, IsProduct, Cleaned, Host.RightsAt;
    NeverAMix(calls, k, s);
    if !Within(s.output, calls[0].start.output) {
      var j :| 0 <= j < k + 1 && j < |calls| && calls[j].product.Some? && Within(s.output, calls[j].product.value);
      var c := calls[j];
      assert c.IsReal() && IsSound(c.start);
      CleanTempGivesTheImage(c.product, c.img, c.codec, c.host, c.start.temp);
      assert GivenByImage(c);
    }
  }

  // ----- what the caller is promised -----

  /** A call is meant to leave the output untouched, or to succeed and replace it by the new tree. It does, exactly when
      nothing was extracted; or the rename is permitted and everything in its way can go; or nothing there can go. */
  lemma PromiseKeptIff(before: Snapshot, img: bytes, codec: SquashfsStream.Codec, host: Host,
                       outcome: Outcome, after: Snapshot, product: Option<Disk>)
    requires IsSound(before) && EndsAs(before, img, codec, host, outcome, after, product)
    ensures (after.output == before.output || (outcome.Replaced? && Some(after.output) == product)) <==>
            var rights := host.RightsAt(Output);
            product == None || (host.renames && CanBeCleared(before.output, rights)) ||
              NothingCanGo(before.output, rights)
  {
    hide Rooted, NothingExtracts, Extracts, Removed, Replaceable, CanBeCleared, NothingCanGo, Host.SinkFor,
         Host.RightsAt;
    var rights := host.RightsAt(Output);
    assert Cleared(host, before.output) == Removed(before.output, rights, []);
    ReplaceableIff(before.output, rights);
    UntouchedIff(before.output, rights);
  }

  /** Versions are distinct within each name and each inode of the image, if it is a JFFS2 one. */
  ghost predicate HasDistinctVersions(img: bytes) {
    Jffs2Accepts(img) ==>
      var log := Jffs2Log.Scan(img).value;
      && Jffs2View.VersionsIdentify(log.dirents, Jffs2View.DirentLe)
      && Jffs2View.VersionsIdentify(FlatMap(log.inodes, Jffs2Log.WriteAt(img)), Jffs2Replay.WriteLe)
  }

  /** Some reader can extract the image onto what is at the temporary path. */
  ghost predicate CanExtract(img: bytes, codec: SquashfsStream.Codec, host: Host, temp: Disk) {
    exists st: State :: Extracts(img, codec, host.SinkFor(temp), TreeOf(temp), st)
  }

  /** Whether a call gets as far as a new tree is decided before it starts. */
  lemma NothingExtractedIff(before: Snapshot, img: bytes, codec: SquashfsStream.Codec, host: Host,
                            outcome: Outcome, after: Snapshot, product: Option<Disk>)
    requires EndsAs(before, img, codec, host, outcome, after, product) && HasDistinctVersions(img)
    ensures product == None <==> |host.outputDir| + 4 >= 1280 ||
                                 !CanExtract(img, codec, host, Cleaned(host, before.temp))
  {
    hide SquashfsReader.ReadImage, CramfsReader.ReadImage, Jffs2Reader.ReadVolume, Jffs2Reader.IsVolumeOf, Cleaned,
         Cleared;
    hide HasDistinctVersions, Host.SinkFor, TreeOf, Replaceable, OnDisk;
    var temp := Cleaned(host, before.temp);
    var sink, tree := host.SinkFor(temp), TreeOf(temp);
    forall v, w | Jffs2Reader.IsVolumeOf(v, img, codec.zlib) && Jffs2Reader.IsVolumeOf(w, img, codec.zlib)
      ensures Jffs2Reader.ReadVolume(v, sink, tree) == Jffs2Reader.ReadVolume(w, sink, tree)
    {
      SortsReadAlike(v, w, img, codec.zlib, sink, tree);
    }
    forall v | Jffs2Reader.IsVolumeOf(v, img, codec.zlib) ensures Jffs2Accepts(img) {
      VolumesAreAccepted(v, img, codec.zlib);
    }
  }

  lemma VolumesAreAccepted(v: Jffs2Reader.Volume, img: bytes, zlib: Inflater)
    requires Jffs2Reader.IsVolumeOf(v, img, zlib)
    ensures Jffs2Accepts(img)
  {
  }

  lemma SortsReadAlike(v: Jffs2Reader.Volume, w: Jffs2Reader.Volume, img: bytes, zlib: Inflater, sink: Sink, tree: Tree)
    requires Jffs2Reader.IsVolumeOf(v, img, zlib) && Jffs2Reader.IsVolumeOf(w, img, zlib) && HasDistinctVersions(img)
    ensures Jffs2Reader.ReadVolume(v, sink, tree) == Jffs2Reader.ReadVolume(w, sink, tree)
  {
    hide Jffs2Reader.ReadVolume, Jffs2Log.Scan, Jffs2View.VersionsIdentify;
    Jffs2Reader.ReadingIsDeterministic(v, w, img, img, zlib, sink, tree);
  }

  /** So is whether the promise will be kept. */
  lemma PromiseSeenBeforehandIff(before: Snapshot, img: bytes, codec: SquashfsStream.Codec, host: Host,
                                 outcome: Outcome, after: Snapshot, product: Option<Disk>)
    requires IsSound(before) && EndsAs(before, img, codec, host, outcome, after, product) && HasDistinctVersions(img)
    ensures (after.output == before.output || (outcome.Replaced? && Some(after.output) == product)) <==>
            var rights := host.RightsAt(Output);
            || |host.outputDir| + 4 >= 1280
            || !CanExtract(img, codec, host, Cleaned(host, before.temp))
            || (host.renames && CanBeCleared(before.output, rights))
            || NothingCanGo(before.output, rights)
  {
    hide *;
    NothingExtractedIff(before, img, codec, host, outcome, after, product);
    PromiseKeptIff(before, img, codec, host, outcome, after, product);
  }
}
