/**
 The directory walk that the three readers share. A reader supplies the children of a directory; the walk
 checks names, builds paths, lists entries and, when extracting, fills the output tree.
 */
module Walk {
  import opened Bytes
  import opened Paths

  const MAX_DIR_DEPTH := 32
  const PATH_CAP := 1024
  const DISK_PATH_CAP := 1280

  /** What a directory holds under one name; `D` identifies a directory to its reader. */
  datatype Kind<D> =
    | Folder(dir: D)
    | Regular(size: nat, content: Option<bytes>)
    | Special(size: nat)

  datatype Child<D> = Child(name: bytes, kind: Kind<D>)

  datatype Visit<D> = Visit(path: bytes, kind: Kind<D>)

  /** One line of a listing. */
  datatype Entry = Entry(path: bytes, isDir: bool, size: nat)

  datatype OutNode = Directory | File(content: bytes)

  type Tree = map<bytes, OutNode>

  /** Where a walk writes. `host` says which relative paths the host's file system lets it create. */
  datatype Sink = Listing | Extracting(outputDir: bytes, host: bytes -> bool)

  datatype State = State(entries: seq<Entry>, tree: Tree)

  // ----- the visits of a walk -----

  function DirVisits<D>(children: D -> Option<seq<Child<D>>>, dir: D, parent: bytes, depth: nat)
    : Option<seq<Visit<D>>>
    decreases if depth <= MAX_DIR_DEPTH then MAX_DIR_DEPTH + 1 - depth else 0, 2, 0
  {
    if depth > MAX_DIR_DEPTH then None
    else
      var cs :- children(dir);
      ChildrenVisits(children, cs, parent, depth)
  }

  function ChildrenVisits<D>(children: D -> Option<seq<Child<D>>>, cs: seq<Child<D>>, parent: bytes, depth: nat)
    : Option<seq<Visit<D>>>
    requires depth <= MAX_DIR_DEPTH
    decreases MAX_DIR_DEPTH + 1 - depth, 1, |cs|
  {
    if cs == [] then Some([])
    else
      var first :- ChildVisits(children, cs[0], parent, depth);
      var rest :- ChildrenVisits(children, cs[1..], parent, depth);
      Some(first + rest)
  }

  function ChildVisits<D>(children: D -> Option<seq<Child<D>>>, c: Child<D>, parent: bytes, depth: nat)
    : Option<seq<Visit<D>>>
    requires depth <= MAX_DIR_DEPTH
    decreases MAX_DIR_DEPTH + 1 - depth, 0, 0
  {
    var path := ChildPath(parent, c.name);
    if !IsSafe(c.name) || |path| >= PATH_CAP then None
    else if c.kind.Folder? then
      var inside :- DirVisits(children, c.kind.dir, path, depth + 1);
      Some([Visit(path, c.kind)] + inside)
    else Some([Visit(path, c.kind)])
  }

  function EntryOf<D>(v: Visit<D>): Entry {
    Entry(v.path, v.kind.Folder?, if v.kind.Folder? then 0 else v.kind.size)
  }

  function Entries<D>(vs: seq<Visit<D>>): (es: seq<Entry>)
    ensures |es| == |vs| && forall i :: 0 <= i < |vs| ==> es[i] == EntryOf(vs[i])
  {
    seq(|vs|, i requires 0 <= i < |vs| => EntryOf(vs[i]))
  }

  // ----- the output tree -----

  /** The path sits directly in the output directory, or in a directory already made. */
  predicate ParentExists(tree: Tree, path: bytes) {
    var c := Components(path);
    |c| == 1 || (|c| > 1 && exists q :: q in tree.Keys && tree[q].Directory? && Components(q) == c[..|c| - 1])
  }

  function MakeDirectory(host: bytes -> bool, tree: Tree, path: bytes): Option<Tree> {
    if path in tree then (if tree[path].Directory? then Some(tree) else None)
    else if ParentExists(tree, path) && host(path) then Some(tree[path := Directory])
    else None
  }

  function WriteFile(host: bytes -> bool, tree: Tree, path: bytes, content: bytes): Option<Tree> {
    if path in tree && tree[path].Directory? then None
    else if ParentExists(tree, path) && host(path) then Some(tree[path := File(content)])
    else None
  }

  /** Every path is in a directory of the tree, or directly in the output directory. */
  ghost predicate IsRooted(tree: Tree) {
    forall p :: p in tree ==> ParentExists(tree, p)
  }

  /** What an output directory can hold. */
  type DiskTree = t: Tree | IsRooted(t) witness map[]

  lemma WritingStaysRooted(tree: Tree, path: bytes, node: OutNode)
    requires IsRooted(tree) && ParentExists(tree, path)
    requires path in tree && tree[path].Directory? ==> node.Directory?
    ensures IsRooted(tree[path := node])
  {
    hide Components;
    var after := tree[path := node];
    forall p | p in after ensures ParentExists(after, p) {
      assert ParentExists(tree, p);
    }
  }

  predicate DiskPathFits(sink: Sink, path: bytes)
    requires sink.Extracting?
  {
    |sink.outputDir| + 1 + |path| < DISK_PATH_CAP
  }

  /** What one visit does to the output tree. */
  function Apply<D>(sink: Sink, tree: Tree, v: Visit<D>): Option<Tree> {
    if sink.Listing? then Some(tree)
    else if !DiskPathFits(sink, v.path) then None
    else match v.kind
      case Folder(_) => MakeDirectory(sink.host, tree, v.path)
      case Regular(_, content) => if content.None? then None else WriteFile(sink.host, tree, v.path, content.value)
      case Special(_) => Some(tree)
  }

  function ApplyAll<D>(sink: Sink, tree: Tree, vs: seq<Visit<D>>): Option<Tree>
    decreases |vs|
  {
    if vs == [] then Some(tree)
    else
      var t :- Apply(sink, tree, vs[0]);
      ApplyAll(sink, t, vs[1..])
  }

  /** The state a walk with these visits ends in, or None when the walk or one of its writes fails. */
  function Run<D>(sink: Sink, st: State, visits: Option<seq<Visit<D>>>): Option<State> {
    var vs :- visits;
    var tree :- ApplyAll(sink, st.tree, vs);
    Some(State(st.entries + Entries(vs), tree))
  }

  // ----- running a walk piece by piece -----

  lemma {:induction false} ApplyAllAppend<D>(sink: Sink, tree: Tree, a: seq<Visit<D>>, b: seq<Visit<D>>)
    ensures ApplyAll(sink, tree, a + b) ==
            (var t := ApplyAll(sink, tree, a); if t.None? then None else ApplyAll(sink, t.value, b))
    decreases |a|
  {
    if a == [] {
      assert a + b == b;
    } else {
      var t := Apply(sink, tree, a[0]);
      if t.Some? {
        assert (a + b)[1..] == a[1..] + b;
        ApplyAllAppend(sink, t.value, a[1..], b);
      }
    }
  }

  lemma RunAppend<D>(sink: Sink, st: State, a: seq<Visit<D>>, b: Option<seq<Visit<D>>>)
    ensures Run(sink, st, if b.Some? then Some(a + b.value) else None) ==
            (var s := Run(sink, st, Some(a)); if s.None? then None else Run(sink, s.value, b))
  {
    if b.Some? {
      ApplyAllAppend(sink, st.tree, a, b.value);
      assert st.entries + Entries(a + b.value) == st.entries + Entries(a) + Entries(b.value);
    }
  }

  lemma ListingWritesNothing<D>(sink: Sink, tree: Tree, v: Visit<D>)
    requires sink.Listing?
    ensures Apply(sink, tree, v) == Some(tree)
  {
  }

  lemma RunNone<D>(sink: Sink, st: State, visits: Option<seq<Visit<D>>>)
    requires visits.None?
    ensures Run(sink, st, visits) == None
  {
  }

  /** One visit: an entry is listed, and written when extracting. */
  lemma RunOne<D>(sink: Sink, st: State, v: Visit<D>, inside: Option<seq<Visit<D>>>)
    ensures var t := Apply(sink, st.tree, v);
            && Run(sink, st, Some([v])) == (if t.None? then None else Some(State(st.entries + [EntryOf(v)], t.value)))
            && Run(sink, st, if inside.Some? then Some([v] + inside.value) else None) ==
               (if t.None? then None else Run(sink, State(st.entries + [EntryOf(v)], t.value), inside))
  {
    ApplyAllSnoc(sink, st.tree, [], v);
    assert [] + [v] == [v];
    assert Entries([v]) == [EntryOf(v)];
    RunAppend(sink, st, [v], inside);
  }

  lemma {:induction false} ChildrenVisitsAppend<D>(children: D -> Option<seq<Child<D>>>, a: seq<Child<D>>,
                                                   b: seq<Child<D>>, parent: bytes, depth: nat)
    requires depth <= MAX_DIR_DEPTH
    ensures ChildrenVisits(children, a + b, parent, depth) ==
            (var va := ChildrenVisits(children, a, parent, depth);
             var vb := ChildrenVisits(children, b, parent, depth);
             if va.None? || vb.None? then None else Some(va.value + vb.value))
  {
    if a == [] {
      assert a + b == b;
      var vb := ChildrenVisits(children, b, parent, depth);
      if vb.Some? {
        assert [] + vb.value == vb.value;
      }
    } else {
      assert (a + b)[1..] == a[1..] + b;
      ChildrenVisitsAppend(children, a[1..], b, parent, depth);
      var va := ChildrenVisits(children, a, parent, depth);
      var vb := ChildrenVisits(children, b, parent, depth);
      if va.Some? && vb.Some? {
        var first := ChildVisits(children, a[0], parent, depth).value;
        var rest := ChildrenVisits(children, a[1..], parent, depth).value;
        assert first + rest + vb.value == first + (rest + vb.value);
      }
    }
  }

  /** The state after the children `cs` of one directory. */
  function RunChildren<D>(children: D -> Option<seq<Child<D>>>, sink: Sink, st: State, cs: seq<Child<D>>,
                          parent: bytes, depth: nat): Option<State>
    requires depth <= MAX_DIR_DEPTH
  {
    Run(sink, st, ChildrenVisits(children, cs, parent, depth))
  }

  /** Visiting the children of a directory one at a time is visiting them all; a failure among them is final. */
  lemma RunChildrenStep<D>(children: D -> Option<seq<Child<D>>>, sink: Sink, st: State, done: seq<Child<D>>,
                           c: Child<D>, more: seq<Child<D>>, parent: bytes, depth: nat)
    requires depth <= MAX_DIR_DEPTH
    requires RunChildren(children, sink, st, done, parent, depth).Some?
    ensures var mid := RunChildren(children, sink, st, done, parent, depth).value;
            var after := Run(sink, mid, ChildVisits(children, c, parent, depth));
            && RunChildren(children, sink, st, done + [c], parent, depth) == after
            && (after.None? ==> RunChildren(children, sink, st, done + ([c] + more), parent, depth).None?)
  {
    hide Run, ChildrenVisits, ChildVisits;
    var vd := ChildrenVisits(children, done, parent, depth);
    var vc := ChildVisits(children, c, parent, depth);
    RunNone<D>(sink, st, None);
    if vc.None? {
      RunNone(sink, RunChildren(children, sink, st, done, parent, depth).value, vc);
    }
    OneChildVisits(children, c, parent, depth);
    ChildrenVisitsAppend(children, done, [c], parent, depth);
    RunAppend(sink, st, vd.value, vc);
    ChildrenVisitsAppend(children, done + [c], more, parent, depth);
    assert done + [c] + more == done + ([c] + more);
    var vdc := ChildrenVisits(children, done + [c], parent, depth);
    if vdc.Some? {
      RunAppend(sink, st, vdc.value, ChildrenVisits(children, more, parent, depth));
    }
  }

  lemma OneChildVisits<D>(children: D -> Option<seq<Child<D>>>, c: Child<D>, parent: bytes, depth: nat)
    requires depth <= MAX_DIR_DEPTH
    ensures ChildrenVisits(children, [c], parent, depth) == ChildVisits(children, c, parent, depth)
  {
    hide ChildVisits;
    assert ChildrenVisits(children, [c][1..], parent, depth) == Some([]);
    var vc := ChildVisits(children, c, parent, depth);
    if vc.Some? {
      assert vc.value + [] == vc.value;
    }
  }

  // ----- directories as lists of records -----

  /** The children that a directory's records name, or None when one of them names nothing. */
  function ChildrenOf<R, D>(childOf: R -> Option<Child<D>>, rs: seq<R>): Option<seq<Child<D>>>
    decreases |rs|
  {
    if rs == [] then Some([])
    else
      var first :- childOf(rs[0]);
      var rest :- ChildrenOf(childOf, rs[1..]);
      Some([first] + rest)
  }

  lemma {:induction false} ChildrenOfEach<R, D>(childOf: R -> Option<Child<D>>, rs: seq<R>)
    requires forall i :: 0 <= i < |rs| ==> childOf(rs[i]).Some?
    ensures var cs := ChildrenOf(childOf, rs);
            cs.Some? && |cs.value| == |rs| && forall i :: 0 <= i < |rs| ==> cs.value[i] == childOf(rs[i]).value
    decreases |rs|
  {
    if rs == [] {
    } else {
      ChildrenOfEach(childOf, rs[1..]);
    }
  }

  lemma {:induction false} EachOfChildren<R, D>(childOf: R -> Option<Child<D>>, rs: seq<R>)
    requires ChildrenOf(childOf, rs).Some?
    ensures var cs := ChildrenOf(childOf, rs).value;
            |cs| == |rs| && forall i :: 0 <= i < |rs| ==> childOf(rs[i]) == Some(cs[i])
    decreases |rs|
  {
    if rs == [] {
    } else {
      EachOfChildren(childOf, rs[1..]);
    }
  }

  lemma {:induction false} ChildrenOfAppend<R, D>(childOf: R -> Option<Child<D>>, a: seq<R>, b: seq<R>)
    ensures ChildrenOf(childOf, a + b) ==
            (var ca, cb := ChildrenOf(childOf, a), ChildrenOf(childOf, b);
             if ca.None? || cb.None? then None else Some(ca.value + cb.value))
    decreases |a|
  {
    if a == [] {
      assert a + b == b;
      if ChildrenOf(childOf, b).Some? {
        assert [] + ChildrenOf(childOf, b).value == ChildrenOf(childOf, b).value;
      }
    } else {
      assert (a + b)[1..] == a[1..] + b;
      ChildrenOfAppend(childOf, a[1..], b);
      var ca, cb := ChildrenOf(childOf, a[1..]), ChildrenOf(childOf, b);
      if ca.Some? && cb.Some? && childOf(a[0]).Some? {
        var first := [childOf(a[0]).value];
        assert first + ca.value + cb.value == first + (ca.value + cb.value);
      }
    }
  }

  function RecordVisits<R, D>(children: D -> Option<seq<Child<D>>>, childOf: R -> Option<Child<D>>, r: R,
                              parent: bytes, depth: nat): Option<seq<Visit<D>>>
    requires depth <= MAX_DIR_DEPTH
  {
    var c :- childOf(r);
    ChildVisits(children, c, parent, depth)
  }

  function AllRecordVisits<R, D>(children: D -> Option<seq<Child<D>>>, childOf: R -> Option<Child<D>>, rs: seq<R>,
                                 parent: bytes, depth: nat): Option<seq<Visit<D>>>
    requires depth <= MAX_DIR_DEPTH
  {
    var cs :- ChildrenOf(childOf, rs);
    ChildrenVisits(children, cs, parent, depth)
  }

  lemma NothingVisited<R, D>(children: D -> Option<seq<Child<D>>>, childOf: R -> Option<Child<D>>, sink: Sink,
                             st: State, parent: bytes, depth: nat)
    requires depth <= MAX_DIR_DEPTH
    ensures Run(sink, st, AllRecordVisits(children, childOf, [], parent, depth)) == Some(st)
  {
    assert st.entries + [] == st.entries;
  }

  /** Visiting a directory's records one at a time is visiting them all; a failure among them is final. */
  lemma VisitStep<R, D>(children: D -> Option<seq<Child<D>>>, childOf: R -> Option<Child<D>>, sink: Sink, st: State,
                        done: seq<R>, r: R, more: seq<R>, parent: bytes, depth: nat)
    requires depth <= MAX_DIR_DEPTH
    requires Run(sink, st, AllRecordVisits(children, childOf, done, parent, depth)).Some?
    ensures var mid := Run(sink, st, AllRecordVisits(children, childOf, done, parent, depth)).value;
            var after := Run(sink, mid, RecordVisits(children, childOf, r, parent, depth));
            && Run(sink, st, AllRecordVisits(children, childOf, done + [r], parent, depth)) == after
            && (after.None? ==>
                Run(sink, st, AllRecordVisits(children, childOf, done + ([r] + more), parent, depth)).None?)
  {
    hide Run;
    ChildrenOfAppend(childOf, done, [r]);
    ChildrenOfAppend(childOf, done + [r], more);
    assert done + [r] + more == done + ([r] + more);
    assert ChildrenOf(childOf, [r][1..]) == Some([]);
    RunNone<D>(sink, st, None);
    var mid := Run(sink, st, AllRecordVisits(children, childOf, done, parent, depth)).value;
    RunNone<D>(sink, mid, None);
    var cs := ChildrenOf(childOf, done).value;
    var c := childOf(r);
    if c.Some? {
      assert [c.value] + [] == [c.value];
      var rest := ChildrenOf(childOf, more);
      var later := if rest.Some? then rest.value else [];
      RunChildrenStep(children, sink, st, cs, c.value, later, parent, depth);
      assert cs + [c.value] + later == cs + ([c.value] + later);
    }
  }

  // ----- what holds of every walk -----

  /** `path` is below `parent`, and enters it through one of `names`. */
  ghost predicate Under(parent: bytes, names: set<bytes>, path: bytes) {
    var n := |Components(parent)|;
    var c := Components(path);
    |c| > n && c[..n] == Components(parent) && c[n] in names
  }

  function Names<D>(cs: seq<Child<D>>): set<bytes> {
    set i | 0 <= i < |cs| :: cs[i].name
  }

  lemma ChildrenUnfold<D>(children: D -> Option<seq<Child<D>>>, cs: seq<Child<D>>, parent: bytes, depth: nat)
    requires depth <= MAX_DIR_DEPTH && cs != [] && ChildrenVisits(children, cs, parent, depth).Some?
    ensures ChildVisits(children, cs[0], parent, depth).Some? && ChildrenVisits(children, cs[1..], parent, depth).Some?
    ensures ChildrenVisits(children, cs, parent, depth).value ==
            ChildVisits(children, cs[0], parent, depth).value + ChildrenVisits(children, cs[1..], parent, depth).value
  {
    hide ChildVisits;
  }

  /** The visits of one child: its own, and for a directory what is inside. */
  lemma ChildUnfold<D>(children: D -> Option<seq<Child<D>>>, c: Child<D>, parent: bytes, depth: nat)
    requires depth <= MAX_DIR_DEPTH && ChildVisits(children, c, parent, depth).Some?
    ensures IsSafe(c.name)
    ensures var path := ChildPath(parent, c.name);
            var vs := ChildVisits(children, c, parent, depth).value;
            if c.kind.Folder? then
              && depth < MAX_DIR_DEPTH && children(c.kind.dir).Some?
              && ChildrenVisits(children, children(c.kind.dir).value, path, depth + 1).Some?
              && DirVisits(children, c.kind.dir, path, depth + 1) ==
                ChildrenVisits(children, children(c.kind.dir).value, path, depth + 1)
              && vs ==
                [Visit(path, c.kind)] + ChildrenVisits(children, children(c.kind.dir).value, path, depth + 1).value
            else vs == [Visit(path, c.kind)]
  {
    hide ChildrenVisits, IsSafe, ChildPath;
  }

  lemma NamesOfTail<D>(cs: seq<Child<D>>)
    requires cs != []
    ensures cs[0].name in Names(cs) && Names(cs[1..]) <= Names(cs)
  {
    forall i | 0 <= i < |cs[1..]| ensures cs[1..][i].name in Names(cs) {
      assert cs[1..][i] == cs[i + 1];
    }
  }

  lemma UnderMoreNames(parent: bytes, names: set<bytes>, more: set<bytes>, path: bytes)
    requires Under(parent, names, path) && names <= more
    ensures Under(parent, more, path)
  {
    hide Components;
  }

  lemma UnderChild(parent: bytes, name: bytes, inner: set<bytes>, path: bytes)
    requires IsSafe(name)
    ensures Under(parent, {name}, ChildPath(parent, name))
    ensures Under(ChildPath(parent, name), inner, path) ==> Under(parent, {name}, path)
  {
    hide IsSafe;
    ChildComponents(parent, name);
    hide Components;
    var c, d := Components(path), Components(ChildPath(parent, name));
    if Under(ChildPath(parent, name), inner, path) {
      assert c[..|d|] == d;
      assert c[..|d| - 1] == d[..|d| - 1];
    }
  }

  lemma SafeChildPath(parent: bytes, name: bytes)
    requires PathIsSafe(parent) && IsSafe(name)
    ensures PathIsSafe(ChildPath(parent, name))
  {
    hide IsSafe;
    ChildComponents(parent, name);
    hide Components;
  }

  /** Every path emitted below a safe directory is a safe path strictly below it. */
  lemma {:induction false} ChildrenStayBelow<D>(children: D -> Option<seq<Child<D>>>, cs: seq<Child<D>>,
                                                parent: bytes, depth: nat)
    requires depth <= MAX_DIR_DEPTH
    requires PathIsSafe(parent)
    requires ChildrenVisits(children, cs, parent, depth).Some?
    ensures forall v :: v in ChildrenVisits(children, cs, parent, depth).value ==>
              Under(parent, Names(cs), v.path) && PathIsSafe(v.path)
    decreases MAX_DIR_DEPTH + 1 - depth, |cs|
  {
    hide IsSafe, ChildrenVisits, ChildVisits, DirVisits, Under, PathIsSafe, Names, ChildPath;
    if cs == [] {
      NoChildren(children, parent, depth);
    } else {
      var c := cs[0];
      var path := ChildPath(parent, c.name);
      ChildrenUnfold(children, cs, parent, depth);
      ChildUnfold(children, c, parent, depth);
      NamesOfTail(cs);
      SafeChildPath(parent, c.name);
      UnderChild(parent, c.name, {}, path);
      ChildrenStayBelow(children, cs[1..], parent, depth);
      forall v | v in ChildrenVisits(children, cs[1..], parent, depth).value ensures Under(parent, Names(cs), v.path) {
        UnderMoreNames(parent, Names(cs[1..]), Names(cs), v.path);
      }
      if c.kind.Folder? {
        var inner := children(c.kind.dir).value;
        ChildrenStayBelow(children, inner, path, depth + 1);
        forall v | v in ChildrenVisits(children, inner, path, depth + 1).value ensures Under(parent, {c.name}, v.path) {
          UnderChild(parent, c.name, Names(inner), v.path);
        }
      }
      forall v | v in ChildVisits(children, c, parent, depth).value
        ensures Under(parent, Names(cs), v.path) && PathIsSafe(v.path)
      {
        UnderMoreNames(parent, {c.name}, Names(cs), v.path);
      }
    }
  }

  lemma NoChildren<D>(children: D -> Option<seq<Child<D>>>, parent: bytes, depth: nat)
    requires depth <= MAX_DIR_DEPTH
    ensures ChildrenVisits(children, [], parent, depth) == Some([])
  {
  }

  /** A walk from the image's root emits only safe paths: none leaves the output directory. */
  lemma WalkIsContained<D>(children: D -> Option<seq<Child<D>>>, root: D, v: Visit<D>)
    requires DirVisits(children, root, [], 0).Some?
    requires v in DirVisits(children, root, [], 0).value
    ensures PathIsSafe(v.path) && v.path != []
  {
    ChildrenStayBelow(children, children(root).value, [], 0);
  }

  /** The directory holding `path` is the walk's own, or one of the directories visited before. */
  ghost predicate HasParent<D>(root: bytes, seen: seq<Visit<D>>, path: bytes) {
    var c := Components(path);
    && |c| > 0
    && (|| c[..|c| - 1] == Components(root)
        || exists v :: v in seen && v.kind.Folder? && Components(v.path) == c[..|c| - 1])
  }

  ghost predicate ParentsFirst<D>(root: bytes, vs: seq<Visit<D>>) {
    forall i :: 0 <= i < |vs| ==> HasParent(root, vs[..i], vs[i].path)
  }

  lemma ParentsFirstAppend<D>(root: bytes, a: seq<Visit<D>>, b: seq<Visit<D>>)
    requires ParentsFirst(root, a) && ParentsFirst(root, b)
    ensures ParentsFirst(root, a + b)
  {
    hide Components, IsSafe;
    forall i | 0 <= i < |a + b|
      ensures HasParent(root, (a + b)[..i], (a + b)[i].path)
    {
      if i < |a| {
        assert (a + b)[..i] == a[..i];
      } else {
        assert (a + b)[..i] == a + b[..i - |a|];
      }
    }
  }

  /** A directory's own visit, and then what is inside it. */
  lemma FolderParentsFirst<D>(parent: bytes, name: bytes, v: Visit<D>, inside: seq<Visit<D>>)
    requires IsSafe(name) && v.path == ChildPath(parent, name) && v.kind.Folder?
    requires ParentsFirst(v.path, inside)
    ensures ParentsFirst(parent, [v] + inside)
  {
    hide IsSafe, HasParent, Components, ChildPath;
    ChildComponents(parent, name);
    var vs := [v] + inside;
    forall i | 0 <= i < |vs| ensures HasParent(parent, vs[..i], vs[i].path) {
      if i > 0 {
        assert vs[..i] == [v] + inside[..i - 1];
        BehindFolder(parent, name, v, inside[..i - 1], inside[i - 1].path);
      } else {
        FirstHasParent(parent, name, v);
      }
    }
  }

  lemma BehindFolder<D>(parent: bytes, name: bytes, v: Visit<D>, seen: seq<Visit<D>>, p: bytes)
    requires Components(v.path) == Components(parent) + [name] && v.kind.Folder?
    requires HasParent(v.path, seen, p)
    ensures HasParent(parent, [v] + seen, p)
  {
    hide Components;
    assert v in [v] + seen;
    assert forall x :: x in seen ==> x in [v] + seen;
  }

  lemma FirstHasParent<D>(parent: bytes, name: bytes, v: Visit<D>)
    requires Components(v.path) == Components(parent) + [name]
    ensures HasParent(parent, [v][..0], v.path)
  {
    hide Components;
  }

  lemma LeafParentFirst<D>(parent: bytes, name: bytes, v: Visit<D>)
    requires IsSafe(name) && v.path == ChildPath(parent, name)
    ensures ParentsFirst(parent, [v])
  {
    hide IsSafe;
    ChildComponents(parent, name);
  }

  lemma {:induction false} ChildrenParentsFirst<D>(children: D -> Option<seq<Child<D>>>, cs: seq<Child<D>>,
                                                   parent: bytes, depth: nat)
    requires depth <= MAX_DIR_DEPTH
    requires ChildrenVisits(children, cs, parent, depth).Some?
    ensures ParentsFirst(parent, ChildrenVisits(children, cs, parent, depth).value)
    decreases MAX_DIR_DEPTH + 1 - depth, |cs|
  {
    hide IsSafe, ChildrenVisits, ChildVisits, DirVisits, HasParent, ChildPath;
    if cs == [] {
      NoChildren(children, parent, depth);
    } else {
      var c := cs[0];
      var path := ChildPath(parent, c.name);
      ChildrenUnfold(children, cs, parent, depth);
      ChildUnfold(children, c, parent, depth);
      ChildrenParentsFirst(children, cs[1..], parent, depth);
      if c.kind.Folder? {
        var inner := children(c.kind.dir).value;
        ChildrenParentsFirst(children, inner, path, depth + 1);
        FolderParentsFirst(parent, c.name, Visit(path, c.kind), ChildrenVisits(children, inner, path, depth + 1).value);
      } else {
        LeafParentFirst(parent, c.name, Visit(path, c.kind));
      }
      ParentsFirstAppend(parent, ChildVisits(children, c, parent, depth).value,
                         ChildrenVisits(children, cs[1..], parent, depth).value);
    }
  }

  ghost predicate DistinctNames<D>(cs: seq<Child<D>>) {
    forall i, j :: 0 <= i < j < |cs| ==> cs[i].name != cs[j].name
  }

  ghost predicate DistinctPaths<D>(vs: seq<Visit<D>>) {
    forall i, j :: 0 <= i < j < |vs| ==> vs[i].path != vs[j].path
  }

  ghost predicate StaysIn<D>(cs: seq<Child<D>>, good: iset<D>) {
    forall i :: 0 <= i < |cs| && cs[i].kind.Folder? ==> cs[i].kind.dir in good
  }

  /** Names are unique in these directories, and they lead only to each other. */
  ghost predicate NamesUniqueIn<D(!new)>(children: D -> Option<seq<Child<D>>>, good: iset<D>) {
    forall d :: d in good && children(d).Some? ==> DistinctNames(children(d).value) && StaysIn(children(d).value, good)
  }

  lemma {:induction false} ChildrenPathsDistinct<D(!new)>(children: D -> Option<seq<Child<D>>>, good: iset<D>,
                                                          cs: seq<Child<D>>, parent: bytes, depth: nat)
    requires depth <= MAX_DIR_DEPTH
    requires PathIsSafe(parent)
    requires DistinctNames(cs) && StaysIn(cs, good)
    requires NamesUniqueIn(children, good)
    requires ChildrenVisits(children, cs, parent, depth).Some?
    ensures DistinctPaths(ChildrenVisits(children, cs, parent, depth).value)
    decreases MAX_DIR_DEPTH + 1 - depth, |cs|
  {
    hide Components, IsSafe;
    if cs == [] {
    } else {
      var c := cs[0];
      var first := ChildVisits(children, c, parent, depth).value;
      var rest := ChildrenVisits(children, cs[1..], parent, depth).value;
      ChildrenPathsDistinct(children, good, cs[1..], parent, depth);
      ChildrenStayBelow(children, [c], parent, depth);
      assert ChildrenVisits(children, [c], parent, depth).value == first + [];
      assert Names([c]) == {c.name};
      ChildrenStayBelow(children, cs[1..], parent, depth);
      assert c.name !in Names(cs[1..]);
      assert DistinctPaths(first) by {
        ChildPathsDistinct(children, good, c, parent, depth);
      }
      forall i, j | 0 <= i < |first| && 0 <= j < |rest|
        ensures first[i].path != rest[j].path
      {
        assert first[i] in first + [] && rest[j] in rest;
      }
    }
  }

  lemma {:induction false} ChildPathsDistinct<D(!new)>(children: D -> Option<seq<Child<D>>>, good: iset<D>, c: Child<D>,
                                                       parent: bytes, depth: nat)
    requires depth <= MAX_DIR_DEPTH
    requires PathIsSafe(parent)
    requires NamesUniqueIn(children, good) && (c.kind.Folder? ==> c.kind.dir in good)
    requires ChildVisits(children, c, parent, depth).Some?
    ensures DistinctPaths(ChildVisits(children, c, parent, depth).value)
    decreases MAX_DIR_DEPTH + 1 - depth, 0
  {
    hide Components, IsSafe;
    if c.kind.Folder? {
      var path := ChildPath(parent, c.name);
      ChildComponents(parent, c.name);
      var inner := children(c.kind.dir).value;
      var inside := DirVisits(children, c.kind.dir, path, depth + 1).value;
      ChildrenPathsDistinct(children, good, inner, path, depth + 1);
      ChildrenStayBelow(children, inner, path, depth + 1);
      forall j | 0 <= j < |inside| ensures inside[j].path != path {
        assert inside[j] in inside;
      }
    }
  }

  /** Where names are unique in every directory it can reach, no walk emits a path twice, and parents come first. */
  lemma WalkIsATree<D(!new)>(children: D -> Option<seq<Child<D>>>, good: iset<D>, root: D)
    requires NamesUniqueIn(children, good) && root in good
    requires DirVisits(children, root, [], 0).Some?
    ensures var vs := DirVisits(children, root, [], 0).value; DistinctPaths(vs) && ParentsFirst([], vs)
  {
    RootPathIsSafe();
    ChildrenPathsDistinct(children, good, children(root).value, [], 0);
    WalkHasParentsFirst(children, root);
  }

  /** In any walk each directory comes before what it holds. */
  lemma WalkHasParentsFirst<D>(children: D -> Option<seq<Child<D>>>, root: D)
    requires DirVisits(children, root, [], 0).Some?
    ensures ParentsFirst([], DirVisits(children, root, [], 0).value)
  {
    ChildrenParentsFirst(children, children(root).value, [], 0);
  }

  // ----- what a walk visits -----

  /** Following `names` from child `c`, directory by directory, leads to something of this kind. */
  ghost predicate LeadsTo<D(!new)>(children: D -> Option<seq<Child<D>>>, c: Child<D>, names: seq<bytes>, kind: Kind<D>)
    decreases |names|, 0
  {
    && names != [] && names[0] == c.name
    && if |names| == 1 then c.kind == kind
       else
         && c.kind.Folder? && children(c.kind.dir).Some?
         && LeadsInto(children, children(c.kind.dir).value, names[1..], kind)
  }

  ghost predicate LeadsInto<D(!new)>(children: D -> Option<seq<Child<D>>>, cs: seq<Child<D>>, names: seq<bytes>,
                                     kind: Kind<D>)
    decreases |names|, 1
  {
    exists i :: 0 <= i < |cs| && LeadsTo(children, cs[i], names, kind)
  }

  ghost predicate Visits<D>(vs: seq<Visit<D>>, parent: bytes, names: seq<bytes>, kind: Kind<D>) {
    exists i :: 0 <= i < |vs| && vs[i].kind == kind && Components(vs[i].path) == Components(parent) + names
  }

  lemma VisitsAppend<D>(a: seq<Visit<D>>, b: seq<Visit<D>>, parent: bytes, names: seq<bytes>, kind: Kind<D>)
    ensures Visits(a + b, parent, names, kind) <==> Visits(a, parent, names, kind) || Visits(b, parent, names, kind)
  {
    hide Components;
    var vs := a + b;
    if Visits(a, parent, names, kind) {
      var i :| 0 <= i < |a| && a[i].kind == kind && Components(a[i].path) == Components(parent) + names;
      assert vs[i] == a[i];
    }
    if Visits(b, parent, names, kind) {
      var i :| 0 <= i < |b| && b[i].kind == kind && Components(b[i].path) == Components(parent) + names;
      assert vs[|a| + i] == b[i];
    }
  }

  lemma OneVisit<D>(v: Visit<D>, parent: bytes, name: bytes, names: seq<bytes>, kind: Kind<D>)
    requires IsSafe(name) && v.path == ChildPath(parent, name)
    ensures Visits([v], parent, names, kind) <==> names == [name] && v.kind == kind
  {
    hide IsSafe;
    ChildComponents(parent, name);
    hide Components, ChildPath;
    var c := Components(parent);
    if Components(v.path) == c + names {
      assert (c + names)[|c|..] == names && (c + [name])[|c|..] == [name];
    }
    assert [v][0] == v;
  }

  /** What is below a child's path is what is below the child, one name further on. */
  lemma VisitsInside<D>(vs: seq<Visit<D>>, parent: bytes, name: bytes, names: seq<bytes>, kind: Kind<D>)
    requires IsSafe(name)
    requires forall i :: 0 <= i < |vs| ==> Components(ChildPath(parent, name)) < Components(vs[i].path)
    ensures Visits(vs, parent, names, kind) <==>
            |names| > 1 && names[0] == name && Visits(vs, ChildPath(parent, name), names[1..], kind)
  {
    hide IsSafe;
    ChildComponents(parent, name);
    hide Components, ChildPath;
    var c, d := Components(parent), Components(ChildPath(parent, name));
    if Visits(vs, parent, names, kind) {
      var i :| 0 <= i < |vs| && vs[i].kind == kind && Components(vs[i].path) == c + names;
      assert (c + names)[..|d|] == d && |c + names| > |d|;
      assert names[0] == (c + names)[|c|] == d[|c|] == name;
      assert c + names == d + names[1..];
    }
    if |names| > 1 && names[0] == name {
      assert c + names == d + names[1..];
    }
  }

  lemma AllBelow<D>(children: D -> Option<seq<Child<D>>>, cs: seq<Child<D>>, parent: bytes, depth: nat)
    requires depth <= MAX_DIR_DEPTH && PathIsSafe(parent) && ChildrenVisits(children, cs, parent, depth).Some?
    ensures var vs := ChildrenVisits(children, cs, parent, depth).value;
            forall i :: 0 <= i < |vs| ==> Components(parent) < Components(vs[i].path)
  {
    hide PathIsSafe, Components, ChildrenVisits;
    ChildrenStayBelow(children, cs, parent, depth);
    var vs := ChildrenVisits(children, cs, parent, depth).value;
    forall i | 0 <= i < |vs| ensures Components(parent) < Components(vs[i].path) {
      assert vs[i] in vs;
    }
  }

  /** A walk visits exactly what its directories lead to. */
  lemma {:induction false} VisitsAreExact<D(!new)>(children: D -> Option<seq<Child<D>>>, cs: seq<Child<D>>,
                                                   parent: bytes,
                                                   depth: nat, names: seq<bytes>, kind: Kind<D>)
    requires depth <= MAX_DIR_DEPTH && PathIsSafe(parent) && ChildrenVisits(children, cs, parent, depth).Some?
    ensures Visits(ChildrenVisits(children, cs, parent, depth).value, parent, names, kind) <==>
            LeadsInto(children, cs, names, kind)
    decreases MAX_DIR_DEPTH + 1 - depth, |cs|, 1
  {
    hide ChildrenVisits, ChildVisits, Visits, PathIsSafe, LeadsTo;
    if cs == [] {
      NoChildren(children, parent, depth);
      NothingVisits<D>(parent, names, kind);
    } else {
      ChildrenUnfold(children, cs, parent, depth);
      VisitsAppend(ChildVisits(children, cs[0], parent, depth).value,
                   ChildrenVisits(children, cs[1..], parent, depth).value,
                   parent, names, kind);
      VisitsAreExact(children, cs[1..], parent, depth, names, kind);
      ChildVisitsAreExact(children, cs[0], parent, depth, names, kind, |cs|);
      LeadsIntoCons(children, cs, names, kind);
    }
  }

  lemma NothingVisits<D>(parent: bytes, names: seq<bytes>, kind: Kind<D>)
    ensures !Visits([], parent, names, kind)
  {
  }

  lemma LeadsIntoCons<D(!new)>(children: D -> Option<seq<Child<D>>>, cs: seq<Child<D>>, names: seq<bytes>,
                               kind: Kind<D>)
    requires cs != []
    ensures LeadsInto(children, cs, names, kind) <==>
            LeadsTo(children, cs[0], names, kind) || LeadsInto(children, cs[1..], names, kind)
  {
    hide LeadsTo;
    if LeadsInto(children, cs[1..], names, kind) {
      var i :| 0 <= i < |cs[1..]| && LeadsTo(children, cs[1..][i], names, kind);
      assert cs[i + 1] == cs[1..][i];
    }
    if LeadsInto(children, cs, names, kind) {
      var i :| 0 <= i < |cs| && LeadsTo(children, cs[i], names, kind);
      assert i > 0 ==> cs[1..][i - 1] == cs[i];
    }
  }

  lemma {:induction false} ChildVisitsAreExact<D(!new)>(children: D -> Option<seq<Child<D>>>, c: Child<D>,
                                                        parent: bytes,
                                                        depth: nat, names: seq<bytes>, kind: Kind<D>, n: nat)
    requires depth <= MAX_DIR_DEPTH && PathIsSafe(parent) && ChildVisits(children, c, parent, depth).Some?
    ensures Visits(ChildVisits(children, c, parent, depth).value, parent, names, kind) <==>
            LeadsTo(children, c, names, kind)
    decreases MAX_DIR_DEPTH + 1 - depth, n, 0
  {
    hide ChildrenVisits, ChildVisits, Visits, PathIsSafe, LeadsInto, IsSafe, ChildPath, Components;
    var path := ChildPath(parent, c.name);
    ChildUnfold(children, c, parent, depth);
    OneVisit(Visit(path, c.kind), parent, c.name, names, kind);
    if c.kind.Folder? {
      var inner := children(c.kind.dir).value;
      var inside := ChildrenVisits(children, inner, path, depth + 1).value;
      SafeChildPath(parent, c.name);
      AllBelow(children, inner, path, depth + 1);
      VisitsAppend([Visit(path, c.kind)], inside, parent, names, kind);
      VisitsInside(inside, parent, c.name, names, kind);
      if |names| > 1 {
        VisitsAreExact(children, inner, path, depth + 1, names[1..], kind);
      }
    }
    assert |names| == 1 ==> names == [names[0]];
  }

  /** From the root: a path is visited, as something of some kind, exactly when its components lead there. */
  lemma WalkVisitsExactly<D(!new)>(children: D -> Option<seq<Child<D>>>, root: D, path: bytes, kind: Kind<D>)
    requires DirVisits(children, root, [], 0).Some?
    ensures Visit(path, kind) in DirVisits(children, root, [], 0).value <==>
            LeadsInto(children, children(root).value, Components(path), kind)
  {
    hide ChildrenVisits, LeadsInto, Components;
    var vs := DirVisits(children, root, [], 0).value;
    RootPathIsSafe();
    VisitsAreExact(children, children(root).value, [], 0, Components(path), kind);
    assert [] + Components(path) == Components(path);
    if Visits(vs, [], Components(path), kind) {
      var i :| 0 <= i < |vs| && vs[i].kind == kind && Components(vs[i].path) == Components([]) + Components(path);
      ComponentsInjective(vs[i].path, path);
      assert vs[i] == Visit(path, kind);
    }
  }

  lemma RootPathIsSafe()
    ensures PathIsSafe([]) && Components([]) == []
  {
  }

  // ----- listing against extracting -----

  ghost predicate SameShape<D>(a: seq<Child<D>>, b: seq<Child<D>>) {
    && |a| == |b|
    && forall i :: 0 <= i < |a| ==>
         && a[i].name == b[i].name
         && (a[i].kind.Folder? <==> b[i].kind.Folder?)
         && (if a[i].kind.Folder? then a[i].kind == b[i].kind
             else !b[i].kind.Folder? && a[i].kind.size == b[i].kind.size)
  }

  lemma {:induction false} ShapeDecidesEntries<D(!new)>(a: D -> Option<seq<Child<D>>>, b: D -> Option<seq<Child<D>>>,
                                                        ca: seq<Child<D>>, cb: seq<Child<D>>, parent: bytes, depth: nat)
    requires depth <= MAX_DIR_DEPTH
    requires SameShape(ca, cb)
    requires forall d :: a(d).Some? ==> b(d).Some? && SameShape(a(d).value, b(d).value)
    requires ChildrenVisits(a, ca, parent, depth).Some?
    ensures ChildrenVisits(b, cb, parent, depth).Some?
    ensures Entries(ChildrenVisits(a, ca, parent, depth).value) == Entries(ChildrenVisits(b, cb, parent, depth).value)
    decreases MAX_DIR_DEPTH + 1 - depth, |ca|, 1
  {
    if ca == [] {
    } else {
      ShapeDecidesEntries(a, b, ca[1..], cb[1..], parent, depth);
      ShapeDecidesChildEntries(a, b, ca[0], cb[0], parent, depth, |ca|);
      EntriesAppend(ChildVisits(a, ca[0], parent, depth).value, ChildrenVisits(a, ca[1..], parent, depth).value);
      EntriesAppend(ChildVisits(b, cb[0], parent, depth).value, ChildrenVisits(b, cb[1..], parent, depth).value);
    }
  }

  lemma {:induction false} ShapeDecidesChildEntries<D(!new)>(a: D -> Option<seq<Child<D>>>,
                                                             b: D -> Option<seq<Child<D>>>,
                                                             ca: Child<D>, cb: Child<D>, parent: bytes, depth: nat,
                                                               n: nat)
    requires depth <= MAX_DIR_DEPTH
    requires SameShape([ca], [cb])
    requires forall d :: a(d).Some? ==> b(d).Some? && SameShape(a(d).value, b(d).value)
    requires ChildVisits(a, ca, parent, depth).Some?
    ensures ChildVisits(b, cb, parent, depth).Some?
    ensures Entries(ChildVisits(a, ca, parent, depth).value) == Entries(ChildVisits(b, cb, parent, depth).value)
    decreases MAX_DIR_DEPTH + 1 - depth, n, 0
  {
    assert [ca][0].name == [cb][0].name;
    if ca.kind.Folder? {
      var path, d := ChildPath(parent, ca.name), ca.kind.dir;
      var va := DirVisits(a, d, path, depth + 1);
      ShapeDecidesEntries(a, b, a(d).value, b(d).value, path, depth + 1);
      var vb := DirVisits(b, d, path, depth + 1);
      EntriesAppend([Visit(path, ca.kind)], va.value);
      EntriesAppend([Visit(path, cb.kind)], vb.value);
    }
  }

  /** A walk only depends on what each directory holds. */
  lemma {:induction false} SameChildrenSameVisits<D(!new)>(a: D -> Option<seq<Child<D>>>, b: D -> Option<seq<Child<D>>>,
                                                           cs: seq<Child<D>>, parent: bytes, depth: nat)
    requires depth <= MAX_DIR_DEPTH
    requires forall d :: a(d) == b(d)
    ensures ChildrenVisits(a, cs, parent, depth) == ChildrenVisits(b, cs, parent, depth)
    decreases MAX_DIR_DEPTH + 1 - depth, |cs|
  {
    if cs == [] {
    } else {
      var c := cs[0];
      if c.kind.Folder? && depth < MAX_DIR_DEPTH && a(c.kind.dir).Some? {
        SameChildrenSameVisits(a, b, a(c.kind.dir).value, ChildPath(parent, c.name), depth + 1);
      }
      if c.kind.Folder? {
        var path := ChildPath(parent, c.name);
        assert DirVisits(a, c.kind.dir, path, depth + 1) == DirVisits(b, c.kind.dir, path, depth + 1);
      }
      assert ChildVisits(a, c, parent, depth) == ChildVisits(b, c, parent, depth);
      SameChildrenSameVisits(a, b, cs[1..], parent, depth);
    }
  }

  lemma SameChildrenSameWalk<D(!new)>(a: D -> Option<seq<Child<D>>>, b: D -> Option<seq<Child<D>>>, root: D)
    requires forall d :: a(d) == b(d)
    ensures DirVisits(a, root, [], 0) == DirVisits(b, root, [], 0)
  {
    if a(root).Some? {
      SameChildrenSameVisits(a, b, a(root).value, [], 0);
    }
  }

  lemma EntriesAppend<D>(a: seq<Visit<D>>, b: seq<Visit<D>>)
    ensures Entries(a + b) == Entries(a) + Entries(b)
  {
  }

  /** If extracting through `a` succeeds and `b` has the same shape, listing through `b` gives the same entries. */
  lemma ListingAgrees<D(!new)>(a: D -> Option<seq<Child<D>>>, b: D -> Option<seq<Child<D>>>, root: D,
                               sink: Sink, tree: Tree)
    requires forall d :: a(d).Some? ==> b(d).Some? && SameShape(a(d).value, b(d).value)
    requires Run(sink, State([], tree), DirVisits(a, root, [], 0)).Some?
    ensures var extracted := Run(sink, State([], tree), DirVisits(a, root, [], 0)).value;
            var listed := Run(Listing, State([], tree), DirVisits(b, root, [], 0));
            listed == Some(State(extracted.entries, tree))
  {
    ShapeDecidesEntries(a, b, a(root).value, b(root).value, [], 0);
    ListingLeavesTree(tree, DirVisits(b, root, [], 0).value);
  }

  lemma {:induction false} ListingLeavesTree<D>(tree: Tree, vs: seq<Visit<D>>)
    ensures ApplyAll(Listing, tree, vs) == Some(tree)
  {
    if vs == [] {
    } else {
      ListingLeavesTree(tree, vs[1..]);
    }
  }

  // ----- what extraction leaves on disk -----

  /** The tree holds the visited directories and regular files, each with its content, and nothing else. */
  ghost predicate Mirrors<D>(tree: Tree, vs: seq<Visit<D>>) {
    && (forall i :: 0 <= i < |vs| && !vs[i].kind.Special? ==>
          && vs[i].path in tree
          && tree[vs[i].path] == (if vs[i].kind.Regular? && vs[i].kind.content.Some?
                                  then File(vs[i].kind.content.value) else Directory))
    && (forall p :: p in tree ==> exists i :: 0 <= i < |vs| && !vs[i].kind.Special? && vs[i].path == p)
  }

  /** Nothing about this visit alone stops its extraction. */
  ghost predicate Extractable<D>(sink: Sink, v: Visit<D>)
    requires sink.Extracting?
  {
    && DiskPathFits(sink, v.path)
    && (!v.kind.Special? ==> sink.host(v.path))
    && (v.kind.Regular? ==> v.kind.content.Some?)
  }

  ghost predicate AllExtractable<D>(sink: Sink, vs: seq<Visit<D>>)
    requires sink.Extracting?
  {
    forall i :: 0 <= i < |vs| ==> Extractable(sink, vs[i])
  }

  lemma AllExtractableSnoc<D>(sink: Sink, seen: seq<Visit<D>>, v: Visit<D>)
    requires sink.Extracting?
    ensures AllExtractable(sink, seen + [v]) <==> AllExtractable(sink, seen) && Extractable(sink, v)
  {
    var all := seen + [v];
    assert all[|seen|] == v;
    assert forall i :: 0 <= i < |seen| ==> all[i] == seen[i];
  }

  lemma ApplyAllSnoc<D>(sink: Sink, tree: Tree, seen: seq<Visit<D>>, v: Visit<D>)
    ensures ApplyAll(sink, tree, seen + [v]) ==
            (var t := ApplyAll(sink, tree, seen); if t.None? then None else Apply(sink, t.value, v))
  {
    ApplyAllAppend(sink, tree, seen, [v]);
    assert [v][1..] == [];
  }

  lemma ApplyMirrors<D>(sink: Sink, tree: Tree, seen: seq<Visit<D>>, v: Visit<D>)
    requires sink.Extracting?
    requires Mirrors(tree, seen) && ParentExists(tree, v.path)
    requires forall i :: 0 <= i < |seen| ==> seen[i].path != v.path
    ensures Apply(sink, tree, v).Some? <==> Extractable(sink, v)
    ensures Apply(sink, tree, v).Some? ==> Mirrors(Apply(sink, tree, v).value, seen + [v])
  {
    hide Components, IsSafe;
    assert v.path !in tree;
    var all := seen + [v];
    if Apply(sink, tree, v).Some? {
      var after := Apply(sink, tree, v).value;
      forall p | p in after
        ensures exists i :: 0 <= i < |all| && !all[i].kind.Special? && all[i].path == p
      {
        if p in tree {
          var i :| 0 <= i < |seen| && !seen[i].kind.Special? && seen[i].path == p;
          assert all[i] == seen[i];
        } else {
          assert all[|seen|] == v;
        }
      }
    }
  }

  lemma ParentIsOnDisk<D>(tree: Tree, seen: seq<Visit<D>>, path: bytes)
    requires HasParent([], seen, path)
    requires Mirrors(tree, seen)
    ensures ParentExists(tree, path)
  {
    var c := Components(path);
    if c[..|c| - 1] != [] {
      var v :| v in seen && v.kind.Folder? && Components(v.path) == c[..|c| - 1];
      assert v.path in tree && tree[v.path].Directory?;
    }
  }

  lemma DropLastVisit<D>(vs: seq<Visit<D>>)
    requires vs != [] && DistinctPaths(vs) && ParentsFirst([], vs)
    ensures var seen, v := vs[..|vs| - 1], vs[|vs| - 1];
            && vs == seen + [v]
            && DistinctPaths(seen) && ParentsFirst([], seen)
            && HasParent([], seen, v.path)
            && forall i :: 0 <= i < |seen| ==> seen[i].path != v.path
  {
    hide HasParent;
    var n := |vs| - 1;
    var seen := vs[..n];
    assert forall i :: 0 <= i < n ==> seen[i] == vs[i];
    forall i | 0 <= i < n ensures HasParent([], seen[..i], seen[i].path) {
      assert HasParent([], vs[..i], vs[i].path);
      assert seen[..i] == vs[..i];
    }
    assert HasParent([], vs[..n], vs[n].path);
  }

  /** Extracting a walk with distinct paths into an empty directory succeeds exactly when every visit is
      extractable by itself, and what it leaves is an exact mirror of the image. */
  lemma {:induction false} ExtractionMirrors<D>(sink: Sink, vs: seq<Visit<D>>)
    requires sink.Extracting?
    requires DistinctPaths(vs) && ParentsFirst([], vs)
    ensures ApplyAll(sink, map[], vs).Some? <==> AllExtractable(sink, vs)
    ensures ApplyAll(sink, map[], vs).Some? ==> Mirrors(ApplyAll(sink, map[], vs).value, vs)
  {
    if vs == [] {
    } else {
      DropLastVisit(vs);
      var seen, v := vs[..|vs| - 1], vs[|vs| - 1];
      ExtractionMirrors(sink, seen);
      ApplyAllSnoc(sink, map[], seen, v);
      AllExtractableSnoc(sink, seen, v);
      var before := ApplyAll(sink, map[], seen);
      if before.Some? {
        ParentIsOnDisk(before.value, seen, v.path);
        ApplyMirrors(sink, before.value, seen, v);
      }
    }
  }

  /** What a visit leaves on disk, unless it is special. */
  function NodeOf<D>(v: Visit<D>): OutNode {
    if v.kind.Regular? && v.kind.content.Some? then File(v.kind.content.value) else Directory
  }

  /** The last visit that leaves something at `p`. */
  function LastAt<D>(vs: seq<Visit<D>>, p: bytes): Option<Visit<D>> {
    if vs == [] then None
    else
      var v := vs[|vs| - 1];
      if v.path == p && !v.kind.Special? then Some(v) else LastAt(vs[..|vs| - 1], p)
  }

  lemma ApplyChangesOnePath<D>(sink: Sink, tree: Tree, v: Visit<D>, p: bytes)
    requires sink.Extracting? && Apply(sink, tree, v).Some?
    ensures var after := Apply(sink, tree, v).value;
            if v.path == p && !v.kind.Special? then p in after && after[p] == NodeOf(v)
            else (p in after <==> p in tree) && (p in tree ==> after[p] == tree[p])
  {
    hide Components;
  }

  /** A successful extraction, repeated names or not: at every path is what its last visit wrote, and elsewhere
      what was there before. */
  lemma {:induction false} LastVisitWins<D>(sink: Sink, tree: Tree, vs: seq<Visit<D>>, p: bytes)
    requires sink.Extracting? && ApplyAll(sink, tree, vs).Some?
    ensures var after := ApplyAll(sink, tree, vs).value;
            match LastAt(vs, p)
            case None => (p in after <==> p in tree) && (p in tree ==> after[p] == tree[p])
            case Some(v) => p in after && after[p] == NodeOf(v)
    decreases |vs|
  {
    hide Apply, NodeOf;
    if vs == [] {
    } else {
      var seen, v := vs[..|vs| - 1], vs[|vs| - 1];
      assert vs == seen + [v];
      ApplyAllSnoc(sink, tree, seen, v);
      LastVisitWins(sink, tree, seen, p);
      ApplyChangesOnePath(sink, ApplyAll(sink, tree, seen).value, v, p);
    }
  }

  lemma {:induction false} LastAtIsVisited<D>(vs: seq<Visit<D>>, p: bytes)
    ensures LastAt(vs, p).Some? ==> LastAt(vs, p).value in vs && LastAt(vs, p).value.path == p
    ensures LastAt(vs, p).None? ==> forall v :: v in vs && v.path == p ==> v.kind.Special?
  {
    if vs == [] {
    } else {
      LastAtIsVisited(vs[..|vs| - 1], p);
      assert forall v :: v in vs <==> v in vs[..|vs| - 1] || v == vs[|vs| - 1];
    }
  }

  // ----- extracting over what was left behind -----

  /** An earlier visit made `path` a directory, or wrote a file there. */
  predicate Made<D>(seen: seq<Visit<D>>, path: bytes, folder: bool) {
    exists i :: 0 <= i < |seen| && seen[i].path == path &&
      (if folder then seen[i].kind.Folder? else seen[i].kind.Regular?)
  }

  /** Nothing stops the visit after the visits `seen`, on a tree that began as `tree`. */
  ghost predicate FitsAfter<D>(sink: Sink, tree: Tree, seen: seq<Visit<D>>, v: Visit<D>)
    requires sink.Extracting?
  {
    && DiskPathFits(sink, v.path)
    && match v.kind
       case Folder(_) =>
         && (v.path in tree ==> tree[v.path].Directory?) && !Made(seen, v.path, false)
         && (v.path in tree || Made(seen, v.path, true) || sink.host(v.path))
       case Regular(_, content) =>
         && (v.path in tree ==> tree[v.path].File?) && !Made(seen, v.path, true)
         && content.Some? && sink.host(v.path)
       case Special(_) => true
  }

  ghost predicate FitsOver<D>(sink: Sink, tree: Tree, vs: seq<Visit<D>>)
    requires sink.Extracting?
  {
    forall i :: 0 <= i < |vs| ==> FitsAfter(sink, tree, vs[..i], vs[i])
  }

  /** What is at `p` after the visits `seen`: something if it was there or was made, and a directory or a file as before
      or as it was made. */
  ghost predicate StandsAt<D>(tree: Tree, seen: seq<Visit<D>>, after: Tree, p: bytes) {
    && (p in after <==> p in tree || Made(seen, p, true) || Made(seen, p, false))
    && (p in tree ==> (after[p].Directory? <==> tree[p].Directory?))
    && (Made(seen, p, true) ==> after[p].Directory?)
    && (Made(seen, p, false) ==> after[p].File?)
  }

  lemma MadeSnoc<D>(seen: seq<Visit<D>>, v: Visit<D>, p: bytes, folder: bool)
    ensures Made(seen + [v], p, folder) <==>
            Made(seen, p, folder) || (v.path == p && if folder then v.kind.Folder? else v.kind.Regular?)
  {
    var all := seen + [v];
    assert all[|seen|] == v && forall i :: 0 <= i < |seen| ==> all[i] == seen[i];
  }

  lemma FitsOverSnoc<D>(sink: Sink, tree: Tree, seen: seq<Visit<D>>, v: Visit<D>)
    requires sink.Extracting?
    ensures FitsOver(sink, tree, seen + [v]) <==> FitsOver(sink, tree, seen) && FitsAfter(sink, tree, seen, v)
  {
    hide FitsAfter;
    var all := seen + [v];
    assert all[|seen|] == v && all[..|seen|] == seen;
    assert forall i :: 0 <= i < |seen| ==> all[i] == seen[i] && all[..i] == seen[..i];
  }

  lemma OneMoreStands<D>(sink: Sink, tree: Tree, seen: seq<Visit<D>>, before: Tree, v: Visit<D>)
    requires sink.Extracting? && ParentExists(before, v.path)
    requires forall p :: StandsAt(tree, seen, before, p)
    ensures Apply(sink, before, v).Some? <==> FitsAfter(sink, tree, seen, v)
    ensures Apply(sink, before, v).Some? ==> forall p :: StandsAt(tree, seen + [v], Apply(sink, before, v).value, p)
  {
    hide ParentExists, Made;
    assert StandsAt(tree, seen, before, v.path);
    if Apply(sink, before, v).Some? {
      forall p ensures StandsAt(tree, seen + [v], Apply(sink, before, v).value, p) {
        assert StandsAt(tree, seen, before, p);
        MadeSnoc(seen, v, p, true);
        MadeSnoc(seen, v, p, false);
      }
    }
  }

  lemma ParentsStand<D>(tree: Tree, seen: seq<Visit<D>>, before: Tree, path: bytes)
    requires HasParent([], seen, path) && forall p :: StandsAt(tree, seen, before, p)
    ensures ParentExists(before, path)
  {
    var c := Components(path);
    if c[..|c| - 1] != [] {
      var v :| v in seen && v.kind.Folder? && Components(v.path) == c[..|c| - 1];
      assert Made(seen, v.path, true);
      assert StandsAt(tree, seen, before, v.path);
    }
  }

  lemma DropLast<D>(vs: seq<Visit<D>>)
    requires vs != [] && ParentsFirst([], vs)
    ensures var seen, v := vs[..|vs| - 1], vs[|vs| - 1];
            vs == seen + [v] && ParentsFirst([], seen) && HasParent([], seen, v.path)
  {
    hide HasParent;
    var n := |vs| - 1;
    var seen := vs[..n];
    forall i | 0 <= i < n ensures HasParent([], seen[..i], seen[i].path) {
      assert HasParent([], vs[..i], vs[i].path);
      assert seen[..i] == vs[..i];
    }
    assert HasParent([], vs[..n], vs[n].path);
  }

  /** Whatever is there when extraction starts, it succeeds exactly when nothing stops any single visit: a directory
      where a file is to be, or the other way round; the host; a path that is too long; a file that cannot be
      rebuilt. */
  lemma {:induction false} ExtractsOverIff<D>(sink: Sink, tree: Tree, vs: seq<Visit<D>>)
    requires sink.Extracting? && ParentsFirst([], vs)
    ensures ApplyAll(sink, tree, vs).Some? <==> FitsOver(sink, tree, vs)
    ensures ApplyAll(sink, tree, vs).Some? ==> forall p :: StandsAt(tree, vs, ApplyAll(sink, tree, vs).value, p)
    decreases |vs|
  {
    hide FitsAfter, Apply, HasParent, ParentExists;
    if vs == [] {
    } else {
      DropLast(vs);
      var seen, v := vs[..|vs| - 1], vs[|vs| - 1];
      ExtractsOverIff(sink, tree, seen);
      ApplyAllSnoc(sink, tree, seen, v);
      FitsOverSnoc(sink, tree, seen, v);
      var before := ApplyAll(sink, tree, seen);
      if before.Some? {
        ParentsStand(tree, seen, before.value, v.path);
        OneMoreStands(sink, tree, seen, before.value, v);
      }
    }
  }

  /** A successful extraction leaves only what its visits wrote exactly when they wrote over all that was there. */
  lemma NothingStaleIff<D>(sink: Sink, tree: Tree, vs: seq<Visit<D>>)
    requires sink.Extracting? && ApplyAll(sink, tree, vs).Some?
    ensures (forall p :: p in ApplyAll(sink, tree, vs).value ==> LastAt(vs, p).Some?) <==>
            (forall p :: p in tree ==> LastAt(vs, p).Some?)
  {
    hide LastAt, ApplyAll, NodeOf;
    forall p ensures p in ApplyAll(sink, tree, vs).value <==> p in tree || LastAt(vs, p).Some? {
      LastVisitWins(sink, tree, vs, p);
    }
  }

  lemma BothSucceed<D>(sink: Sink, tree: Tree, vs: seq<Visit<D>>)
    requires sink.Extracting? && ApplyAll(sink, tree, vs).Some? && ApplyAll(sink, map[], vs).Some?
    ensures ApplyAll(sink, tree, vs) == ApplyAll(sink, map[], vs) <==> forall p :: p in tree ==> LastAt(vs, p).Some?
  {
    hide LastAt, ApplyAll, NodeOf;
    var dirty, clean := ApplyAll(sink, tree, vs).value, ApplyAll(sink, map[], vs).value;
    forall p ensures (p in dirty <==> p in clean || (p in tree && LastAt(vs, p).None?))
             ensures p in dirty && p in clean ==> dirty[p] == clean[p]
             ensures p in clean <==> LastAt(vs, p).Some?
    {
      LastVisitWins(sink, tree, vs, p);
      LastVisitWins(sink, map[], vs, p);
    }
    if dirty == clean {
      forall p | p in tree ensures LastAt(vs, p).Some? {
        assert p in dirty ==> p in clean;
      }
    }
  }

  /** The walk writes over everything in the tree, directories over directories and files over files. */
  ghost predicate WritesOver<D>(tree: Tree, vs: seq<Visit<D>>) {
    forall p :: p in tree ==> LastAt(vs, p).Some? && (tree[p].Directory? <==> LastAt(vs, p).value.kind.Folder?)
  }

  /** All visits to a path make a directory of it, or all write a file. */
  lemma LastKindIsTheKind<D>(sink: Sink, vs: seq<Visit<D>>, i: nat)
    requires sink.Extracting? && FitsOver(sink, map[], vs) && i < |vs| && !vs[i].kind.Special?
    ensures var last := LastAt(vs, vs[i].path); last.Some? && (last.value.kind.Folder? <==> vs[i].kind.Folder?)
  {
    hide LastAt, DiskPathFits;
    var p := vs[i].path;
    LastAtIsVisited(vs, p);
    assert vs[i] in vs;
    var last := LastAt(vs, p).value;
    LastAtIsSomething(vs, p);
    var k :| 0 <= k < |vs| && vs[k] == last;
    assert FitsAfter(sink, map[], vs[..i], vs[i]) && FitsAfter(sink, map[], vs[..k], vs[k]);
    if k < i {
      assert vs[..i][k] == last;
    } else if i < k {
      assert vs[..k][i] == vs[i];
    }
  }

  lemma {:induction false} LastAtIsSomething<D>(vs: seq<Visit<D>>, p: bytes)
    ensures LastAt(vs, p).Some? ==> !LastAt(vs, p).value.kind.Special?
  {
    if vs == [] {
    } else {
      LastAtIsSomething(vs[..|vs| - 1], p);
    }
  }

  lemma FitsOverWritten<D>(sink: Sink, tree: Tree, vs: seq<Visit<D>>)
    requires sink.Extracting? && FitsOver(sink, map[], vs) && WritesOver(tree, vs)
    ensures FitsOver(sink, tree, vs)
  {
    hide LastAt, DiskPathFits;
    forall i | 0 <= i < |vs| ensures FitsAfter(sink, tree, vs[..i], vs[i]) {
      hide Made;
      assert FitsAfter(sink, map[], vs[..i], vs[i]);
      if !vs[i].kind.Special? {
        LastKindIsTheKind(sink, vs, i);
      }
    }
  }

  /**
   Extracting over leftovers ends as extracting into an empty directory does, in success and in failure, exactly when:
   the latter succeeds and the walk writes over every leftover, directories over directories and files over files; or
   the latter fails and the leftovers do not help.
   */
  lemma LeftoversMakeNoDifferenceIff<D>(sink: Sink, tree: Tree, vs: seq<Visit<D>>)
    requires sink.Extracting? && ParentsFirst([], vs)
    ensures ApplyAll(sink, tree, vs) == ApplyAll(sink, map[], vs) <==>
            if FitsOver(sink, map[], vs) then WritesOver(tree, vs) else !FitsOver(sink, tree, vs)
  {
    hide ApplyAll, FitsOver, LastAt, ParentsFirst;
    ExtractsOverIff(sink, tree, vs);
    ExtractsOverIff(sink, map[], vs);
    if FitsOver(sink, map[], vs) {
      if FitsOver(sink, tree, vs) {
        BothSucceed(sink, tree, vs);
        if forall p :: p in tree ==> LastAt(vs, p).Some? {
          KindsMustAgree(sink, tree, vs);
        }
      } else if WritesOver(tree, vs) {
        FitsOverWritten(sink, tree, vs);
      }
    }
  }

  lemma KindsMustAgree<D>(sink: Sink, tree: Tree, vs: seq<Visit<D>>)
    requires sink.Extracting? && FitsOver(sink, tree, vs) && forall p :: p in tree ==> LastAt(vs, p).Some?
    ensures WritesOver(tree, vs)
  {
    hide LastAt, DiskPathFits, Made;
    forall p | p in tree ensures tree[p].Directory? <==> LastAt(vs, p).value.kind.Folder? {
      LastAtIsVisited(vs, p);
      LastAtIsSomething(vs, p);
      var k :| 0 <= k < |vs| && vs[k] == LastAt(vs, p).value;
      assert FitsAfter(sink, tree, vs[..k], vs[k]);
    }
  }

  /** Two sinks that treat every path below the output directory alike. */
  ghost predicate AgreeBelow(a: Sink, b: Sink) {
    a.Extracting? && b.Extracting? && a.outputDir == b.outputDir && forall p :: p != [] ==> a.host(p) == b.host(p)
  }

  lemma {:induction false} SinksAgree<D>(a: Sink, b: Sink, tree: Tree, vs: seq<Visit<D>>)
    requires AgreeBelow(a, b) && forall v :: v in vs ==> v.path != []
    ensures ApplyAll(a, tree, vs) == ApplyAll(b, tree, vs)
    decreases |vs|
  {
    hide ParentExists;
    if vs == [] {
    } else {
      assert vs[0] in vs;
      assert Apply(a, tree, vs[0]) == Apply(b, tree, vs[0]);
      if Apply(a, tree, vs[0]).Some? {
        SinksAgree(a, b, Apply(a, tree, vs[0]).value, vs[1..]);
      }
    }
  }

  /** No walk writes outside the output directory, and each path holds what its last visit wrote. */
  lemma ExtractionHoldsItsVisits<D>(children: D -> Option<seq<Child<D>>>, root: D, sink: Sink, p: bytes)
    requires sink.Extracting? && Run(sink, State([], map[]), DirVisits(children, root, [], 0)).Some?
    ensures var tree := Run(sink, State([], map[]), DirVisits(children, root, [], 0)).value.tree;
            var last := LastAt(DirVisits(children, root, [], 0).value, p);
            && (p in tree <==> last.Some?)
            && (p in tree ==> tree[p] == NodeOf(last.value) && PathIsSafe(p) && p != [])
  {
    hide DirVisits, ApplyAll, NodeOf;
    var vs := DirVisits(children, root, [], 0).value;
    LastVisitWins(sink, map[], vs, p);
    LastAtIsVisited(vs, p);
    if LastAt(vs, p).Some? {
      WalkIsContained(children, root, LastAt(vs, p).value);
    }
  }

  // ----- the state a walk updates -----

  /** No path but `path` changed. */
  predicate SameBut(before: Tree, after: Tree, path: bytes) {
    before - {path} == after - {path}
  }

  class WalkContext {
    const sink: Sink
    var entries: seq<Entry>
    var tree: DiskTree

    constructor (sink: Sink, tree: DiskTree)
      ensures this.sink == sink && this.tree == tree && entries == []
    {
      this.sink := sink;
      this.tree := tree;
      entries := [];
    }

    function Now(): State
      reads this
    {
      State(entries, tree)
    }

    /** A step returned `ok` and the specification says `outcome`. */
    ghost predicate Matches(ok: bool, outcome: Option<State>)
      reads this
    {
      (ok <==> outcome.Some?) && (ok ==> outcome == Some(Now()))
    }

    method AddEntry(path: bytes, isDir: bool, size: nat)
      modifies this
      ensures tree == old(tree)
      ensures entries == old(entries) + [Entry(path, isDir, size)]
    {
      entries := entries + [Entry(path, isDir, size)];
    }

    /** Afterwards the directory is there, whether it was new or not; a file in its place, or no place for it, fails. */
    method MakeDirectoryAt(path: bytes) returns (ok: bool)
      requires sink.Extracting?
      modifies this
      ensures entries == old(entries) && SameBut(old(tree), tree, path)
      ensures ok <==> if path in old(tree) then old(tree)[path].Directory?
                      else ParentExists(old(tree), path) && sink.host(path)
      ensures if ok then path in tree && tree[path] == Directory else tree == old(tree)
      ensures ok <==> MakeDirectory(sink.host, old(tree), path).Some?
      ensures ok ==> Some(tree) == MakeDirectory(sink.host, old(tree), path)
    {
      hide Components;
      if path !in tree && ParentExists(tree, path) && sink.host(path) {
        WritingStaysRooted(tree, path, Directory);
        tree := tree[path := Directory];
        return true;
      }
      return path in tree && tree[path].Directory?;
    }

    /** Afterwards the file is there with this content; a directory in its place, or no place for it, fails. */
    method WriteFileAt(path: bytes, content: bytes) returns (ok: bool)
      requires sink.Extracting?
      modifies this
      ensures entries == old(entries) && SameBut(old(tree), tree, path)
      ensures ok <==> (path in old(tree) ==> old(tree)[path].File?) && ParentExists(old(tree), path) && sink.host(path)
      ensures if ok then path in tree && tree[path] == File(content) else tree == old(tree)
      ensures ok <==> WriteFile(sink.host, old(tree), path, content).Some?
      ensures ok ==> Some(tree) == WriteFile(sink.host, old(tree), path, content)
    {
      hide Components;
      ok := (path in tree ==> tree[path].File?) && ParentExists(tree, path) && sink.host(path);
      if ok {
        WritingStaysRooted(tree, path, File(content));
        tree := tree[path := File(content)];
      }
    }
  }
}
