/**
 A directory tree as such, and what it means that an image holds it: reading the image is then walking the tree.
 A walk of the tree, extracted into an empty directory, leaves exactly the tree there.
 */
module WrittenTree {
  import opened Bytes
  import opened Paths
  import opened Walk

  datatype Node = Dir(entries: seq<Named>) | Data(content: bytes) | Odd(size: nat)

  datatype Named = Named(name: bytes, node: Node)

  /** File types are in the top four of a mode's low sixteen bits. */
  ghost predicate IsDirectoryMode(mode: nat) {
    0x4000 <= mode % 0x1_0000 < 0x5000
  }

  ghost predicate IsRegularMode(mode: nat) {
    0x8000 <= mode % 0x1_0000 < 0x9000
  }

  // ----- a tree as something to walk -----

  function KindOf(n: Node): Kind<seq<Named>> {
    match n
    case Dir(es) => Folder(es)
    case Data(content) => Regular(|content|, Some(content))
    case Odd(size) => Special(size)
  }

  function ChildrenIn(es: seq<Named>): (cs: seq<Child<seq<Named>>>)
    ensures |cs| == |es| && forall i :: 0 <= i < |es| ==> cs[i] == Child(es[i].name, KindOf(es[i].node))
  {
    seq(|es|, i requires 0 <= i < |es| => Child(es[i].name, KindOf(es[i].node)))
  }

  function InTree(): seq<Named> -> Option<seq<Child<seq<Named>>>> {
    (es: seq<Named>) => Some(ChildrenIn(es))
  }

  /** Lists or extracts the tree itself. */
  function ReadTree(es: seq<Named>, sink: Sink, tree: Tree): Option<State> {
    if sink.Extracting? && !sink.host([]) then None
    else Run(sink, State([], tree), DirVisits(InTree(), es, [], 0))
  }

  // ----- directories that hold a tree -----

  /** Without `contents`, as when listing, what is in the files does not matter. */
  ghost predicate ShowsNode<D(!new)>(children: D -> Option<seq<Child<D>>>, kind: Kind<D>, n: Node, contents: bool)
    decreases n
  {
    match n
    case Dir(es) => kind.Folder? && Shows(children, kind.dir, es, contents)
    case Data(content) => kind.Regular? && kind.size == |content| && (contents ==> kind.content == Some(content))
    case Odd(size) => kind == Special(size)
  }

  /** The directory holds these entries, in this order, all the way down. */
  ghost predicate Shows<D(!new)>(children: D -> Option<seq<Child<D>>>, d: D, es: seq<Named>, contents: bool)
    decreases es
  {
    children(d).Some? && ShowsAll(children, children(d).value, es, contents)
  }

  ghost predicate ShowsAll<D(!new)>(children: D -> Option<seq<Child<D>>>, cs: seq<Child<D>>, es: seq<Named>,
                                    contents: bool)
    decreases es, 0
  {
    && |cs| == |es|
    && forall i :: 0 <= i < |es| ==> cs[i].name == es[i].name && ShowsNode(children, cs[i].kind, es[i].node, contents)
  }

  /** A visit, without the way its reader identifies directories. */
  function Plainly<D>(v: Visit<D>, contents: bool): Visit<()> {
    Visit(v.path, match v.kind
                  case Folder(_) => Folder(())
                  case Regular(size, content) => Regular(size, if contents then content else None)
                  case Special(size) => Special(size))
  }

  function AllPlainly<D>(vs: seq<Visit<D>>, contents: bool): (r: seq<Visit<()>>)
    ensures |r| == |vs| && forall i :: 0 <= i < |vs| ==> r[i] == Plainly(vs[i], contents)
  {
    seq(|vs|, i requires 0 <= i < |vs| => Plainly(vs[i], contents))
  }

  function Seen<D>(vs: Option<seq<Visit<D>>>, contents: bool): Option<seq<Visit<()>>> {
    if vs.None? then None else Some(AllPlainly(vs.value, contents))
  }

  lemma AllPlainlyAppend<D>(a: seq<Visit<D>>, b: seq<Visit<D>>, contents: bool)
    ensures AllPlainly(a + b, contents) == AllPlainly(a, contents) + AllPlainly(b, contents)
  {
  }

  lemma {:induction false} ApplyPlainly<D>(sink: Sink, tree: Tree, vs: seq<Visit<D>>, contents: bool)
    requires contents || sink.Listing?
    ensures ApplyAll(sink, tree, vs) == ApplyAll(sink, tree, AllPlainly(vs, contents))
    decreases |vs|
  {
    hide MakeDirectory, WriteFile;
    if vs == [] {
    } else {
      assert AllPlainly(vs, contents)[1..] == AllPlainly(vs[1..], contents);
      assert Apply(sink, tree, vs[0]) == Apply(sink, tree, Plainly(vs[0], contents));
      if Apply(sink, tree, vs[0]).Some? {
        ApplyPlainly(sink, Apply(sink, tree, vs[0]).value, vs[1..], contents);
      }
    }
  }

  /** What a walk does only depends on its visits without their directories' identities. */
  lemma RunPlainly<D>(sink: Sink, st: State, vs: Option<seq<Visit<D>>>, contents: bool)
    requires contents || sink.Listing?
    ensures Run(sink, st, vs) == Run(sink, st, Seen(vs, contents))
  {
    hide ApplyAll;
    if vs.Some? {
      ApplyPlainly(sink, st.tree, vs.value, contents);
      assert Entries(vs.value) == Entries(AllPlainly(vs.value, contents));
    }
  }

  lemma {:induction false} ShownVisits<D(!new)>(children: D -> Option<seq<Child<D>>>, cs: seq<Child<D>>, es: seq<Named>,
                                                contents: bool, parent: bytes, depth: nat)
    requires depth <= MAX_DIR_DEPTH && ShowsAll(children, cs, es, contents)
    ensures Seen(ChildrenVisits(children, cs, parent, depth), contents) ==
            Seen(ChildrenVisits(InTree(), ChildrenIn(es), parent, depth), contents)
    decreases MAX_DIR_DEPTH + 1 - depth, |cs|, 1
  {
    hide Plainly, ChildVisits;
    if cs == [] {
    } else {
      ShownVisit(children, cs[0], es[0], contents, parent, depth, |cs|);
      ShownVisits(children, cs[1..], es[1..], contents, parent, depth);
      var ds := ChildrenIn(es);
      assert ds[1..] == ChildrenIn(es[1..]);
      var a, as' := ChildVisits(children, cs[0], parent, depth), ChildrenVisits(children, cs[1..], parent, depth);
      var b, bs := ChildVisits(InTree(), ds[0], parent, depth), ChildrenVisits(InTree(), ds[1..], parent, depth);
      if a.Some? && as'.Some? {
        AllPlainlyAppend(a.value, as'.value, contents);
        AllPlainlyAppend(b.value, bs.value, contents);
      }
    }
  }

  lemma {:induction false} ShownVisit<D(!new)>(children: D -> Option<seq<Child<D>>>, c: Child<D>, e: Named,
                                               contents: bool, parent: bytes, depth: nat, n: nat)
    requires depth <= MAX_DIR_DEPTH && c.name == e.name && ShowsNode(children, c.kind, e.node, contents)
    ensures Seen(ChildVisits(children, c, parent, depth), contents) ==
            Seen(ChildVisits(InTree(), Child(e.name, KindOf(e.node)), parent, depth), contents)
    decreases MAX_DIR_DEPTH + 1 - depth, n, 0
  {
    hide IsSafe, ChildrenVisits;
    var path := ChildPath(parent, c.name);
    var own, own' := [Visit(path, c.kind)], [Visit(path, KindOf(e.node))];
    assert AllPlainly(own, contents) == AllPlainly(own', contents);
    if e.node.Dir? {
      var d, es := c.kind.dir, e.node.entries;
      if depth < MAX_DIR_DEPTH {
        ShownVisits(children, children(d).value, es, contents, path, depth + 1);
      }
      var a, b := DirVisits(children, d, path, depth + 1), DirVisits(InTree(), es, path, depth + 1);
      assert Seen(a, contents) == Seen(b, contents);
      if a.Some? {
        AllPlainlyAppend(own, a.value, contents);
        AllPlainlyAppend(own', b.value, contents);
      }
    }
  }

  /** Walking directories that hold a tree is walking the tree: the same listing, the same writes, the same failures. */
  lemma ShownIsRead<D(!new)>(children: D -> Option<seq<Child<D>>>, root: D, es: seq<Named>, sink: Sink, st: State)
    requires Shows(children, root, es, sink.Extracting?)
    ensures Run(sink, st, DirVisits(children, root, [], 0)) == Run(sink, st, DirVisits(InTree(), es, [], 0))
  {
    hide Run, ChildrenVisits;
    ShownVisits(children, children(root).value, es, sink.Extracting?, [], 0);
    RunPlainly(sink, st, DirVisits(children, root, [], 0), sink.Extracting?);
    RunPlainly(sink, st, DirVisits(InTree(), es, [], 0), sink.Extracting?);
  }

  // ----- what walking a tree leaves -----

  /** The first entry of this name. */
  function EntryNamed(es: seq<Named>, name: bytes): Option<Node> {
    if es == [] then None else if es[0].name == name then Some(es[0].node) else EntryNamed(es[1..], name)
  }

  /** What is in the tree below these names. */
  function Lookup(es: seq<Named>, names: seq<bytes>): Option<Node>
    decreases |names|
  {
    if names == [] then None
    else
      var n :- EntryNamed(es, names[0]);
      if |names| == 1 then Some(n) else if n.Dir? then Lookup(n.entries, names[1..]) else None
  }

  /** No directory holds two entries of one name. */
  ghost predicate Distinct(es: seq<Named>)
    decreases es
  {
    && (forall i, j :: 0 <= i < j < |es| ==> es[i].name != es[j].name)
    && (forall i :: 0 <= i < |es| ==> DistinctNode(es[i].node))
  }

  ghost predicate DistinctNode(n: Node)
    decreases n
  {
    n.Dir? ==> Distinct(n.entries)
  }

  lemma {:induction false} EntryIs(es: seq<Named>, i: nat)
    requires i < |es| && forall k :: 0 <= k < i ==> es[k].name != es[i].name
    ensures EntryNamed(es, es[i].name) == Some(es[i].node)
    decreases i
  {
    if i == 0 {
    } else {
      EntryIs(es[1..], i - 1);
    }
  }

  lemma {:induction false} EntryHas(es: seq<Named>, name: bytes) returns (i: nat)
    requires EntryNamed(es, name).Some?
    ensures i < |es| && es[i].name == name && es[i].node == EntryNamed(es, name).value
  {
    if es[0].name == name {
      i := 0;
    } else {
      var k := EntryHas(es[1..], name);
      i := k + 1;
    }
  }

  /** Following names through the walked directories leads where looking them up does. */
  lemma {:induction false} LeadsWhereLookedUp(es: seq<Named>, names: seq<bytes>, kind: Kind<seq<Named>>)
    requires Distinct(es)
    ensures LeadsInto(InTree(), ChildrenIn(es), names, kind) <==>
            Lookup(es, names).Some? && kind == KindOf(Lookup(es, names).value)
    decreases |names|
  {
    var cs := ChildrenIn(es);
    forall i | 0 <= i < |cs| && names != [] && names[0] == cs[i].name
      ensures LeadsTo(InTree(), cs[i], names, kind) <==>
              Lookup(es, names).Some? && kind == KindOf(Lookup(es, names).value)
    {
      EntryIs(es, i);
      assert DistinctNode(es[i].node);
      if es[i].node.Dir? {
        LeadsWhereLookedUp(es[i].node.entries, names[1..], kind);
      }
    }
    if Lookup(es, names).Some? {
      var i := EntryHas(es, names[0]);
      assert cs[i].name == names[0];
    }
  }

  /** What extraction leaves of a node. */
  function Left(n: Option<Node>): Option<OutNode> {
    if n.None? then None
    else match n.value
      case Dir(_) => Some(Directory)
      case Data(content) => Some(File(content))
      case Odd(_) => None
  }

  /** An entry's path in its directory's: behind a slash, or alone in the root directory. */
  function PathIn(parent: bytes, name: bytes): bytes {
    if parent == [] then name else parent + [47] + name
  }

  /** Everything about the tree lets it be walked, and each of its entries be written. */
  ghost predicate CanBeExtracted(es: seq<Named>, sink: Sink, parent: bytes, depth: nat)
    requires sink.Extracting?
    decreases es
  {
    forall i :: 0 <= i < |es| ==> EntryCanBeExtracted(es[i], sink, parent, depth)
  }

  ghost predicate EntryCanBeExtracted(e: Named, sink: Sink, parent: bytes, depth: nat)
    requires sink.Extracting?
    decreases e
  {
    var path := PathIn(parent, e.name);
    && IsPlainName(e.name) && |path| < 1024 && |sink.outputDir| + 1 + |path| < 1280
    && (!e.node.Odd? ==> sink.host(path))
    && (e.node.Dir? ==> depth < 32 && CanBeExtracted(e.node.entries, sink, path, depth + 1))
  }

  lemma NamesUniqueInTrees()
    ensures NamesUniqueIn(InTree(), iset es: seq<Named> | Distinct(es))
  {
    forall es: seq<Named> | Distinct(es) ensures StaysIn(ChildrenIn(es), iset fs: seq<Named> | Distinct(fs)) {
      forall i | 0 <= i < |es| && es[i].node.Dir? ensures Distinct(es[i].node.entries) {
        assert DistinctNode(es[i].node);
      }
    }
  }

  lemma ExtractableAppend<D>(sink: Sink, a: seq<Visit<D>>, b: seq<Visit<D>>)
    requires sink.Extracting?
    ensures AllExtractable(sink, a + b) <==> AllExtractable(sink, a) && AllExtractable(sink, b)
  {
    var all := a + b;
    assert forall i :: 0 <= i < |a| ==> all[i] == a[i];
    assert forall i :: 0 <= i < |b| ==> all[|a| + i] == b[i];
  }

  lemma {:induction false} CanBeExtractedIff(es: seq<Named>, sink: Sink, parent: bytes, depth: nat)
    requires sink.Extracting? && depth <= MAX_DIR_DEPTH
    ensures var vs := ChildrenVisits(InTree(), ChildrenIn(es), parent, depth);
            vs.Some? && AllExtractable(sink, vs.value) <==> CanBeExtracted(es, sink, parent, depth)
    decreases MAX_DIR_DEPTH + 1 - depth, |es|, 1
  {
    hide AllExtractable, EntryCanBeExtracted, ChildVisits;
    if es == [] {
      assert AllExtractable(sink, ChildrenVisits(InTree(), ChildrenIn(es), parent, depth).value) by {
        NothingToExtract<seq<Named>>(sink);
      }
    } else {
      var cs := ChildrenIn(es);
      assert cs[1..] == ChildrenIn(es[1..]);
      EntryCanBeExtractedIff(es[0], sink, parent, depth, |es|);
      CanBeExtractedIff(es[1..], sink, parent, depth);
      assert CanBeExtracted(es, sink, parent, depth) <==>
             EntryCanBeExtracted(es[0], sink, parent, depth) && CanBeExtracted(es[1..], sink, parent, depth);
      var first, rest := ChildVisits(InTree(), cs[0], parent, depth), ChildrenVisits(InTree(), cs[1..], parent, depth);
      if first.Some? && rest.Some? {
        ExtractableAppend(sink, first.value, rest.value);
      }
    }
  }

  lemma NothingToExtract<D>(sink: Sink)
    requires sink.Extracting?
    ensures AllExtractable<D>(sink, [])
  {
  }

  lemma {:induction false} EntryCanBeExtractedIff(e: Named, sink: Sink, parent: bytes, depth: nat, n: nat)
    requires sink.Extracting? && depth <= MAX_DIR_DEPTH
    ensures var vs := ChildVisits(InTree(), Child(e.name, KindOf(e.node)), parent, depth);
            vs.Some? && AllExtractable(sink, vs.value) <==> EntryCanBeExtracted(e, sink, parent, depth)
    decreases MAX_DIR_DEPTH + 1 - depth, n, 0
  {
    hide IsSafe, IsPlainName, AllExtractable, CanBeExtracted;
    SafeIffPlain(e.name);
    var path := ChildPath(parent, e.name);
    var own := [Visit(path, KindOf(e.node))];
    assert AllExtractable(sink, own) <==> DiskPathFits(sink, path) && (!e.node.Odd? ==> sink.host(path)) by {
      OneExtractable(sink, own[0]);
    }
    if e.node.Dir? && depth < MAX_DIR_DEPTH {
      var es := e.node.entries;
      CanBeExtractedIff(es, sink, path, depth + 1);
      var inside := DirVisits(InTree(), es, path, depth + 1);
      if inside.Some? {
        ExtractableAppend(sink, own, inside.value);
      }
    }
  }

  lemma OneExtractable<D>(sink: Sink, v: Visit<D>)
    requires sink.Extracting?
    ensures AllExtractable(sink, [v]) <==> Extractable(sink, v)
  {
    assert [v][0] == v;
  }

  /**
   Extracting a tree into an empty directory succeeds exactly when every name and path of it is acceptable and the host
   lets it be written; and then each path holds what the tree holds there, and there is nothing else.
   */
  lemma TreeIsExtracted(es: seq<Named>, sink: Sink)
    requires sink.Extracting? && Distinct(es)
    ensures IsExtracted(es, sink, ReadTree(es, sink, map[]))
  {
    hide ApplyAll, AllExtractable, CanBeExtracted, Distinct, Lookup, Components, ChildrenVisits;
    NamesUniqueInTrees();
    CanBeExtractedIff(es, sink, [], 0);
    var vs := DirVisits(InTree(), es, [], 0);
    if vs.Some? {
      WalkIsATree(InTree(), (iset fs: seq<Named> | Distinct(fs)), es);
      ExtractionMirrors(sink, vs.value);
      if ApplyAll(sink, map[], vs.value).Some? {
        var t := ApplyAll(sink, map[], vs.value).value;
        forall p ensures Left(Lookup(es, Components(p))) == if p in t then Some(t[p]) else None {
          MirrorsTree(es, vs.value, t, p);
        }
      }
    }
  }

  lemma MirrorsTree(es: seq<Named>, vs: seq<Visit<seq<Named>>>, t: Tree, p: bytes)
    requires Distinct(es) && DirVisits(InTree(), es, [], 0) == Some(vs) && Mirrors(t, vs)
    ensures Left(Lookup(es, Components(p))) == if p in t then Some(t[p]) else None
  {
    hide Distinct, Lookup, Components, DirVisits;
    var n := Lookup(es, Components(p));
    if n.Some? {
      var kind := KindOf(n.value);
      LeadsWhereLookedUp(es, Components(p), kind);
      WalkVisitsExactly(InTree(), es, p, kind);
      var i :| 0 <= i < |vs| && vs[i] == Visit(p, kind);
    }
    if p in t {
      var i :| 0 <= i < |vs| && !vs[i].kind.Special? && vs[i].path == p;
      assert vs[i] == Visit(p, vs[i].kind);
      WalkVisitsExactly(InTree(), es, p, vs[i].kind);
      LeadsWhereLookedUp(es, Components(p), vs[i].kind);
    }
  }

  /** `read` is what extracting `es` into an empty directory should give: success exactly when the tree can be
      extracted, and then exactly the tree. */
  ghost predicate IsExtracted(es: seq<Named>, sink: Sink, read: Option<State>)
    requires sink.Extracting?
  {
    && (read.Some? <==> sink.host([]) && CanBeExtracted(es, sink, [], 0))
    && (read.Some? ==>
        forall p :: Left(Lookup(es, Components(p))) == if p in read.value.tree then Some(read.value.tree[p]) else None)
  }

  // ----- what listing a tree says -----

  /** The line for a node: directories have no size, files that of their content, other nodes the one they declare. */
  function ListedAs(path: bytes, n: Node): Entry {
    match n
    case Dir(_) => Entry(path, true, 0)
    case Data(content) => Entry(path, false, |content|)
    case Odd(size) => Entry(path, false, size)
  }

  /** The lines for the entries of a directory, in order, each directory followed by what is in it. */
  function Listed(es: seq<Named>, parent: bytes): seq<Entry>
    decreases es
  {
    if es == [] then []
    else
      var n, path := es[0].node, PathIn(parent, es[0].name);
      [ListedAs(path, n)] + (if n.Dir? then Listed(n.entries, path) else []) + Listed(es[1..], parent)
  }

  ghost predicate CanBeListed(es: seq<Named>, parent: bytes, depth: nat)
    decreases es
  {
    forall i :: 0 <= i < |es| ==> EntryCanBeListed(es[i], parent, depth)
  }

  ghost predicate EntryCanBeListed(e: Named, parent: bytes, depth: nat)
    decreases e
  {
    var path := PathIn(parent, e.name);
    && IsPlainName(e.name) && |path| < 1024
    && (e.node.Dir? ==> depth < 32 && CanBeListed(e.node.entries, path, depth + 1))
  }

  lemma {:induction false} VisitsAreListed(es: seq<Named>, parent: bytes, depth: nat)
    requires depth <= MAX_DIR_DEPTH
    ensures var vs := ChildrenVisits(InTree(), ChildrenIn(es), parent, depth);
            (vs.Some? <==> CanBeListed(es, parent, depth)) && (vs.Some? ==> Entries(vs.value) == Listed(es, parent))
    decreases MAX_DIR_DEPTH + 1 - depth, |es|, 1
  {
    hide EntryCanBeListed, ChildVisits, ListedAs, IsPlainName, EntryOf;
    if es == [] {
    } else {
      var cs := ChildrenIn(es);
      assert cs[1..] == ChildrenIn(es[1..]);
      EntryIsListed(es[0], parent, depth, |es|);
      VisitsAreListed(es[1..], parent, depth);
      assert CanBeListed(es, parent, depth) <==>
             EntryCanBeListed(es[0], parent, depth) && CanBeListed(es[1..], parent, depth);
      var first, rest := ChildVisits(InTree(), cs[0], parent, depth), ChildrenVisits(InTree(), cs[1..], parent, depth);
      if first.Some? && rest.Some? {
        EntriesAppend(first.value, rest.value);
      }
    }
  }

  lemma {:induction false} EntryIsListed(e: Named, parent: bytes, depth: nat, n: nat)
    requires depth <= MAX_DIR_DEPTH
    ensures var vs := ChildVisits(InTree(), Child(e.name, KindOf(e.node)), parent, depth);
            var path := PathIn(parent, e.name);
            && (vs.Some? <==> EntryCanBeListed(e, parent, depth))
            && (vs.Some? ==> Entries(vs.value) ==
                             [ListedAs(path, e.node)] + (if e.node.Dir? then Listed(e.node.entries, path) else []))
    decreases MAX_DIR_DEPTH + 1 - depth, n, 0
  {
    hide IsSafe, IsPlainName, CanBeListed, Listed;
    SafeIffPlain(e.name);
    var path := ChildPath(parent, e.name);
    var own := [Visit(path, KindOf(e.node))];
    assert Entries(own) == [ListedAs(path, e.node)];
    if e.node.Dir? {
      if depth < MAX_DIR_DEPTH {
        VisitsAreListed(e.node.entries, path, depth + 1);
      }
      var inside := DirVisits(InTree(), e.node.entries, path, depth + 1);
      if inside.Some? {
        EntriesAppend(own, inside.value);
      }
    }
  }

  /** `read` is what listing `es` should give: all of the tree, if all names, paths and depths are acceptable. */
  ghost predicate IsListed(es: seq<Named>, t: Tree, read: Option<State>) {
    read == if CanBeListed(es, [], 0) then Some(State(Listed(es, []), t)) else None
  }

  /** Listing a tree gives its lines, or fails exactly when a name, path or depth is not acceptable. */
  lemma TreeIsListed(es: seq<Named>, t: Tree)
    ensures IsListed(es, t, ReadTree(es, Listing, t))
  {
    hide CanBeListed, Listed, ApplyAll, Entries;
    VisitsAreListed(es, [], 0);
    var vs := DirVisits(InTree(), es, [], 0);
    if vs.Some? {
      ListingLeavesTree(t, vs.value);
      assert [] + Entries(vs.value) == Entries(vs.value);
    }
  }

  /** Extraction reports the same lines. */
  lemma ExtractionIsListed(es: seq<Named>, sink: Sink, t: Tree)
    requires ReadTree(es, sink, t).Some?
    ensures ReadTree(es, sink, t).value.entries == Listed(es, [])
  {
    hide CanBeListed, Listed, ApplyAll, Entries;
    VisitsAreListed(es, [], 0);
    var vs := DirVisits(InTree(), es, [], 0).value;
    assert [] + Entries(vs) == Entries(vs);
  }

  /** A line is listed exactly when it is the one for what the tree holds at its path; no path is listed twice. */
  lemma ListedIffFound(es: seq<Named>, e: Entry)
    requires Distinct(es) && CanBeListed(es, [], 0)
    ensures e in Listed(es, []) <==> var n := Lookup(es, Components(e.path)); n.Some? && e == ListedAs(e.path, n.value)
    ensures forall i, j :: 0 <= i < j < |Listed(es, [])| ==> Listed(es, [])[i].path != Listed(es, [])[j].path
  {
    hide *;
    WalkIsListed(es);
    var vs := DirVisits(InTree(), es, [], 0).value;
    NoLineTwice(es, vs);
    if e in Listed(es, []) {
      LineIsFound(es, vs, e);
    }
    if Lookup(es, Components(e.path)).Some? && e == ListedAs(e.path, Lookup(es, Components(e.path)).value) {
      FoundIsListed(es, vs, e);
    }
  }

  lemma NoLineTwice(es: seq<Named>, vs: seq<Visit<seq<Named>>>)
    requires Distinct(es) && DirVisits(InTree(), es, [], 0) == Some(vs)
    ensures forall i, j :: 0 <= i < j < |Entries(vs)| ==> Entries(vs)[i].path != Entries(vs)[j].path
  {
    hide Distinct, DirVisits;
    NamesUniqueInTrees();
    WalkIsATree(InTree(), (iset fs: seq<Named> | Distinct(fs)), es);
  }

  lemma LineIsFound(es: seq<Named>, vs: seq<Visit<seq<Named>>>, e: Entry)
    requires Distinct(es) && DirVisits(InTree(), es, [], 0) == Some(vs) && e in Entries(vs)
    ensures var n := Lookup(es, Components(e.path)); n.Some? && e == ListedAs(e.path, n.value)
  {
    hide Distinct, Lookup, Components, DirVisits, LeadsInto;
    var i :| 0 <= i < |vs| && Entries(vs)[i] == e;
    assert vs[i] == Visit(e.path, vs[i].kind) && vs[i] in vs;
    WalkVisitsExactly(InTree(), es, e.path, vs[i].kind);
    LeadsWhereLookedUp(es, Components(e.path), vs[i].kind);
  }

  lemma FoundIsListed(es: seq<Named>, vs: seq<Visit<seq<Named>>>, e: Entry)
    requires Distinct(es) && DirVisits(InTree(), es, [], 0) == Some(vs)
    requires var n := Lookup(es, Components(e.path)); n.Some? && e == ListedAs(e.path, n.value)
    ensures e in Entries(vs)
  {
    hide Distinct, Lookup, Components, DirVisits, LeadsInto;
    var kind := KindOf(Lookup(es, Components(e.path)).value);
    LeadsWhereLookedUp(es, Components(e.path), kind);
    WalkVisitsExactly(InTree(), es, e.path, kind);
    var i :| 0 <= i < |vs| && vs[i] == Visit(e.path, kind);
    assert Entries(vs)[i] == e;
  }

  lemma WalkIsListed(es: seq<Named>)
    ensures var vs := DirVisits(InTree(), es, [], 0);
            (vs.Some? <==> CanBeListed(es, [], 0)) && (vs.Some? ==> Entries(vs.value) == Listed(es, []))
  {
    hide CanBeListed, Listed, ChildrenVisits, Entries;
    VisitsAreListed(es, [], 0);
  }

  // ----- whatever is walked is a tree -----

  /** A file's content, when there is any, has the size that is listed. */
  predicate IsSized<D>(kind: Kind<D>) {
    kind.Regular? && kind.content.Some? ==> |kind.content.value| == kind.size
  }

  predicate KindsAreSized<D>(cs: seq<Child<D>>) {
    forall i :: 0 <= i < |cs| ==> IsSized(cs[i].kind)
  }

  ghost predicate AllSized<D(!new)>(children: D -> Option<seq<Child<D>>>) {
    forall d :: children(d).Some? ==> KindsAreSized(children(d).value)
  }

  /** The files among the visits have contents. */
  predicate HaveContents<D>(vs: seq<Visit<D>>) {
    forall i :: 0 <= i < |vs| && vs[i].kind.Regular? ==> vs[i].kind.content.Some?
  }

  lemma HaveContentsAppend<D>(a: seq<Visit<D>>, b: seq<Visit<D>>)
    ensures HaveContents(a + b) ==> HaveContents(a) && HaveContents(b)
  {
    var all := a + b;
    assert forall i :: 0 <= i < |a| ==> all[i] == a[i];
    assert forall i :: 0 <= i < |b| ==> all[|a| + i] == b[i];
  }

  /** Directories that were walked, with all the files in them, hold a tree. */
  lemma {:induction false} WalkedShowsTree<D(!new)>(children: D -> Option<seq<Child<D>>>, cs: seq<Child<D>>,
                                                    parent: bytes, depth: nat) returns (es: seq<Named>)
    requires depth <= MAX_DIR_DEPTH && AllSized(children) && KindsAreSized(cs)
    requires ChildrenVisits(children, cs, parent, depth).Some? &&
             HaveContents(ChildrenVisits(children, cs, parent, depth).value)
    ensures ShowsAll(children, cs, es, true)
    decreases MAX_DIR_DEPTH + 1 - depth, |cs|
  {
    hide IsSafe, AllSized;
    if cs == [] {
      es := [];
    } else {
      ChildrenUnfold(children, cs, parent, depth);
      HaveContentsAppend(ChildVisits(children, cs[0], parent, depth).value,
                         ChildrenVisits(children, cs[1..], parent, depth).value);
      var first := WalkedShowsNode(children, cs[0], parent, depth);
      var rest := WalkedShowsTree(children, cs[1..], parent, depth);
      es := [Named(cs[0].name, first)] + rest;
      forall i | 0 <= i < |es| ensures cs[i].name == es[i].name && ShowsNode(children, cs[i].kind, es[i].node, true) {
        assert i > 0 ==> cs[i] == cs[1..][i - 1] && es[i] == rest[i - 1];
      }
    }
  }

  lemma {:induction false} WalkedShowsNode<D(!new)>(children: D -> Option<seq<Child<D>>>, c: Child<D>,
                                                    parent: bytes, depth: nat) returns (n: Node)
    requires depth <= MAX_DIR_DEPTH && AllSized(children) && IsSized(c.kind)
    requires ChildVisits(children, c, parent, depth).Some? &&
             HaveContents(ChildVisits(children, c, parent, depth).value)
    ensures ShowsNode(children, c.kind, n, true)
    decreases MAX_DIR_DEPTH + 1 - depth, 0
  {
    hide IsSafe;
    ChildUnfold(children, c, parent, depth);
    match c.kind
    case Folder(d) =>
      var path := ChildPath(parent, c.name);
      HaveContentsAppend([Visit(path, c.kind)], ChildrenVisits(children, children(d).value, path, depth + 1).value);
      var es := WalkedShowsTree(children, children(d).value, path, depth + 1);
      n := Dir(es);
    case Regular(size, content) =>
      assert ChildVisits(children, c, parent, depth).value[0].kind == c.kind;
      n := Data(content.value);
    case Special(size) =>
      n := Odd(size);
  }

  lemma {:induction false} ExtractedHaveContents<D>(sink: Sink, tree: Tree, vs: seq<Visit<D>>)
    requires sink.Extracting? && ApplyAll(sink, tree, vs).Some?
    ensures HaveContents(vs)
    decreases |vs|
  {
    hide MakeDirectory, WriteFile;
    if vs == [] {
    } else {
      ExtractedHaveContents(sink, Apply(sink, tree, vs[0]).value, vs[1..]);
      assert vs == [vs[0]] + vs[1..];
    }
  }

  /** The directories of an extracted image hold a tree. */
  lemma ExtractedShowsTree<D(!new)>(children: D -> Option<seq<Child<D>>>, root: D, sink: Sink, tree: Tree)
    returns (es: seq<Named>)
    requires sink.Extracting? && AllSized(children) &&
             Run(sink, State([], tree), DirVisits(children, root, [], 0)).Some?
    ensures Shows(children, root, es, true)
  {
    hide ApplyAll, ChildrenVisits, HaveContents;
    ExtractedHaveContents(sink, tree, DirVisits(children, root, [], 0).value);
    es := WalkedShowsTree(children, children(root).value, [], 0);
  }

  lemma {:induction false} WithoutContents<D(!new)>(children: D -> Option<seq<Child<D>>>, d: D, es: seq<Named>)
    requires Shows(children, d, es, true)
    ensures Shows(children, d, es, false)
    decreases es
  {
    var cs := children(d).value;
    forall i | 0 <= i < |es| ensures cs[i].name == es[i].name && ShowsNode(children, cs[i].kind, es[i].node, false) {
      assert ShowsNode(children, cs[i].kind, es[i].node, true);
      if es[i].node.Dir? {
        WithoutContents(children, cs[i].kind.dir, es[i].node.entries);
      }
    }
  }

  /** Directories that hold a tree with its contents hold it for a listing too. */
  lemma ShownForAll<D(!new)>(children: D -> Option<seq<Child<D>>>, root: D, es: seq<Named>, sink: Sink, st: State)
    requires Shows(children, root, es, true)
    ensures Run(sink, st, DirVisits(children, root, [], 0)) == Run(sink, st, DirVisits(InTree(), es, [], 0))
  {
    hide Run, DirVisits;
    if sink.Listing? {
      WithoutContents(children, root, es);
    }
    ShownIsRead(children, root, es, sink, st);
  }
}
