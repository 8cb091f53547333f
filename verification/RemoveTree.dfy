/**
 Recursive, best-effort removal of a path. What a path holds is kept as a map from the relative paths below it;
 the path itself is the empty relative path, so the empty map means that nothing is there.
 */
module RemoveTree {
  import opened Bytes
  import opened Paths
  import opened Walk

  type Disk = map<bytes, OutNode>

  const CHILD_PATH_CAP := 1280

  /** What the operating system permits: deleting a path, and reading a directory. */
  datatype Rights = Rights(dir: bytes, removable: bytes -> bool, readable: bytes -> bool) {
    /** The path of an entry fits the buffer it is built in. */
    predicate Fits(q: bytes) {
      |dir| + 1 + |q| < CHILD_PATH_CAP
    }
  }

  predicate AtOrBelow(p: bytes, q: bytes) {
    Components(p) <= Components(q)
  }

  predicate Below(p: bytes, q: bytes) {
    Components(p) < Components(q)
  }

  predicate IsChild(p: bytes, q: bytes) {
    Below(p, q) && |Components(q)| == |Components(p)| + 1
  }

  /** Everything but the path itself is in a directory. */
  ghost predicate Rooted(t: Disk) {
    forall q :: q in t && q != [] ==> exists d :: d in t && t[d].Directory? && IsChild(d, q)
  }

  ghost predicate Within(a: Disk, b: Disk) {
    forall q :: q in a ==> q in b && a[q] == b[q]
  }

  // ----- what removal leaves -----

  predicate Listable(t: Disk, rights: Rights, q: bytes)
    requires q in t
  {
    t[q].Directory? ==> rights.readable(q)
  }

  /** The traversal that starts at `p` gets as far as `q`. */
  ghost predicate Reached(t: Disk, rights: Rights, p: bytes, q: bytes) {
    && (q != p ==> rights.Fits(q))
    && forall a :: a in t && AtOrBelow(p, a) && Below(a, q) ==> Listable(t, rights, a) && (a != p ==> rights.Fits(a))
  }

  /** Nothing at `z` stands in the way of removing the directories above it. */
  ghost predicate Deletable(t: Disk, rights: Rights, p: bytes, z: bytes)
    requires z in t
  {
    rights.removable(z) && Listable(t, rights, z) && (z != p ==> rights.Fits(z))
  }

  /** Removing `p` removes `q`: it is reached, and everything at and below it can go. */
  ghost predicate Gone(t: Disk, rights: Rights, p: bytes, q: bytes) {
    && AtOrBelow(p, q) && Reached(t, rights, p, q)
    && forall z :: z in t && AtOrBelow(q, z) ==> Deletable(t, rights, p, z)
  }

  /** The tree after the removal of `p`, whatever the order in which directories are read. */
  ghost function Removed(t: Disk, rights: Rights, p: bytes): (r: Disk)
    ensures Within(r, t)
  {
    map q | q in t && !Gone(t, rights, p, q) :: t[q]
  }

  /** Every entry may be removed, every directory read, and every path below the top one fits 1280 bytes with NUL. */
  ghost predicate AllDeletable(t: Disk, rights: Rights) {
    forall z :: z in t ==>
                  && rights.removable(z) && (t[z].Directory? ==> rights.readable(z))
                  && (z != [] ==> |rights.dir| + 1 + |z| < 1280)
  }

  lemma RootIsAbove(q: bytes)
    ensures AtOrBelow([], q) && Components([]) == []
  {
  }

  /** Removal empties a path exactly when everything in it can be deleted. */
  lemma RemovedIsEmptyIff(t: Disk, rights: Rights)
    requires [] in t
    ensures Removed(t, rights, []) == map[] <==> AllDeletable(t, rights)
  {
    hide Components, AtOrBelow, Below;
    forall q ensures AtOrBelow([], q) {
      RootIsAbove(q);
    }
    if AllDeletable(t, rights) {
      forall q | q in t ensures Gone(t, rights, [], q) {
      }
    }
    if Removed(t, rights, []) == map[] {
      assert [] in t && [] !in Removed(t, rights, []);
    }
  }

  // ----- paths above and below each other -----

  lemma AboveIsTransitive(p: bytes, q: bytes, r: bytes)
    requires AtOrBelow(p, q) && AtOrBelow(q, r)
    ensures AtOrBelow(p, r)
    ensures Below(p, q) || Below(q, r) ==> Below(p, r)
  {
    hide Components;
    var a, b, c := Components(p), Components(q), Components(r);
    assert a == b[..|a|] && b == c[..|b|];
    assert c[..|b|][..|a|] == c[..|a|];
  }

  lemma AboveIsReflexive(p: bytes)
    ensures AtOrBelow(p, p) && !Below(p, p)
  {
    hide Components;
  }

  /** Two paths above a third are above one another. */
  lemma AboveIsLinear(p: bytes, q: bytes, r: bytes)
    requires AtOrBelow(p, r) && AtOrBelow(q, r)
    ensures if |Components(p)| < |Components(q)| then Below(p, q)
            else if |Components(p)| == |Components(q)| then p == q else Below(q, p)
  {
    hide Components;
    var a, b, c := Components(p), Components(q), Components(r);
    assert a == c[..|a|] && b == c[..|b|];
    if |a| <= |b| {
      assert c[..|b|][..|a|] == c[..|a|];
      if |a| == |b| {
        ComponentsInjective(p, q);
      }
    } else {
      assert c[..|a|][..|b|] == c[..|b|];
    }
  }

  lemma BelowIsStrict(p: bytes, q: bytes)
    ensures Below(p, q) <==> AtOrBelow(p, q) && p != q
    ensures Below(p, q) <==> AtOrBelow(p, q) && |Components(p)| < |Components(q)|
  {
    hide Components;
    if AtOrBelow(p, q) && |Components(p)| == |Components(q)| {
      ComponentsInjective(p, q);
    }
  }

  /** The way from `p` down to `q` leads through a child of `p`. */
  lemma {:induction false} ChildTowards(t: Disk, p: bytes, q: bytes) returns (c: bytes)
    requires Rooted(t) && q in t && Below(p, q)
    ensures c in t && IsChild(p, c) && AtOrBelow(c, q)
    decreases |Components(q)|
  {
    hide Components;
    if IsChild(p, q) {
      c := q;
      AboveIsReflexive(q);
    } else {
      RootIsTop(q);
      var d :| d in t && t[d].Directory? && IsChild(d, q);
      AboveIsLinear(p, d, q);
      c := ChildTowards(t, p, d);
      AboveIsTransitive(c, d, q);
    }
  }

  lemma RootIsTop(q: bytes)
    ensures q == [] ==> Components(q) == []
  {
  }

  lemma FilesHoldNothing(t: Disk, p: bytes, z: bytes)
    requires Rooted(t) && p in t && !t[p].Directory? && z in t && AtOrBelow(p, z)
    ensures z == p
  {
    hide Components;
    BelowIsStrict(p, z);
    if z != p {
      var c := ChildTowards(t, p, z);
      RootIsTop(c);
      var d :| d in t && t[d].Directory? && IsChild(d, c);
      AboveIsLinear(p, d, c);
    }
  }

  // ----- one directory -----

  /** Removing a child of `p` removes `q`. */
  ghost predicate GoneIn(t: Disk, rights: Rights, done: set<bytes>, q: bytes) {
    exists c :: c in done && rights.Fits(c) && Gone(t, rights, c, q)
  }

  /** The tree once the children `done` of a directory have been removed as far as they can be. */
  ghost function After(t: Disk, rights: Rights, done: set<bytes>): Disk {
    map q | q in t && !GoneIn(t, rights, done, q) :: t[q]
  }

  /** Only the subtree decides. */
  lemma GoneIsLocal(t: Disk, u: Disk, rights: Rights, c: bytes, q: bytes)
    requires Within(u, t) && forall z :: z in t && AtOrBelow(c, z) ==> z in u
    ensures Gone(t, rights, c, q) <==> Gone(u, rights, c, q)
  {
    hide Components;
    if AtOrBelow(c, q) {
      forall z | z in t && AtOrBelow(q, z) ensures z in u && t[z] == u[z] {
        AboveIsTransitive(c, q, z);
      }
    }
  }

  lemma SiblingsAreApart(t: Disk, rights: Rights, p: bytes, done: set<bytes>, c: bytes, z: bytes)
    requires IsChild(p, c) && c !in done && forall d :: d in done ==> IsChild(p, d)
    requires AtOrBelow(c, z)
    ensures !GoneIn(t, rights, done, z)
  {
    hide Components;
    forall d | d in done ensures !AtOrBelow(d, z) {
      if AtOrBelow(d, z) {
        AboveIsLinear(c, d, z);
      }
    }
  }

  /** Removing one more child. */
  lemma AfterOneMore(t: Disk, rights: Rights, p: bytes, done: set<bytes>, c: bytes)
    requires IsChild(p, c) && c !in done && forall d :: d in done ==> IsChild(p, d)
    ensures rights.Fits(c) ==> Removed(After(t, rights, done), rights, c) == After(t, rights, done + {c})
    ensures !rights.Fits(c) ==> After(t, rights, done) == After(t, rights, done + {c})
  {
    hide Components, Gone, IsChild;
    var u := After(t, rights, done);
    forall z | z in t && AtOrBelow(c, z) ensures z in u {
      SiblingsAreApart(t, rights, p, done, c, z);
    }
    forall q | q in t ensures Gone(t, rights, c, q) <==> Gone(u, rights, c, q) {
      GoneIsLocal(t, u, rights, c, q);
    }
    forall q ensures GoneIn(t, rights, done + {c}, q) <==>
                     GoneIn(t, rights, done, q) || (rights.Fits(c) && Gone(t, rights, c, q)) {
    }
  }

  lemma GoneThroughChild(t: Disk, rights: Rights, p: bytes, c: bytes, q: bytes)
    requires Rooted(t) && p in t && Listable(t, rights, p)
    requires c in t && IsChild(p, c) && rights.Fits(c) && Gone(t, rights, c, q)
    ensures Gone(t, rights, p, q) && q != p
  {
    hide Components, Listable;
    AboveIsTransitive(p, c, q);
    BelowIsStrict(p, q);
    forall a | a in t && AtOrBelow(p, a) && Below(a, q)
      ensures Listable(t, rights, a) && (a != p ==> rights.Fits(a))
    {
      hide Gone, Deletable;
      BetweenParentAndChild(p, c, a, q);
      assert Reached(t, rights, c, q);
    }
    forall z | z in t && AtOrBelow(q, z) ensures Deletable(t, rights, p, z) {
      assert Deletable(t, rights, c, z);
    }
  }

  /** What is on the way from `p` through its child `c` to `q` is `p`, or `c`, or below `c`. */
  lemma BetweenParentAndChild(p: bytes, c: bytes, a: bytes, q: bytes)
    requires IsChild(p, c) && AtOrBelow(c, q) && AtOrBelow(p, a) && Below(a, q)
    ensures a == p || a == c || AtOrBelow(c, a)
  {
    hide Components;
    BelowIsStrict(a, q);
    BelowIsStrict(p, a);
    AboveIsLinear(c, a, q);
    BelowIsStrict(c, a);
  }

  lemma GoneFromParent(t: Disk, rights: Rights, p: bytes, q: bytes) returns (c: bytes)
    requires Rooted(t) && p in t && q in t && q != p && Gone(t, rights, p, q)
    ensures c in t && IsChild(p, c) && rights.Fits(c) && Gone(t, rights, c, q)
  {
    hide Components;
    BelowIsStrict(p, q);
    c := ChildTowards(t, p, q);
    BelowIsStrict(c, q);
    BelowIsStrict(p, c);
    assert Reached(t, rights, c, q) by {
      forall a | a in t && AtOrBelow(c, a) && Below(a, q)
        ensures Listable(t, rights, a) && (a != c ==> rights.Fits(a))
      {
        AboveIsTransitive(p, c, a);
        BelowIsStrict(p, a);
      }
    }
    forall z | z in t && AtOrBelow(q, z) ensures Deletable(t, rights, c, z) {
      assert Deletable(t, rights, p, z);
      AboveIsTransitive(p, q, z);
      BelowIsStrict(p, z);
    }
  }

  ghost function ChildrenIn(t: Disk, p: bytes): set<bytes> {
    set q | q in t && IsChild(p, q)
  }

  /** With every child dealt with, only `p` itself is left to decide. */
  lemma AfterAllChildren(t: Disk, rights: Rights, p: bytes)
    requires Rooted(t) && p in t && Listable(t, rights, p)
    ensures p in After(t, rights, ChildrenIn(t, p))
    ensures var u := After(t, rights, ChildrenIn(t, p));
            Removed(t, rights, p) ==
            if rights.removable(p) && (forall q :: q in u ==> !IsChild(p, q)) then u - {p} else u
  {
    hide Components, Gone, IsChild, Rooted;
    var cs := ChildrenIn(t, p);
    forall q | q in t ensures GoneIn(t, rights, cs, q) <==> q != p && Gone(t, rights, p, q) {
      if GoneIn(t, rights, cs, q) {
        var c :| c in cs && rights.Fits(c) && Gone(t, rights, c, q);
        GoneThroughChild(t, rights, p, c, q);
      }
      if q != p && Gone(t, rights, p, q) {
        var c := GoneFromParent(t, rights, p, q);
      }
    }
    DirectoryGoesIff(t, rights, p);
    var u := After(t, rights, cs);
    forall q | q in t && IsChild(p, q) ensures q != p && (q in u <==> !Gone(t, rights, p, q)) {
      ChildIsOther(p, q);
    }
  }

  lemma ChildIsOther(p: bytes, q: bytes)
    requires IsChild(p, q)
    ensures q != p
  {
    BelowIsStrict(p, q);
  }

  lemma DirectoryGoesIff(t: Disk, rights: Rights, p: bytes)
    requires Rooted(t) && p in t && Listable(t, rights, p)
    ensures Gone(t, rights, p, p) <==>
            rights.removable(p) && forall q :: q in t && IsChild(p, q) ==> Gone(t, rights, p, q)
  {
    hide Components;
    AboveIsReflexive(p);
    if Gone(t, rights, p, p) {
      forall q | q in t && IsChild(p, q) ensures Gone(t, rights, p, q) {
        ChildGoes(t, rights, p, q);
      }
    }
    assert Reached(t, rights, p, p) by {
      forall a | a in t && AtOrBelow(p, a) && Below(a, p) ensures false {
        AboveIsTransitive(p, a, p);
        AboveIsReflexive(p);
      }
    }
    if rights.removable(p) && forall q :: q in t && IsChild(p, q) ==> Gone(t, rights, p, q) {
      forall z | z in t && AtOrBelow(p, z) ensures Deletable(t, rights, p, z) {
        BelowIsStrict(p, z);
        if z != p {
          var c := ChildTowards(t, p, z);
          assert Gone(t, rights, p, c);
        }
      }
    }
  }

  lemma ChildGoes(t: Disk, rights: Rights, p: bytes, q: bytes)
    requires p in t && Gone(t, rights, p, p) && q in t && IsChild(p, q)
    ensures Gone(t, rights, p, q)
  {
    hide Components;
    forall a | a in t && AtOrBelow(p, a) && Below(a, q)
      ensures Listable(t, rights, a) && (a != p ==> rights.Fits(a))
    {
      assert Deletable(t, rights, p, a);
    }
    assert Deletable(t, rights, p, q);
    forall z | z in t && AtOrBelow(q, z) ensures Deletable(t, rights, p, z) {
      AboveIsTransitive(p, q, z);
    }
  }

  lemma FileGoesIff(t: Disk, rights: Rights, p: bytes)
    requires Rooted(t) && p in t && !t[p].Directory?
    ensures Removed(t, rights, p) == if rights.removable(p) then t - {p} else t
  {
    hide Components, Rooted;
    AboveIsReflexive(p);
    forall q | q in t ensures Gone(t, rights, p, q) <==> q == p && rights.removable(p) {
      if AtOrBelow(p, q) {
        FilesHoldNothing(t, p, q);
      }
      forall z | z in t && AtOrBelow(p, z) ensures z == p {
        FilesHoldNothing(t, p, z);
      }
      forall a | a in t && AtOrBelow(p, a) && Below(a, p) ensures false {
        FilesHoldNothing(t, p, a);
      }
    }
  }

  lemma UnreadableStays(t: Disk, rights: Rights, p: bytes)
    requires p in t && !Listable(t, rights, p)
    ensures Removed(t, rights, p) == t
  {
    hide Components;
    AboveIsReflexive(p);
    forall q | q in t ensures !Gone(t, rights, p, q) {
      BelowIsStrict(p, q);
    }
  }

  lemma RemovedStaysRooted(t: Disk, rights: Rights, p: bytes)
    requires Rooted(t)
    ensures Rooted(Removed(t, rights, p))
  {
    hide Components;
    var u := Removed(t, rights, p);
    forall q | q in u && q != [] ensures exists d :: d in u && u[d].Directory? && IsChild(d, q) {
      var d :| d in t && t[d].Directory? && IsChild(d, q);
      if Gone(t, rights, p, d) {
        EntriesGoToo(t, rights, p, d, q);
      }
    }
  }

  lemma EntriesGoToo(t: Disk, rights: Rights, p: bytes, d: bytes, q: bytes)
    requires d in t && q in t && IsChild(d, q) && Gone(t, rights, p, d)
    ensures Gone(t, rights, p, q)
  {
    hide Components;
    AboveIsTransitive(p, d, q);
    BelowIsStrict(p, q);
    AboveIsReflexive(d);
    assert Deletable(t, rights, p, q) && Deletable(t, rights, p, d);
    forall a | a in t && AtOrBelow(p, a) && Below(a, q)
      ensures Listable(t, rights, a) && (a != p ==> rights.Fits(a))
    {
      AboveIsLinear(d, a, q);
    }
    forall z | z in t && AtOrBelow(q, z) ensures Deletable(t, rights, p, z) {
      AboveIsTransitive(d, q, z);
    }
  }

  lemma NothingDone(t: Disk, rights: Rights)
    ensures After(t, rights, {}) == t
  {
  }

  lemma ChildIsStillThere(t: Disk, rights: Rights, p: bytes, done: set<bytes>, c: bytes)
    requires c in t && IsChild(p, c) && c !in done && forall d :: d in done ==> IsChild(p, d)
    ensures c in After(t, rights, done)
  {
    AboveIsReflexive(c);
    SiblingsAreApart(t, rights, p, done, c, c);
  }

  lemma FewerBelow(t: Disk, u: Disk, p: bytes, q: bytes)
    requires Within(u, t) && q in t && IsChild(p, q)
    ensures (set z | z in u && Below(q, z)) < (set z | z in t && Below(p, z))
  {
    hide Components;
    AboveIsReflexive(q);
    forall z | z in u && Below(q, z) ensures Below(p, z) {
      AboveIsTransitive(p, q, z);
    }
    var inner, outer := set z | z in u && Below(q, z), set z | z in t && Below(p, z);
    assert inner <= outer && q in outer && q !in inner;
  }

  // ----- what removal can do, seen beforehand -----

  /** Nothing will stand in the way of a rename to the path: it is free; or a file that can go; or a directory all of
      whose entries, if it has any, can be listed and can go. */
  ghost predicate CanBeCleared(t: Disk, rights: Rights) {
    [] in t ==>
      if t[[]].Directory? then forall z :: z in t && z != [] ==> rights.readable([]) && Deletable(t, rights, [], z)
      else rights.removable([])
  }

  /** Nothing is below `q`. */
  ghost predicate IsLeaf(t: Disk, q: bytes) {
    forall z :: z in t ==> !Below(q, z)
  }

  /** The removal can begin nowhere: of the entries without entries below them, it reaches none that can go. */
  ghost predicate NothingCanGo(t: Disk, rights: Rights) {
    forall q :: q in t && IsLeaf(t, q) && Reached(t, rights, [], q) ==> !Deletable(t, rights, [], q)
  }

  lemma OnlyRootIsAboveRoot(q: bytes)
    ensures AtOrBelow(q, []) <==> q == []
    ensures Below([], q) <==> q != []
  {
    RootIsTop(q);
    RootIsAbove(q);
    BelowIsStrict([], q);
  }

  lemma EntriesCanBeCleared(t: Disk, rights: Rights)
    requires Rooted(t) && [] in t && t[[]].Directory?
    ensures (forall q :: q in t && q != [] ==> Gone(t, rights, [], q)) <==> CanBeCleared(t, rights)
  {
    hide Components, Rooted, AtOrBelow, Below;
    forall q ensures AtOrBelow([], q) && (AtOrBelow(q, []) <==> q == []) && (Below([], q) <==> q != []) {
      RootIsAbove(q);
      OnlyRootIsAboveRoot(q);
    }
    if CanBeCleared(t, rights) {
      forall q | q in t && q != [] ensures Gone(t, rights, [], q) {
      }
    }
    forall q | q in t && q != [] && Gone(t, rights, [], q)
      ensures rights.readable([]) && Deletable(t, rights, [], q)
    {
      AboveIsReflexive(q);
      assert Listable(t, rights, []);
    }
  }

  /** The path can be renamed to after its removal exactly when it can be cleared. */
  lemma ReplaceableIff(t: Disk, rights: Rights)
    requires Rooted(t)
    ensures Replaceable(Removed(t, rights, [])) <==> CanBeCleared(t, rights)
  {
    hide Components, Rooted, Gone, Deletable;
    var left := Removed(t, rights, []);
    if [] !in t {
      NothingWithoutRoot(t);
      assert left == map[];
    } else if t[[]].Directory? {
      EntriesCanBeCleared(t, rights);
      if forall q :: q in t && q != [] ==> Gone(t, rights, [], q) {
        assert left == if [] in left then map[[] := Directory] else map[];
      } else {
        var q :| q in t && q != [] && !Gone(t, rights, [], q);
        assert q in left;
      }
    } else {
      FileGoesIff(t, rights, []);
      forall q | q in t ensures q == [] {
        RootIsAbove(q);
        FilesHoldNothing(t, [], q);
      }
      assert [] in left ==> left[[]] == t[[]];
      assert !rights.removable([]) ==> [] in left;
      assert rights.removable([]) ==> left == map[];
    }
  }

  lemma NothingWithoutRoot(t: Disk)
    requires Rooted(t) && [] !in t
    ensures t == map[]
  {
    hide Components, Rooted;
    forall q | q in t ensures false {
      HasRoot(t, q);
    }
  }

  lemma {:induction false} HasRoot(t: Disk, q: bytes)
    requires Rooted(t) && q in t
    ensures [] in t
    decreases |Components(q)|
  {
    hide Components;
    if q == [] {
    } else {
      var d :| d in t && t[d].Directory? && IsChild(d, q);
      HasRoot(t, d);
    }
  }

  lemma {:induction false} LeafBelow(t: Disk, q: bytes) returns (z: bytes)
    requires q in t
    ensures z in t && AtOrBelow(q, z) && IsLeaf(t, z)
    decreases set z | z in t && Below(q, z)
  {
    hide Components;
    if IsLeaf(t, q) {
      AboveIsReflexive(q);
      z := q;
    } else {
      var c :| c in t && Below(q, c);
      var inner, outer := set z | z in t && Below(c, z), set z | z in t && Below(q, z);
      BelowIsStrict(q, c);
      AboveIsReflexive(c);
      forall z | z in t && Below(c, z) ensures Below(q, z) {
        AboveIsTransitive(q, c, z);
      }
      assert inner <= outer && c in outer && c !in inner;
      z := LeafBelow(t, c);
      AboveIsTransitive(q, c, z);
    }
  }

  /** The removal leaves everything as it was exactly when it can begin nowhere. */
  lemma UntouchedIff(t: Disk, rights: Rights)
    ensures Removed(t, rights, []) == t <==> NothingCanGo(t, rights)
  {
    hide Components, Gone, IsLeaf, Reached, Deletable;
    var left := Removed(t, rights, []);
    if left == t && !NothingCanGo(t, rights) {
      var q :| q in t && IsLeaf(t, q) && Reached(t, rights, [], q) && Deletable(t, rights, [], q);
      LeafGoes(t, rights, q);
      assert false;
    }
    if left != t && NothingCanGo(t, rights) {
      assert exists q :: q in t && q !in left;
      var q :| q in t && q !in left;
      var z := LeafBelow(t, q);
      WhatGoesIsReached(t, rights, q, z);
      assert false;
    }
  }

  lemma LeafGoes(t: Disk, rights: Rights, q: bytes)
    requires q in t && IsLeaf(t, q) && Reached(t, rights, [], q) && Deletable(t, rights, [], q)
    ensures Gone(t, rights, [], q)
  {
    hide Components, Reached, Deletable;
    RootIsAbove(q);
    forall z | z in t && AtOrBelow(q, z) ensures z == q {
      BelowIsStrict(q, z);
    }
  }

  lemma WhatGoesIsReached(t: Disk, rights: Rights, q: bytes, z: bytes)
    requires q in t && Gone(t, rights, [], q) && z in t && AtOrBelow(q, z)
    ensures Reached(t, rights, [], z) && Deletable(t, rights, [], z)
  {
    hide Components;
    assert Deletable(t, rights, [], z);
    forall a | a in t && AtOrBelow([], a) && Below(a, z)
      ensures Listable(t, rights, a) && (a != [] ==> rights.Fits(a))
    {
      BelowIsStrict(a, z);
      AboveIsLinear(q, a, z);
      BelowIsStrict(q, a);
      BelowIsStrict(a, q);
      AboveIsReflexive(q);
      if AtOrBelow(q, a) {
        assert Deletable(t, rights, [], a);
      }
    }
  }

  // ----- the file system, step by step -----

  datatype Place = Output | Temp

  /** What is at the output path and at the temporary path. */
  datatype Snapshot = Snapshot(output: Disk, temp: Disk) {
    function At(place: Place): Disk {
      if place.Output? then output else temp
    }

    function With(place: Place, t: Disk): (s: Snapshot)
      ensures s.At(place) == t
    {
      if place.Output? then this.(output := t) else this.(temp := t)
    }
  }

  /** Each step only takes something away from what was at one place. */
  ghost predicate Shrinking(steps: seq<Snapshot>, before: Snapshot, place: Place) {
    forall i :: 0 <= i < |steps| ==>
      Within(steps[i].At(place), before.At(place)) && steps[i] == before.With(place, steps[i].At(place))
  }

  /** A directory can be renamed to a path that is free, or that is an empty directory. */
  predicate Replaceable(t: Disk) {
    t == map[] || t == map[[] := Directory]
  }

  /** The last step is the present state; without steps nothing has changed. */
  ghost predicate EndsIn(steps: seq<Snapshot>, before: Snapshot, now: Snapshot) {
    if steps == [] then now == before else steps[|steps| - 1] == now
  }

  /** What is at `place` stays rooted at every step. */
  ghost predicate AllRooted(steps: seq<Snapshot>, place: Place) {
    forall i :: 0 <= i < |steps| ==> Rooted(steps[i].At(place))
  }

  /** The steps of a removal: each takes something away at `place`, and leaves it rooted. */
  ghost predicate Removing(steps: seq<Snapshot>, before: Snapshot, place: Place) {
    Shrinking(steps, before, place) && AllRooted(steps, place)
  }

  lemma NoStepYet(before: Snapshot, place: Place)
    ensures Removing([], before, place)
  {
  }

  lemma RemovingOn(steps: seq<Snapshot>, more: seq<Snapshot>, before: Snapshot, mid: Snapshot, place: Place)
    requires Removing(steps, before, place) && Removing(more, mid, place)
    requires mid == before.With(place, mid.At(place)) && Within(mid.At(place), before.At(place))
    ensures Removing(steps + more, before, place)
  {
    hide Rooted, Within;
    forall i | 0 <= i < |steps + more|
      ensures Within((steps + more)[i].At(place), before.At(place)) && Rooted((steps + more)[i].At(place))
      ensures (steps + more)[i] == before.With(place, (steps + more)[i].At(place))
    {
      if i >= |steps| {
        assert (steps + more)[i] == more[i - |steps|];
        StillWithin(more[i - |steps|].At(place), mid.At(place), before.At(place));
      }
    }
  }

  lemma StillWithin(a: Disk, b: Disk, c: Disk)
    requires Within(a, b) && Within(b, c)
    ensures Within(a, c)
  {
  }

  lemma RemovingOne(before: Snapshot, after: Snapshot, place: Place)
    requires after == before.With(place, after.At(place))
    requires Within(after.At(place), before.At(place)) && Rooted(after.At(place))
    ensures Removing([after], before, place)
  {
  }

  class FileSystem {
    var now: Snapshot
    /** Every state the two paths went through. */
    ghost var history: seq<Snapshot>

    constructor (start: Snapshot)
      ensures now == start && history == [start]
    {
      now := start;
      history := [start];
    }

    method Put(place: Place, t: Disk)
      modifies this
      ensures now == old(now).With(place, t)
      ensures history == old(history) + [now]
    {
      now := now.With(place, t);
      history := history + [now];
    }

    /** Deletes a file or an empty directory, if that is permitted. */
    method Delete(place: Place, rights: Rights, p: bytes)
      requires p in now.At(place)
      modifies this
      ensures now == old(now).With(place, if rights.removable(p) then old(now).At(place) - {p} else old(now).At(place))
      ensures history == old(history) + [now]
    {
      Put(place, if rights.removable(p) then now.At(place) - {p} else now.At(place));
    }

    /** Renames the temporary path to the output path. */
    method Rename(permitted: bool) returns (ok: bool)
      modifies this
      ensures ok <==> permitted && Replaceable(old(now).output)
      ensures if ok then now == Snapshot(old(now).temp, map[]) && history == old(history) + [now]
              else now == old(now) && history == old(history)
    {
      ok := permitted && Replaceable(now.output);
      if ok {
        now := Snapshot(now.temp, map[]);
        history := history + [now];
      }
    }

    /** Removes what is at `p`, entry by entry, in whatever order the directory gives them. */
    method RemoveNode(place: Place, rights: Rights, p: bytes) returns (ghost steps: seq<Snapshot>)
      requires p in now.At(place) && Rooted(now.At(place))
      modifies this
      ensures now == old(now).With(place, Removed(old(now).At(place), rights, p)) && Rooted(now.At(place))
      ensures history == old(history) + steps && Removing(steps, old(now), place) && EndsIn(steps, old(now), now)
      decreases set q | q in now.At(place) && Below(p, q)
    {
      hide Components, Rooted, Gone, GoneIn, AtOrBelow, IsChild, Below, Removing;
      ghost var before := now;
      ghost var t := now.At(place);
      RemovedStaysRooted(t, rights, p);
      if !now.At(place)[p].Directory? {
        FileGoesIff(t, rights, p);
        Delete(place, rights, p);
        RemovingOne(before, now, place);
        steps := [now];
        return;
      }
      if !rights.readable(p) {
        UnreadableStays(t, rights, p);
        NoStepYet(before, place);
        steps := [];
        return;
      }
      var pending := set q | q in now.At(place) && IsChild(p, q);
      ghost var done: set<bytes> := {};
      steps := [];
      NothingDone(t, rights);
      NoStepYet(before, place);
      while pending != {}
        invariant done + pending == ChildrenIn(t, p) && done !! pending
        invariant now == before.With(place, After(t, rights, done)) && Rooted(now.At(place))
        invariant history == old(history) + steps && Removing(steps, before, place) && EndsIn(steps, before, now)
        decreases pending
      {
        var q :| q in pending;
        assert q in ChildrenIn(t, p) && forall d :: d in done ==> d in ChildrenIn(t, p);
        AfterOneMore(t, rights, p, done, q);
        if rights.Fits(q) {
          ghost var mid := now;
          ChildIsStillThere(t, rights, p, done, q);
          FewerBelow(t, now.At(place), p, q);
          ghost var more := RemoveNode(place, rights, q);
          RemovingOn(steps, more, before, mid, place);
          steps := steps + more;
        }
        pending, done := pending - {q}, done + {q};
        assert done + pending == ChildrenIn(t, p);
      }
      assert done == ChildrenIn(t, p);
      AfterAllChildren(t, rights, p);
      if forall q :: q in now.At(place) ==> !IsChild(p, q) {
        ghost var mid := now;
        Delete(place, rights, p);
        RemovingOne(mid, now, place);
        RemovingOn(steps, [now], before, mid, place);
        steps := steps + [now];
      }
    }
  }
}
