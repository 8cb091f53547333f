/**
 The live view of a JFFS2 log: which record of each name, and of each inode, is the current one.
 The reader sorts the records and searches them; what it finds is the newest record of the unsorted log.
 */
module Jffs2View {
  import opened Bytes
  import opened Jffs2Log

  // ----- the comparators -----

  function Memcmp(a: bytes, b: bytes): int
    requires |a| == |b|
  {
    if a == [] then 0
    else if a[0] != b[0] then (a[0] as int) - b[0]
    else Memcmp(a[1..], b[1..])
  }

  function NameCmp(a: bytes, b: bytes): int {
    var minLen := if |a| < |b| then |a| else |b|;
    var c := Memcmp(a[..minLen], b[..minLen]);
    if c != 0 then c
    else if |a| != |b| then (if |a| < |b| then -1 else 1)
    else 0
  }

  function DirentCmp(a: Dirent, b: Dirent): int {
    if a.pino != b.pino then (if a.pino < b.pino then -1 else 1)
    else
      var c := NameCmp(a.name, b.name);
      if c != 0 then c
      else if a.version != b.version then (if a.version < b.version then -1 else 1)
      else 0
  }

  function InodeCmp(a: InodeRec, b: InodeRec): int {
    if a.ino != b.ino then (if a.ino < b.ino then -1 else 1)
    else if a.version != b.version then (if a.version < b.version then -1 else 1)
    else 0
  }

  predicate DirentLe(a: Dirent, b: Dirent) {
    DirentCmp(a, b) <= 0
  }

  predicate InodeLe(a: InodeRec, b: InodeRec) {
    InodeCmp(a, b) <= 0
  }

  /** One step of the comparison of two names, seen as words in a dictionary. */
  lemma NameCmpStep(a: bytes, b: bytes)
    requires a != [] && b != []
    ensures NameCmp(a, b) == if a[0] != b[0] then (a[0] as int) - b[0] else NameCmp(a[1..], b[1..])
  {
    var n := if |a| < |b| then |a| else |b|;
    assert a[..n][1..] == a[1..][..n - 1] && b[..n][1..] == b[1..][..n - 1];
  }

  lemma {:induction false} NameCmpOrders(a: bytes, b: bytes)
    ensures NameCmp(a, b) == 0 <==> a == b
    ensures NameCmp(a, b) < 0 <==> NameCmp(b, a) > 0
  {
    if a != [] && b != [] {
      NameCmpStep(a, b);
      NameCmpStep(b, a);
      if a[0] == b[0] {
        NameCmpOrders(a[1..], b[1..]);
        assert a == [a[0]] + a[1..] && b == [b[0]] + b[1..];
      }
    }
  }

  lemma {:induction false} NameCmpTransitive(a: bytes, b: bytes, c: bytes)
    requires NameCmp(a, b) <= 0 && NameCmp(b, c) <= 0
    ensures NameCmp(a, c) <= 0
  {
    if a != [] && b != [] && c != [] {
      NameCmpStep(a, b);
      NameCmpStep(b, c);
      NameCmpStep(a, c);
      if a[0] == b[0] == c[0] {
        NameCmpTransitive(a[1..], b[1..], c[1..]);
      }
    }
  }

  /** `a` ends inside `b` after the first `k` bytes, or is smaller than `b` in the byte after them. */
  ghost predicate DiffersBelow(a: bytes, b: bytes, k: nat) {
    k <= |a| && k < |b| && a[..k] == b[..k] && (k == |a| || a[k] < b[k])
  }

  /** The order of a dictionary, with a name before the longer ones that it begins. */
  ghost predicate Before(a: bytes, b: bytes) {
    exists k: nat :: DiffersBelow(a, b, k)
  }

  lemma DiffersLater(x: byte, a: bytes, b: bytes, k: nat)
    ensures DiffersBelow(a, b, k) <==> DiffersBelow([x] + a, [x] + b, k + 1)
  {
    if k <= |a| && k <= |b| {
      assert ([x] + a)[..k + 1] == [x] + a[..k] && ([x] + b)[..k + 1] == [x] + b[..k];
      assert a[..k] == ([x] + a)[..k + 1][1..] && b[..k] == ([x] + b)[..k + 1][1..];
    }
  }

  /** Names are compared as a dictionary orders them. */
  lemma {:induction false} NameCmpIs(a: bytes, b: bytes)
    ensures NameCmp(a, b) < 0 <==> Before(a, b)
    ensures NameCmp(a, b) > 0 <==> Before(b, a)
  {
    hide NameCmp;
    NameCmpOrders(a, b);
    NameCmpOrders(b, a);
    if a != [] && b != [] && a[0] == b[0] {
      NameCmpIs(a[1..], b[1..]);
      NameCmpStep(a, b);
      BehindTheSame(a, b);
      BehindTheSame(b, a);
    } else {
      FirstDecides(a, b);
      FirstDecides(b, a);
    }
  }

  lemma BehindTheSame(a: bytes, b: bytes)
    requires a != [] && b != [] && a[0] == b[0]
    ensures Before(a, b) <==> Before(a[1..], b[1..])
  {
    hide DiffersBelow;
    assert a == [a[0]] + a[1..] && b == [a[0]] + b[1..];
    if Before(a, b) {
      var k: nat :| DiffersBelow(a, b, k);
      NotAtTheSame(a, b, k);
      DiffersLater(a[0], a[1..], b[1..], k - 1);
    }
    if Before(a[1..], b[1..]) {
      var k: nat :| DiffersBelow(a[1..], b[1..], k);
      DiffersLater(a[0], a[1..], b[1..], k);
    }
  }

  lemma NotAtTheSame(a: bytes, b: bytes, k: nat)
    requires a != [] && b != [] && a[0] == b[0] && DiffersBelow(a, b, k)
    ensures k > 0
  {
  }

  lemma StartTheSame(a: bytes, b: bytes, k: nat)
    requires DiffersBelow(a, b, k) && k > 0
    ensures a != [] && b != [] && a[0] == b[0]
  {
    assert a[..k][0] == b[..k][0];
  }

  lemma FirstDecides(a: bytes, b: bytes)
    requires a == [] || b == [] || a[0] != b[0]
    ensures Before(a, b) <==> b != [] && (a == [] || a[0] < b[0])
    ensures NameCmp(a, b) < 0 <==> b != [] && (a == [] || a[0] < b[0])
  {
    if b != [] && (a == [] || a[0] < b[0]) {
      assert DiffersBelow(a, b, 0);
    }
    if Before(a, b) {
      var k: nat :| DiffersBelow(a, b, k);
      if k > 0 {
        StartTheSame(a, b, k);
      }
    }
  }

  /** Dirents are ordered by directory, then by name, then by version. */
  lemma DirentOrder(a: Dirent, b: Dirent)
    ensures DirentLe(a, b) <==>
            || a.pino < b.pino
            || (a.pino == b.pino && (Before(a.name, b.name) || (a.name == b.name && a.version <= b.version)))
    ensures DirentLe(a, b) && DirentLe(b, a) <==> a.pino == b.pino && a.name == b.name && a.version == b.version
  {
    hide NameCmp, Before;
    NameCmpOrders(a.name, b.name);
    NameCmpOrders(b.name, a.name);
    NameCmpIs(a.name, b.name);
  }

  /** Inode records are ordered by inode, then by version. */
  lemma InodeOrder(a: InodeRec, b: InodeRec)
    ensures InodeLe(a, b) <==> a.ino < b.ino || (a.ino == b.ino && a.version <= b.version)
  {
  }

  ghost predicate TotalPreorder<T(!new)>(le: (T, T) -> bool) {
    && (forall a, b :: le(a, b) || le(b, a))
    && (forall a, b, c :: le(a, b) && le(b, c) ==> le(a, c))
  }

  lemma DirentLeTransitive(a: Dirent, b: Dirent, c: Dirent)
    requires DirentLe(a, b) && DirentLe(b, c)
    ensures DirentLe(a, c)
  {
    if a.pino == b.pino == c.pino {
      NameCmpTransitive(a.name, b.name, c.name);
      NameCmpOrders(a.name, b.name);
      NameCmpOrders(b.name, c.name);
      NameCmpOrders(a.name, c.name);
      if a.name == c.name {
        assert NameCmp(b.name, a.name) <= 0 && NameCmp(a.name, b.name) <= 0;
      }
    }
  }

  lemma ComparatorsAreTotalPreorders()
    ensures TotalPreorder(DirentLe) && TotalPreorder(InodeLe)
  {
    forall a, b ensures DirentLe(a, b) || DirentLe(b, a) {
      NameCmpOrders(a.name, b.name);
      NameCmpOrders(b.name, a.name);
    }
    forall a, b, c | DirentLe(a, b) && DirentLe(b, c) ensures DirentLe(a, c) {
      DirentLeTransitive(a, b, c);
    }
  }

  // ----- sorting -----

  ghost predicate Sorted<T>(s: seq<T>, le: (T, T) -> bool) {
    forall i, j :: 0 <= i < j < |s| ==> le(s[i], s[j])
  }

  /** All that is known of the C library's `qsort`: a sorted permutation, with ties in any order. */
  ghost predicate IsSortOf<T>(s: seq<T>, log: seq<T>, le: (T, T) -> bool) {
    Sorted(s, le) && multiset(s) == multiset(log)
  }

  lemma InsertionKeepsSorted<T>(s: seq<T>, k: nat, x: T, le: (T, T) -> bool)
    requires Sorted(s, le) && k <= |s|
    requires forall j :: 0 <= j < k ==> le(s[j], x)
    requires forall j :: k <= j < |s| ==> le(x, s[j])
    ensures Sorted(s[..k] + [x] + s[k..], le)
    ensures multiset(s[..k] + [x] + s[k..]) == multiset(s) + multiset{x}
  {
    assert s == s[..k] + s[k..];
    var t := s[..k] + [x] + s[k..];
    forall i, j | 0 <= i < j < |t| ensures le(t[i], t[j]) {
      assert t[i] == if i < k then s[i] else if i == k then x else s[i - 1];
      assert t[j] == if j < k then s[j] else if j == k then x else s[j - 1];
    }
  }

  lemma AboveInsertionPoint<T(!new)>(s: seq<T>, k: nat, x: T, le: (T, T) -> bool)
    requires TotalPreorder(le) && Sorted(s, le) && k <= |s|
    requires k < |s| ==> !le(s[k], x)
    ensures forall j :: k <= j < |s| ==> le(x, s[j])
  {
    forall j | k <= j < |s| ensures le(x, s[j]) {
      assert le(x, s[k]);
      assert j > k ==> le(s[k], s[j]);
    }
  }

  /** Stands for the C library's `qsort`. */
  method Qsort<T(!new)>(log: seq<T>, le: (T, T) -> bool) returns (s: seq<T>)
    requires TotalPreorder(le)
    ensures IsSortOf(s, log, le)
  {
    s := [];
    for i := 0 to |log|
      invariant IsSortOf(s, log[..i], le)
    {
      assert log[..i + 1] == log[..i] + [log[i]];
      var k := 0;
      while k < |s| && le(s[k], log[i])
        invariant k <= |s|
        invariant forall j :: 0 <= j < k ==> le(s[j], log[i])
      {
        k := k + 1;
      }
      AboveInsertionPoint(s, k, log[i], le);
      InsertionKeepsSorted(s, k, log[i], le);
      s := s[..k] + [log[i]] + s[k..];
    }
    assert log[..|log|] == log;
  }

  lemma SortKeepsMembers<T>(s: seq<T>, log: seq<T>, le: (T, T) -> bool, x: T)
    requires IsSortOf(s, log, le)
    ensures x in s <==> x in log
  {
    assert x in multiset(s) <==> x in multiset(log);
  }

  /** Records that compare equal are the same record: versions are distinct within each key. */
  ghost predicate VersionsIdentify<T(!new)>(log: seq<T>, le: (T, T) -> bool) {
    forall a, b :: a in log && b in log && le(a, b) && le(b, a) ==> a == b
  }

  lemma SortedHeadsAgree<T(!new)>(s: seq<T>, t: seq<T>, le: (T, T) -> bool)
    requires TotalPreorder(le) && VersionsIdentify(s, le)
    requires Sorted(s, le) && Sorted(t, le) && multiset(s) == multiset(t) && s != []
    ensures t != [] && s[0] == t[0]
  {
    assert s[0] in multiset(t);
    assert t[0] in multiset(s);
    assert le(s[0], s[0]) && le(t[0], t[0]);
    assert le(s[0], t[0]) && le(t[0], s[0]);
  }

  lemma TailMultiset<T>(s: seq<T>)
    requires s != []
    ensures multiset(s) == multiset{s[0]} + multiset(s[1..])
  {
    assert s == [s[0]] + s[1..];
  }

  lemma TailStaysSorted<T(!new)>(s: seq<T>, le: (T, T) -> bool)
    requires s != [] && Sorted(s, le) && VersionsIdentify(s, le)
    ensures Sorted(s[1..], le) && VersionsIdentify(s[1..], le)
  {
    assert forall x :: x in s[1..] ==> x in s;
  }

  lemma TailsAgree<T>(s: seq<T>, t: seq<T>)
    requires s != [] && t != [] && s[0] == t[0] && multiset(s) == multiset(t)
    ensures multiset(s[1..]) == multiset(t[1..])
  {
    TailMultiset(s);
    TailMultiset(t);
    assert multiset(s[1..]) == multiset(s) - multiset{s[0]};
    assert multiset(t[1..]) == multiset(t) - multiset{t[0]};
  }

  lemma NothingToSort<T>(t: seq<T>)
    requires multiset(t) == multiset([])
    ensures t == []
  {
    assert |t| == |multiset(t)|;
  }

  /** With distinct versions the sorted order is unique, so it cannot depend on the order of the log. */
  lemma {:induction false} SortIsUnique<T(!new)>(s: seq<T>, t: seq<T>, le: (T, T) -> bool)
    requires TotalPreorder(le) && VersionsIdentify(s, le) && VersionsIdentify(t, le)
    requires Sorted(s, le) && Sorted(t, le) && multiset(s) == multiset(t)
    ensures s == t
  {
    hide *;
    if s == [] {
      NothingToSort(t);
    } else {
      SortedHeadsAgree(s, t, le);
      TailsAgree(s, t);
      TailStaysSorted(s, le);
      TailStaysSorted(t, le);
      SortIsUnique(s[1..], t[1..], le);
      assert s == [s[0]] + s[1..] && t == [t[0]] + t[1..];
    }
  }

  // ----- searching -----

  ghost predicate OrderedBy<T>(s: seq<T>, key: T -> int) {
    forall i, j :: 0 <= i < j < |s| ==> key(s[i]) <= key(s[j])
  }

  /** Binary search for the first record whose key is not below `k`. */
  method LowerBound<T>(s: seq<T>, key: T -> int, k: int) returns (lo: nat)
    requires OrderedBy(s, key)
    ensures lo <= |s|
    ensures forall i :: 0 <= i < lo ==> key(s[i]) < k
    ensures forall i :: lo <= i < |s| ==> key(s[i]) >= k
  {
    lo := 0;
    var hi := |s|;
    while lo < hi
      invariant lo <= hi <= |s|
      invariant forall i :: 0 <= i < lo ==> key(s[i]) < k
      invariant forall i :: hi <= i < |s| ==> key(s[i]) >= k
    {
      var mid := lo + (hi - lo) / 2;
      if key(s[mid]) < k {
        lo := mid + 1;
      } else {
        hi := mid;
      }
    }
  }

  // ----- directories -----

  predicate SameName(a: Dirent, b: Dirent) {
    a.pino == b.pino && a.name == b.name
  }

  /** `s[j]` is the last record of its run of equal names. */
  predicate LastOfRun(s: seq<Dirent>, j: nat)
    requires j < |s|
  {
    j + 1 == |s| || !SameName(s[j], s[j + 1])
  }

  predicate IsLive(s: seq<Dirent>, j: nat, pino: uint32)
    requires j < |s|
  {
    s[j].pino == pino && LastOfRun(s, j) && s[j].ino != 0
  }

  /** The winning, undeleted records of directory `pino` from index `i` on. */
  function LiveFrom(s: seq<Dirent>, i: nat, pino: uint32): seq<Dirent>
    requires i <= |s|
    decreases |s| - i
  {
    if i == |s| then []
    else (if IsLive(s, i, pino) then [s[i]] else []) + LiveFrom(s, i + 1, pino)
  }

  function Live(s: seq<Dirent>, pino: uint32): seq<Dirent> {
    LiveFrom(s, 0, pino)
  }

  /** The end of the run that starts at `i`. */
  method RunEnd(s: seq<Dirent>, i: nat) returns (end: nat)
    requires i < |s|
    ensures i < end <= |s|
    ensures forall j :: i <= j < end ==> SameName(s[j], s[i])
    ensures end < |s| ==> !SameName(s[end], s[i])
  {
    end := i + 1;
    while end < |s| && s[end].pino == s[i].pino && NameCmp(s[end].name, s[i].name) == 0
      invariant i < end <= |s|
      invariant forall j :: i <= j < end ==> SameName(s[j], s[i])
    {
      NameCmpOrders(s[end].name, s[i].name);
      end := end + 1;
    }
    if end < |s| {
      NameCmpOrders(s[end].name, s[i].name);
    }
  }

  /** A run contributes its last record, if that is not a deletion. */
  lemma {:induction false} LiveOfRun(s: seq<Dirent>, i: nat, j: nat, end: nat, pino: uint32)
    requires i <= j < end <= |s| && s[i].pino == pino
    requires forall k :: i <= k < end ==> SameName(s[k], s[i])
    requires end < |s| ==> !SameName(s[end], s[i])
    ensures LiveFrom(s, j, pino) ==
            (if s[end - 1].ino != 0 then [s[end - 1]] else []) + LiveFrom(s, end, pino)
    decreases end - j
  {
    if j + 1 < end {
      LiveOfRun(s, i, j + 1, end, pino);
      assert SameName(s[j], s[j + 1]);
      assert LiveFrom(s, j, pino) == [] + LiveFrom(s, j + 1, pino);
    }
  }

  lemma {:induction false} NotLiveElsewhere(s: seq<Dirent>, i: nat, j: nat, pino: uint32)
    requires i <= j <= |s|
    requires forall k :: i <= k < j ==> s[k].pino != pino
    ensures LiveFrom(s, i, pino) == LiveFrom(s, j, pino)
    decreases j - i
  {
    if i < j {
      NotLiveElsewhere(s, i + 1, j, pino);
    }
  }

  lemma {:induction false} LiveFromMembers(s: seq<Dirent>, i: nat, pino: uint32, d: Dirent)
    requires i <= |s|
    ensures d in LiveFrom(s, i, pino) <==> exists j :: i <= j < |s| && IsLive(s, j, pino) && s[j] == d
    decreases |s| - i
  {
    if i < |s| {
      LiveFromMembers(s, i + 1, pino, d);
    }
  }

  lemma LaterInRun(s: seq<Dirent>, j: nat, k: nat)
    requires Sorted(s, DirentLe)
    requires j <= k < |s| && SameName(s[j], s[k])
    ensures s[j].version <= s[k].version
    ensures forall m :: j <= m <= k ==> SameName(s[m], s[j])
  {
    NameCmpOrders(s[j].name, s[k].name);
    forall m | j <= m <= k ensures SameName(s[m], s[j]) {
      if j < m < k {
        assert DirentLe(s[j], s[m]) && DirentLe(s[m], s[k]);
        NameCmpOrders(s[j].name, s[m].name);
        NameCmpOrders(s[m].name, s[k].name);
        assert NameCmp(s[j].name, s[m].name) <= 0 && NameCmp(s[m].name, s[j].name) <= 0;
      }
    }
  }

  /** No record of the same name in the same directory has a higher version. */
  ghost predicate IsNewest(log: seq<Dirent>, d: Dirent) {
    d in log && forall e :: e in log && SameName(e, d) ==> e.version <= d.version
  }

  lemma LastOfRunIsNewest(s: seq<Dirent>, j: nat)
    requires Sorted(s, DirentLe) && j < |s| && LastOfRun(s, j)
    ensures IsNewest(s, s[j])
  {
    forall k | 0 <= k < |s| && SameName(s[k], s[j]) ensures s[k].version <= s[j].version {
      if k > j {
        LaterInRun(s, j, k);
        assert false;
      } else {
        LaterInRun(s, k, j);
      }
    }
  }

  lemma {:induction false} RunHasALast(s: seq<Dirent>, j: nat) returns (k: nat)
    requires j < |s|
    ensures j <= k < |s| && LastOfRun(s, k) && SameName(s[j], s[k])
    decreases |s| - j
  {
    if LastOfRun(s, j) {
      k := j;
    } else {
      k := RunHasALast(s, j + 1);
    }
  }

  ghost predicate NamesIncrease(ds: seq<Dirent>) {
    forall i, j :: 0 <= i < j < |ds| ==> NameCmp(ds[i].name, ds[j].name) < 0
  }

  lemma {:induction false} LiveNamesIncrease(s: seq<Dirent>, i: nat, pino: uint32)
    requires Sorted(s, DirentLe) && i <= |s|
    ensures NamesIncrease(LiveFrom(s, i, pino))
    decreases |s| - i
  {
    hide NameCmp, DirentCmp;
    if i < |s| {
      LiveNamesIncrease(s, i + 1, pino);
      if IsLive(s, i, pino) {
        var rest := LiveFrom(s, i + 1, pino);
        forall k | 0 <= k < |rest| ensures NameCmp(s[i].name, rest[k].name) < 0 {
          LiveFromMembers(s, i + 1, pino, rest[k]);
          var j :| i + 1 <= j < |s| && IsLive(s, j, pino) && s[j] == rest[k];
          NextRunIsGreater(s, i, j);
        }
      }
    }
  }

  lemma NextRunIsGreater(s: seq<Dirent>, i: nat, j: nat)
    requires Sorted(s, DirentLe) && i < j < |s|
    requires LastOfRun(s, i) && s[i].pino == s[j].pino
    ensures NameCmp(s[i].name, s[j].name) < 0
  {
    assert DirentLe(s[i], s[j]);
    NameCmpOrders(s[i].name, s[j].name);
    if s[i].name == s[j].name {
      LaterInRun(s, i, j);
      assert false;
    }
  }

  /**
   What the sorted, searched view of a directory means for the unsorted log, however ties are ordered:
   at most one record per name, each a newest one and not a deletion; and every name whose newest records are
   not deletions is there.
   */
  lemma DirectoryView(log: seq<Dirent>, s: seq<Dirent>, pino: uint32)
    requires IsSortOf(s, log, DirentLe)
    ensures NamesIncrease(Live(s, pino))
    ensures forall d :: d in Live(s, pino) ==> d.pino == pino && d.ino != 0 && IsNewest(log, d)
    ensures forall e :: e in log && e.pino == pino &&
                        (forall w :: IsNewest(log, w) && SameName(w, e) ==> w.ino != 0) ==>
              exists d :: d in Live(s, pino) && d.name == e.name
  {
    LiveNamesIncrease(s, 0, pino);
    forall x ensures x in s <==> x in log {
      SortKeepsMembers(s, log, DirentLe, x);
    }
    forall d | d in Live(s, pino) ensures d.pino == pino && d.ino != 0 && IsNewest(log, d) {
      LiveFromMembers(s, 0, pino, d);
      var j :| 0 <= j < |s| && IsLive(s, j, pino) && s[j] == d;
      LastOfRunIsNewest(s, j);
    }
    forall e | e in log && e.pino == pino && (forall w :: IsNewest(log, w) && SameName(w, e) ==> w.ino != 0)
      ensures exists d :: d in Live(s, pino) && d.name == e.name
    {
      var j :| 0 <= j < |s| && s[j] == e;
      var k := RunHasALast(s, j);
      LastOfRunIsNewest(s, k);
      assert IsNewest(log, s[k]) && SameName(s[k], e);
      LiveFromMembers(s, 0, pino, s[k]);
    }
  }

  lemma NewestIsUnique(log: seq<Dirent>, w: Dirent, d: Dirent)
    requires VersionsIdentify(log, DirentLe)
    requires IsNewest(log, w) && IsNewest(log, d) && SameName(w, d)
    ensures w == d
  {
    NameCmpOrders(w.name, d.name);
    assert DirentLe(w, d) && DirentLe(d, w);
  }

  /** With distinct versions, exactly the newest undeleted record of each name is live. */
  lemma DirectoryViewExact(log: seq<Dirent>, s: seq<Dirent>, pino: uint32, d: Dirent)
    requires IsSortOf(s, log, DirentLe) && VersionsIdentify(log, DirentLe)
    ensures d in Live(s, pino) <==> d.pino == pino && d.ino != 0 && IsNewest(log, d)
  {
    hide Live, NameCmp;
    DirectoryView(log, s, pino);
    if d.pino == pino && d.ino != 0 && IsNewest(log, d) {
      forall w | IsNewest(log, w) && SameName(w, d) ensures w == d {
        NewestIsUnique(log, w, d);
      }
      var e :| e in Live(s, pino) && e.name == d.name;
      assert SameName(e, d);
    }
  }

  lemma SortOrderIsIrrelevant<T(!new)>(log1: seq<T>, log2: seq<T>, s1: seq<T>, s2: seq<T>, le: (T, T) -> bool)
    requires TotalPreorder(le) && multiset(log1) == multiset(log2) && VersionsIdentify(log1, le)
    requires IsSortOf(s1, log1, le) && IsSortOf(s2, log2, le)
    ensures s1 == s2
  {
    hide TotalPreorder;
    forall x ensures (x in s1 <==> x in log1) && (x in s2 <==> x in log1) {
      assert x in multiset(s1) <==> x in multiset(log1);
      assert x in multiset(s2) <==> x in multiset(log1);
    }
    SortIsUnique(s1, s2, le);
  }

  /** With distinct versions the order in which the records were written does not matter. */
  lemma LogOrderIsIrrelevant(log1: seq<Dirent>, log2: seq<Dirent>, s1: seq<Dirent>, s2: seq<Dirent>, pino: uint32)
    requires multiset(log1) == multiset(log2) && VersionsIdentify(log1, DirentLe)
    requires IsSortOf(s1, log1, DirentLe) && IsSortOf(s2, log2, DirentLe)
    ensures s1 == s2 && Live(s1, pino) == Live(s2, pino)
  {
    ComparatorsAreTotalPreorders();
    SortOrderIsIrrelevant(log1, log2, s1, s2, DirentLe);
  }

  // ----- inodes -----

  /** The last record of inode `ino`. */
  function LastOf(s: seq<InodeRec>, ino: uint32): Option<InodeRec> {
    if s == [] then None
    else if s[|s| - 1].ino == ino then Some(s[|s| - 1])
    else LastOf(s[..|s| - 1], ino)
  }

  ghost predicate IsNewestInode(log: seq<InodeRec>, r: InodeRec) {
    r in log && forall e :: e in log && e.ino == r.ino ==> e.version <= r.version
  }

  lemma {:induction false} LastOfIndex(s: seq<InodeRec>, ino: uint32) returns (j: int)
    ensures -1 <= j < |s|
    ensures if j < 0 then LastOf(s, ino) == None else s[j].ino == ino && LastOf(s, ino) == Some(s[j])
    ensures forall k :: j < k < |s| ==> s[k].ino != ino
  {
    j := |s| - 1;
    if s != [] && s[j].ino != ino {
      j := LastOfIndex(s[..j], ino);
    }
  }

  /** An inode's metadata is its newest record, and it is missing only when the inode has no record. */
  lemma InodeView(log: seq<InodeRec>, s: seq<InodeRec>, ino: uint32)
    requires IsSortOf(s, log, InodeLe)
    ensures LastOf(s, ino).None? <==> forall r :: r in log ==> r.ino != ino
    ensures LastOf(s, ino).Some? ==> LastOf(s, ino).value.ino == ino && IsNewestInode(log, LastOf(s, ino).value)
  {
    var j := LastOfIndex(s, ino);
    forall x ensures x in s <==> x in log {
      SortKeepsMembers(s, log, InodeLe, x);
    }
    if LastOf(s, ino).Some? {
      assert s[j] in log;
      forall e | e in log && e.ino == ino ensures e.version <= s[j].version {
        var i :| 0 <= i < |s| && s[i] == e;
        assert i < j ==> InodeLe(s[i], s[j]);
      }
    }
  }

  /** The records of one inode, as the half-open range that holds them. */
  method InodeRange(s: seq<InodeRec>, ino: uint32) returns (start: nat, end: nat)
    requires Sorted(s, InodeLe)
    ensures start <= end <= |s|
    ensures forall i :: 0 <= i < |s| ==> (s[i].ino == ino <==> start <= i < end)
  {
    start := LowerBound(s, (r: InodeRec) => r.ino, ino);
    end := start;
    while end < |s| && s[end].ino == ino
      invariant start <= end <= |s|
      invariant forall i :: start <= i < end ==> s[i].ino == ino
    {
      end := end + 1;
    }
    forall i | end <= i < |s| ensures s[i].ino != ino {
      assert i > end ==> InodeLe(s[end], s[i]);
    }
  }

  method FindInodeMeta(s: seq<InodeRec>, ino: uint32) returns (best: Option<InodeRec>)
    requires Sorted(s, InodeLe)
    ensures best == LastOf(s, ino)
  {
    hide LastOf;
    var i := LowerBound(s, (r: InodeRec) => r.ino, ino);
    best := None;
    LastOfSkips(s, ino, 0, i);
    assert s[..0] == [] && s[..|s|] == s;
    LastOfNone(ino);
    while i < |s| && s[i].ino == ino
      invariant i <= |s|
      invariant best == LastOf(s[..i], ino)
      invariant forall k :: i <= k < |s| ==> s[k].ino >= ino
    {
      best := Some(s[i]);
      LastOfMatch(s, ino, i);
      i := i + 1;
    }
    forall k | i <= k < |s| ensures s[k].ino != ino {
      assert k > i ==> InodeLe(s[i], s[k]);
    }
    LastOfSkips(s, ino, i, |s|);
  }

  lemma LastOfNone(ino: uint32)
    ensures LastOf([], ino) == None
  {
  }

  lemma LastOfMatch(s: seq<InodeRec>, ino: uint32, i: nat)
    requires i < |s| && s[i].ino == ino
    ensures LastOf(s[..i + 1], ino) == Some(s[i])
  {
  }

  lemma {:induction false} LastOfSkips(s: seq<InodeRec>, ino: uint32, i: nat, j: nat)
    requires i <= j <= |s|
    requires forall k :: i <= k < j ==> s[k].ino != ino
    ensures LastOf(s[..i], ino) == LastOf(s[..j], ino)
    decreases j - i
  {
    if i < j {
      LastOfSkips(s, ino, i, j - 1);
      assert s[..j][..j - 1] == s[..j - 1];
    }
  }
}
