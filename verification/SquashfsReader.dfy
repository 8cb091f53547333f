/** SquashFS directories, and the listing and extraction of an image. */
module SquashfsReader {
  import opened Bytes
  import opened Paths
  import opened Walk
  import opened SquashfsStream
  import opened SquashfsInode
  import opened SquashfsFile

  const GROUP_HEADER: seq<nat> := [4, 4, 4]
  const GROUP_HEADER_SIZE := 12
  const ENTRY_HEADER: seq<nat> := [2, 2, 2, 2]
  const ENTRY_HEADER_SIZE := 8
  const MAX_GROUP := 256
  const MAX_NAME := 256
  const SIZE_BIAS := 3

  // ----- directory listings -----

  /** One entry as stored; the inode-number delta and the cached type are not looked at. */
  datatype DirEntry = DirEntry(offset: uint16, inodeDelta: uint16, cachedType: uint16, name: bytes)

  /** A group of entries whose inodes are in the same inode-table block. */
  datatype Group = Group(start: uint32, inodeBase: uint32, entries: seq<DirEntry>)

  /** The unread stream and how much of it still belongs to the directory. */
  datatype Rest = Rest(stream: bytes, remaining: nat)

  /** `count` holds one less than the number of entries, as a 32-bit number: its largest value means none. */
  function EntryCount(count: uint32): uint32 {
    (count + 1) % 0x1_0000_0000
  }

  function ParseEntry(p: Rest): (r: Option<(DirEntry, Rest)>)
    ensures r.Some? ==> ENTRY_HEADER_SIZE < p.remaining && r.value.1.remaining < p.remaining
  {
    if p.remaining < ENTRY_HEADER_SIZE then None
    else
      Pow256Widths();
      var f :- Fields(p.stream, ENTRY_HEADER);
      var s := p.stream[Sum(ENTRY_HEADER)..];
      var remaining := p.remaining - ENTRY_HEADER_SIZE;
      var nameLen := f[3] + 1;
      if remaining < nameLen || nameLen > MAX_NAME || nameLen > |s| then None
      else Some((DirEntry(f[0], f[1], f[2], s[..nameLen]), Rest(s[nameLen..], remaining - nameLen)))
  }

  function ParseEntries(p: Rest, n: nat): (r: Option<(seq<DirEntry>, Rest)>)
    ensures r.Some? ==> |r.value.0| == n && r.value.1.remaining <= p.remaining
    decreases n
  {
    if n == 0 then Some(([], p))
    else
      var first :- ParseEntry(p);
      var more :- ParseEntries(first.1, n - 1);
      Some(([first.0] + more.0, more.1))
  }

  function ParseGroup(p: Rest): (r: Option<(Group, Rest)>)
    ensures r.Some? ==> r.value.1.remaining < p.remaining
  {
    if p.remaining < GROUP_HEADER_SIZE then None
    else
      Pow256Widths();
      var f :- Fields(p.stream, GROUP_HEADER);
      if EntryCount(f[0]) > MAX_GROUP then None
      else
        var es :- ParseEntries(Rest(p.stream[Sum(GROUP_HEADER)..], p.remaining - GROUP_HEADER_SIZE), EntryCount(f[0]));
        Some((Group(f[1], f[2], es.0), es.1))
  }

  /** All groups of a directory, or None unless its budget is used up exactly. */
  function ParseGroups(p: Rest): Option<seq<Group>>
    decreases p.remaining
  {
    if p.remaining == 0 then Some([])
    else
      var first :- ParseGroup(p);
      var more :- ParseGroups(first.1);
      Some([first.0] + more)
  }

  // ----- writing a listing -----

  ghost predicate EntryFits(e: DirEntry) {
    1 <= |e.name| <= 256
  }

  ghost predicate GroupFits(g: Group) {
    |g.entries| <= 256 && forall i :: 0 <= i < |g.entries| ==> EntryFits(g.entries[i])
  }

  function PutEntry(e: DirEntry): (s: bytes)
    requires EntryFits(e)
    ensures |s| == 8 + |e.name|
  {
    PutFields([e.offset, e.inodeDelta, e.cachedType, |e.name| - 1], [2, 2, 2, 2]) + e.name
  }

  function PutEntries(es: seq<DirEntry>): bytes
    requires forall i :: 0 <= i < |es| ==> EntryFits(es[i])
  {
    if es == [] then [] else PutEntry(es[0]) + PutEntries(es[1..])
  }

  function PutGroup(g: Group): (s: bytes)
    requires GroupFits(g)
    ensures |s| >= 12
  {
    var count := if g.entries == [] then 0xFFFF_FFFF else |g.entries| - 1;
    PutFields([count, g.start, g.inodeBase], [4, 4, 4]) + PutEntries(g.entries)
  }

  ghost predicate ListingFits(gs: seq<Group>) {
    forall i :: 0 <= i < |gs| ==> GroupFits(gs[i])
  }

  function PutListing(gs: seq<Group>): bytes
    requires ListingFits(gs)
  {
    if gs == [] then [] else PutGroup(gs[0]) + PutListing(gs[1..])
  }

  // ----- parsing inverts writing, and the other way round -----

  lemma EntryRoundTrip(e: DirEntry, more: bytes, extra: nat)
    requires EntryFits(e)
    ensures ParseEntry(Rest(PutEntry(e) + more, |PutEntry(e)| + extra)) == Some((e, Rest(more, extra)))
  {
    hide Fields, PutFields;
    Pow256Widths();
    var vals: seq<nat> := [e.offset, e.inodeDelta, e.cachedType, |e.name| - 1];
    var hdr := PutFields(vals, ENTRY_HEADER);
    var s := PutEntry(e) + more;
    assert s == hdr + (e.name + more);
    FieldsRoundTrip(vals, ENTRY_HEADER, e.name + more);
    assert s[|hdr|..] == e.name + more;
  }

  lemma {:induction false} EntriesRoundTrip(es: seq<DirEntry>, more: bytes, extra: nat)
    requires forall i :: 0 <= i < |es| ==> EntryFits(es[i])
    ensures ParseEntries(Rest(PutEntries(es) + more, |PutEntries(es)| + extra), |es|) == Some((es, Rest(more, extra)))
  {
    hide ParseEntry, PutEntry;
    if es == [] {
      assert [] + more == more;
    } else {
      var tail := PutEntries(es[1..]);
      EntryRoundTrip(es[0], tail + more, |tail| + extra);
      EntriesRoundTrip(es[1..], more, extra);
      assert PutEntries(es) + more == PutEntry(es[0]) + (tail + more);
      assert [es[0]] + es[1..] == es;
    }
  }

  lemma GroupRoundTrip(g: Group, more: bytes, extra: nat)
    requires GroupFits(g)
    ensures ParseGroup(Rest(PutGroup(g) + more, |PutGroup(g)| + extra)) == Some((g, Rest(more, extra)))
  {
    hide Fields, PutFields, ParseEntries, PutEntries;
    Pow256Widths();
    var count: uint32 := if g.entries == [] then 0xFFFF_FFFF else |g.entries| - 1;
    assert EntryCount(count) == |g.entries|;
    var vals: seq<nat> := [count, g.start, g.inodeBase];
    var hdr, body := PutFields(vals, GROUP_HEADER), PutEntries(g.entries);
    var s := PutGroup(g) + more;
    assert s == hdr + (body + more);
    FieldsRoundTrip(vals, GROUP_HEADER, body + more);
    assert s[|hdr|..] == body + more;
    EntriesRoundTrip(g.entries, more, extra);
  }

  /** Writing groups of 0 to 256 entries and parsing exactly that much of any stream gives the groups back. */
  lemma {:induction false} ListingRoundTrip(gs: seq<Group>, more: bytes)
    requires ListingFits(gs)
    ensures ParseGroups(Rest(PutListing(gs) + more, |PutListing(gs)|)) == Some(gs)
  {
    hide ParseGroup, PutGroup;
    if gs == [] {
    } else {
      var tail := PutListing(gs[1..]);
      GroupRoundTrip(gs[0], tail + more, |tail|);
      ListingRoundTrip(gs[1..], more);
      assert PutListing(gs) + more == PutGroup(gs[0]) + (tail + more);
      assert [gs[0]] + gs[1..] == gs;
    }
  }

  lemma EntryParts(p: Rest)
    requires ParseEntry(p).Some?
    ensures |p.stream| >= ENTRY_HEADER_SIZE && Fields(p.stream, ENTRY_HEADER).Some?
    ensures var f, e, q := Fields(p.stream, ENTRY_HEADER).value, ParseEntry(p).value.0, ParseEntry(p).value.1;
            && f == [e.offset, e.inodeDelta, e.cachedType, |e.name| - 1] && EntryFits(e)
            && p.remaining == ENTRY_HEADER_SIZE + |e.name| + q.remaining
            && p.stream[ENTRY_HEADER_SIZE..] == e.name + q.stream
  {
    hide Fields, Sum, Pow256;
    Pow256Widths();
    EntryHeaderSum();
    var f, e, q := Fields(p.stream, ENTRY_HEADER).value, ParseEntry(p).value.0, ParseEntry(p).value.1;
    var s := p.stream[ENTRY_HEADER_SIZE..];
    assert e.name == s[..f[3] + 1] && q.stream == s[f[3] + 1..];
    assert f == [e.offset, e.inodeDelta, e.cachedType, |e.name| - 1];
  }

  lemma EntryHeaderSum()
    ensures Sum(ENTRY_HEADER) == ENTRY_HEADER_SIZE
  {
  }

  lemma EntryIsWritten(p: Rest)
    requires ParseEntry(p).Some?
    ensures var e, q := ParseEntry(p).value.0, ParseEntry(p).value.1;
            && EntryFits(e) && p.remaining == |PutEntry(e)| + q.remaining
            && p.stream == PutEntry(e) + q.stream
  {
    hide Fields, PutFields, ParseEntry;
    EntryParts(p);
    PutFieldsRoundTrip(p.stream, ENTRY_HEADER);
    var e, q := ParseEntry(p).value.0, ParseEntry(p).value.1;
    var hdr := p.stream[..ENTRY_HEADER_SIZE];
    assert p.stream == hdr + (e.name + q.stream) == hdr + e.name + q.stream;
  }

  lemma {:induction false} EntriesAreWritten(p: Rest, n: nat)
    requires ParseEntries(p, n).Some?
    ensures var es, q := ParseEntries(p, n).value.0, ParseEntries(p, n).value.1;
            && (forall i :: 0 <= i < |es| ==> EntryFits(es[i]))
            && p.remaining == |PutEntries(es)| + q.remaining
            && p.stream == PutEntries(es) + q.stream
    decreases n
  {
    hide ParseEntry, PutEntry;
    if n == 0 {
      assert [] + p.stream == p.stream;
    } else {
      EntryIsWritten(p);
      var first := ParseEntry(p).value;
      EntriesAreWritten(first.1, n - 1);
      var more := ParseEntries(first.1, n - 1).value;
      assert ([first.0] + more.0)[1..] == more.0;
      assert PutEntries([first.0] + more.0) == PutEntry(first.0) + PutEntries(more.0);
      assert PutEntry(first.0) + PutEntries(more.0) + more.1.stream ==
             PutEntry(first.0) + (PutEntries(more.0) + more.1.stream);
    }
  }

  lemma GroupIsWritten(p: Rest)
    requires ParseGroup(p).Some?
    ensures var g, q := ParseGroup(p).value.0, ParseGroup(p).value.1;
            && GroupFits(g) && p.remaining == |PutGroup(g)| + q.remaining
            && p.stream == PutGroup(g) + q.stream
  {
    hide Fields, PutFields, ParseEntries, PutEntries;
    Pow256Widths();
    var f := Fields(p.stream, GROUP_HEADER).value;
    PutFieldsRoundTrip(p.stream, GROUP_HEADER);
    var count: int := EntryCount(f[0]);
    assert f[0] == if count == 0 then 0xFFFF_FFFF else count - 1;
    assert f == [f[0], f[1], f[2]];
    var body := Rest(p.stream[GROUP_HEADER_SIZE..], p.remaining - GROUP_HEADER_SIZE);
    EntriesAreWritten(body, count);
    assert p.stream == p.stream[..GROUP_HEADER_SIZE] + body.stream;
  }

  /** A directory parses only if its first `remaining` bytes are, byte for byte, a written listing. */
  lemma {:induction false} ListingIsWritten(p: Rest)
    requires ParseGroups(p).Some?
    ensures var gs := ParseGroups(p).value;
            ListingFits(gs) && |PutListing(gs)| == p.remaining <= |p.stream| &&
              p.stream[..p.remaining] == PutListing(gs)
    decreases p.remaining
  {
    hide ParseGroup, PutGroup;
    if p.remaining == 0 {
    } else {
      GroupIsWritten(p);
      var first := ParseGroup(p).value;
      ListingIsWritten(first.1);
      var more := ParseGroups(first.1).value;
      assert ([first.0] + more)[1..] == more;
      assert PutListing([first.0] + more) == PutGroup(first.0) + PutListing(more);
    }
  }

  function NameBytes(es: seq<DirEntry>): nat {
    if es == [] then 0 else 8 + |es[0].name| + NameBytes(es[1..])
  }

  function ListingBytes(gs: seq<Group>): nat {
    if gs == [] then 0 else 12 + NameBytes(gs[0].entries) + ListingBytes(gs[1..])
  }

  lemma {:induction false} EntriesSize(es: seq<DirEntry>)
    requires forall i :: 0 <= i < |es| ==> EntryFits(es[i])
    ensures |PutEntries(es)| == NameBytes(es)
  {
    hide PutEntry;
    if es == [] {
    } else {
      EntriesSize(es[1..]);
    }
  }

  lemma {:induction false} ListingSize(gs: seq<Group>)
    requires ListingFits(gs)
    ensures |PutListing(gs)| == ListingBytes(gs)
  {
    hide PutEntries, NameBytes;
    if gs == [] {
    } else {
      EntriesSize(gs[0].entries);
      ListingSize(gs[1..]);
    }
  }

  /** Headers and entries add up to exactly the directory's size. */
  lemma BudgetIsExact(p: Rest)
    requires ParseGroups(p).Some?
    ensures ListingBytes(ParseGroups(p).value) == p.remaining
  {
    ListingIsWritten(p);
    ListingSize(ParseGroups(p).value);
  }

  // ----- a directory as a list of references -----

  /** An entry together with the inode-table block of its group. */
  datatype Ref = Ref(start: uint32, entry: DirEntry)

  function GroupRefs(start: uint32, es: seq<DirEntry>): seq<Ref> {
    if es == [] then [] else [Ref(start, es[0])] + GroupRefs(start, es[1..])
  }

  function ListingRefs(gs: seq<Group>): seq<Ref> {
    if gs == [] then [] else GroupRefs(gs[0].start, gs[0].entries) + ListingRefs(gs[1..])
  }

  /** The parser as it runs: `left` entries of the current group are still to come. */
  function ParseRefs(p: Rest, start: uint32, left: nat): Option<seq<Ref>>
    decreases p.remaining, left
  {
    if left > 0 then
      var e :- ParseEntry(p);
      Prepended([Ref(start, e.0)], ParseRefs(e.1, start, left - 1))
    else if p.remaining == 0 then Some([])
    else if p.remaining < GROUP_HEADER_SIZE then None
    else
      Pow256Widths();
      var f :- Fields(p.stream, GROUP_HEADER);
      if EntryCount(f[0]) > MAX_GROUP then None
      else ParseRefs(Rest(p.stream[Sum(GROUP_HEADER)..], p.remaining - GROUP_HEADER_SIZE), f[1], EntryCount(f[0]))
  }

  lemma {:induction false} RefsOfEntries(p: Rest, start: uint32, left: nat)
    ensures var es := ParseEntries(p, left);
            ParseRefs(p, start, left) ==
            if es.None? then None else Prepended(GroupRefs(start, es.value.0), ParseRefs(es.value.1, start, 0))
    decreases left
  {
    hide ParseEntry, Fields;
    if left == 0 {
      var r := ParseRefs(p, start, 0);
      if r.Some? {
        assert [] + r.value == r.value;
      }
    } else if ParseEntry(p).Some? {
      var first := ParseEntry(p).value;
      RefsOfEntries(first.1, start, left - 1);
      var more := ParseEntries(first.1, left - 1);
      if more.Some? {
        var es := [first.0] + more.value.0;
        assert es[1..] == more.value.0;
        var r := ParseRefs(more.value.1, start, 0);
        if r.Some? {
          assert [Ref(start, first.0)] + (GroupRefs(start, more.value.0) + r.value) == GroupRefs(start, es) + r.value;
        }
      }
    }
  }

  /** The running parser finds the entries of the groups, in order. */
  lemma {:induction false} RefsOfGroups(p: Rest, start: uint32)
    ensures var gs := ParseGroups(p);
            ParseRefs(p, start, 0) == if gs.None? then None else Some(ListingRefs(gs.value))
    decreases p.remaining
  {
    hide ParseEntries, Fields, GroupRefs;
    if p.remaining >= GROUP_HEADER_SIZE && Fields(p.stream, GROUP_HEADER).Some? {
      Pow256Widths();
      var f := Fields(p.stream, GROUP_HEADER).value;
      if EntryCount(f[0]) <= MAX_GROUP {
        var body := Rest(p.stream[Sum(GROUP_HEADER)..], p.remaining - GROUP_HEADER_SIZE);
        RefsOfEntries(body, f[1], EntryCount(f[0]));
        var es := ParseEntries(body, EntryCount(f[0]));
        if es.Some? {
          RefsOfGroups(es.value.1, f[1]);
          var more := ParseGroups(es.value.1);
          if more.Some? {
            var g := Group(f[1], f[2], es.value.0);
            assert ([g] + more.value)[1..] == more.value;
          }
        }
      }
    }
  }

  /** The references of a directory inode. */
  function DirRefs(v: Volume, d: DirRef): Option<seq<Ref>> {
    if d.size < 4 then Some([])
    else
      var s :- StreamAt(v.Src(), TableOffset(v.sb.directoryTableStart, d.blockIndex), d.blockOffset);
      var gs :- ParseGroups(Rest(s, d.size - SIZE_BIAS));
      Some(ListingRefs(gs))
  }

  /** What a reference names. Only extraction reads the block sizes behind a file inode. */
  function ChildOf(v: Volume, wantContent: bool, r: Ref): Option<Child<DirRef>> {
    var inode :- InodeAt(v, r.start, r.entry.offset, wantContent);
    Some(Child(r.entry.name,
               match inode
               case DirInode(d) => Folder(d)
               case FileInode(size, f) => Regular(size, FileContent(v, size, f))
               case OtherInode(targetSize) => Special(targetSize)))
  }

  function ChildOfRef(v: Volume, wantContent: bool): Ref -> Option<Child<DirRef>> {
    (r: Ref) => ChildOf(v, wantContent, r)
  }

  function Children(v: Volume, wantContent: bool): DirRef -> Option<seq<Child<DirRef>>> {
    (d: DirRef) =>
      var refs := DirRefs(v, d);
      if refs.None? then None else ChildrenOf(ChildOfRef(v, wantContent), refs.value)
  }

  // ----- the walk -----

  /** Reads one entry from the cursor, within the directory's budget. */
  method ReadEntry(c: MetadataCursor, remaining: nat) returns (e: Option<DirEntry>, after: nat)
    requires c.Valid()
    modifies c, c.buf
    ensures c.Valid()
    ensures var p := ParseEntry(Rest(old(c.Remaining()), remaining));
            && (e.Some? <==> p.Some?)
            && (e.Some? ==> after <= remaining && p == Some((e.value, Rest(c.Remaining(), after))))
  {
    hide FlatStream, Fields, MetadataCursor.Remaining, Sum;
    after := remaining;
    if remaining < ENTRY_HEADER_SIZE {
      return None, after;
    }
    var f := c.ReadFields(ENTRY_HEADER);
    if f.None? {
      return None, after;
    }
    after := after - ENTRY_HEADER_SIZE;
    Pow256Widths();
    var nameLen := f.value[3] + 1;
    if after < nameLen || nameLen > MAX_NAME {
      return None, after;
    }
    var name := c.Read(nameLen);
    if name.None? {
      return None, after;
    }
    return Some(DirEntry(f.value[0], f.value[1], f.value[2], name.value)), after - nameLen;
  }

  ghost predicate WalkOk(v: Volume, wantContent: bool) {
    wantContent ==> v.sb.blockSize > 0
  }

  method WalkDirectory(ctx: WalkContext, v: Volume, d: DirRef, parent: bytes, depth: nat) returns (ok: bool)
    requires WalkOk(v, ctx.sink.Extracting?)
    modifies ctx
    ensures ctx.Matches(ok,
                        Run(ctx.sink, old(ctx.Now()), DirVisits(Children(v, ctx.sink.Extracting?), d, parent, depth)))
    decreases if depth <= MAX_DIR_DEPTH then MAX_DIR_DEPTH + 1 - depth else 0, 2
  {
    hide Run, ParseGroups, ParseRefs, StreamAt, ChildVisits, ChildrenVisits, MetadataCursor.Remaining, FlatStream;
    ghost var want := ctx.sink.Extracting?;
    ghost var before := ctx.Now();
    if DirVisits(Children(v, want), d, parent, depth).None? {
      RunNone(ctx.sink, before, DirVisits(Children(v, want), d, parent, depth));
    }
    if depth > MAX_DIR_DEPTH {
      return false;
    }
    NothingVisited(Children(v, want), ChildOfRef(v, want), ctx.sink, before, parent, depth);
    if d.size < 4 {
      return true;
    }
    var c := new MetadataCursor(v.Src(), TableOffset(v.sb.directoryTableStart, d.blockIndex));
    ok := c.Seek(d.blockOffset);
    if !ok {
      return false;
    }
    RefsOfGroups(Rest(c.Remaining(), d.size - SIZE_BIAS), 0);
    ok := WalkListing(ctx, v, c, d.size - SIZE_BIAS, parent, depth);
  }

  /** The references that a cursor still has to give, with `left` of them in the current group. */
  ghost function Pending(c: MetadataCursor, remaining: nat, start: uint32, left: nat): Option<seq<Ref>>
    requires c.Valid()
    reads c, c.buf
  {
    ParseRefs(Rest(c.Remaining(), remaining), start, left)
  }

  /** What walking these references does to a state. */
  ghost function RunRefs(v: Volume, sink: Sink, st: State, refs: Option<seq<Ref>>, parent: bytes,
                         depth: nat): Option<State>
    requires depth <= MAX_DIR_DEPTH
  {
    var want := sink.Extracting?;
    Run(sink, st, if refs.None? then None else
                    AllRecordVisits(Children(v, want), ChildOfRef(v, want), refs.value, parent, depth))
  }

  method WalkListing(ctx: WalkContext, v: Volume, c: MetadataCursor, size: nat, parent: bytes, depth: nat)
    returns (ok: bool)
    requires WalkOk(v, ctx.sink.Extracting?) && depth <= MAX_DIR_DEPTH
    requires c.Valid()
    modifies ctx, c, c.buf
    ensures ctx.Matches(ok, RunRefs(v, ctx.sink, old(ctx.Now()), old(Pending(c, size, 0, 0)), parent, depth))
    decreases MAX_DIR_DEPTH + 1 - depth, 1
  {
    hide Run, ParseRefs, MetadataCursor.Remaining, FlatStream, AllRecordVisits, RecordVisits;
    var remaining: nat := size;
    ghost var before := ctx.Now();
    ghost var all := Pending(c, size, 0, 0);
    ghost var done: seq<Ref> := [];
    NothingVisited(Children(v, ctx.sink.Extracting?), ChildOfRef(v, ctx.sink.Extracting?), ctx.sink, before, parent,
                   depth);
    PrependNothing(all);
    while remaining > 0
      invariant c.Valid()
      invariant all == Prepended(done, Pending(c, remaining, 0, 0))
      invariant RunRefs(v, ctx.sink, before, Some(done), parent, depth) == Some(ctx.Now())
    {
      ParseHeader(Rest(c.Remaining(), remaining));
      RunNone<DirRef>(ctx.sink, before, None);
      if remaining < GROUP_HEADER_SIZE {
        return false;
      }
      var f := c.ReadFields(GROUP_HEADER);
      if f.None? {
        return false;
      }
      remaining := remaining - GROUP_HEADER_SIZE;
      Pow256Widths();
      var entryCount := EntryCount(f.value[0]);
      if entryCount > MAX_GROUP {
        return false;
      }
      ok, remaining, done := WalkGroup(ctx, v, c, remaining, f.value[1], entryCount, parent, depth, before, all, done);
      if !ok {
        return false;
      }
    }
    ParseEnd(Rest(c.Remaining(), remaining));
    assert done + [] == done;
    return true;
  }

  lemma ParseEnd(p: Rest)
    requires p.remaining == 0
    ensures ParseRefs(p, 0, 0) == Some([])
  {
  }

  /** Between groups the parser needs a whole header with a legal count. */
  lemma ParseHeader(p: Rest)
    requires p.remaining > 0
    ensures ParseRefs(p, 0, 0) ==
            if p.remaining < GROUP_HEADER_SIZE || Fields(p.stream, GROUP_HEADER).None? then None
            else
              (Pow256Widths();
               var f := Fields(p.stream, GROUP_HEADER).value;
               if EntryCount(f[0]) > MAX_GROUP then None
               else ParseRefs(Rest(p.stream[Sum(GROUP_HEADER)..], p.remaining - GROUP_HEADER_SIZE), f[1],
                              EntryCount(f[0])))
  {
    hide Fields, Sum;
  }

  /** With no entries left in the group, the group's block no longer matters. */
  lemma StartIsForgotten(p: Rest, start: uint32)
    ensures ParseRefs(p, start, 0) == ParseRefs(p, 0, 0)
  {
  }

  lemma ParseNext(p: Rest, start: uint32, left: nat)
    requires left > 0
    ensures ParseRefs(p, start, left) ==
            if ParseEntry(p).None? then None
            else Prepended([Ref(start, ParseEntry(p).value.0)], ParseRefs(ParseEntry(p).value.1, start, left - 1))
  {
    hide ParseEntry;
  }

  /** The entries of one group, each read and then visited. */
  method WalkGroup(ctx: WalkContext, v: Volume, c: MetadataCursor, size: nat, start: uint32, entryCount: nat,
                   parent: bytes, depth: nat, ghost before: State, ghost all: Option<seq<Ref>>, ghost done0: seq<Ref>)
    returns (ok: bool, remaining: nat, ghost done: seq<Ref>)
    requires WalkOk(v, ctx.sink.Extracting?) && depth <= MAX_DIR_DEPTH
    requires c.Valid()
    requires all == Prepended(done0, Pending(c, size, start, entryCount))
    requires RunRefs(v, ctx.sink, before, Some(done0), parent, depth) == Some(ctx.Now())
    modifies ctx, c, c.buf
    ensures c.Valid() && remaining <= size
    ensures !ok ==> RunRefs(v, ctx.sink, before, all, parent, depth).None?
    ensures ok ==> all == Prepended(done, Pending(c, remaining, 0, 0))
    ensures ok ==> RunRefs(v, ctx.sink, before, Some(done), parent, depth) == Some(ctx.Now())
    decreases MAX_DIR_DEPTH + 1 - depth, 0, 1
  {
    hide Run, ParseRefs, ParseEntry, MetadataCursor.Remaining, FlatStream, AllRecordVisits, RecordVisits;
    ghost var want := ctx.sink.Extracting?;
    remaining, done := size, done0;
    var i := 0;
    while i < entryCount
      invariant i <= entryCount && c.Valid() && remaining <= size
      invariant all == Prepended(done, Pending(c, remaining, start, entryCount - i))
      invariant RunRefs(v, ctx.sink, before, Some(done), parent, depth) == Some(ctx.Now())
    {
      ParseNext(Rest(c.Remaining(), remaining), start, entryCount - i);
      RunNone<DirRef>(ctx.sink, before, None);
      var e, after := ReadEntry(c, remaining);
      if e.None? {
        return false, remaining, done;
      }
      var r := Ref(start, e.value);
      ghost var more := Pending(c, after, start, entryCount - i - 1);
      PrependAssoc(done, r, more);
      remaining := after;
      VisitStep(Children(v, want), ChildOfRef(v, want), ctx.sink, before, done, r,
                if more.Some? then more.value else [], parent, depth);
      ok := VisitEntry(ctx, v, r, parent, depth);
      if !ok {
        assert more.Some? ==> done + [r] + more.value == done + ([r] + more.value);
        return false, remaining, done;
      }
      done := done + [r];
      i := i + 1;
    }
    StartIsForgotten(Rest(c.Remaining(), remaining), start);
    ok := true;
  }

  method VisitEntry(ctx: WalkContext, v: Volume, r: Ref, parent: bytes, depth: nat) returns (ok: bool)
    requires WalkOk(v, ctx.sink.Extracting?) && depth <= MAX_DIR_DEPTH
    modifies ctx
    ensures var want := ctx.sink.Extracting?;
            ctx.Matches(ok, Run(ctx.sink, old(ctx.Now()),
                                RecordVisits(Children(v, want), ChildOfRef(v, want), r, parent, depth)))
    decreases MAX_DIR_DEPTH + 1 - depth, 0, 0
  {
    hide Run, Apply, DirVisits, FileContent, IsSafe, IsPlainName, InodeAt, Children;
    ghost var want := ctx.sink.Extracting?;
    ghost var visits := RecordVisits(Children(v, want), ChildOfRef(v, want), r, parent, depth);
    ghost var before := ctx.Now();
    if visits.None? {
      RunNone(ctx.sink, before, visits);
    }
    var safe := PathComponentIsSafe(r.entry.name);
    if !safe {
      return false;
    }
    var path := ChildPath(parent, r.entry.name);
    if |path| >= PATH_CAP {
      return false;
    }
    var inode := ReadInode(v, r.start, r.entry.offset, ctx.sink.Extracting?);
    if inode.None? {
      return false;
    }
    var isDir := inode.value.DirInode?;
    var size := match inode.value
      case DirInode(_) => 0
      case FileInode(size, _) => size
      case OtherInode(targetSize) => targetSize;
    ghost var visit := Visit(path, ChildOf(v, want, r).value.kind);
    ghost var inside := if isDir then DirVisits(Children(v, want), inode.value.dir, path, depth + 1) else None;
    RunOne(ctx.sink, before, visit, inside);
    ctx.AddEntry(path, isDir, size);
    if ctx.sink.Extracting? {
      ok := WriteChild(ctx, v, inode.value, path, visit);
      if !ok {
        return false;
      }
    } else {
      ListingWritesNothing(ctx.sink, before.tree, visit);
    }
    if isDir {
      ok := WalkDirectory(ctx, v, inode.value.dir, path, depth + 1);
    } else {
      ok := true;
    }
  }

  /** The extraction half of a visit. */
  method WriteChild(ctx: WalkContext, v: Volume, inode: Inode, path: bytes, ghost visit: Visit<DirRef>)
    returns (ok: bool)
    requires ctx.sink.Extracting? && visit.path == path
    requires visit.kind == match inode
                           case DirInode(d) => Folder(d)
                           case FileInode(size, f) => Regular(size, FileContent(v, size, f))
                           case OtherInode(targetSize) => Special(targetSize)
    modifies ctx
    ensures ctx.entries == old(ctx.entries)
    ensures ok <==> Apply(ctx.sink, old(ctx.tree), visit).Some?
    ensures ok ==> Some(ctx.tree) == Apply(ctx.sink, old(ctx.tree), visit)
  {
    hide MakeDirectory, WriteFile, FileContent;
    if !DiskPathFits(ctx.sink, path) {
      return false;
    }
    match inode
    case DirInode(_) =>
      ok := ctx.MakeDirectoryAt(path);
    case FileInode(size, f) =>
      var content := ExtractRegularFile(v, size, f);
      if content.None? {
        return false;
      }
      ok := ctx.WriteFileAt(path, content.value);
    case OtherInode(_) =>
      ok := true;
  }

  // ----- a whole image -----

  /** A root inode that is not a directory leaves the directory fields zero, which reads as an empty directory. */
  function RootDir(root: Inode): DirRef {
    if root.DirInode? then root.dir else DirRef(0, 0, 0)
  }

  /** Lists or extracts an image. Extraction insists on a valid block size and on creating the output directory. */
  function ReadImage(img: bytes, codec: Codec, sink: Sink, tree: Tree): Option<State> {
    var sb :- ReadSuperblock(img);
    var v := Volume(img, codec, sb);
    if sink.Extracting? && !(ValidBlockSize(sb.blockSize) && sink.host([])) then None
    else
      var root :- InodeAt(v, sb.rootInode / 0x1_0000, sb.rootInode % 0x1_0000, false);
      Run(sink, State([], tree), DirVisits(Children(v, sink.Extracting?), RootDir(root), [], 0))
  }

  /** The checks that extraction makes before it creates the output directory. */
  predicate Accepts(img: bytes) {
    ReadSuperblock(img).Some? && ValidBlockSize(ReadSuperblock(img).value.blockSize)
  }

  /** `made` says that the output directory was created; `left` is what it then holds, even after a failure. */
  method RunImage(img: bytes, codec: Codec, sink: Sink, tree: DiskTree)
    returns (r: Option<State>, made: bool, left: DiskTree)
    ensures r == ReadImage(img, codec, sink, tree)
    ensures made <==> sink.Extracting? && Accepts(img) && sink.host([])
    ensures sink.Extracting? && !made ==> r.None? && left == tree
    ensures r.Some? ==> left == r.value.tree
  {
    hide Run, DirVisits, Children, InodeAt, ReadSuperblock;
    made, left := false, tree;
    var sb := ReadSuperblock(img);
    if sb.None? {
      return None, made, left;
    }
    var v := Volume(img, codec, sb.value);
    if sink.Extracting? {
      if !(ValidBlockSize(v.sb.blockSize) && sink.host([])) {
        return None, made, left;
      }
      made := true;
    }
    var root := ReadInode(v, v.sb.rootInode / 0x1_0000, v.sb.rootInode % 0x1_0000, false);
    if root.None? {
      return None, made, left;
    }
    var ctx := new WalkContext(sink, tree);
    var ok := WalkDirectory(ctx, v, RootDir(root.value), [], 0);
    r, left := if ok then Some(ctx.Now()) else None, ctx.tree;
  }

  // ----- what reading an image means -----

  lemma ContentKeepsShape(v: Volume, r: Ref)
    requires ChildOf(v, true, r).Some?
    ensures ChildOf(v, false, r).Some?
    ensures SameShape([ChildOf(v, true, r).value], [ChildOf(v, false, r).value])
  {
    hide InodeAt, FileContent;
    ContentDoesNotChangeInode(v, r.start, r.entry.offset);
  }

  lemma {:induction false} ContentKeepsShapes(v: Volume, rs: seq<Ref>)
    requires ChildrenOf(ChildOfRef(v, true), rs).Some?
    ensures ChildrenOf(ChildOfRef(v, false), rs).Some?
    ensures SameShape(ChildrenOf(ChildOfRef(v, true), rs).value, ChildrenOf(ChildOfRef(v, false), rs).value)
  {
    hide ChildOf;
    if rs == [] {
    } else {
      ContentKeepsShapes(v, rs[1..]);
      ContentKeepsShape(v, rs[0]);
      var a, b := [ChildOf(v, true, rs[0]).value], [ChildOf(v, false, rs[0]).value];
      assert a[0].name == b[0].name;
    }
  }

  /** Whenever extraction succeeds, listing succeeds with the same entries, although it reads less. */
  lemma ListingAgreesWithExtraction(img: bytes, codec: Codec, sink: Sink, tree: Tree)
    requires ReadImage(img, codec, sink, tree).Some?
    ensures ReadImage(img, codec, Listing, tree) == Some(State(ReadImage(img, codec, sink, tree).value.entries, tree))
  {
    hide Run, DirVisits, InodeAt, ReadSuperblock, DirRefs;
    var v := Volume(img, codec, ReadSuperblock(img).value);
    var root := InodeAt(v, v.sb.rootInode / 0x1_0000, v.sb.rootInode % 0x1_0000, false).value;
    forall d: DirRef | Children(v, true)(d).Some?
      ensures Children(v, false)(d).Some? && SameShape(Children(v, true)(d).value, Children(v, false)(d).value)
    {
      ContentKeepsShapes(v, DirRefs(v, d).value);
    }
    if sink.Extracting? {
      ListingAgrees(Children(v, true), Children(v, false), RootDir(root), sink, tree);
    } else {
      ListingAgrees(Children(v, false), Children(v, false), RootDir(root), sink, tree);
    }
  }

  /** What extraction leaves at a path: exactly what the last visit to it wrote, and only safe paths. */
  lemma ExtractedTree(img: bytes, codec: Codec, sink: Sink, p: bytes)
    requires sink.Extracting? && ReadImage(img, codec, sink, map[]).Some?
    ensures var v := Volume(img, codec, ReadSuperblock(img).value);
            var root := RootDir(InodeAt(v, v.sb.rootInode / 0x1_0000, v.sb.rootInode % 0x1_0000, false).value);
            var tree := ReadImage(img, codec, sink, map[]).value.tree;
            var last := LastAt(DirVisits(Children(v, true), root, [], 0).value, p);
            && (p in tree <==> last.Some?)
            && (p in tree ==> tree[p] == NodeOf(last.value) && PathIsSafe(p) && p != [])
  {
    hide DirVisits, InodeAt, ReadSuperblock, Children, LastAt, NodeOf, ApplyAll;
    var v := Volume(img, codec, ReadSuperblock(img).value);
    var root := InodeAt(v, v.sb.rootInode / 0x1_0000, v.sb.rootInode % 0x1_0000, false).value;
    ExtractionHoldsItsVisits(Children(v, true), RootDir(root), sink, p);
  }

  /**
   A written directory reads back whatever blocks its bytes were cut into, and however those are packed: the
   reader sees the groups that were written, as long as the directory's size says so.
   */
  lemma DirectoryIgnoresBlockCuts(v: Volume, d: DirRef, gs: seq<Group>, start: nat, cut: Cut)
    requires HoldsGroups(v, d, gs, start, cut)
    ensures DirRefs(v, d) == Some(ListingRefs(gs))
  {
    hide *;
    var size := GroupsFit(v, d, gs, start, cut);
    TableOffsetIs(v.sb.directoryTableStart, d.blockIndex, start);
    HeldIsStreamed(v.Src(), start, d.blockOffset, cut, PutListing(gs));
    var more := cut.after + FlatStream(v.Src(), cut.end);
    ListingRoundTrip(gs, more);
    DirRefsAre(v, d, PutListing(gs) + more, gs);
  }

  /** A directory's listing is in the directory table, and three bytes shorter than the directory's size says. */
  ghost predicate HoldsGroups(v: Volume, d: DirRef, gs: seq<Group>, start: nat, cut: Cut) {
    && ListingFits(gs) && gs != [] && d.size == |PutListing(gs)| + 3
    && LiesAt(v.sb.directoryTableStart, d.blockIndex, start)
    && HoldsAt(v.Src(), start, d.blockOffset, cut, PutListing(gs))
  }

  lemma GroupsFit(v: Volume, d: DirRef, gs: seq<Group>, start: nat, cut: Cut) returns (size: nat)
    requires HoldsGroups(v, d, gs, start, cut)
    ensures ListingFits(gs) && gs != [] && size == |PutListing(gs)| && d.size == size + 3 && size >= 12
    ensures LiesAt(v.sb.directoryTableStart, d.blockIndex, start)
    ensures HoldsAt(v.Src(), start, d.blockOffset, cut, PutListing(gs))
  {
    hide HoldsAt, LiesAt, GroupFits, PutGroup;
    size := |PutListing(gs)|;
  }

  lemma DirRefsAre(v: Volume, d: DirRef, s: bytes, gs: seq<Group>)
    requires d.size >= 4
    requires StreamAt(v.Src(), TableOffset(v.sb.directoryTableStart, d.blockIndex), d.blockOffset) == Some(s)
    requires ParseGroups(Rest(s, d.size - 3)) == Some(gs)
    ensures DirRefs(v, d) == Some(ListingRefs(gs))
  {
    hide StreamAt, ParseGroups, ListingRefs, TableOffset;
  }

  /** Every directory that reads is empty, or a listing in the directory table. */
  lemma DirectoryIsWritten(v: Volume, d: DirRef) returns (gs: seq<Group>, start: nat, cut: Cut)
    requires DirRefs(v, d).Some?
    ensures d.size < 4 ==> gs == []
    ensures d.size >= 4 ==> HoldsGroups(v, d, gs, start, cut)
    ensures DirRefs(v, d) == Some(ListingRefs(gs))
  {
    hide StreamAt, ParseGroups, TableOffset, PutListing, HoldsAt, LiesAt;
    start := TableOffset(v.sb.directoryTableStart, d.blockIndex);
    if d.size < 4 {
      gs, cut := [], Cut([], 0, [], []);
    } else {
      TableOffsetIs(v.sb.directoryTableStart, d.blockIndex, start);
      var s := StreamAt(v.Src(), start, d.blockOffset).value;
      var p := Rest(s, d.size - 3);
      gs := ParseGroups(p).value;
      ListingIsWritten(p);
      NoGroups(gs);
      assert s == PutListing(gs) + s[d.size - 3..];
      cut := StreamedIsHeld(v.Src(), start, d.blockOffset, PutListing(gs), s[d.size - 3..]);
    }
  }

  lemma NoGroups(gs: seq<Group>)
    requires ListingFits(gs)
    ensures gs == [] ==> PutListing(gs) == []
  {
  }
}
