/** Rebuilding a JFFS2 file: its fragments are replayed in version order over a buffer of zeros. */
module Jffs2Replay {
  import opened Bytes
  import opened DataBlocks
  import opened Jffs2Log
  import opened Jffs2View

  const COMPR_NONE: byte := 0
  const COMPR_ZLIB: byte := 6
  const MAX_EXTRACTED_FILE_SIZE := 0x1000_0000

  // ----- one fragment -----

  predicate Relevant(rec: InodeRec, isize: nat) {
    rec.dsize != 0 && rec.fragOffset < isize
  }

  /** How many of the fragment's bytes lie before the end of the file. */
  function Usable(rec: InodeRec, isize: nat): nat
    requires Relevant(rec, isize)
  {
    if rec.fragOffset + rec.dsize > isize then isize - rec.fragOffset else rec.dsize
  }

  /** The first `usable` bytes that a fragment stands for. */
  function FetchFragment(img: bytes, zlib: Inflater, rec: InodeRec, usable: nat): (r: Option<bytes>)
    requires usable <= rec.dsize
    ensures r.Some? ==> |r.value| == usable
  {
    if rec.compr == COMPR_NONE then
      if rec.csize != rec.dsize || rec.fileOffset + usable > |img| then None
      else Some(img[rec.fileOffset..rec.fileOffset + usable])
    else if rec.compr == COMPR_ZLIB then
      if rec.dsize > MAX_EXTRACTED_FILE_SIZE || rec.fileOffset + rec.csize > |img| then None
      else
        var out :- zlib(img[rec.fileOffset..rec.fileOffset + rec.csize], rec.dsize);
        if |out| != rec.dsize then None else Some(out[..usable])
    else None
  }

  function FragmentData(img: bytes, zlib: Inflater, rec: InodeRec, isize: nat): Option<bytes>
    requires Relevant(rec, isize)
  {
    FetchFragment(img, zlib, rec, Usable(rec, isize))
  }

  /** An uncompressed fragment of a scanned log is always there to be read. */
  lemma ScannedFragmentsAreReadable(img: bytes, zlib: Inflater, log: Log, rec: InodeRec, isize: nat)
    requires ScanFrom(img, 0, false) == Some(log) || ScanFrom(img, 0, true) == Some(log)
    requires rec in log.inodes && Relevant(rec, isize)
    requires rec.compr == COMPR_NONE && rec.csize == rec.dsize
    ensures rec.fileOffset + Usable(rec, isize) <= |img|
    ensures FragmentData(img, zlib, rec, isize) ==
            Some(img[rec.fileOffset..rec.fileOffset + Usable(rec, isize)])
  {
    hide ScanFrom;
    if ScanFrom(img, 0, false) == Some(log) {
      ScannedRecordsAreSound(img, 0, false);
    } else {
      ScannedRecordsAreSound(img, 0, true);
    }
  }

  // ----- the replay -----

  function Overlay(content: bytes, offset: nat, data: bytes): (r: bytes)
    requires offset + |data| <= |content|
    ensures |r| == |content|
    ensures forall j :: 0 <= j < |r| ==>
              r[j] == if offset <= j < offset + |data| then data[j - offset] else content[j]
  {
    content[..offset] + data + content[offset + |data|..]
  }

  /** The content after the fragments `recs`, oldest first. */
  function Replay(img: bytes, zlib: Inflater, recs: seq<InodeRec>, isize: nat): (r: Option<bytes>)
    ensures r.Some? ==> |r.value| == isize
  {
    if recs == [] then Some(Zeros(isize))
    else
      var last := recs[|recs| - 1];
      var before :- Replay(img, zlib, recs[..|recs| - 1], isize);
      if !Relevant(last, isize) then Some(before)
      else
        var data :- FragmentData(img, zlib, last, isize);
        Some(Overlay(before, last.fragOffset, data))
  }

  /** The records of one inode among the first `n` of the list, in order. */
  function RecordsUpTo(s: seq<InodeRec>, ino: uint32, n: nat): seq<InodeRec>
    requires n <= |s|
  {
    if n == 0 then []
    else RecordsUpTo(s, ino, n - 1) + (if s[n - 1].ino == ino then [s[n - 1]] else [])
  }

  function RecordsOfInode(s: seq<InodeRec>, ino: uint32): seq<InodeRec> {
    RecordsUpTo(s, ino, |s|)
  }

  lemma {:induction false} RecordsAreARange(s: seq<InodeRec>, ino: uint32, start: nat, end: nat, n: nat)
    requires start <= end <= |s| && n <= |s|
    requires forall i :: 0 <= i < |s| ==> (s[i].ino == ino <==> start <= i < end)
    ensures RecordsUpTo(s, ino, n) == if n <= start then [] else if n <= end then s[start..n] else s[start..end]
  {
    if n == 0 {
    } else {
      RecordsAreARange(s, ino, start, end, n - 1);
      var last := n - 1;
      assert s[last].ino == ino <==> start <= last < end;
      if start <= last < end {
        SliceGrows(s, start, last);
      }
    }
  }

  lemma RecordsAreSlice(s: seq<InodeRec>, ino: uint32, start: nat, end: nat)
    requires start <= end <= |s|
    requires forall i :: 0 <= i < |s| ==> (s[i].ino == ino <==> start <= i < end)
    ensures RecordsOfInode(s, ino) == s[start..end]
  {
    hide RecordsUpTo;
    RecordsAreARange(s, ino, start, end, |s|);
  }

  lemma SliceGrows(s: seq<InodeRec>, start: nat, last: nat)
    requires start <= last < |s|
    ensures s[start..last + 1] == s[start..last] + [s[last]] && s[start..start] == []
  {
  }

  /** The content of file `ino`, when it can be rebuilt. */
  function FileContent(img: bytes, zlib: Inflater, s: seq<InodeRec>, ino: uint32, isize: nat): Option<bytes> {
    if isize > MAX_EXTRACTED_FILE_SIZE then None
    else Replay(img, zlib, RecordsOfInode(s, ino), isize)
  }

  /** Copies a fragment into the buffer. */
  method Blit(content: array<byte>, offset: nat, data: bytes)
    requires offset + |data| <= content.Length
    modifies content
    ensures content[..] == Overlay(old(content[..]), offset, data)
  {
    forall k | 0 <= k < |data| {
      content[offset + k] := data[k];
    }
  }

  /** The replay of one more fragment. */
  lemma ReplayStep(img: bytes, zlib: Inflater, recs: seq<InodeRec>, n: nat, isize: nat, before: bytes)
    requires n < |recs| && Replay(img, zlib, recs[..n], isize) == Some(before)
    ensures var rec := recs[n];
            Replay(img, zlib, recs[..n + 1], isize) ==
            if !Relevant(rec, isize) then Some(before)
            else
              var data := FragmentData(img, zlib, rec, isize);
              if data.None? then None else Some(Overlay(before, rec.fragOffset, data.value))
  {
    assert recs[..n + 1][..n] == recs[..n];
  }

  /** Replays the records `s[start..end]`, oldest first, over a buffer of zeros. */
  method ReplayRange(img: bytes, zlib: Inflater, s: seq<InodeRec>, start: nat, end: nat, content: array<byte>)
    returns (ok: bool)
    requires start <= end <= |s| && content[..] == Zeros(content.Length)
    modifies content
    ensures var r := Replay(img, zlib, s[start..end], content.Length);
            (ok <==> r.Some?) && (ok ==> r == Some(content[..]))
  {
    hide Replay, FetchFragment, Overlay, Zeros;
    ghost var recs := s[start..end];
    var isize := content.Length;
    ReplayNothing(img, zlib, recs, isize);
    var i := start;
    while i < end
      invariant start <= i <= end
      invariant Replay(img, zlib, recs[..i - start], isize) == Some(content[..])
    {
      var rec := s[i];
      assert rec == recs[i - start];
      ReplayStep(img, zlib, recs, i - start, isize, content[..]);
      i := i + 1;
      if Relevant(rec, isize) {
        var data := FetchFragment(img, zlib, rec, Usable(rec, isize));
        if data.None? {
          ReplayFails(img, zlib, recs, i - start, isize);
          return false;
        }
        Blit(content, rec.fragOffset, data.value);
      }
    }
    assert recs[..|recs|] == recs;
    return true;
  }

  method ExtractRegularFile(img: bytes, zlib: Inflater, s: seq<InodeRec>, ino: uint32, finalIsize: nat)
    returns (r: Option<bytes>)
    requires Sorted(s, InodeLe)
    ensures r == FileContent(img, zlib, s, ino, finalIsize)
  {
    hide Replay, InodeCmp, Sorted, RecordsUpTo;
    if finalIsize > MAX_EXTRACTED_FILE_SIZE {
      return None;
    }
    if finalIsize == 0 {
      EmptyFile(img, zlib, RecordsOfInode(s, ino));
      return Some([]);
    }
    var content := new byte[finalIsize](_ => 0);
    assert content[..] == Zeros(finalIsize);
    var start, end := InodeRange(s, ino);
    RecordsAreSlice(s, ino, start, end);
    var ok := ReplayRange(img, zlib, s, start, end, content);
    return if ok then Some(content[..]) else None;
  }

  lemma ReplayNothing(img: bytes, zlib: Inflater, recs: seq<InodeRec>, isize: nat)
    ensures Replay(img, zlib, recs[..0], isize) == Some(Zeros(isize))
  {
  }

  lemma {:induction false} EmptyFile(img: bytes, zlib: Inflater, recs: seq<InodeRec>)
    ensures Replay(img, zlib, recs, 0) == Some([])
  {
    if recs == [] {
    } else {
      EmptyFile(img, zlib, recs[..|recs| - 1]);
    }
  }

  lemma {:induction false} ReplayFails(img: bytes, zlib: Inflater, recs: seq<InodeRec>, n: nat, isize: nat)
    requires n <= |recs| && Replay(img, zlib, recs[..n], isize) == None
    ensures Replay(img, zlib, recs, isize) == None
    decreases |recs|
  {
    if n == |recs| {
      assert recs[..n] == recs;
    } else {
      var m := |recs| - 1;
      assert recs[..m][..n] == recs[..n];
      ReplayFails(img, zlib, recs[..m], n, isize);
    }
  }

  // ----- what the replay means -----

  /** The fragment holds byte `j` of the file. */
  predicate Covers(rec: InodeRec, j: nat) {
    rec.fragOffset <= j < rec.fragOffset + rec.dsize
  }

  function ByteOf(img: bytes, zlib: Inflater, rec: InodeRec, isize: nat, j: nat): byte
    requires j < isize && Covers(rec, j)
    requires FragmentData(img, zlib, rec, isize).Some?
  {
    FragmentData(img, zlib, rec, isize).value[j - rec.fragOffset]
  }

  /** The replay succeeds exactly when every fragment that reaches into the file can be fetched. */
  lemma {:induction false} ReplaySucceeds(img: bytes, zlib: Inflater, recs: seq<InodeRec>, isize: nat)
    ensures Replay(img, zlib, recs, isize).Some? <==>
            forall r :: r in recs && Relevant(r, isize) ==> FragmentData(img, zlib, r, isize).Some?
  {
    if recs == [] {
    } else {
      var n := |recs| - 1;
      ReplaySucceeds(img, zlib, recs[..n], isize);
      assert forall r :: r in recs <==> r in recs[..n] || r == recs[n];
    }
  }

  /** Byte `j` comes from the last fragment that covers it, if there is one. */
  lemma {:induction false} LastCoverWins(img: bytes, zlib: Inflater, recs: seq<InodeRec>, isize: nat, j: nat)
    returns (k: int)
    requires Replay(img, zlib, recs, isize).Some? && j < isize
    ensures -1 <= k < |recs|
    ensures forall i :: k < i < |recs| ==> !Covers(recs[i], j)
    ensures if k < 0 then Replay(img, zlib, recs, isize).value[j] == 0
            else Covers(recs[k], j) && FragmentData(img, zlib, recs[k], isize).Some? &&
                 Replay(img, zlib, recs, isize).value[j] == ByteOf(img, zlib, recs[k], isize, j)
  {
    k := |recs| - 1;
    if recs != [] && !Covers(recs[k], j) {
      k := LastCoverWins(img, zlib, recs[..k], isize, j);
    }
  }

  lemma RecordsOfInodeMembers(s: seq<InodeRec>, ino: uint32, r: InodeRec)
    requires Sorted(s, InodeLe)
    ensures Sorted(RecordsOfInode(s, ino), InodeLe)
    ensures r in RecordsOfInode(s, ino) <==> r in s && r.ino == ino
  {
    var start, end := RangeOf(s, ino);
    RecordsAreARange(s, ino, start, end, |s|);
    if r in s && r.ino == ino {
      var i :| 0 <= i < |s| && s[i] == r;
      assert s[start..end][i - start] == r;
    }
  }

  lemma {:induction false} RangeOf(s: seq<InodeRec>, ino: uint32) returns (start: nat, end: nat)
    requires Sorted(s, InodeLe)
    ensures start <= end <= |s|
    ensures forall i :: 0 <= i < |s| ==> (s[i].ino == ino <==> start <= i < end)
  {
    if s == [] {
      start, end := 0, 0;
    } else {
      var n := |s| - 1;
      start, end := RangeOf(s[..n], ino);
      if s[n].ino == ino {
        if start == end {
          start := n;
        } else {
          forall i | end <= i < n ensures s[i].ino == ino {
            assert InodeLe(s[start], s[i]) && InodeLe(s[i], s[n]);
            assert s[..n][start].ino == ino;
          }
        }
        end := n + 1;
      }
    }
  }

  /** `w` covers byte `j` of the file, and no fragment of the file that covers it is newer. */
  ghost predicate IsNewestCover(log: seq<InodeRec>, ino: uint32, j: nat, w: InodeRec) {
    && w in log && w.ino == ino && Covers(w, j)
    && forall e :: e in log && e.ino == ino && Covers(e, j) ==> e.version <= w.version
  }

  /**
   The rebuilt file, byte by byte, in terms of the unsorted log: exactly `isize` bytes; byte `j` is what a newest
   fragment covering `j` holds there, and zero where no fragment does.
   */
  lemma LatestWriteWins(img: bytes, zlib: Inflater, log: seq<InodeRec>, s: seq<InodeRec>, ino: uint32, isize: nat,
                        j: nat)
    requires IsSortOf(s, log, InodeLe)
    requires FileContent(img, zlib, s, ino, isize).Some? && j < isize
    ensures var content := FileContent(img, zlib, s, ino, isize).value;
            && |content| == isize
            && ((forall r :: r in log && r.ino == ino ==> !Covers(r, j)) ==> content[j] == 0)
            && ((exists r :: r in log && r.ino == ino && Covers(r, j)) ==>
                 exists w :: IsNewestCover(log, ino, j, w) && FragmentData(img, zlib, w, isize).Some?
                             && content[j] == ByteOf(img, zlib, w, isize, j))
  {
    var recs := RecordsOfInode(s, ino);
    forall x ensures x in recs <==> x in log && x.ino == ino {
      SortKeepsMembers(s, log, InodeLe, x);
      RecordsOfInodeMembers(s, ino, x);
    }
    var k := LastCoverWins(img, zlib, recs, isize, j);
    if k >= 0 {
      RecordsOfInodeMembers(s, ino, recs[k]);
      forall e | e in log && e.ino == ino && Covers(e, j) ensures e.version <= recs[k].version {
        var i :| 0 <= i < |recs| && recs[i] == e;
        assert i < k ==> InodeLe(recs[i], recs[k]);
      }
      assert IsNewestCover(log, ino, j, recs[k]);
    }
  }

  /** With distinct versions, the newest fragment covering a byte decides it. */
  lemma LatestWriteWinsExact(img: bytes, zlib: Inflater, log: seq<InodeRec>, s: seq<InodeRec>, ino: uint32, isize: nat,
                             j: nat, w: InodeRec)
    requires IsSortOf(s, log, InodeLe) && VersionsIdentify(log, InodeLe)
    requires FileContent(img, zlib, s, ino, isize).Some? && j < isize
    requires IsNewestCover(log, ino, j, w)
    ensures FragmentData(img, zlib, w, isize).Some?
    ensures FileContent(img, zlib, s, ino, isize).value[j] == ByteOf(img, zlib, w, isize, j)
  {
    LatestWriteWins(img, zlib, log, s, ino, isize, j);
    var v :| IsNewestCover(log, ino, j, v) && FragmentData(img, zlib, v, isize).Some? &&
             FileContent(img, zlib, s, ino, isize).value[j] == ByteOf(img, zlib, v, isize, j);
    assert InodeLe(v, w) && InodeLe(w, v);
  }

  /** A file can be rebuilt exactly when it is not too large and each fragment reaching into it can be fetched. */
  lemma ReplayableFiles(img: bytes, zlib: Inflater, log: seq<InodeRec>, s: seq<InodeRec>, ino: uint32, isize: nat)
    requires IsSortOf(s, log, InodeLe)
    ensures FileContent(img, zlib, s, ino, isize).Some? <==>
            isize <= 0x1000_0000 &&
            forall r :: r in log && r.ino == ino && r.dsize != 0 && r.fragOffset < isize ==>
                          FragmentData(img, zlib, r, isize).Some?
  {
    var recs := RecordsOfInode(s, ino);
    forall x ensures x in recs <==> x in log && x.ino == ino {
      SortKeepsMembers(s, log, InodeLe, x);
      RecordsOfInodeMembers(s, ino, x);
    }
    ReplaySucceeds(img, zlib, recs, isize);
  }

  // ----- files of a written log -----

  /** What the payload of an inode node stands for. */
  function Plain(zlib: Inflater, rec: InodeRec, payload: bytes): Option<bytes>
    requires rec.csize <= |payload|
  {
    if rec.compr == 0 then (if rec.csize == rec.dsize then Some(payload[..rec.csize]) else None)
    else if rec.compr == 6 && rec.dsize <= 0x1000_0000 then
      var out :- zlib(payload[..rec.csize], rec.dsize);
      if |out| == rec.dsize then Some(out) else None
    else None
  }

  /** A fragment fetched from the image is the start of what was written. */
  lemma WrittenFragment(img: bytes, zlib: Inflater, rec: InodeRec, payload: bytes, isize: nat)
    requires Relevant(rec, isize) && rec.csize <= |payload| && At(img, rec.fileOffset, payload)
    ensures var plain := Plain(zlib, rec, payload);
            && (plain.Some? ==> |plain.value| == rec.dsize)
            && FragmentData(img, zlib, rec, isize) ==
               if plain.None? then None else Some(plain.value[..Usable(rec, isize)])
  {
    assert payload == payload[..rec.csize] + payload[rec.csize..];
    Peel(img, rec.fileOffset, payload[..rec.csize], payload[rec.csize..]);
    var n := Usable(rec, isize);
    if rec.compr == COMPR_NONE && rec.csize == rec.dsize {
      assert payload[..rec.csize][..n] == img[rec.fileOffset..rec.fileOffset + rec.csize][..n] ==
        img[rec.fileOffset..rec.fileOffset + n];
    }
  }

  /** A written log, read back as a file: byte `j` is what the newest write covering it put there. */
  lemma WrittenBytesReadBack(log: WrittenLog, zlib: Inflater, s: seq<InodeRec>, ino: uint32, isize: nat, j: nat,
                             w: InodeRec)
    returns (i: nat)
    requires log.WellFormed() && IsSortOf(s, log.Records().inodes, InodeLe)
    requires VersionsIdentify(log.Records().inodes, InodeLe) && IsNewestCover(log.Records().inodes, ino, j, w)
    requires FileContent(log.Image(), zlib, s, ino, isize).Some? && j < isize
    ensures IsWritten(log.Image(), log.items, w, i) && w.csize <= |log.items[i].node.payload|
    ensures var plain := Plain(zlib, w, log.items[i].node.payload);
            && plain.Some? && |plain.value| == w.dsize
            && FileContent(log.Image(), zlib, s, ino, isize).value[j] == plain.value[j - w.fragOffset]
  {
    hide Encode, RecordsOf, FileContent, FetchFragment, VersionsIdentify, IsSortOf, Remaining, Plain, WrittenLog.Image,
         WrittenLog.Padded, EndPad, NoAlignedMagic, NoNodeLeft, LogNode.Body;
    ImageIs(log);
    WholeImageRemains(log.items, log.tail, log.bigEndian);
    i := PayloadsAreThere(log.Padded(), 0, log.items, log.tail, log.bigEndian, w);
    var payload := log.items[i].node.payload;
    StillThere(log.Padded(), |log.Image()|, w.fileOffset, payload);
    assert log.items[i].WellFormed(log.bigEndian) && log.items[i].node.WellFormed();
    LatestWriteWinsExact(log.Image(), zlib, log.Records().inodes, s, ino, isize, j, w);
    WrittenFragment(log.Image(), zlib, w, payload, isize);
  }

  lemma StillThere(img: bytes, n: nat, p: nat, s: bytes)
    requires At(img, p, s) && p + |s| <= n <= |img|
    ensures At(img[..n], p, s)
  {
    assert img[..n][p..p + |s|] == img[p..p + |s|];
  }

  // ----- reading depends on what the records say, not on where they lie -----

  ghost predicate SameWrites(img: bytes, s: seq<InodeRec>, img': bytes, s': seq<InodeRec>) {
    && |s| == |s'|
    && forall i :: 0 <= i < |s| ==> WriteAt(img)(s[i]) == WriteAt(img')(s'[i]) && InImage(img, s[i])
  }

  predicate InImage(img: bytes, r: InodeRec) {
    r.fileOffset + r.csize <= |img|
  }

  lemma SameFragment(img: bytes, img': bytes, zlib: Inflater, r: InodeRec, r': InodeRec, usable: nat)
    requires WriteAt(img)(r) == WriteAt(img')(r') && InImage(img, r) && usable <= r.dsize
    ensures FetchFragment(img, zlib, r, usable) == FetchFragment(img', zlib, r', usable)
  {
    assert WriteAt(img)(r)[0] == WriteAt(img')(r')[0];
    var data := img[r.fileOffset..r.fileOffset + r.csize];
    assert data == img'[r'.fileOffset..r'.fileOffset + r.csize];
    if r.compr == COMPR_NONE && r.csize == r.dsize {
      assert data[..usable] == img[r.fileOffset..r.fileOffset + usable] == img'[r'.fileOffset..r'.fileOffset + usable];
    }
  }

  lemma SameFields(img: bytes, img': bytes, r: InodeRec, r': InodeRec)
    requires WriteAt(img)(r) == WriteAt(img')(r')
    ensures r'.(fileOffset := r.fileOffset) == r
  {
    assert WriteAt(img)(r)[0].rec == WriteAt(img')(r')[0].rec;
  }

  lemma {:induction false} SameReplay(img: bytes, img': bytes, zlib: Inflater, s: seq<InodeRec>, s': seq<InodeRec>,
                                      isize: nat)
    requires SameWrites(img, s, img', s')
    ensures Replay(img, zlib, s, isize) == Replay(img', zlib, s', isize)
  {
    hide FetchFragment, Overlay, WriteAt;
    if s == [] {
    } else {
      var n := |s| - 1;
      SameReplay(img, img', zlib, s[..n], s'[..n], isize);
      SameFields(img, img', s[n], s'[n]);
      if Relevant(s[n], isize) {
        SameFragment(img, img', zlib, s[n], s'[n], Usable(s[n], isize));
      }
    }
  }

  lemma {:induction false} SameRecordsOfInode(img: bytes, img': bytes, s: seq<InodeRec>, s': seq<InodeRec>, ino: uint32,
                                              n: nat)
    requires SameWrites(img, s, img', s') && n <= |s|
    ensures SameWrites(img, RecordsUpTo(s, ino, n), img', RecordsUpTo(s', ino, n))
  {
    hide WriteAt;
    if n == 0 {
    } else {
      SameRecordsOfInode(img, img', s, s', ino, n - 1);
      SameFields(img, img', s[n - 1], s'[n - 1]);
    }
  }

  lemma SameContent(img: bytes, img': bytes, zlib: Inflater, s: seq<InodeRec>, s': seq<InodeRec>, ino: uint32,
                    isize: nat)
    requires SameWrites(img, s, img', s')
    ensures FileContent(img, zlib, s, ino, isize) == FileContent(img', zlib, s', ino, isize)
  {
    hide Replay, WriteAt;
    SameRecordsOfInode(img, img', s, s', ino, |s|);
    SameReplay(img, img', zlib, RecordsOfInode(s, ino), RecordsOfInode(s', ino), isize);
  }

  lemma {:induction false} SameMeta(img: bytes, img': bytes, s: seq<InodeRec>, s': seq<InodeRec>, ino: uint32)
    requires SameWrites(img, s, img', s')
    ensures var m, m' := LastOf(s, ino), LastOf(s', ino);
            if m.None? then m'.None? else m'.Some? && m'.value.(fileOffset := m.value.fileOffset) == m.value
  {
    hide WriteAt;
    if s == [] {
    } else {
      var n := |s| - 1;
      SameFields(img, img', s[n], s'[n]);
      SameMeta(img, img', s[..n], s'[..n], ino);
    }
  }

  // ----- sorted writes -----

  predicate WriteLe(a: Write, b: Write) {
    InodeLe(a.rec, b.rec)
  }

  lemma WriteLeIsTotalPreorder()
    ensures TotalPreorder(WriteLe)
  {
    ComparatorsAreTotalPreorders();
    hide InodeLe;
    forall a: Write, b: Write ensures WriteLe(a, b) || WriteLe(b, a) {
      assert InodeLe(a.rec, b.rec) || InodeLe(b.rec, a.rec);
    }
    forall a: Write, b: Write, c: Write | WriteLe(a, b) && WriteLe(b, c) ensures WriteLe(a, c) {
      assert InodeLe(a.rec, b.rec) && InodeLe(b.rec, c.rec);
    }
  }

  /** The writes of sorted records are sorted, and the writes of the log in another order. */
  lemma SortedWrites(img: bytes, log: seq<InodeRec>, s: seq<InodeRec>)
    requires IsSortOf(s, log, InodeLe)
    ensures IsSortOf(FlatMap(s, WriteAt(img)), FlatMap(log, WriteAt(img)), WriteLe)
  {
    FlatMapPermutes(s, log, WriteAt(img));
    FlatMapOfSingles(s, WriteAt(img));
    var ws := FlatMap(s, WriteAt(img));
    forall i, j | 0 <= i < j < |ws| ensures WriteLe(ws[i], ws[j]) {
      assert InodeLe(s[i], s[j]);
    }
  }

  /** Two logs that say the same, in any order and at any offsets, sort to lists that say the same. */
  lemma SortsSayTheSame(img: bytes, img': bytes, log: seq<InodeRec>, log': seq<InodeRec>, s: seq<InodeRec>,
                        s': seq<InodeRec>)
    requires IsSortOf(s, log, InodeLe) && IsSortOf(s', log', InodeLe)
    requires multiset(FlatMap(log, WriteAt(img))) == multiset(FlatMap(log', WriteAt(img')))
    requires VersionsIdentify(FlatMap(log, WriteAt(img)), WriteLe)
    requires forall r :: r in log ==> InImage(img, r)
    ensures SameWrites(img, s, img', s')
  {
    hide InodeLe, Sorted, VersionsIdentify;
    WriteLeIsTotalPreorder();
    SortedWrites(img, log, s);
    SortedWrites(img', log', s');
    var ws, ws' := FlatMap(s, WriteAt(img)), FlatMap(s', WriteAt(img'));
    SortOrderIsIrrelevant(FlatMap(log, WriteAt(img)), FlatMap(log', WriteAt(img')), ws, ws', WriteLe);
    FlatMapOfSingles(s, WriteAt(img));
    FlatMapOfSingles(s', WriteAt(img'));
    forall i | 0 <= i < |s| ensures WriteAt(img)(s[i]) == WriteAt(img')(s'[i]) && InImage(img, s[i]) {
      SortKeepsMembers(s, log, InodeLe, s[i]);
      assert ws[i] == ws'[i];
    }
  }
}
