/** The JFFS2 log: node parsing, the scan across padding gaps, and its inverse, a log writer. */
module Jffs2Log {
  import opened Bytes

  const MAGIC: uint16 := 0x1985
  const NODETYPE_DIRENT: uint16 := 0xe001
  const NODETYPE_INODE: uint16 := 0xe002
  const COMMON_HEADER_SIZE := 12
  const DIRENT_FIXED_SIZE := 28
  const INODE_FIXED_SIZE := 56
  const GAP_SCAN_CHUNK := 65536

  datatype Dirent = Dirent(pino: uint32, version: uint32, ino: uint32, name: bytes) {
    /** The on-disk length byte. */
    function NameSize(): byte {
      |name| % 0x100
    }
  }

  datatype InodeRec = InodeRec(
    ino: uint32, version: uint32, mode: uint32, isize: uint32, fragOffset: uint32,
    csize: uint32, dsize: uint32, compr: byte, fileOffset: nat)

  datatype Log = Log(dirents: seq<Dirent>, inodes: seq<InodeRec>)

  // ----- finding nodes -----

  predicate MagicAt(img: bytes, p: nat, bigEndian: bool) {
    p + 2 <= |img| && U16(img, p, bigEndian) == MAGIC
  }

  /** The first position p, p + 4, p + 8, ... that holds the magic. */
  function NextMagic(img: bytes, p: nat, bigEndian: bool): (r: Option<nat>)
    ensures r.Some? ==> r.value >= p && MagicAt(img, r.value, bigEndian)
    decreases |img| - p
  {
    if p + 2 > |img| then None
    else if MagicAt(img, p, bigEndian) then Some(p)
    else NextMagic(img, p + 4, bigEndian)
  }

  /** NextMagic is the least candidate, and None means that there is none. */
  lemma {:induction false} NextMagicIsLeast(img: bytes, p: nat, bigEndian: bool, k: nat)
    ensures var r := NextMagic(img, p, bigEndian);
            && (r.Some? ==> (r.value - p) % 4 == 0)
            && (MagicAt(img, p + 4 * k, bigEndian) ==> r.Some? && r.value <= p + 4 * k)
    decreases |img| - p
  {
    if p + 2 <= |img| && !MagicAt(img, p, bigEndian) {
      NextMagicIsLeast(img, p + 4, bigEndian, if k == 0 then 0 else k - 1);
    }
  }

  lemma {:induction false} NextMagicSkips(img: bytes, p: nat, bigEndian: bool, k: nat)
    requires forall i :: 0 <= i < k ==> !MagicAt(img, p + 4 * i, bigEndian)
    ensures NextMagic(img, p, bigEndian) == NextMagic(img, p + 4 * k, bigEndian)
    decreases k
  {
    if k == 0 {
    } else {
      NextMagicSkips(img, p, bigEndian, k - 1);
      var q := p + 4 * (k - 1);
      assert !MagicAt(img, q, bigEndian);
      assert q + 4 == p + 4 * k;
    }
  }

  /** Rounding a chunk down to whole words steps back over at most the last candidate looked at. */
  lemma WholeWords(n: nat, i: nat)
    requires i % 4 == 0 && n <= i + 1 && i < n + 3
    ensures n / 4 * 4 == i || n / 4 * 4 == i - 4
  {
  }

  /** The candidates of one chunk, in order; `after` is the first word not looked at. */
  method FindInChunk(img: bytes, pos: nat, buf: bytes, bigEndian: bool) returns (found: bool, after: nat)
    requires pos + |buf| <= |img| && buf == img[pos..pos + |buf|] && |buf| >= 2
    ensures found ==> NextMagic(img, pos, bigEndian) == Some(pos + after)
    ensures !found ==> 4 <= after && after % 4 == 0 && |buf| <= after + 1 && after < |buf| + 3
    ensures !found ==> NextMagic(img, pos, bigEndian) == NextMagic(img, pos + after, bigEndian)
                                                      == NextMagic(img, pos + (after - 4), bigEndian)
  {
    after := 0;
    while after + 1 < |buf|
      invariant after % 4 == 0 && after < |buf| + 3
      invariant NextMagic(img, pos, bigEndian) == NextMagic(img, pos + after, bigEndian)
      invariant after >= 4 ==> NextMagic(img, pos, bigEndian) == NextMagic(img, pos + (after - 4), bigEndian)
    {
      if U16(buf, after, bigEndian) == MAGIC {
        return true, after;
      }
      after := after + 4;
    }
    return false, after;
  }

  /** The chunked search through a gap. */
  method FindNextNode(img: bytes, start: nat, bigEndian: bool) returns (r: Option<nat>)
    ensures r == NextMagic(img, start, bigEndian)
  {
    var pos := start;
    while pos + 2 <= |img|
      invariant NextMagic(img, start, bigEndian) == NextMagic(img, pos, bigEndian)
      decreases |img| - pos
    {
      var remaining := |img| - pos;
      var want := if remaining < GAP_SCAN_CHUNK then remaining else GAP_SCAN_CHUNK;
      var found, after := FindInChunk(img, pos, img[pos..pos + want], bigEndian);
      if found {
        return Some(pos + after);
      }
      WholeWords(want, after);
      if want < 4 {
        break;
      }
      pos := pos + want / 4 * 4;
    }
    return None;
  }

  // ----- parsing nodes -----

  /** The dirent node whose common header is at `pos`. */
  function ParseDirentNode(img: bytes, pos: nat, totlen: uint32, bigEndian: bool): Option<Dirent>
    requires pos + totlen <= |img|
  {
    if totlen < COMMON_HEADER_SIZE + DIRENT_FIXED_SIZE then None
    else
      var fixed := pos + COMMON_HEADER_SIZE;
      var nsize := img[fixed + 16];
      var nameLenAvail := totlen - COMMON_HEADER_SIZE - DIRENT_FIXED_SIZE;
      if nsize == 0 || nsize > nameLenAvail then None
      else
        var name := fixed + DIRENT_FIXED_SIZE;
        Some(Dirent(U32(img, fixed, bigEndian), U32(img, fixed + 4, bigEndian), U32(img, fixed + 8, bigEndian),
                    img[name..name + nsize]))
  }

  /** The inode node whose common header is at `pos`. */
  function ParseInodeNode(img: bytes, pos: nat, totlen: uint32, bigEndian: bool): Option<InodeRec>
    requires pos + totlen <= |img|
  {
    if totlen < COMMON_HEADER_SIZE + INODE_FIXED_SIZE then None
    else
      var fixed := pos + COMMON_HEADER_SIZE;
      var rec := InodeRec(
        U32(img, fixed, bigEndian), U32(img, fixed + 4, bigEndian), U32(img, fixed + 8, bigEndian),
        U32(img, fixed + 16, bigEndian), U32(img, fixed + 32, bigEndian), U32(img, fixed + 36, bigEndian),
        U32(img, fixed + 40, bigEndian), img[fixed + 44], fixed + INODE_FIXED_SIZE);
      if rec.csize > totlen - COMMON_HEADER_SIZE - INODE_FIXED_SIZE then None else Some(rec)
  }

  function Align4(p: nat): nat {
    (p + 3) / 4 * 4
  }

  lemma Align4Bounds(p: nat)
    ensures Align4(p) % 4 == 0 && p <= Align4(p) < p + 4
    ensures forall k :: p <= k < p + 4 && k % 4 == 0 ==> Align4(p) == k
  {
  }

  lemma StaysAligned(p: nat, q: nat)
    requires p % 4 == 0 && q >= p && (q - p) % 4 == 0
    ensures q % 4 == 0
  {
  }

  function Prepend(a: Log, b: Option<Log>): Option<Log> {
    if b.None? then None else Some(Log(a.dirents + b.value.dirents, a.inodes + b.value.inodes))
  }

  const EMPTY_LOG := Log([], [])

  lemma PrependEmpty(b: Option<Log>)
    ensures Prepend(EMPTY_LOG, b) == b
  {
    if b.Some? {
      assert [] + b.value.dirents == b.value.dirents && [] + b.value.inodes == b.value.inodes;
    }
  }

  /** What one node adds to the log, or None when it is malformed. */
  function NodeRecords(img: bytes, pos: nat, bigEndian: bool): Option<Log>
    requires pos + COMMON_HEADER_SIZE <= |img|
  {
    var nodetype := U16(img, pos + 2, bigEndian);
    var totlen := U32(img, pos + 4, bigEndian);
    if totlen < COMMON_HEADER_SIZE || pos + totlen > |img| then None
    else if nodetype == NODETYPE_DIRENT then
      var d :- ParseDirentNode(img, pos, totlen, bigEndian);
      Some(Log([d], []))
    else if nodetype == NODETYPE_INODE then
      var rec :- ParseInodeNode(img, pos, totlen, bigEndian);
      Some(Log([], [rec]))
    else Some(EMPTY_LOG)
  }

  /** The records found from `pos` on. */
  function ScanFrom(img: bytes, pos: nat, bigEndian: bool): Option<Log>
    decreases |img| - pos
  {
    if pos + COMMON_HEADER_SIZE > |img| then Some(EMPTY_LOG)
    else if !MagicAt(img, pos, bigEndian) then
      var next := NextMagic(img, pos, bigEndian);
      if next.None? then Some(EMPTY_LOG) else ScanFrom(img, next.value, bigEndian)
    else
      var records :- NodeRecords(img, pos, bigEndian);
      Prepend(records, ScanFrom(img, Align4(pos + U32(img, pos + 4, bigEndian)), bigEndian))
  }

  lemma PrependAppend(dirents: seq<Dirent>, inodes: seq<InodeRec>, more: Log, rest: Option<Log>)
    ensures Prepend(Log(dirents, inodes), Prepend(more, rest)) ==
            Prepend(Log(dirents + more.dirents, inodes + more.inodes), rest)
  {
    if rest.Some? {
      assert dirents + (more.dirents + rest.value.dirents) == dirents + more.dirents + rest.value.dirents;
      assert inodes + (more.inodes + rest.value.inodes) == inodes + more.inodes + rest.value.inodes;
    }
  }

  /** Parses one node and appends what it holds to the two record lists. */
  method ScanNode(img: bytes, pos: nat, bigEndian: bool, dirents: seq<Dirent>, inodes: seq<InodeRec>)
    returns (ok: bool, moreDirents: seq<Dirent>, moreInodes: seq<InodeRec>, next: nat)
    requires pos + COMMON_HEADER_SIZE <= |img|
    ensures ok <==> NodeRecords(img, pos, bigEndian).Some?
    ensures ok ==> var records := NodeRecords(img, pos, bigEndian).value;
                   moreDirents == dirents + records.dirents && moreInodes == inodes + records.inodes
    ensures ok ==> next == Align4(pos + U32(img, pos + 4, bigEndian)) && next >= pos + COMMON_HEADER_SIZE
    ensures ok ==> next % 4 == 0
  {
    moreDirents, moreInodes, next := dirents, inodes, pos;
    var nodetype := U16(img, pos + 2, bigEndian);
    var totlen := U32(img, pos + 4, bigEndian);
    if totlen < COMMON_HEADER_SIZE || pos + totlen > |img| {
      ok := false;
      return;
    }
    if nodetype == NODETYPE_DIRENT {
      var d := ParseDirentNode(img, pos, totlen, bigEndian);
      if d.None? {
        ok := false;
        return;
      }
      moreDirents := moreDirents + [d.value];
    }
    if nodetype == NODETYPE_INODE {
      var rec := ParseInodeNode(img, pos, totlen, bigEndian);
      if rec.None? {
        ok := false;
        return;
      }
      moreInodes := moreInodes + [rec.value];
    }
    ok := true;
    next := Align4(pos + totlen);
    Align4Bounds(pos + totlen);
  }

  /** The whole-image scan; its cursor only moves forward and stays 4-byte aligned. */
  method ScanLog(img: bytes, bigEndian: bool) returns (r: Option<Log>)
    ensures r == ScanFrom(img, 0, bigEndian)
  {
    var pos := 0;
    var dirents: seq<Dirent> := [];
    var inodes: seq<InodeRec> := [];
    PrependEmpty(ScanFrom(img, 0, bigEndian));
    while pos + COMMON_HEADER_SIZE <= |img|
      invariant pos % 4 == 0
      invariant ScanFrom(img, 0, bigEndian) == Prepend(Log(dirents, inodes), ScanFrom(img, pos, bigEndian))
      decreases |img| - pos
    {
      if U16(img, pos, bigEndian) != MAGIC {
        var next := FindNextNode(img, pos, bigEndian);
        if next.None? {
          assert ScanFrom(img, pos, bigEndian) == Some(EMPTY_LOG);
          break;
        }
        NextMagicIsLeast(img, pos, bigEndian, 0);
        StaysAligned(pos, next.value);
        pos := next.value;
      } else {
        var ok, moreDirents, moreInodes, next := ScanNode(img, pos, bigEndian, dirents, inodes);
        if !ok {
          return None;
        }
        PrependAppend(dirents, inodes, NodeRecords(img, pos, bigEndian).value, ScanFrom(img, next, bigEndian));
        dirents, inodes, pos := moreDirents, moreInodes, next;
      }
    }
    assert ScanFrom(img, pos, bigEndian) == Some(EMPTY_LOG);
    assert dirents + [] == dirents && inodes + [] == inodes;
    return Some(Log(dirents, inodes));
  }

  /** The image's byte order: the magic as little-endian first, then as big-endian. */
  function DetectEndianness(img: bytes): Option<bool> {
    if |img| < 2 then None
    else if U16(img, 0, false) == MAGIC then Some(false)
    else if U16(img, 0, true) == MAGIC then Some(true)
    else None
  }

  /** The records of an image. */
  function Scan(img: bytes): Option<Log> {
    var bigEndian :- DetectEndianness(img);
    if |img| < COMMON_HEADER_SIZE then None else ScanFrom(img, 0, bigEndian)
  }

  /** Names a dirent node can carry, and payloads inside the image. */
  ghost predicate RecordsAreSound(img: bytes, log: Log) {
    && (forall i :: 0 <= i < |log.dirents| ==> 1 <= |log.dirents[i].name| <= 255)
    && (forall i :: 0 <= i < |log.inodes| ==> log.inodes[i].fileOffset + log.inodes[i].csize <= |img|)
  }

  lemma NodeRecordsAreSound(img: bytes, pos: nat, bigEndian: bool)
    requires pos + COMMON_HEADER_SIZE <= |img| && NodeRecords(img, pos, bigEndian).Some?
    ensures RecordsAreSound(img, NodeRecords(img, pos, bigEndian).value)
  {
  }

  lemma PrependIsSound(img: bytes, a: Log, b: Option<Log>)
    requires RecordsAreSound(img, a) && b.Some? && RecordsAreSound(img, b.value)
    ensures RecordsAreSound(img, Prepend(a, b).value)
  {
  }

  /** Every accepted record lies in the image: names of 1 to 255 bytes, payloads of `csize` bytes. */
  lemma {:induction false} ScannedRecordsAreSound(img: bytes, pos: nat, bigEndian: bool)
    requires ScanFrom(img, pos, bigEndian).Some?
    ensures RecordsAreSound(img, ScanFrom(img, pos, bigEndian).value)
    decreases |img| - pos
  {
    if pos + COMMON_HEADER_SIZE <= |img| {
      if !MagicAt(img, pos, bigEndian) {
        var next := NextMagic(img, pos, bigEndian);
        if next.Some? {
          ScannedRecordsAreSound(img, next.value, bigEndian);
        }
      } else {
        var next := Align4(pos + U32(img, pos + 4, bigEndian));
        var records := NodeRecords(img, pos, bigEndian);
        assert ScanFrom(img, pos, bigEndian) == Prepend(records.value, ScanFrom(img, next, bigEndian));
        hide *;
        ScannedRecordsAreSound(img, next, bigEndian);
        NodeRecordsAreSound(img, pos, bigEndian);
        PrependIsSound(img, records.value, ScanFrom(img, next, bigEndian));
      }
    }
  }

  // ----- writing a log -----

  /** A node to write. The fields that no reader looks at are carried as raw bytes. */
  datatype LogNode =
    | DirentNode(dirent: Dirent, mctime: bytes, trailer: bytes, slack: bytes)
    | InodeNode(rec: InodeRec, owner: bytes, times: bytes, trailer: bytes, payload: bytes)
    | OtherNode(nodetype: uint16, body: bytes)
  {
    predicate WellFormed() {
      match this
      case DirentNode(d, mctime, trailer, slack) => 1 <= |d.name| <= 255 && |mctime| == 4 && |trailer| == 11
      case InodeNode(r, owner, times, trailer, payload) =>
        |owner| == 4 && |times| == 12 && |trailer| == 11 && r.csize <= |payload|
      case OtherNode(t, _) => t != 0xe001 && t != 0xe002
    }

    function NodeType(): uint16 {
      match this
      case DirentNode(_, _, _, _) => 0xe001
      case InodeNode(_, _, _, _, _) => 0xe002
      case OtherNode(t, _) => t
    }

    function Body(bigEndian: bool): bytes
      requires WellFormed()
    {
      match this
      case DirentNode(d, mctime, trailer, slack) =>
        PutU32(d.pino, bigEndian) + (PutU32(d.version, bigEndian) + (PutU32(d.ino, bigEndian) + (mctime +
        ([d.NameSize()] + (trailer + (d.name + slack))))))
      case InodeNode(r, owner, times, trailer, payload) =>
        PutU32(r.ino, bigEndian) + (PutU32(r.version, bigEndian) + (PutU32(r.mode, bigEndian) + (owner +
        (PutU32(r.isize, bigEndian) + (times + (PutU32(r.fragOffset, bigEndian) + (PutU32(r.csize, bigEndian) +
        (PutU32(r.dsize, bigEndian) + ([r.compr] + (trailer + payload))))))))))
      case OtherNode(_, body) => body
    }

    /** What a reader should collect from this node when it starts at `pos`. */
    function Records(pos: nat): Log {
      match this
      case DirentNode(d, _, _, _) => Log([d], [])
      case InodeNode(r, _, _, _, _) =>
        Log([], [r.(fileOffset := pos + COMMON_HEADER_SIZE + INODE_FIXED_SIZE)])
      case OtherNode(_, _) => EMPTY_LOG
    }
  }

  /** What an inode node says, wherever it lies: its record, and as much of its payload as the record counts. */
  datatype Write = Write(rec: InodeRec, data: Option<bytes>)

  function DirentsIn(): LogNode -> seq<Dirent> {
    (n: LogNode) => if n.DirentNode? then [n.dirent] else []
  }

  function WritesIn(): LogNode -> seq<Write> {
    (n: LogNode) =>
      if n.InodeNode? && n.rec.csize <= |n.payload|
      then [Write(n.rec.(fileOffset := 0), Some(n.payload[..n.rec.csize]))] else []
  }

  /** A node, its header checksum, its padding to the next word, and the filler before the next node. */
  datatype Item = Item(node: LogNode, crc: bytes, pad: bytes, gap: bytes) {
    ghost predicate WellFormed(bigEndian: bool) {
      && node.WellFormed() && |crc| == 4
      && COMMON_HEADER_SIZE + |node.Body(bigEndian)| < 0x1_0000_0000
      && |pad| < 4 && (COMMON_HEADER_SIZE + |node.Body(bigEndian)| + |pad|) % 4 == 0
      && |gap| % 4 == 0 && NoAlignedMagic(gap, bigEndian)
    }

    function Header(bigEndian: bool): (r: bytes)
      requires WellFormed(bigEndian)
      ensures |r| == COMMON_HEADER_SIZE
    {
      MagicBytes(bigEndian) + (PutU16(node.NodeType(), bigEndian) +
      (PutU32(COMMON_HEADER_SIZE + |node.Body(bigEndian)|, bigEndian) + crc))
    }

    function Encoded(bigEndian: bool): bytes
      requires WellFormed(bigEndian)
    {
      Header(bigEndian) + (node.Body(bigEndian) + (pad + gap))
    }
  }

  function MagicBytes(bigEndian: bool): bytes {
    if bigEndian then [0x19, 0x85] else [0x85, 0x19]
  }

  /** No word-aligned position of the filler holds the magic. */
  ghost predicate NoAlignedMagic(filler: bytes, bigEndian: bool) {
    forall p: nat :: p % 4 == 0 && p + 2 <= |filler| ==> filler[p..p + 2] != MagicBytes(bigEndian)
  }

  /** No word-aligned position of the rest of an image holds the magic with room for a whole header behind it. */
  ghost predicate NoNodeLeft(rest: bytes, bigEndian: bool) {
    forall p: nat :: p % 4 == 0 && p + 12 <= |rest| ==> rest[p..p + 2] != MagicBytes(bigEndian)
  }

  ghost predicate WellFormedItems(items: seq<Item>, bigEndian: bool) {
    forall i :: 0 <= i < |items| ==> items[i].WellFormed(bigEndian)
  }

  function Encode(items: seq<Item>, bigEndian: bool): bytes
    requires WellFormedItems(items, bigEndian)
  {
    if items == [] then [] else items[0].Encoded(bigEndian) + Encode(items[1..], bigEndian)
  }

  /** The records of the items, the first of which starts at `pos`. */
  function RecordsOf(items: seq<Item>, pos: nat, bigEndian: bool): Log
    requires WellFormedItems(items, bigEndian)
  {
    if items == [] then EMPTY_LOG
    else
      var rest := RecordsOf(items[1..], pos + |items[0].Encoded(bigEndian)|, bigEndian);
      var first := items[0].node.Records(pos);
      Log(first.dirents + rest.dirents, first.inodes + rest.inodes)
  }

  // ----- reading back what was written -----

  lemma DirentFieldsParse(img: bytes, pos: nat, totlen: uint32, d: Dirent, bigEndian: bool)
    requires pos + totlen <= |img| && totlen >= COMMON_HEADER_SIZE + DIRENT_FIXED_SIZE + |d.name|
    requires 1 <= |d.name| <= 255
    requires var p := pos + COMMON_HEADER_SIZE;
             && U32(img, p, bigEndian) == d.pino && U32(img, p + 4, bigEndian) == d.version
             && U32(img, p + 8, bigEndian) == d.ino && img[p + 16] == |d.name|
             && At(img, p + 28, d.name)
    ensures ParseDirentNode(img, pos, totlen, bigEndian) == Some(d)
  {
    hide U32;
  }

  lemma DirentNameParses(img: bytes, p: nat, mctime: bytes, nsize: byte, name: bytes, trailer: bytes, slack: bytes)
    requires |mctime| == 4 && |trailer| == 11 && |name| == nsize
    requires At(img, p + 12, mctime + ([nsize] + (trailer + (name + slack))))
    ensures img[p + 16] == |name| && At(img, p + 28, name)
  {
    Peel(img, p + 12, mctime, [nsize] + (trailer + (name + slack)));
    PeelByte(img, p + 16, nsize, trailer + (name + slack));
    Peel(img, p + 17, trailer, name + slack);
    Peel(img, p + 28, name, slack);
  }

  lemma DirentBodyIs(node: LogNode, totlen: int, bigEndian: bool)
    requires node.DirentNode? && node.WellFormed()
    requires totlen == COMMON_HEADER_SIZE + |node.Body(bigEndian)|
    ensures var d := node.dirent;
            && node.Body(bigEndian) ==
               PutU32(d.pino, bigEndian) + (PutU32(d.version, bigEndian) + (PutU32(d.ino, bigEndian) +
               (node.mctime + ([d.NameSize()] + (node.trailer + (d.name + node.slack))))))
            && |node.mctime| == 4 && |node.trailer| == 11 && 1 <= d.NameSize() == |d.name|
            && totlen >= COMMON_HEADER_SIZE + DIRENT_FIXED_SIZE + |d.name|
  {
    hide PutU32;
  }

  lemma DirentBodyParses(img: bytes, pos: nat, totlen: uint32, node: LogNode, bigEndian: bool)
    requires node.DirentNode? && node.WellFormed()
    requires At(img, pos + COMMON_HEADER_SIZE, node.Body(bigEndian))
    requires totlen == COMMON_HEADER_SIZE + |node.Body(bigEndian)| && pos + totlen <= |img|
    ensures ParseDirentNode(img, pos, totlen, bigEndian) == Some(node.dirent)
  {
    var d := node.dirent;
    var p: nat := pos + COMMON_HEADER_SIZE;
    hide *;
    DirentBodyIs(node, totlen, bigEndian);
    var afterIno: bytes := node.mctime + ([d.NameSize()] + (node.trailer + (d.name + node.slack)));
    var afterVersion: bytes := PutU32(d.ino, bigEndian) + afterIno;
    var afterPino: bytes := PutU32(d.version, bigEndian) + afterVersion;
    PeelU32(img, p, d.pino, afterPino, bigEndian);
    PeelU32(img, p + 4, d.version, afterVersion, bigEndian);
    PeelU32(img, p + 8, d.ino, afterIno, bigEndian);
    DirentNameParses(img, p, node.mctime, d.NameSize(), d.name, node.trailer, node.slack);
    DirentFieldsParse(img, pos, totlen, d, bigEndian);
  }

  lemma InodeFieldsParse(img: bytes, pos: nat, totlen: uint32, r: InodeRec, bigEndian: bool)
    requires pos + totlen <= |img| && totlen >= COMMON_HEADER_SIZE + INODE_FIXED_SIZE + r.csize
    requires var p := pos + COMMON_HEADER_SIZE;
             && U32(img, p, bigEndian) == r.ino && U32(img, p + 4, bigEndian) == r.version
             && U32(img, p + 8, bigEndian) == r.mode && U32(img, p + 16, bigEndian) == r.isize
             && U32(img, p + 32, bigEndian) == r.fragOffset && U32(img, p + 36, bigEndian) == r.csize
             && U32(img, p + 40, bigEndian) == r.dsize && img[p + 44] == r.compr
    ensures ParseInodeNode(img, pos, totlen, bigEndian) ==
            Some(r.(fileOffset := pos + COMMON_HEADER_SIZE + INODE_FIXED_SIZE))
  {
    hide U32;
  }

  lemma InodeBodyIs(node: LogNode, totlen: int, bigEndian: bool)
    requires node.InodeNode? && node.WellFormed()
    requires totlen == COMMON_HEADER_SIZE + |node.Body(bigEndian)|
    ensures var r := node.rec;
            && node.Body(bigEndian) ==
               PutU32(r.ino, bigEndian) + (PutU32(r.version, bigEndian) + (PutU32(r.mode, bigEndian) + (node.owner +
               (PutU32(r.isize, bigEndian) + (node.times + (PutU32(r.fragOffset, bigEndian) +
               (PutU32(r.csize, bigEndian) + (PutU32(r.dsize, bigEndian) + ([r.compr] +
               (node.trailer + node.payload))))))))))
            && |node.owner| == 4 && |node.times| == 12 && |node.trailer| == 11
            && totlen >= COMMON_HEADER_SIZE + INODE_FIXED_SIZE + r.csize
  {
    hide PutU32;
  }

  lemma InodeMetaFieldsParse(img: bytes, p: nat, r: InodeRec, rest: bytes, bigEndian: bool)
    requires At(img, p, PutU32(r.ino, bigEndian) + (PutU32(r.version, bigEndian) + (PutU32(r.mode, bigEndian) + rest)))
    ensures p + 12 + |rest| <= |img| && At(img, p + 12, rest)
    ensures U32(img, p, bigEndian) == r.ino && U32(img, p + 4, bigEndian) == r.version
    ensures U32(img, p + 8, bigEndian) == r.mode
  {
    hide *;
    var afterVersion: bytes := PutU32(r.mode, bigEndian) + rest;
    PeelU32(img, p, r.ino, PutU32(r.version, bigEndian) + afterVersion, bigEndian);
    PeelU32(img, p + 4, r.version, afterVersion, bigEndian);
    PeelU32(img, p + 8, r.mode, rest, bigEndian);
  }

  lemma InodeSizeParses(img: bytes, p: nat, r: InodeRec, owner: bytes, times: bytes, rest: bytes, bigEndian: bool)
    requires |owner| == 4 && |times| == 12
    requires At(img, p + 12, owner + (PutU32(r.isize, bigEndian) + (times + rest)))
    ensures p + 32 + |rest| <= |img| && At(img, p + 32, rest)
    ensures U32(img, p + 16, bigEndian) == r.isize
  {
    hide *;
    Peel(img, p + 12, owner, PutU32(r.isize, bigEndian) + (times + rest));
    PeelU32(img, p + 16, r.isize, times + rest, bigEndian);
    Peel(img, p + 20, times, rest);
  }

  lemma InodeDataFieldsParse(img: bytes, p: nat, r: InodeRec, rest: bytes, bigEndian: bool)
    requires At(img, p + 32, PutU32(r.fragOffset, bigEndian) + (PutU32(r.csize, bigEndian) +
                             (PutU32(r.dsize, bigEndian) + ([r.compr] + rest))))
    ensures p + 45 <= |img|
    ensures U32(img, p + 32, bigEndian) == r.fragOffset && U32(img, p + 36, bigEndian) == r.csize
    ensures U32(img, p + 40, bigEndian) == r.dsize && img[p + 44] == r.compr
  {
    hide *;
    var afterDsize: bytes := [r.compr] + rest;
    var afterCsize: bytes := PutU32(r.dsize, bigEndian) + afterDsize;
    PeelU32(img, p + 32, r.fragOffset, PutU32(r.csize, bigEndian) + afterCsize, bigEndian);
    PeelU32(img, p + 36, r.csize, afterCsize, bigEndian);
    PeelU32(img, p + 40, r.dsize, afterDsize, bigEndian);
    PeelByte(img, p + 44, r.compr, rest);
  }

  lemma InodeBodyParses(img: bytes, pos: nat, totlen: uint32, node: LogNode, bigEndian: bool)
    requires node.InodeNode? && node.WellFormed()
    requires At(img, pos + COMMON_HEADER_SIZE, node.Body(bigEndian))
    requires totlen == COMMON_HEADER_SIZE + |node.Body(bigEndian)| && pos + totlen <= |img|
    ensures ParseInodeNode(img, pos, totlen, bigEndian) ==
            Some(node.rec.(fileOffset := pos + COMMON_HEADER_SIZE + INODE_FIXED_SIZE))
  {
    var r := node.rec;
    var p: nat := pos + COMMON_HEADER_SIZE;
    hide *;
    InodeBodyIs(node, totlen, bigEndian);
    var rest: bytes := node.trailer + node.payload;
    var data: bytes := PutU32(r.fragOffset, bigEndian) + (PutU32(r.csize, bigEndian) +
                       (PutU32(r.dsize, bigEndian) + ([r.compr] + rest)));
    var middle: bytes := PutU32(r.isize, bigEndian) + (node.times + data);
    InodeMetaFieldsParse(img, p, r, node.owner + middle, bigEndian);
    InodeSizeParses(img, p, r, node.owner, node.times, data, bigEndian);
    InodeDataFieldsParse(img, p, r, rest, bigEndian);
    InodeFieldsParse(img, pos, totlen, r, bigEndian);
  }

  /** A written node is found where it starts, with its length and its records. */
  lemma NodeParses(img: bytes, pos: nat, item: Item, bigEndian: bool)
    requires item.WellFormed(bigEndian)
    requires At(img, pos, item.Header(bigEndian)) && At(img, pos + COMMON_HEADER_SIZE, item.node.Body(bigEndian))
    ensures MagicAt(img, pos, bigEndian)
    ensures U32(img, pos + 4, bigEndian) == COMMON_HEADER_SIZE + |item.node.Body(bigEndian)|
    ensures NodeRecords(img, pos, bigEndian) == Some(item.node.Records(pos))
  {
    var node := item.node;
    var totlen: uint32 := COMMON_HEADER_SIZE + |node.Body(bigEndian)|;
    var afterType: bytes := PutU32(totlen, bigEndian) + item.crc;
    var afterMagic: bytes := PutU16(node.NodeType(), bigEndian) + afterType;
    hide U16, U32, PutU16, PutU32, ParseDirentNode, ParseInodeNode;
    hide LogNode.Body;
    PeelU16(img, pos, MAGIC, afterMagic, bigEndian);
    PeelU16(img, pos + 2, node.NodeType(), afterType, bigEndian);
    PeelU32(img, pos + 4, totlen, item.crc, bigEndian);
    match node
    case DirentNode(_, _, _, _) => DirentBodyParses(img, pos, totlen, node, bigEndian);
    case InodeNode(_, _, _, _, _) => InodeBodyParses(img, pos, totlen, node, bigEndian);
    case OtherNode(_, _) =>
  }

  lemma MagicIsBytes(img: bytes, p: nat, bigEndian: bool)
    ensures MagicAt(img, p, bigEndian) <==> p + 2 <= |img| && img[p..p + 2] == MagicBytes(bigEndian)
  {
    if p + 2 <= |img| {
      assert img[p..p + 2] == [img[p], img[p + 1]];
    }
  }

  lemma NotInGap(img: bytes, pos: nat, gap: bytes, bigEndian: bool, i: nat)
    requires NoAlignedMagic(gap, bigEndian) && At(img, pos, gap) && 4 * i + 2 <= |gap|
    ensures !MagicAt(img, pos + 4 * i, bigEndian)
  {
    var p := 4 * i;
    MagicIsBytes(img, pos + p, bigEndian);
    assert p % 4 == 0 && gap[p..p + 2] != MagicBytes(bigEndian);
    SliceOfSlice(img, pos, pos + |gap|, p);
  }

  /** Filler without an aligned magic is skipped; what follows it decides. */
  lemma GapIsSkipped(img: bytes, pos: nat, gap: bytes, bigEndian: bool)
    requires |gap| % 4 == 0 && NoAlignedMagic(gap, bigEndian)
    requires At(img, pos, gap)
    ensures NextMagic(img, pos, bigEndian) == NextMagic(img, pos + |gap|, bigEndian)
    ensures gap != [] ==> !MagicAt(img, pos, bigEndian)
  {
    forall i | 0 <= i < |gap| / 4
      ensures !MagicAt(img, pos + 4 * i, bigEndian)
    {
      NotInGap(img, pos, gap, bigEndian, i);
    }
    NextMagicSkips(img, pos, bigEndian, |gap| / 4);
    assert 4 * (|gap| / 4) == |gap|;
    if gap != [] {
      assert !MagicAt(img, pos + 4 * 0, bigEndian);
    }
  }

  /** No node is read in the rest of an image that has no room for one behind any magic. */
  lemma TailEndsScan(img: bytes, pos: nat, tail: bytes, bigEndian: bool)
    requires NoNodeLeft(tail, bigEndian)
    requires At(img, pos, tail) && pos + |tail| == |img|
    ensures ScanFrom(img, pos, bigEndian) == Some(EMPTY_LOG)
  {
    if pos + 12 <= |img| {
      NotInTail(img, pos, tail, bigEndian, pos);
      var next := NextMagic(img, pos, bigEndian);
      if next.Some? && next.value + 12 <= |img| {
        NextMagicIsLeast(img, pos, bigEndian, 0);
        NotInTail(img, pos, tail, bigEndian, next.value);
      }
    }
  }

  lemma NotInTail(img: bytes, pos: nat, tail: bytes, bigEndian: bool, q: nat)
    requires NoNodeLeft(tail, bigEndian)
    requires At(img, pos, tail) && pos + |tail| == |img|
    requires pos <= q && q + 12 <= |img| && (q - pos) % 4 == 0
    ensures !MagicAt(img, q, bigEndian)
  {
    MagicIsBytes(img, q, bigEndian);
    var p := q - pos;
    assert tail[p..p + 2] == img[q..q + 2];
  }

  /** Where the pieces of an item lie. */
  lemma ItemLayout(img: bytes, pos: nat, item: Item, more: bytes, bigEndian: bool) returns (totlen: uint32, q: nat)
    requires item.WellFormed(bigEndian)
    requires At(img, pos, item.Encoded(bigEndian) + more)
    ensures At(img, pos, item.Header(bigEndian)) && At(img, pos + COMMON_HEADER_SIZE, item.node.Body(bigEndian))
    ensures totlen == COMMON_HEADER_SIZE + |item.node.Body(bigEndian)|
    ensures pos + totlen <= q < pos + totlen + 4 && (q - pos) % 4 == 0
    ensures q + |item.gap| == pos + |item.Encoded(bigEndian)| && |item.gap| % 4 == 0 && q <= |img|
    ensures NoAlignedMagic(item.gap, bigEndian)
    ensures At(img, q, item.gap) && At(img, q + |item.gap|, more)
  {
    hide LogNode.Body, PutU32, PutU16, Item.Header;
    var body := item.node.Body(bigEndian);
    totlen := COMMON_HEADER_SIZE + |body|;
    q := pos + totlen + |item.pad|;
    Peel(img, pos, item.Encoded(bigEndian), more);
    Peel(img, pos, item.Header(bigEndian), body + (item.pad + item.gap));
    Peel(img, pos + COMMON_HEADER_SIZE, body, item.pad + item.gap);
    Peel(img, pos + totlen, item.pad, item.gap);
  }

  lemma ScanUnfolds(img: bytes, pos: nat, totlen: uint32, records: Log, q: nat, bigEndian: bool)
    requires pos + COMMON_HEADER_SIZE <= |img| && MagicAt(img, pos, bigEndian)
    requires U32(img, pos + 4, bigEndian) == totlen
    requires NodeRecords(img, pos, bigEndian) == Some(records)
    requires pos % 4 == 0 && pos + totlen <= q < pos + totlen + 4 && (q - pos) % 4 == 0
    ensures q % 4 == 0
    ensures ScanFrom(img, pos, bigEndian) == Prepend(records, ScanFrom(img, q, bigEndian))
  {
    hide U32, U16, NodeRecords, NextMagic, ParseDirentNode, ParseInodeNode;
    StaysAligned(pos, q);
    Align4Bounds(pos + totlen);
  }

  /** One item: its records, and then whatever the scan finds after its filler. */
  lemma ItemScans(img: bytes, pos: nat, item: Item, totlen: uint32, q: nat, bigEndian: bool)
    requires item.WellFormed(bigEndian) && pos % 4 == 0 && pos + totlen <= |img|
    requires |item.gap| % 4 == 0 && NoAlignedMagic(item.gap, bigEndian)
    requires At(img, pos, item.Header(bigEndian)) && At(img, pos + COMMON_HEADER_SIZE, item.node.Body(bigEndian))
    requires totlen == COMMON_HEADER_SIZE + |item.node.Body(bigEndian)|
    requires pos + totlen <= q < pos + totlen + 4 && (q - pos) % 4 == 0
    requires At(img, q, item.gap)
    ensures MagicAt(img, pos, bigEndian)
    ensures ScanFrom(img, pos, bigEndian) ==
            Prepend(item.node.Records(pos), ScanFrom(img, q + |item.gap|, bigEndian))
  {
    hide *;
    NodeParses(img, pos, item, bigEndian);
    ScanUnfolds(img, pos, totlen, item.node.Records(pos), q, bigEndian);
    ScanAfterGap(img, q, item.gap, bigEndian);
  }

  lemma ScanAfterGap(img: bytes, q: nat, gap: bytes, bigEndian: bool)
    requires |gap| % 4 == 0 && NoAlignedMagic(gap, bigEndian)
    requires At(img, q, gap)
    ensures ScanFrom(img, q, bigEndian) == ScanFrom(img, q + |gap|, bigEndian)
  {
    hide NodeRecords, NoAlignedMagic;
    GapIsSkipped(img, q, gap, bigEndian);
  }

  lemma EncodeUnfolds(items: seq<Item>, pos: nat, bigEndian: bool)
    requires items != [] && WellFormedItems(items, bigEndian)
    ensures items[0].WellFormed(bigEndian) && WellFormedItems(items[1..], bigEndian)
    ensures Encode(items, bigEndian) == items[0].Encoded(bigEndian) + Encode(items[1..], bigEndian)
    ensures |Encode(items, bigEndian)| == |items[0].Encoded(bigEndian)| + |Encode(items[1..], bigEndian)|
    ensures |items[0].Encoded(bigEndian)| >= COMMON_HEADER_SIZE
    ensures var rest := RecordsOf(items[1..], pos + |items[0].Encoded(bigEndian)|, bigEndian);
            Some(RecordsOf(items, pos, bigEndian)) == Prepend(items[0].node.Records(pos), Some(rest))
  {
  }

  /** The image ends with these items and filler; `scanned` is what they hold. */
  ghost predicate Remaining(img: bytes, pos: nat, items: seq<Item>, tail: bytes, bigEndian: bool)
    requires WellFormedItems(items, bigEndian)
  {
    var code := Encode(items, bigEndian);
    At(img, pos, code) && At(img, pos + |code|, tail) && pos + |code| + |tail| == |img|
  }

  lemma {:induction false} EncodedItemsScan(img: bytes, pos: nat, items: seq<Item>, tail: bytes, bigEndian: bool)
    requires WellFormedItems(items, bigEndian) && NoNodeLeft(tail, bigEndian)
    requires pos % 4 == 0 && Remaining(img, pos, items, tail, bigEndian)
    ensures ScanFrom(img, pos, bigEndian) == Some(RecordsOf(items, pos, bigEndian))
    ensures items != [] ==> MagicAt(img, pos, bigEndian) && pos + COMMON_HEADER_SIZE <= |img|
    decreases |items|
  {
    hide *;
    if items == [] {
      NoItemsScan(img, pos, items, tail, bigEndian);
    } else {
      EncodeUnfolds(items, pos, bigEndian);
      var item, rest := items[0], items[1..];
      var totlen, q, next := RemainingUnfolds(img, pos, items, tail, bigEndian);
      EncodedItemsScan(img, next, rest, tail, bigEndian);
      ItemScans(img, pos, item, totlen, q, bigEndian);
    }
  }

  lemma NoItemsScan(img: bytes, pos: nat, items: seq<Item>, tail: bytes, bigEndian: bool)
    requires items == [] && NoNodeLeft(tail, bigEndian)
    requires Remaining(img, pos, items, tail, bigEndian)
    ensures ScanFrom(img, pos, bigEndian) == Some(EMPTY_LOG) == Some(RecordsOf(items, pos, bigEndian))
  {
    TailEndsScan(img, pos, tail, bigEndian);
  }

  lemma RemainingUnfolds(img: bytes, pos: nat, items: seq<Item>, tail: bytes, bigEndian: bool)
    returns (totlen: uint32, q: nat, next: nat)
    requires items != [] && WellFormedItems(items, bigEndian) && WellFormedItems(items[1..], bigEndian)
    requires pos % 4 == 0 && Remaining(img, pos, items, tail, bigEndian)
    ensures next == q + |items[0].gap| == pos + |items[0].Encoded(bigEndian)| && next % 4 == 0
    ensures Remaining(img, next, items[1..], tail, bigEndian)
    ensures At(img, pos, items[0].Header(bigEndian))
    ensures At(img, pos + COMMON_HEADER_SIZE, items[0].node.Body(bigEndian))
    ensures totlen == COMMON_HEADER_SIZE + |items[0].node.Body(bigEndian)|
    ensures pos + totlen <= q < pos + totlen + 4 && (q - pos) % 4 == 0 && q <= |img|
    ensures |items[0].gap| % 4 == 0 && NoAlignedMagic(items[0].gap, bigEndian)
    ensures At(img, q, items[0].gap)
  {
    hide Encode, Item.Encoded, Item.Header, LogNode.Body;
    EncodeUnfolds(items, pos, bigEndian);
    totlen, q := ItemLayout(img, pos, items[0], Encode(items[1..], bigEndian), bigEndian);
    next := q + |items[0].gap|;
    StaysAligned(pos, q);
    StaysAligned(q, next);
  }

  lemma BodyEndsInPayload(node: LogNode, bigEndian: bool)
    requires node.InodeNode? && node.WellFormed()
    ensures |node.Body(bigEndian)| == INODE_FIXED_SIZE + |node.payload|
    ensures node.Body(bigEndian)[INODE_FIXED_SIZE..] == node.payload
  {
    hide PutU32;
    var body := node.Body(bigEndian);
    forall k | 0 <= k < |node.payload| ensures body[INODE_FIXED_SIZE + k] == node.payload[k] {
    }
  }

  /** The record of one of the inode nodes written, with its payload where the record says. */
  ghost predicate IsWritten(img: bytes, items: seq<Item>, r: InodeRec, i: nat) {
    && i < |items| && items[i].node.InodeNode?
    && r == items[i].node.rec.(fileOffset := r.fileOffset)
    && At(img, r.fileOffset, items[i].node.payload)
  }

  lemma FirstPayload(img: bytes, pos: nat, node: LogNode, bigEndian: bool, r: InodeRec)
    requires node.WellFormed() && At(img, pos + COMMON_HEADER_SIZE, node.Body(bigEndian)) &&
             r in node.Records(pos).inodes
    ensures node.InodeNode? && r == node.rec.(fileOffset := r.fileOffset) && At(img, r.fileOffset, node.payload)
    ensures r.fileOffset + |node.payload| == pos + COMMON_HEADER_SIZE + |node.Body(bigEndian)|
  {
    hide LogNode.Body;
    BodyEndsInPayload(node, bigEndian);
    var body := node.Body(bigEndian);
    assert body == body[..INODE_FIXED_SIZE] + node.payload;
    Peel(img, pos + COMMON_HEADER_SIZE, body[..INODE_FIXED_SIZE], node.payload);
  }

  /** The padding of the last node, when nothing follows it. */
  function EndPad(items: seq<Item>, tail: bytes): nat
    requires items != []
  {
    var last := items[|items| - 1];
    if tail == [] && last.gap == [] then |last.pad| else 0
  }

  lemma FirstEnds(img: bytes, pos: nat, items: seq<Item>, tail: bytes, bigEndian: bool, next: nat)
    requires items != [] && WellFormedItems(items, bigEndian) && Remaining(img, pos, items, tail, bigEndian)
    requires next == pos + |items[0].Encoded(bigEndian)| && WellFormedItems(items[1..], bigEndian)
    requires Remaining(img, next, items[1..], tail, bigEndian)
    ensures pos + COMMON_HEADER_SIZE + |items[0].node.Body(bigEndian)| + EndPad(items, tail) <= |img|
  {
    hide At, LogNode.Body, Item.Header;
    if |items| > 1 {
      EncodeUnfolds(items[1..], next, bigEndian);
      hide Encode;
      EndPadIsWritten(items[1..], tail, bigEndian);
    }
  }

  lemma {:induction false} EndPadIsWritten(items: seq<Item>, tail: bytes, bigEndian: bool)
    requires items != [] && WellFormedItems(items, bigEndian)
    ensures EndPad(items, tail) <= |Encode(items, bigEndian)|
    decreases |items|
  {
    hide LogNode.Body, Item.Header;
    EncodeUnfolds(items, 0, bigEndian);
    if |items| == 1 {
    } else {
      EndPadIsWritten(items[1..], tail, bigEndian);
    }
  }

  /** Every record of a written log points at the payload that was written with it. */
  lemma {:induction false} PayloadsAreThere(img: bytes, pos: nat, items: seq<Item>, tail: bytes, bigEndian: bool,
                                            r: InodeRec)
    returns (i: nat)
    requires WellFormedItems(items, bigEndian) && pos % 4 == 0 && Remaining(img, pos, items, tail, bigEndian)
    requires r in RecordsOf(items, pos, bigEndian).inodes
    ensures IsWritten(img, items, r, i) && r.fileOffset + |items[i].node.payload| + EndPad(items, tail) <= |img|
    decreases |items|
  {
    hide At, Remaining, LogNode.Records, LogNode.Body, Item.Encoded, Item.Header, NoAlignedMagic;
    EncodeUnfolds(items, pos, bigEndian);
    var totlen, q, next := RemainingUnfolds(img, pos, items, tail, bigEndian);
    if r in items[0].node.Records(pos).inodes {
      FirstPayload(img, pos, items[0].node, bigEndian, r);
      FirstEnds(img, pos, items, tail, bigEndian, next);
      i := 0;
    } else {
      var k := PayloadsAreThere(img, next, items[1..], tail, bigEndian, r);
      i := k + 1;
      assert items[1..][k] == items[i];
    }
  }

  /** What the record `r` of an image says. */
  function WriteAt(img: bytes): InodeRec -> seq<Write> {
    (r: InodeRec) => [Write(r.(fileOffset := 0), Window(img, r.fileOffset, r.csize))]
  }

  function Nodes(items: seq<Item>): seq<LogNode> {
    if items == [] then [] else [items[0].node] + Nodes(items[1..])
  }

  lemma NodeSays(img: bytes, pos: nat, node: LogNode, bigEndian: bool)
    requires node.WellFormed() && At(img, pos + COMMON_HEADER_SIZE, node.Body(bigEndian))
    ensures node.Records(pos).dirents == DirentsIn()(node)
    ensures FlatMap(node.Records(pos).inodes, WriteAt(img)) == WritesIn()(node)
  {
    hide LogNode.Body;
    var rs := node.Records(pos).inodes;
    if node.InodeNode? {
      assert rs[0] in rs;
      FirstPayload(img, pos, node, bigEndian, rs[0]);
      var used := node.payload[..node.rec.csize];
      assert node.payload == used + node.payload[node.rec.csize..];
      Peel(img, rs[0].fileOffset, used, node.payload[node.rec.csize..]);
      assert FlatMap(rs[1..], WriteAt(img)) == [];
    }
  }

  /** The records of a written log say what its nodes say, whatever lies between them. */
  lemma {:induction false} RecordsSay(img: bytes, pos: nat, items: seq<Item>, tail: bytes, bigEndian: bool)
    requires WellFormedItems(items, bigEndian) && pos % 4 == 0 && Remaining(img, pos, items, tail, bigEndian)
    ensures RecordsOf(items, pos, bigEndian).dirents == FlatMap(Nodes(items), DirentsIn())
    ensures FlatMap(RecordsOf(items, pos, bigEndian).inodes, WriteAt(img)) == FlatMap(Nodes(items), WritesIn())
    decreases |items|
  {
    hide At, Remaining, LogNode.Records, LogNode.Body, Item.Encoded, Item.Header, NoAlignedMagic, DirentsIn, WritesIn,
         WriteAt;
    if items == [] {
    } else {
      EncodeUnfolds(items, pos, bigEndian);
      var totlen, q, next := RemainingUnfolds(img, pos, items, tail, bigEndian);
      NodeSays(img, pos, items[0].node, bigEndian);
      RecordsSay(img, next, items[1..], tail, bigEndian);
      var rest := RecordsOf(items[1..], next, bigEndian);
      FlatMapAppend(items[0].node.Records(pos).inodes, rest.inodes, WriteAt(img));
      assert Nodes(items)[1..] == Nodes(items[1..]);
    }
  }

  // ----- whole images -----

  /** A log as it is written: nodes and filler, and a last node that need not be padded when nothing follows it. */
  datatype WrittenLog = WrittenLog(items: seq<Item>, tail: bytes, bigEndian: bool, unpadded: nat) {
    ghost predicate WellFormed() {
      && items != [] && WellFormedItems(items, bigEndian) && NoNodeLeft(tail, bigEndian)
      && unpadded <= EndPad(items, tail)
    }

    /** The image with all its padding. */
    function Padded(): bytes
      requires WellFormedItems(items, bigEndian)
    {
      Encode(items, bigEndian) + tail
    }

    function Image(): bytes
      requires WellFormed()
    {
      EndPadIsWritten(items, tail, bigEndian);
      Padded()[..|Padded()| - unpadded]
    }

    function Records(): Log
      requires WellFormed()
    {
      RecordsOf(items, 0, bigEndian)
    }
  }

  lemma WholeImageRemains(items: seq<Item>, tail: bytes, bigEndian: bool)
    requires WellFormedItems(items, bigEndian)
    ensures Remaining(Encode(items, bigEndian) + tail, 0, items, tail, bigEndian)
  {
    hide Encode;
    var img := Encode(items, bigEndian) + tail;
    assert img[0..|img|] == img;
    Peel(img, 0, Encode(items, bigEndian), tail);
  }

  lemma ScanStartsAtZero(img: bytes, bigEndian: bool)
    requires DetectEndianness(img) == Some(bigEndian) && COMMON_HEADER_SIZE <= |img|
    ensures Scan(img) == ScanFrom(img, 0, bigEndian)
  {
    hide DetectEndianness, ScanFrom;
  }

  lemma MagicDecidesEndianness(img: bytes, bigEndian: bool)
    requires MagicAt(img, 0, bigEndian)
    ensures DetectEndianness(img) == Some(bigEndian)
  {
    var b0: int, b1: int := img[0], img[1];
    assert b0 * 0x100 + b1 == MAGIC ==> b0 == 0x19 && b1 == 0x85;
  }

  lemma {:induction false} UnpaddedItemsScan(img: bytes, pos: nat, items: seq<Item>, bigEndian: bool, unpadded: nat)
    requires items != [] && WellFormedItems(items, bigEndian) &&
             unpadded <= EndPad(items, []) <= |Encode(items, bigEndian)|
    requires var code := Encode(items, bigEndian)[..|Encode(items, bigEndian)| - unpadded];
             pos % 4 == 0 && At(img, pos, code) && pos + |code| == |img|
    ensures ScanFrom(img, pos, bigEndian) == Some(RecordsOf(items, pos, bigEndian))
    ensures MagicAt(img, pos, bigEndian) && pos + COMMON_HEADER_SIZE <= |img|
    decreases |items|
  {
    hide *;
    EncodeUnfolds(items, pos, bigEndian);
    var item, rest := items[0], items[1..];
    if rest == [] {
      LastItemScans(img, pos, items, bigEndian, unpadded);
    } else {
      EndPadOfRest(items);
      EndPadIsWritten(rest, [], bigEndian);
      var more := Encode(rest, bigEndian)[..|Encode(rest, bigEndian)| - unpadded];
      CutBehind(item.Encoded(bigEndian), Encode(rest, bigEndian), unpadded);
      var totlen, q := ItemLayout(img, pos, item, more, bigEndian);
      var next := q + |item.gap|;
      StaysAligned(pos, q);
      StaysAligned(q, next);
      UnpaddedItemsScan(img, next, rest, bigEndian, unpadded);
      ItemScans(img, pos, item, totlen, q, bigEndian);
    }
  }

  lemma CutBehind(a: bytes, b: bytes, n: nat)
    requires n <= |b|
    ensures (a + b)[..|a + b| - n] == a + b[..|b| - n]
  {
  }

  lemma EndPadOfRest(items: seq<Item>)
    requires |items| > 1
    ensures EndPad(items[1..], []) == EndPad(items, [])
  {
  }

  /** The last node: what it says, and then too little for another. */
  lemma LastItemScans(img: bytes, pos: nat, items: seq<Item>, bigEndian: bool, unpadded: nat)
    requires |items| == 1 && WellFormedItems(items, bigEndian) &&
             unpadded <= EndPad(items, []) <= |Encode(items, bigEndian)|
    requires var code := Encode(items, bigEndian)[..|Encode(items, bigEndian)| - unpadded];
             pos % 4 == 0 && At(img, pos, code) && pos + |code| == |img|
    ensures ScanFrom(img, pos, bigEndian) == Some(RecordsOf(items, pos, bigEndian))
    ensures MagicAt(img, pos, bigEndian) && pos + COMMON_HEADER_SIZE <= |img|
  {
    hide At, LogNode.Body, Item.Header, MagicAt, U32, NodeRecords, ScanFrom, LogNode.Records, RecordsOf, NoAlignedMagic,
         Prepend;
    var item := items[0];
    var header, body := item.Header(bigEndian), item.node.Body(bigEndian);
    EncodeUnfolds(items, pos, bigEndian);
    var more := (item.pad + item.gap)[..|item.pad + item.gap| - unpadded];
    OnlyItem(items, bigEndian);
    assert Encode(items, bigEndian) == header + (body + (item.pad + item.gap));
    CutBehind(body, item.pad + item.gap, unpadded);
    CutBehind(header, body + (item.pad + item.gap), unpadded);
    Peel(img, pos, header, body + more);
    Peel(img, pos + COMMON_HEADER_SIZE, body, more);
    NodeParses(img, pos, item, bigEndian);
    var totlen := COMMON_HEADER_SIZE + |body|;
    var q := pos + totlen + |item.pad|;
    ScanUnfolds(img, pos, totlen, item.node.Records(pos), q, bigEndian);
    if unpadded == 0 {
      GapEndsScan(img, q, item.gap, bigEndian, more, item.pad);
    } else {
      assert q + COMMON_HEADER_SIZE > |img|;
      ShortEndsScan(img, q, bigEndian);
    }
    OnlyRecords(items, pos, bigEndian);
  }

  lemma OnlyItem(items: seq<Item>, bigEndian: bool)
    requires |items| == 1 && WellFormedItems(items, bigEndian)
    ensures Encode(items, bigEndian) == items[0].Encoded(bigEndian)
  {
    hide Item.Encoded;
    assert Encode(items[1..], bigEndian) == [];
  }

  lemma OnlyRecords(items: seq<Item>, pos: nat, bigEndian: bool)
    requires |items| == 1 && WellFormedItems(items, bigEndian)
    ensures Prepend(items[0].node.Records(pos), Some(EMPTY_LOG)) == Some(RecordsOf(items, pos, bigEndian))
  {
    hide Item.Encoded, LogNode.Records;
    assert RecordsOf(items[1..], pos + |items[0].Encoded(bigEndian)|, bigEndian) == EMPTY_LOG;
  }

  lemma GapEndsScan(img: bytes, q: nat, gap: bytes, bigEndian: bool, more: bytes, pad: bytes)
    requires NoAlignedMagic(gap, bigEndian) && more == pad + gap
    requires |pad| <= q && At(img, q - |pad|, more) && q + |gap| == |img|
    ensures ScanFrom(img, q, bigEndian) == Some(EMPTY_LOG)
  {
    hide ScanFrom;
    Peel(img, q - |pad|, pad, gap);
    assert NoNodeLeft(gap, bigEndian) by {
      forall p: nat | p % 4 == 0 && p + 12 <= |gap| ensures gap[p..p + 2] != MagicBytes(bigEndian) {
      }
    }
    TailEndsScan(img, q, gap, bigEndian);
  }

  lemma ShortEndsScan(img: bytes, q: nat, bigEndian: bool)
    requires q + COMMON_HEADER_SIZE > |img|
    ensures ScanFrom(img, q, bigEndian) == Some(EMPTY_LOG)
  {
  }

  /** Writing a log and scanning it gives back its records, in order, whatever the byte order and the filler. */
  lemma ScanRoundTrip(w: WrittenLog)
    requires w.WellFormed()
    ensures DetectEndianness(w.Image()) == Some(w.bigEndian) && Scan(w.Image()) == Some(w.Records())
  {
    hide *;
    var img := w.Image();
    ImageIs(w);
    if w.unpadded == 0 {
      WholeImageRemains(w.items, w.tail, w.bigEndian);
      EncodedItemsScan(img, 0, w.items, w.tail, w.bigEndian);
    } else {
      WholeImage(img);
      UnpaddedItemsScan(img, 0, w.items, w.bigEndian, w.unpadded);
    }
    MagicDecidesEndianness(img, w.bigEndian);
    ScanStartsAtZero(img, w.bigEndian);
  }

  lemma WholeImage(img: bytes)
    ensures At(img, 0, img)
  {
    assert img[0..|img|] == img;
  }

  lemma ImageIs(w: WrittenLog)
    requires w.WellFormed()
    ensures w.items != [] && WellFormedItems(w.items, w.bigEndian) && NoNodeLeft(w.tail, w.bigEndian)
    ensures w.Records() == RecordsOf(w.items, 0, w.bigEndian) && |w.Padded()| >= w.unpadded
    ensures w.Padded() == Encode(w.items, w.bigEndian) + w.tail && w.Image() == w.Padded()[..|w.Padded()| - w.unpadded]
    ensures w.unpadded == 0 ==> w.Image() == Encode(w.items, w.bigEndian) + w.tail
    ensures w.unpadded > 0 ==>
              var code := Encode(w.items, w.bigEndian);
              && w.unpadded <= EndPad(w.items, []) <= |code| && w.Image() == code[..|code| - w.unpadded]
  {
    hide Encode, RecordsOf, NoNodeLeft, Item.WellFormed;
    EndPadIsWritten(w.items, w.tail, w.bigEndian);
    if w.unpadded > 0 {
      assert w.tail == [] && w.Padded() == Encode(w.items, w.bigEndian);
    }
  }

  /** What the scanned records of a written log say, padded or not. */
  lemma WrittenLogSays(w: WrittenLog)
    requires w.WellFormed()
    ensures Scan(w.Image()) == Some(w.Records()) && w.Records().dirents == FlatMap(Nodes(w.items), DirentsIn())
    ensures FlatMap(w.Records().inodes, WriteAt(w.Image())) == FlatMap(Nodes(w.items), WritesIn())
  {
    hide *;
    ScanRoundTrip(w);
    ImageIs(w);
    var full, img := w.Padded(), w.Image();
    WholeImageRemains(w.items, w.tail, w.bigEndian);
    RecordsSay(full, 0, w.items, w.tail, w.bigEndian);
    forall r | r in w.Records().inodes ensures WriteAt(img)(r) == WriteAt(full)(r) {
      ScannedFits(img, r);
      SameBytes(full, |img|, r);
    }
    SameOnAll(w.Records().inodes, WriteAt(img), WriteAt(full));
  }

  lemma ScannedFits(img: bytes, r: InodeRec)
    requires Scan(img).Some? && r in Scan(img).value.inodes
    ensures r.fileOffset + r.csize <= |img|
  {
    hide ScanFrom, DetectEndianness;
    ScannedRecordsAreSound(img, 0, DetectEndianness(img).value);
  }

  lemma SameBytes(full: bytes, n: nat, r: InodeRec)
    requires r.fileOffset + r.csize <= n <= |full|
    ensures WriteAt(full[..n])(r) == WriteAt(full)(r)
  {
    assert full[..n][r.fileOffset..r.fileOffset + r.csize] == full[r.fileOffset..r.fileOffset + r.csize];
  }

  // ----- whatever is scanned was written -----

  lemma DirentIsWritten(img: bytes, pos: nat, totlen: uint32, bigEndian: bool) returns (node: LogNode)
    requires pos + totlen <= |img| && ParseDirentNode(img, pos, totlen, bigEndian).Some?
    ensures node.DirentNode? && node.WellFormed() && 12 + |node.Body(bigEndian)| == totlen
    ensures At(img, pos + 12, node.Body(bigEndian))
    ensures ParseDirentNode(img, pos, totlen, bigEndian) == Some(node.dirent)
  {
    hide U32, PutU32, At;
    var p := pos + 12;
    var d := ParseDirentNode(img, pos, totlen, bigEndian).value;
    var nameEnd, end := p + 28 + |d.name|, pos + totlen;
    node := DirentNode(d, img[p + 12..p + 16], img[p + 17..p + 28], img[nameEnd..end]);
    WholeSlice(img, nameEnd, end);
    PushSlice(img, p + 28, nameEnd, node.slack);
    PushSlice(img, p + 17, p + 28, d.name + node.slack);
    PushSlice(img, p + 16, p + 17, node.trailer + (d.name + node.slack));
    assert img[p + 16..p + 17] == [d.NameSize()];
    var afterIno: bytes := node.mctime + ([d.NameSize()] + (node.trailer + (d.name + node.slack)));
    PushSlice(img, p + 12, p + 16, [d.NameSize()] + (node.trailer + (d.name + node.slack)));
    PushU32(img, p + 8, d.ino, afterIno, bigEndian);
    PushU32(img, p + 4, d.version, PutU32(d.ino, bigEndian) + afterIno, bigEndian);
    PushU32(img, p, d.pino, PutU32(d.version, bigEndian) + (PutU32(d.ino, bigEndian) + afterIno), bigEndian);
  }

  lemma WholeSlice(img: bytes, p: nat, end: nat)
    requires p <= end <= |img|
    ensures At(img, p, img[p..end])
  {
  }

  lemma InodeIsWritten(img: bytes, pos: nat, totlen: uint32, bigEndian: bool) returns (node: LogNode)
    requires pos + totlen <= |img| && ParseInodeNode(img, pos, totlen, bigEndian).Some?
    ensures node.InodeNode? && node.WellFormed() && 12 + |node.Body(bigEndian)| == totlen
    ensures At(img, pos + 12, node.Body(bigEndian))
    ensures ParseInodeNode(img, pos, totlen, bigEndian) == Some(node.rec.(fileOffset := pos + 68))
  {
    hide U32, PutU32, At;
    var p := pos + 12;
    var r := ParseInodeNode(img, pos, totlen, bigEndian).value;
    node := InodeNode(r, img[p + 12..p + 16], img[p + 20..p + 32], img[p + 45..p + 56], img[p + 56..pos + totlen]);
    WholeSlice(img, p + 56, pos + totlen);
    PushSlice(img, p + 45, p + 56, node.payload);
    var rest := node.trailer + node.payload;
    PushSlice(img, p + 44, p + 45, rest);
    assert img[p + 44..p + 45] == [r.compr];
    var data := InodeTailIsWritten(img, p, r, rest, bigEndian);
    PushSlice(img, p + 20, p + 32, data);
    PushU32(img, p + 16, r.isize, node.times + data, bigEndian);
    var middle: bytes := PutU32(r.isize, bigEndian) + (node.times + data);
    PushSlice(img, p + 12, p + 16, middle);
    PushU32(img, p + 8, r.mode, node.owner + middle, bigEndian);
    PushU32(img, p + 4, r.version, PutU32(r.mode, bigEndian) + (node.owner + middle), bigEndian);
    PushU32(img, p, r.ino, PutU32(r.version, bigEndian) + (PutU32(r.mode, bigEndian) + (node.owner + middle)),
            bigEndian);
  }

  lemma InodeTailIsWritten(img: bytes, p: nat, r: InodeRec, rest: bytes, bigEndian: bool) returns (data: bytes)
    requires p + 44 <= |img| && At(img, p + 44, [r.compr] + rest)
    requires U32(img, p + 32, bigEndian) == r.fragOffset && U32(img, p + 36, bigEndian) == r.csize
    requires U32(img, p + 40, bigEndian) == r.dsize
    ensures data == PutU32(r.fragOffset, bigEndian) + (PutU32(r.csize, bigEndian) +
                    (PutU32(r.dsize, bigEndian) + ([r.compr] + rest)))
    ensures At(img, p + 32, data)
  {
    hide U32, PutU32, At;
    var afterCsize: bytes := PutU32(r.dsize, bigEndian) + ([r.compr] + rest);
    PushU32(img, p + 40, r.dsize, [r.compr] + rest, bigEndian);
    PushU32(img, p + 36, r.csize, afterCsize, bigEndian);
    PushU32(img, p + 32, r.fragOffset, PutU32(r.csize, bigEndian) + afterCsize, bigEndian);
    data := PutU32(r.fragOffset, bigEndian) + (PutU32(r.csize, bigEndian) + afterCsize);
  }

  lemma BodyIsWritten(img: bytes, pos: nat, bigEndian: bool) returns (node: LogNode)
    requires pos + 12 <= |img| && NodeRecords(img, pos, bigEndian).Some?
    ensures node.WellFormed() && 12 + |node.Body(bigEndian)| == U32(img, pos + 4, bigEndian)
    ensures pos + U32(img, pos + 4, bigEndian) <= |img|
    ensures node.NodeType() == U16(img, pos + 2, bigEndian) && At(img, pos + 12, node.Body(bigEndian))
  {
    hide U16, U32, PutU32, At, ParseDirentNode, ParseInodeNode;
    var totlen := U32(img, pos + 4, bigEndian);
    if U16(img, pos + 2, bigEndian) == NODETYPE_DIRENT {
      node := DirentIsWritten(img, pos, totlen, bigEndian);
    } else if U16(img, pos + 2, bigEndian) == NODETYPE_INODE {
      node := InodeIsWritten(img, pos, totlen, bigEndian);
    } else {
      node := OtherNode(U16(img, pos + 2, bigEndian), img[pos + 12..pos + totlen]);
      WholeSlice(img, pos + 12, pos + totlen);
    }
  }

  /** Whatever is accepted behind a magic is a whole node, of the length its header gives. */
  lemma NodeIsWritten(img: bytes, pos: nat, bigEndian: bool, pad: bytes, gap: bytes) returns (item: Item)
    requires MagicAt(img, pos, bigEndian) && pos + 12 <= |img| && NodeRecords(img, pos, bigEndian).Some?
    requires |pad| < 4 && (U32(img, pos + 4, bigEndian) + |pad|) % 4 == 0
    requires |gap| % 4 == 0 && NoAlignedMagic(gap, bigEndian)
    ensures item.pad == pad && item.gap == gap && item.WellFormed(bigEndian)
    ensures 12 + |item.node.Body(bigEndian)| == U32(img, pos + 4, bigEndian)
    ensures pos + U32(img, pos + 4, bigEndian) <= |img|
    ensures At(img, pos, item.Header(bigEndian)) && At(img, pos + 12, item.node.Body(bigEndian))
  {
    hide LogNode.Body, LogNode.WellFormed, LogNode.NodeType, U16, U32, PutU32, PutU16, At, NodeRecords, NoAlignedMagic;
    var node := BodyIsWritten(img, pos, bigEndian);
    var crc := img[pos + 8..pos + 12];
    item := Item(node, crc, pad, gap);
    WholeSlice(img, pos + 8, pos + 12);
    PushU32(img, pos + 4, U32(img, pos + 4, bigEndian), crc, bigEndian);
    var afterType: bytes := PutU32(U32(img, pos + 4, bigEndian), bigEndian) + crc;
    PushU16(img, pos + 2, node.NodeType(), afterType, bigEndian);
    MagicIsBytes(img, pos, bigEndian);
    PushSlice(img, pos, pos + 2, PutU16(node.NodeType(), bigEndian) + afterType);
  }

  lemma EncodedIsThere(img: bytes, pos: nat, item: Item, bigEndian: bool, next: nat)
    requires item.WellFormed(bigEndian) && pos <= next <= |img|
    requires At(img, pos, item.Header(bigEndian)) && At(img, pos + 12, item.node.Body(bigEndian))
    requires At(img, pos + 12 + |item.node.Body(bigEndian)|, item.pad + item.gap)
    requires next == pos + 12 + |item.node.Body(bigEndian)| + |item.pad + item.gap|
    ensures img[pos..] == item.Encoded(bigEndian) + img[next..]
  {
    hide LogNode.Body, Item.Header;
    var body := item.node.Body(bigEndian);
    AtSplits(img, pos + 12, body, item.pad + item.gap);
    AtSplits(img, pos, item.Header(bigEndian), body + (item.pad + item.gap));
    assert img[pos..] == img[pos..next] + img[next..];
  }

  /** The rest of an image is these items and this filler, but for the padding that the last item lacks. */
  ghost predicate IsRest(rest: bytes, w: WrittenLog) {
    w.WellFormed() && rest == w.Image()
  }

  lemma OneMoreItem(item: Item, rest: bytes, w: WrittenLog) returns (v: WrittenLog)
    requires item.WellFormed(w.bigEndian) && IsRest(rest, w)
    ensures v.bigEndian == w.bigEndian && IsRest(item.Encoded(w.bigEndian) + rest, v)
  {
    hide Item.Encoded, Item.WellFormed, NoNodeLeft, Encode;
    v := w.(items := [item] + w.items);
    assert v.items[1..] == w.items;
    EncodeIs(v.items, v.bigEndian);
    EndPadIsWritten(w.items, w.tail, w.bigEndian);
    assert v.items[|v.items| - 1] == w.items[|w.items| - 1];
    assert v.Padded() == item.Encoded(w.bigEndian) + w.Padded();
    CutBehind(item.Encoded(w.bigEndian), w.Padded(), w.unpadded);
  }

  lemma EncodeIs(items: seq<Item>, bigEndian: bool)
    requires items != [] && WellFormedItems(items, bigEndian)
    ensures items[0].WellFormed(bigEndian) && WellFormedItems(items[1..], bigEndian)
    ensures Encode(items, bigEndian) == items[0].Encoded(bigEndian) + Encode(items[1..], bigEndian)
  {
    hide Item.Encoded;
  }

  /** One item and filler. */
  lemma OneItem(item: Item, tail: bytes, bigEndian: bool) returns (v: WrittenLog)
    requires item.WellFormed(bigEndian) && NoNodeLeft(tail, bigEndian)
    ensures v.bigEndian == bigEndian && IsRest(item.Encoded(bigEndian) + tail, v)
  {
    hide Item.Encoded, Item.WellFormed, NoNodeLeft;
    v := WrittenLog([item], tail, bigEndian, 0);
    OnlyItem([item], bigEndian);
    assert v.Padded() == item.Encoded(bigEndian) + tail;
  }

  /** One item without all of its padding. */
  lemma OneShortItem(item: Item, bigEndian: bool, n: nat) returns (v: WrittenLog)
    requires item.WellFormed(bigEndian) && item.gap == [] && n <= |item.pad|
    ensures n <= |item.Encoded(bigEndian)| && v.bigEndian == bigEndian
    ensures IsRest(item.Encoded(bigEndian)[..|item.Encoded(bigEndian)| - n], v)
  {
    hide LogNode.Body, Item.Header;
    v := WrittenLog([item], [], bigEndian, n);
    OnlyItem([item], bigEndian);
    assert v.Padded() == item.Encoded(bigEndian);
  }

  /** Where the scan goes on behind a node: the next magic with room for a header, if there is one. */
  lemma NextNode(img: bytes, q: nat, bigEndian: bool) returns (next: Option<nat>)
    requires q % 4 == 0 && q <= |img|
    ensures next.None? ==> NoNodeLeft(img[q..], bigEndian)
    ensures next.Some? ==>
              && q <= next.value && next.value % 4 == 0 && next.value + 12 <= |img|
              && MagicAt(img, next.value, bigEndian) && NoAlignedMagic(img[q..next.value], bigEndian)
              && ScanFrom(img, q, bigEndian) == ScanFrom(img, next.value, bigEndian)
  {
    next := NextMagic(img, q, bigEndian);
    NextMagicIsLeast(img, q, bigEndian, 0);
    if next.None? || next.value + 12 > |img| {
      forall p: nat | p % 4 == 0 && p + 12 <= |img[q..]| ensures img[q..][p..p + 2] != MagicBytes(bigEndian) {
        BeforeNext(img, q, bigEndian, p);
      }
      next := None;
    } else {
      StaysAligned(q, next.value);
      var gap := img[q..next.value];
      forall p: nat | p % 4 == 0 && p + 2 <= |gap| ensures gap[p..p + 2] != MagicBytes(bigEndian) {
        BeforeNext(img, q, bigEndian, p);
        SliceOfSlice(img, q, next.value, p);
      }
    }
  }

  lemma SliceOfSlice(img: bytes, q: nat, n: nat, p: nat)
    requires q + p + 2 <= n <= |img|
    ensures img[q..n][p..p + 2] == img[q + p..q + p + 2]
  {
    var a, b := img[q..n][p..p + 2], img[q + p..q + p + 2];
    assert |a| == |b| == 2 && a[0] == b[0] && a[1] == b[1];
  }

  /** There is no aligned magic before the next one. */
  lemma BeforeNext(img: bytes, q: nat, bigEndian: bool, p: nat)
    requires p % 4 == 0 && q + p + 2 <= |img|
    ensures var next := NextMagic(img, q, bigEndian);
            (next.Some? ==> q + p < next.value) ==> img[q..][p..p + 2] != MagicBytes(bigEndian)
    ensures img[q..][p..p + 2] == img[q + p..q + p + 2]
  {
    NextMagicIsLeast(img, q, bigEndian, p / 4);
    MagicIsBytes(img, q + p, bigEndian);
    assert img[q..][p..p + 2] == img[q + p..q + p + 2];
  }

  /** Whatever is scanned behind an aligned magic is a written log. */
  lemma {:induction false} RestIsWritten(img: bytes, pos: nat, bigEndian: bool) returns (w: WrittenLog)
    requires pos % 4 == 0 && pos + 12 <= |img| && MagicAt(img, pos, bigEndian)
    requires ScanFrom(img, pos, bigEndian).Some?
    ensures w.bigEndian == bigEndian && IsRest(img[pos..], w)
    decreases |img| - pos
  {
    hide *;
    var end, q := NodeEnds(img, pos, bigEndian);
    if q > |img| {
      var item := NodeIsWritten(img, pos, bigEndian, img[end..] + Zeros(q - |img|), []);
      ShortItemIsThere(img, pos, item, bigEndian, q - |img|);
      w := OneShortItem(item, bigEndian, q - |img|);
    } else {
      var next := NextNode(img, q, bigEndian);
      if next.None? {
        var item := NodeIsWritten(img, pos, bigEndian, img[end..q], []);
        PadIsThere(img, end, q, q);
        EncodedIsThere(img, pos, item, bigEndian, q);
        w := OneItem(item, img[q..], bigEndian);
      } else {
        var n := next.value;
        GapIsWords(img, q, n);
        var item := NodeIsWritten(img, pos, bigEndian, img[end..q], img[q..n]);
        PadIsThere(img, end, q, n);
        EncodedIsThere(img, pos, item, bigEndian, n);
        var rest := RestIsWritten(img, n, bigEndian);
        w := OneMoreItem(item, img[n..], rest);
      }
    }
  }

  lemma NodeEnds(img: bytes, pos: nat, bigEndian: bool) returns (end: nat, q: nat)
    requires pos % 4 == 0 && pos + 12 <= |img| && MagicAt(img, pos, bigEndian)
    requires ScanFrom(img, pos, bigEndian).Some?
    ensures NodeRecords(img, pos, bigEndian).Some? && ScanFrom(img, q, bigEndian).Some?
    ensures end == pos + U32(img, pos + 4, bigEndian) && pos + 12 <= end <= |img|
    ensures end <= q < end + 4 && q % 4 == 0 && (U32(img, pos + 4, bigEndian) + (q - end)) % 4 == 0
    ensures NoAlignedMagic([], bigEndian)
  {
    hide NodeRecords, NextMagic, U32;
    end := pos + U32(img, pos + 4, bigEndian);
    AcceptedLength(img, pos, bigEndian);
    q := Align4(end);
    Align4Bounds(end);
    WordsEnd(pos, end, q);
  }

  lemma AcceptedLength(img: bytes, pos: nat, bigEndian: bool)
    requires pos + 12 <= |img| && NodeRecords(img, pos, bigEndian).Some?
    ensures 12 <= U32(img, pos + 4, bigEndian) <= |img| - pos
  {
    hide U32;
  }

  lemma WordsEnd(pos: nat, end: nat, q: nat)
    requires pos % 4 == 0 && q % 4 == 0 && pos <= end <= q
    ensures (end - pos + (q - end)) % 4 == 0
  {
  }

  lemma GapIsWords(img: bytes, q: nat, n: nat)
    requires q % 4 == 0 && n % 4 == 0 && q <= n <= |img|
    ensures |img[q..n]| % 4 == 0
  {
  }

  lemma PadIsThere(img: bytes, end: nat, q: nat, n: nat)
    requires end <= q <= n <= |img|
    ensures At(img, end, img[end..q] + img[q..n]) && img[end..q] + [] == img[end..q]
    ensures n == q ==> At(img, end, img[end..q] + [])
  {
    assert img[end..q] + img[q..n] == img[end..n];
  }

  lemma ShortItemIsThere(img: bytes, pos: nat, item: Item, bigEndian: bool, n: nat)
    requires item.WellFormed(bigEndian) && item.gap == [] && n <= |item.pad|
    requires At(img, pos, item.Header(bigEndian)) && At(img, pos + 12, item.node.Body(bigEndian))
    requires var end := pos + 12 + |item.node.Body(bigEndian)|; end <= |img| && item.pad == img[end..] + Zeros(n)
    ensures n <= |item.Encoded(bigEndian)|
    ensures img[pos..] == item.Encoded(bigEndian)[..|item.Encoded(bigEndian)| - n]
  {
    hide LogNode.Body, Item.Header;
    var body := item.node.Body(bigEndian);
    var end := pos + 12 + |body|;
    AtSplits(img, pos, item.Header(bigEndian), body);
    assert img[pos..] == img[pos..end] + img[end..];
    assert item.Encoded(bigEndian) == item.Header(bigEndian) + body + img[end..] + Zeros(n);
  }

  /** An image is scanned successfully exactly when it is a written log; no other image is accepted. */
  lemma ScanIsWritten(img: bytes) returns (w: WrittenLog)
    requires Scan(img).Some?
    ensures w.WellFormed() && w.Image() == img && Scan(img) == Some(w.Records())
  {
    hide *;
    var bigEndian := ScanStarts(img);
    w := RestIsWritten(img, 0, bigEndian);
    assert IsRest(img, w) by {
      FromZero(img);
    }
    RestIs(img, w);
    ScanRoundTrip(w);
  }

  lemma ScanStarts(img: bytes) returns (bigEndian: bool)
    requires Scan(img).Some?
    ensures |img| >= 12 && MagicAt(img, 0, bigEndian) && ScanFrom(img, 0, bigEndian).Some?
  {
    hide ScanFrom;
    bigEndian := DetectEndianness(img).value;
  }

  lemma FromZero(img: bytes)
    ensures img[0..] == img
  {
  }

  lemma RestIs(img: bytes, w: WrittenLog)
    requires IsRest(img, w)
    ensures w.WellFormed() && w.Image() == img
  {
    hide WrittenLog.WellFormed, WrittenLog.Image;
  }
}
