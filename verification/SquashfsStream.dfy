/**
 SquashFS metadata: a chain of small blocks, each stored or compressed, read through a buffered cursor.
 The cursor behaves like one flat stream of decoded bytes, wherever the block boundaries fall.
 */
module SquashfsStream {
  import opened Bytes
  import opened DataBlocks

  const METADATA_BLOCK_SIZE := 8192

  // ----- decompression -----

  /** The compression libraries. zlib returns its output; xz also says how much of its input it consumed. */
  datatype Codec = Codec(zlib: Inflater, xz: (bytes, nat) -> Option<(bytes, nat)>)

  /** What the parsers read from: the image, and how its blocks are compressed. */
  datatype Source = Source(img: bytes, codec: Codec, compression: uint16)

  /** The libraries never write more than `cap` bytes, so a longer answer counts as a failure. */
  function DecompressBlock(src: Source, packed: bytes, cap: nat): (r: Option<bytes>)
    ensures r.Some? ==> |r.value| <= cap
  {
    match src.compression
    case 1 =>
      var out :- src.codec.zlib(packed, cap);
      if |out| > cap then None else Some(out)
    case 4 =>
      var out :- src.codec.xz(packed, cap);
      if out.1 != |packed| || |out.0| > cap then None else Some(out.0)
    case _ => None
  }

  /** What unpacking means: zlib's output, or xz's when it used up all of its input; no other library is there. */
  ghost predicate Unpacks(src: Source, packed: bytes, cap: nat, data: bytes) {
    match src.compression
    case 1 => src.codec.zlib(packed, cap) == Some(data) && |data| <= cap
    case 4 => src.codec.xz(packed, cap) == Some((data, |packed|)) && |data| <= cap
    case _ => false
  }

  lemma UnpackedIff(src: Source, packed: bytes, cap: nat, data: bytes)
    ensures DecompressBlock(src, packed, cap) == Some(data) <==> Unpacks(src, packed, cap, data)
  {
  }

  // ----- blocks -----

  /** A decoded block and where the next one starts. */
  datatype Block = Block(data: bytes, next: nat)

  function LoadBlock(src: Source, offset: nat): (r: Option<Block>)
    ensures r.Some? ==> |r.value.data| <= METADATA_BLOCK_SIZE && offset + 2 < r.value.next <= |src.img|
  {
    if offset + 2 > |src.img| then None
    else
      var hdr := U16(src.img, offset, false);
      var size := hdr % 0x8000;
      var next := offset + 2 + size;
      if size > METADATA_BLOCK_SIZE || size == 0 || next > |src.img| then None
      else if hdr / 0x8000 == 0 then
        var data :- DecompressBlock(src, src.img[offset + 2..next], METADATA_BLOCK_SIZE);
        Some(Block(data, next))
      else Some(Block(src.img[offset + 2..next], next))
  }

  /** All decoded bytes from the block at `offset` on, up to the first block that cannot be loaded. */
  function FlatStream(src: Source, offset: nat): bytes
    decreases |src.img| - offset
  {
    var block := LoadBlock(src, offset);
    if block.None? then [] else block.value.data + FlatStream(src, block.value.next)
  }

  /** The stream from a position inside the block at `start`. */
  function StreamAt(src: Source, start: nat, inBlock: nat): Option<bytes> {
    var block :- LoadBlock(src, start);
    if inBlock > |block.data| then None
    else Some(block.data[inBlock..] + FlatStream(src, block.next))
  }

  /** A position is a suffix of the flat stream that starts at its block. */
  lemma StreamAtIsSuffix(src: Source, start: nat, inBlock: nat)
    requires StreamAt(src, start, inBlock).Some?
    ensures inBlock <= |FlatStream(src, start)|
    ensures StreamAt(src, start, inBlock).value == FlatStream(src, start)[inBlock..]
  {
  }

  // ----- fields -----

  function Sum(widths: seq<nat>): nat {
    if widths == [] then 0 else widths[0] + Sum(widths[1..])
  }

  /** Consecutive little-endian fields of the given widths. */
  function Fields(s: bytes, widths: seq<nat>): (r: Option<seq<nat>>)
    ensures r.Some? <==> Sum(widths) <= |s|
    ensures r.Some? ==> |r.value| == |widths|
    ensures r.Some? ==> forall i :: 0 <= i < |widths| ==> r.value[i] < Pow256(widths[i])
    decreases |widths|
  {
    if widths == [] then Some([])
    else if |s| < widths[0] then None
    else
      var rest :- Fields(s[widths[0]..], widths[1..]);
      Some([Le(s[..widths[0]])] + rest)
  }

  function PutFields(vals: seq<nat>, widths: seq<nat>): (s: bytes)
    requires |vals| == |widths|
    ensures |s| == Sum(widths)
  {
    if widths == [] then [] else PutLe(vals[0], widths[0]) + PutFields(vals[1..], widths[1..])
  }

  ghost predicate Fit(vals: seq<nat>, widths: seq<nat>) {
    |vals| == |widths| && forall i :: 0 <= i < |vals| ==> vals[i] < Pow256(widths[i])
  }

  lemma FieldsUnfold(first: bytes, more: bytes, widths: seq<nat>)
    requires widths != [] && |first| == widths[0]
    ensures var rest := Fields(more, widths[1..]);
            Fields(first + more, widths) == if rest.None? then None else Some([Le(first)] + rest.value)
  {
    hide Le;
    var s := first + more;
    assert s[..widths[0]] == first && s[widths[0]..] == more;
  }

  lemma {:induction false} FieldsRoundTrip(vals: seq<nat>, widths: seq<nat>, rest: bytes)
    requires Fit(vals, widths)
    ensures Fields(PutFields(vals, widths) + rest, widths) == Some(vals)
    decreases |widths|
  {
    hide Fields, Le, PutLe, Pow256;
    if widths == [] {
      NoFields(PutFields(vals, widths) + rest);
    } else {
      var first, more := PutLe(vals[0], widths[0]), PutFields(vals[1..], widths[1..]);
      FieldsRoundTrip(vals[1..], widths[1..], rest);
      LeRoundTrip(vals[0], widths[0]);
      FieldsUnfold(first, more + rest, widths);
      assert PutFields(vals, widths) + rest == first + (more + rest);
      assert [vals[0]] + vals[1..] == vals;
    }
  }

  lemma NoFields(s: bytes)
    ensures Fields(s, []) == Some([])
  {
  }

  lemma {:induction false} PutFieldsRoundTrip(s: bytes, widths: seq<nat>)
    requires Sum(widths) <= |s|
    ensures PutFields(Fields(s, widths).value, widths) == s[..Sum(widths)]
    decreases |widths|
  {
    hide Fields, Le, PutLe, Pow256;
    if widths == [] {
    } else {
      var w := widths[0];
      var first, more := s[..w], s[w..];
      assert s == first + more;
      FieldsUnfold(first, more, widths);
      PutLeRoundTrip(first);
      PutFieldsRoundTrip(more, widths[1..]);
      assert Fields(s, widths).value[1..] == Fields(more, widths[1..]).value;
      assert s[..Sum(widths)] == first + more[..Sum(widths[1..])];
    }
  }

  // ----- the cursor -----

  lemma PieceMoves(d: bytes, piece: bytes, rest: bytes)
    ensures d + (piece + rest) == d + piece + rest
  {
  }

  lemma PrefixRead(d: bytes, rest: bytes)
    ensures (d + rest)[..|d|] == d && (d + rest)[|d|..] == rest
  {
  }

  class MetadataCursor {
    const src: Source
    const buf: array<byte>
    var nextBlockOffset: nat
    var bufLen: nat
    var bufPos: nat

    ghost predicate Valid()
      reads this
    {
      buf.Length == METADATA_BLOCK_SIZE && bufPos <= bufLen <= buf.Length
    }

    /** Everything that can still be read. */
    ghost function Remaining(): bytes
      requires Valid()
      reads this, buf
    {
      buf[bufPos..bufLen] + FlatStream(src, nextBlockOffset)
    }

    constructor (src: Source, start: nat)
      ensures Valid() && this.src == src && nextBlockOffset == start && bufLen == bufPos == 0
      ensures fresh(buf)
    {
      this.src := src;
      buf := new byte[METADATA_BLOCK_SIZE];
      nextBlockOffset := start;
      bufLen, bufPos := 0, 0;
    }

    method LoadNextBlock() returns (ok: bool)
      requires Valid()
      modifies this, buf
      ensures Valid()
      ensures ok <==> LoadBlock(src, old(nextBlockOffset)).Some?
      ensures ok ==> var block := LoadBlock(src, old(nextBlockOffset)).value;
                     bufPos == 0 && buf[..bufLen] == block.data && nextBlockOffset == block.next
      ensures old(bufPos == bufLen) ==> old(Remaining()) == if ok then Remaining() else []
    {
      hide LoadBlock;
      var block := LoadBlock(src, nextBlockOffset);
      if block.None? {
        return false;
      }
      var data := block.value.data;
      forall i | 0 <= i < |data| {
        buf[i] := data[i];
      }
      bufLen, bufPos := |data|, 0;
      nextBlockOffset := block.value.next;
      assert buf[0..bufLen] == buf[..bufLen] == data;
      return true;
    }

    /** Positions the cursor inside its first block. */
    method Seek(inBlock: nat) returns (ok: bool)
      requires Valid() && bufLen == bufPos == 0
      modifies this, buf
      ensures Valid()
      ensures ok <==> StreamAt(src, old(nextBlockOffset), inBlock).Some?
      ensures ok ==> Some(Remaining()) == StreamAt(src, old(nextBlockOffset), inBlock)
    {
      hide LoadBlock, FlatStream;
      var loaded := LoadNextBlock();
      if !loaded || inBlock > bufLen {
        return false;
      }
      assert buf[..bufLen][inBlock..] == buf[inBlock..bufLen];
      bufPos := inBlock;
      return true;
    }

    /** Hands out up to `left` of the bytes already decoded. */
    method Take(left: nat) returns (piece: bytes)
      requires Valid()
      modifies this`bufPos
      ensures Valid()
      ensures |piece| == if left < bufLen - old(bufPos) then left else bufLen - old(bufPos)
      ensures old(Remaining()) == piece + Remaining()
    {
      hide FlatStream;
      var avail := bufLen - bufPos;
      var take := if left < avail then left else avail;
      piece := buf[bufPos..bufPos + take];
      assert buf[bufPos..bufLen] == piece + buf[bufPos + take..bufLen];
      bufPos := bufPos + take;
    }

    /** Reads `n` bytes, loading as many blocks as that takes; blocks may decode to nothing. */
    method Read(n: nat) returns (r: Option<bytes>)
      requires Valid()
      modifies this, buf
      ensures Valid()
      ensures r.Some? <==> n <= |old(Remaining())|
      ensures r.Some? ==> r.value == old(Remaining())[..n] && Remaining() == old(Remaining())[n..]
    {
      hide LoadBlock, FlatStream, MetadataCursor.Remaining;
      ghost var stream := Remaining();
      var d: bytes := [];
      var left := n;
      while left > 0
        invariant Valid() && 0 <= left && |d| + left == n
        invariant stream == d + Remaining()
        decreases left, |src.img| - nextBlockOffset
      {
        if bufPos >= bufLen {
          var loaded := LoadNextBlock();
          if !loaded {
            return None;
          }
        }
        var piece := Take(left);
        PieceMoves(d, piece, Remaining());
        d := d + piece;
        left := left - |piece|;
      }
      PrefixRead(d, Remaining());
      return Some(d);
    }

    /** A chain of reads, each decoded as one little-endian field. */
    method ReadFields(widths: seq<nat>) returns (r: Option<seq<nat>>)
      requires Valid()
      modifies this, buf
      ensures Valid()
      ensures r == Fields(old(Remaining()), widths)
      ensures r.Some? ==> Remaining() == old(Remaining())[Sum(widths)..]
      decreases |widths|
    {
      hide FlatStream, MetadataCursor.Remaining, Le;
      if widths == [] {
        return Some([]);
      }
      var first := Read(widths[0]);
      if first.None? {
        return None;
      }
      var rest := ReadFields(widths[1..]);
      if rest.None? {
        return None;
      }
      return Some([Le(first.value)] + rest.value);
    }
  }

  /** Any series of reads returns consecutive slices of the flat stream. */
  method ReadSeries(c: MetadataCursor, lengths: seq<nat>) returns (parts: Option<seq<bytes>>)
    requires c.Valid()
    modifies c, c.buf
    ensures c.Valid()
    ensures parts.Some? <==> Sum(lengths) <= |old(c.Remaining())|
    ensures parts.Some? ==> |parts.value| == |lengths| &&
                            (forall i :: 0 <= i < |lengths| ==> |parts.value[i]| == lengths[i]) &&
                            Flatten(parts.value) + c.Remaining() == old(c.Remaining()) &&
                            c.Remaining() == old(c.Remaining())[Sum(lengths)..]
    decreases |lengths|
  {
    hide FlatStream, MetadataCursor.Remaining;
    if lengths == [] {
      return Some([]);
    }
    ghost var stream := c.Remaining();
    var first := c.Read(lengths[0]);
    if first.None? {
      return None;
    }
    assert stream == first.value + c.Remaining();
    var rest := ReadSeries(c, lengths[1..]);
    if rest.None? {
      return None;
    }
    SeriesJoins(stream, lengths, first.value, rest.value, c.Remaining());
    return Some([first.value] + rest.value);
  }

  lemma SeriesJoins(stream: bytes, lengths: seq<nat>, first: bytes, rest: seq<bytes>, left: bytes)
    requires lengths != [] && |first| == lengths[0] <= |stream| && |rest| == |lengths| - 1
    requires forall i :: 0 <= i < |rest| ==> |rest[i]| == lengths[1..][i]
    requires stream == first + stream[lengths[0]..] && stream[lengths[0]..] == Flatten(rest) + left
    requires Sum(lengths[1..]) <= |stream[lengths[0]..]| && left == stream[lengths[0]..][Sum(lengths[1..])..]
    ensures var parts := [first] + rest;
            && (forall i :: 0 <= i < |parts| ==> |parts[i]| == lengths[i])
            && Flatten(parts) + left == stream && left == stream[Sum(lengths)..]
  {
    assert ([first] + rest)[1..] == rest;
    PieceMoves(first, Flatten(rest), left);
  }

  // ----- writing blocks -----

  /** A block to write: stored as it is, or as any packed form that the decompressor undoes. */
  datatype Chunk = Stored(data: bytes) | Packed(packed: bytes, data: bytes) {
    ghost predicate WellFormed(src: Source) {
      match this
      case Stored(data) => 1 <= |data| <= 8192
      case Packed(packed, data) => 1 <= |packed| <= 8192 && Unpacks(src, packed, 8192, data)
    }

    function Payload(): bytes {
      if Stored? then data else packed
    }

    function Encoded(): bytes
      requires |Payload()| <= 8192
    {
      PutU16((if Stored? then 0x8000 else 0) + |Payload()|, false) + Payload()
    }
  }

  /** The image holds the chunks one after the other from `offset`; `end` is where they stop. */
  ghost predicate ChunksAt(src: Source, offset: nat, chunks: seq<Chunk>, end: nat)
    decreases |chunks|
  {
    if chunks == [] then offset == end
    else
      && chunks[0].WellFormed(src)
      && var next := offset + |chunks[0].Encoded()|;
         && next <= |src.img| && src.img[offset..next] == chunks[0].Encoded()
         && ChunksAt(src, next, chunks[1..], end)
  }

  function Datas(chunks: seq<Chunk>): (r: seq<bytes>)
    ensures |r| == |chunks|
  {
    seq(|chunks|, i requires 0 <= i < |chunks| => chunks[i].data)
  }

  lemma ChunkLoads(src: Source, offset: nat, chunk: Chunk)
    requires chunk.WellFormed(src)
    requires var next := offset + |chunk.Encoded()|;
             next <= |src.img| && src.img[offset..next] == chunk.Encoded()
    ensures LoadBlock(src, offset) == Some(Block(chunk.data, offset + |chunk.Encoded()|))
  {
    hide DecompressBlock, Unpacks, U16, PutU16;
    if chunk.Packed? {
      UnpackedIff(src, chunk.packed, 8192, chunk.data);
    }
    var payload := chunk.Payload();
    var hdr: uint16 := (if chunk.Stored? then 0x8000 else 0) + |payload|;
    var next := offset + 2 + |payload|;
    assert src.img[offset..next] == PutU16(hdr, false) + payload;
    assert src.img[offset..offset + 2] == src.img[offset..next][..2] == PutU16(hdr, false);
    assert src.img[offset + 2..next] == src.img[offset..next][2..] == payload;
    U16Codec(src.img, offset, hdr, false);
  }

  /** However the data was cut into blocks, stored or packed, the stream is the data. */
  lemma {:induction false} ChunksStream(src: Source, offset: nat, chunks: seq<Chunk>, end: nat)
    requires ChunksAt(src, offset, chunks, end)
    ensures FlatStream(src, offset) == Flatten(Datas(chunks)) + FlatStream(src, end)
    decreases |chunks|
  {
    hide LoadBlock, Chunk.Encoded, Datas, Flatten;
    if chunks == [] {
      NoDatas(chunks);
      assert [] + FlatStream(src, end) == FlatStream(src, end);
    } else {
      var next := offset + |chunks[0].Encoded()|;
      ChunkLoads(src, offset, chunks[0]);
      ChunksStream(src, next, chunks[1..], end);
      MoreDatas(chunks);
      PieceMoves(chunks[0].data, Flatten(Datas(chunks[1..])), FlatStream(src, end));
    }
  }

  lemma NoDatas(chunks: seq<Chunk>)
    requires chunks == []
    ensures Flatten(Datas(chunks)) == []
  {
  }

  lemma MoreDatas(chunks: seq<Chunk>)
    requires chunks != []
    ensures Flatten(Datas(chunks)) == chunks[0].data + Flatten(Datas(chunks[1..]))
  {
    assert Datas(chunks)[1..] == Datas(chunks[1..]);
  }

  lemma FirstChunkLoads(src: Source, start: nat, chunks: seq<Chunk>, end: nat)
    requires chunks != [] && ChunksAt(src, start, chunks, end)
    ensures LoadBlock(src, start).Some? && LoadBlock(src, start).value.data == chunks[0].data
  {
    hide LoadBlock, Chunk.Encoded;
    ChunkLoads(src, start, chunks[0]);
  }

  /** What a cursor reads from a position in the first of some chunks: the data from there on, and then whatever
      follows the chunks. */
  lemma StreamOfChunks(src: Source, start: nat, chunks: seq<Chunk>, end: nat, before: bytes, middle: bytes,
                       after: bytes)
    requires chunks != [] && ChunksAt(src, start, chunks, end)
    requires |before| <= |chunks[0].data| && Flatten(Datas(chunks)) == before + middle + after
    ensures StreamAt(src, start, |before|) == Some(middle + (after + FlatStream(src, end)))
  {
    hide ChunksAt, FlatStream, LoadBlock, Flatten, Datas, Chunk.Encoded;
    ChunksStream(src, start, chunks, end);
    FirstChunkLoads(src, start, chunks, end);
    StreamAtIsSuffix(src, start, |before|);
    var rest := FlatStream(src, end);
    assert before + middle + after + rest == before + (middle + (after + rest));
    assert (before + (middle + (after + rest)))[|before|..] == middle + (after + rest);
  }

  // ----- whatever is loaded was written -----

  lemma LoadedIsChunk(src: Source, offset: nat) returns (chunk: Chunk)
    requires LoadBlock(src, offset).Some?
    ensures chunk.WellFormed(src) && |chunk.Payload()| <= 8192
    ensures LoadBlock(src, offset) == Some(Block(chunk.data, offset + |chunk.Encoded()|))
    ensures var next := offset + |chunk.Encoded()|; next <= |src.img| && src.img[offset..next] == chunk.Encoded()
  {
    hide DecompressBlock, Unpacks, PutU16, U16;
    var block := LoadBlock(src, offset).value;
    var hdr := U16(src.img, offset, false);
    var payload := src.img[offset + 2..block.next];
    if hdr / 0x8000 == 0 {
      chunk := Packed(payload, block.data);
      UnpackedIff(src, payload, 8192, block.data);
    } else {
      chunk := Stored(payload);
    }
    U16Codec(src.img, offset, hdr, false);
    assert src.img[offset..block.next] == src.img[offset..offset + 2] + payload;
  }

  /** A whole stream is the data of some chunks, up to the first block that cannot be loaded. */
  lemma {:induction false} StreamIsChunks(src: Source, offset: nat) returns (chunks: seq<Chunk>, end: nat)
    ensures ChunksAt(src, offset, chunks, end) && Flatten(Datas(chunks)) == FlatStream(src, offset)
    ensures LoadBlock(src, offset).Some? ==> chunks != [] && chunks[0].data == LoadBlock(src, offset).value.data
    decreases |src.img| - offset
  {
    hide LoadBlock, Chunk.Encoded, Chunk.WellFormed, Datas, Flatten;
    if LoadBlock(src, offset).None? {
      chunks, end := [], offset;
      NoDatas(chunks);
    } else {
      var chunk := LoadedIsChunk(src, offset);
      var rest: seq<Chunk>;
      rest, end := StreamIsChunks(src, offset + |chunk.Encoded()|);
      chunks := [chunk] + rest;
      assert chunks[1..] == rest;
      MoreDatas(chunks);
    }
  }

  // ----- what is read from a place in the image -----

  /** Metadata blocks with something in them that starts in the first block. */
  datatype Cut = Cut(chunks: seq<Chunk>, end: nat, before: bytes, after: bytes)

  /** From `start` on, the image's metadata blocks hold `middle` at offset `inBlock`, wherever they are cut. */
  ghost predicate HoldsAt(src: Source, start: nat, inBlock: nat, cut: Cut, middle: bytes) {
    && cut.chunks != [] && ChunksAt(src, start, cut.chunks, cut.end)
    && inBlock == |cut.before| <= |cut.chunks[0].data|
    && Flatten(Datas(cut.chunks)) == cut.before + middle + cut.after
  }

  /** What is held somewhere is what is read from there. */
  lemma HeldIsStreamed(src: Source, start: nat, inBlock: nat, cut: Cut, middle: bytes)
    requires HoldsAt(src, start, inBlock, cut, middle)
    ensures StreamAt(src, start, inBlock) == Some(middle + (cut.after + FlatStream(src, cut.end)))
  {
    hide ChunksAt, FlatStream, Flatten, Datas, StreamAt;
    StreamOfChunks(src, start, cut.chunks, cut.end, cut.before, middle, cut.after);
  }

  /** What is read from somewhere is held there. */
  lemma StreamedIsHeld(src: Source, start: nat, inBlock: nat, middle: bytes, more: bytes) returns (cut: Cut)
    requires StreamAt(src, start, inBlock) == Some(middle + more)
    ensures HoldsAt(src, start, inBlock, cut, middle)
  {
    hide ChunksAt, FlatStream, LoadBlock, Flatten, Datas;
    StreamAtIsSuffix(src, start, inBlock);
    var chunks, end := StreamIsChunks(src, start);
    var all := FlatStream(src, start);
    cut := Cut(chunks, end, all[..inBlock], more);
    assert all == all[..inBlock] + all[inBlock..] == all[..inBlock] + middle + more;
  }
}
