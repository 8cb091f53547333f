/** The blocks that file data is written in, and what decompressors are. */
module DataBlocks {
  import opened Bytes

  /** The zlib library: the compressed bytes and the capacity offered for the output. */
  type Inflater = (bytes, nat) -> Option<bytes>

  /** A block of a file: all zeros and nothing on disk, or stored, or in any form that a decompressor undoes. */
  datatype DataBlock = Hole(len: nat) | Raw(content: bytes) | Squeezed(packed: bytes, content: bytes) {
    function Data(): bytes {
      if Hole? then Zeros(len) else content
    }

    function OnDisk(): bytes {
      match this
      case Hole(_) => []
      case Raw(content) => content
      case Squeezed(packed, _) => packed
    }
  }

  function Contents(bs: seq<DataBlock>): (r: seq<bytes>)
    ensures |r| == |bs| && forall i :: 0 <= i < |bs| ==> r[i] == bs[i].Data()
  {
    seq(|bs|, i requires 0 <= i < |bs| => bs[i].Data())
  }

  function Payloads(bs: seq<DataBlock>): (r: seq<bytes>)
    ensures |r| == |bs| && forall i :: 0 <= i < |bs| ==> r[i] == bs[i].OnDisk()
  {
    seq(|bs|, i requires 0 <= i < |bs| => bs[i].OnDisk())
  }
}
