/** What one chunk call reports, and the value the model assigns to a chunk call. */
module ChunkResult {
  import opened Types

  /** How many bytes a chunk call wrote and whether its input ended with a CR whose
      resolution is deferred to the next chunk. */
  datatype NormalizeChunkResult = NormalizeChunkResult(outputLen: nat, endedWithCr: bool)
  {
    /** Stores both fields unchanged. */
    static function New(outputLen: nat, endedWithCr: bool): (r: NormalizeChunkResult)
      ensures r.OutputLen() == outputLen && r.EndedWithCr() == endedWithCr
    {
      NormalizeChunkResult(outputLen, endedWithCr)
    }

    function OutputLen(): nat
    {
      outputLen
    }

    function EndedWithCr(): bool
    {
      endedWithCr
    }
  }

  /** The bytes a chunk call produces, with the carried bit it hands to the next call. */
  datatype Normalized = Normalized(bytes: seq<byte>, endedWithCr: bool)
  {
    /** The status a call producing this value reports. */
    function Status(): (r: NormalizeChunkResult)
      ensures r.OutputLen() == |bytes| && r.EndedWithCr() == endedWithCr
    {
      NormalizeChunkResult.New(|bytes|, endedWithCr)
    }
  }
}
