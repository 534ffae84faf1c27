/** The LF transducer: one chunk is scanned for CR with three cursors and written into a
    caller buffer at least as long as the chunk. */
module FormatsLf {
  import opened Types
  import opened ChunkResult
  import opened ByteSearch
  import opened Copy
  import opened LfSpec

  /** The output size demanded for a chunk of `chunkSize` bytes: it suffices for every
      chunk of that size, and some chunk of that size needs all of it. */
  function OutputRequired(chunkSize: nat): (r: nat)
    ensures forall input: seq<byte>, precededByCr: bool, isLastChunk: bool | |input| == chunkSize ::
      |ToLf(input, precededByCr, isLastChunk).bytes| <= r
  {
    forall input: seq<byte>, precededByCr: bool, isLastChunk: bool | |input| == chunkSize
      ensures |ToLf(input, precededByCr, isLastChunk).bytes| <= chunkSize
    {
      OutputLength(input, precededByCr, isLastChunk);
    }
    chunkSize
  }

  /** The bound is reached: a chunk without CR is copied whole. */
  lemma OutputRequiredIsTight(n: nat, precededByCr: bool, isLastChunk: bool)
    ensures exists input: seq<byte> | |input| == n ::
      |ToLf(input, precededByCr, isLastChunk).bytes| == OutputRequired(n)
  {
    var input: seq<byte> := seq(n, _ => 0x61 as byte);
    if n > 0 {
      assert NoCr(input);
      CollapseKeepsNoCr(input);
    }
    assert |ToLf(input, precededByCr, isLastChunk).bytes| == OutputRequired(n);
  }

  /** Normalizes one chunk to LF. Fails, writing nothing, when `output` is shorter than
      the chunk; otherwise writes exactly the chunk's LF conversion at the front of
      `output` and nothing beyond it. */
  method NormalizeChunk(input: seq<byte>, output: array<byte>, precededByCr: bool, isLastChunk: bool)
    returns (r: Result<NormalizeChunkResult>)
    modifies output
    ensures r.Err? <==> output.Length < OutputRequired(|input|)
    ensures r.Err? ==> r.error == OutputBufferTooSmall(OutputRequired(|input|))
    ensures r.Err? ==> output[..] == old(output[..])
    ensures r.Ok? ==> r.value == ToLf(input, precededByCr, isLastChunk).Status()
    ensures r.Ok? ==> StartsWith(output, ToLf(input, precededByCr, isLastChunk).bytes)
    ensures r.Ok? ==> forall j :: r.value.outputLen <= j < output.Length ==> output[j] == old(output[j])
  {
    var outputRequired := OutputRequired(|input|);
    if output.Length < outputRequired {
      return Err(OutputBufferTooSmall(outputRequired));
    }

    if |input| == 0 {
      return Ok(NormalizeChunkResult.New(0, precededByCr && !isLastChunk));
    }

    ghost var total := ToLf(input, precededByCr, isLastChunk).bytes;
    var start: nat := 0;
    if input[0] == LF && precededByCr {
      start := 1;
    }
    assert input[start..start] == [];

    var status := Scan(input, output, isLastChunk, start, total);
    return Ok(status);
  }

  /** The scanning loop of NormalizeChunk, entered with the carried CR already dealt
      with: a leading LF it completes is skipped by starting at 1. */
  method Scan(input: seq<byte>, output: array<byte>, isLastChunk: bool, start: nat, ghost total: seq<byte>)
    returns (r: NormalizeChunkResult)
    requires |input| > 0 && start <= 1 && (start == 1 ==> input[0] == LF)
    requires ScanInvariant(input, start, start, [], total)
    requires |total| <= output.Length
    modifies output
    ensures r.outputLen == |total| && r.endedWithCr == (!isLastChunk && EndsWithCr(input))
    ensures StartsWith(output, total)
    ensures forall j :: r.outputLen <= j < output.Length ==> output[j] == old(output[j])
  {
    var scanPos, readPos, writePos: nat := start, start, 0;
    ghost var written: seq<byte> := [];

    while true
      invariant ScanInvariant(input, readPos, scanPos, written, total)
      invariant writePos == |written| && StartsWith(output, written)
      invariant forall j :: writePos <= j < output.Length ==> output[j] == old(output[j])
      invariant scanPos == |input| ==> input[|input| - 1] != CR
      decreases |input| - scanPos
    {
      var found := Memchr(CR, input, scanPos);
      match found
      case Some(i) =>
        if i + 1 < |input| && input[i + 1] == LF {
          ScanPair(input, readPos, scanPos, i, written, total);
          CopyThen(input, readPos, i, [], output, writePos, written);
          written := written + (input[readPos..i] + []);
          writePos := writePos + (i - readPos);
          scanPos := i + 2;
          readPos := i + 1;
        } else if i + 1 < |input| {
          ScanLoneCr(input, readPos, scanPos, i, written, total);
          CopyThen(input, readPos, i, [LF], output, writePos, written);
          written := written + (input[readPos..i] + [LF]);
          writePos := writePos + (i - readPos) + 1;
          scanPos := i + 1;
          readPos := i + 1;
        } else {
          ScanFinalCr(input, readPos, scanPos, i, written, total);
          var outputLen := CopyFinal(input, readPos, i, [LF], output, writePos, written, total);
          return NormalizeChunkResult.New(outputLen, !isLastChunk);
        }
      case None =>
        ScanEnd(input, readPos, scanPos, written, total);
        var outputLen := CopyFinal(input, readPos, |input|, [], output, writePos, written, total);
        return NormalizeChunkResult.New(outputLen, false);
    }
  }
}
