/** The CRLF transducer of the `core` generation. It is the current algorithm writing into a
    plain byte buffer, with the worst-case size computed inline; its scanning loop is the
    same one, FormatsCrlf.Scan. */
module CoreCrlf {
  import opened Types
  import opened ChunkResult
  import opened Copy
  import opened CrlfSpec
  import FormatsCrlf

  /** Normalizes one chunk to CRLF. The demanded size is 2n, plus one for a last chunk,
      whatever the bytes and the carried bit are. */
  method NormalizeChunk(input: seq<byte>, output: array<byte>, precededByCr: bool, isLastChunk: bool)
    returns (r: Result<NormalizeChunkResult>)
    modifies output
    ensures r.Err? <==> output.Length < |input| * 2 + (if isLastChunk then 1 else 0)
    ensures r.Err? ==> r.error == OutputBufferTooSmall(|input| * 2 + (if isLastChunk then 1 else 0))
    ensures r.Err? ==> output[..] == old(output[..])
    ensures r.Ok? ==> r.value == ToCrlf(input, precededByCr, isLastChunk).Status()
    ensures r.Ok? ==> StartsWith(output, ToCrlf(input, precededByCr, isLastChunk).bytes)
    ensures r.Ok? ==> forall j :: r.value.outputLen <= j < output.Length ==> output[j] == old(output[j])
  {
    var outputRequired := |input| * 2 + (if isLastChunk then 1 else 0);
    if output.Length < outputRequired {
      return Err(OutputBufferTooSmall(outputRequired));
    }

    if |input| == 0 && !isLastChunk {
      return Ok(NormalizeChunkResult.New(0, precededByCr));
    }

    OutputLengthBounds(input, precededByCr, isLastChunk);
    ghost var total := ToCrlf(input, precededByCr, isLastChunk).bytes;
    var scanPos: nat, writePos: nat := 0, 0;
    ghost var written: seq<byte> := [];

    if |input| > 0 && input[0] == LF && precededByCr {
      scanPos := 1;
    } else if precededByCr {
      output[0] := LF;
      writePos := 1;
      written := [LF];
    }

    var status := FormatsCrlf.Scan(input, output, isLastChunk, scanPos, writePos, written, total);
    return Ok(status);
  }
}
