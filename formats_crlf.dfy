/** The current CRLF transducer: one chunk is scanned with three cursors and written into
    a caller buffer whose worst-case size is checked up front. */
module FormatsCrlf {
  import opened Types
  import opened ChunkResult
  import opened ByteSearch
  import opened Copy
  import opened CrlfSpec

  /** The worst-case output size for a chunk of `chunkSize` bytes: it suffices for every
      chunk of that size, and for a non-empty chunk some input needs all of it. */
  function MaxOutputSizeForChunk(chunkSize: nat, precededByCr: bool, isLastChunk: bool): (r: nat)
    ensures forall input: seq<byte> | |input| == chunkSize ::
      |ToCrlf(input, precededByCr, isLastChunk).bytes| <= r
  {
    forall input: seq<byte> | |input| == chunkSize
      ensures |ToCrlf(input, precededByCr, isLastChunk).bytes| <= chunkSize * 2 + (if isLastChunk then 1 else 0)
    {
      OutputLengthBounds(input, precededByCr, isLastChunk);
    }
    chunkSize * 2 + (if isLastChunk then 1 else 0)
  }

  /** The bound is reached: n LFs need 2n bytes, and after a carried CR n CRs in a last
      chunk need 2n + 1. */
  lemma MaxOutputSizeIsTight(n: nat, isLastChunk: bool)
    requires n > 0
    ensures exists input: seq<byte>, precededByCr: bool | |input| == n ::
      |ToCrlf(input, precededByCr, isLastChunk).bytes| == MaxOutputSizeForChunk(n, precededByCr, isLastChunk)
  {
    if isLastChunk {
      AllCrAfterCrNeedsExtraByte(n);
      var input: seq<byte> := seq(n, _ => CR);
      assert |ToCrlf(input, true, isLastChunk).bytes| == MaxOutputSizeForChunk(n, true, isLastChunk);
    } else {
      AllLfDoubles(n, isLastChunk);
      var input: seq<byte> := seq(n, _ => LF);
      assert |ToCrlf(input, false, isLastChunk).bytes| == MaxOutputSizeForChunk(n, false, isLastChunk);
    }
  }

  /** Normalizes one chunk to CRLF. Fails, writing nothing, when `output` is shorter
      than the worst case; otherwise writes exactly the chunk's CRLF conversion at the
      front of `output` and nothing beyond it. */
  method NormalizeChunk(input: seq<byte>, output: array<byte>, precededByCr: bool, isLastChunk: bool)
    returns (r: Result<NormalizeChunkResult>)
    modifies output
    ensures r.Err? <==> output.Length < MaxOutputSizeForChunk(|input|, precededByCr, isLastChunk)
    ensures r.Err? ==> r.error == OutputBufferTooSmall(MaxOutputSizeForChunk(|input|, precededByCr, isLastChunk))
    ensures r.Err? ==> output[..] == old(output[..])
    ensures r.Ok? ==> r.value == ToCrlf(input, precededByCr, isLastChunk).Status()
    ensures r.Ok? ==> StartsWith(output, ToCrlf(input, precededByCr, isLastChunk).bytes)
    ensures r.Ok? ==> forall j :: r.value.outputLen <= j < output.Length ==> output[j] == old(output[j])
  {
    var outputRequired := MaxOutputSizeForChunk(|input|, precededByCr, isLastChunk);
    if output.Length < outputRequired {
      return Err(OutputBufferTooSmall(outputRequired));
    }

    if |input| == 0 && !isLastChunk {
      return Ok(NormalizeChunkResult.New(0, precededByCr));
    }

    ghost var total := ToCrlf(input, precededByCr, isLastChunk).bytes;
    var scanPos: nat, writePos: nat := 0, 0;
    ghost var written: seq<byte> := [];

    if |input| > 0 && input[0] == LF && precededByCr {
      scanPos := 1;
    } else if precededByCr {
      CopyThen(input, 0, 0, [LF], output, 0, []);
      writePos := 1;
      written := [] + (input[0..0] + [LF]);
    }

    var status := Scan(input, output, isLastChunk, scanPos, writePos, written, total);
    return Ok(status);
  }

  /** The scanning loop of NormalizeChunk, entered with `written` at the front of
      `output` and the carried CR already dealt with. */
  method Scan(input: seq<byte>, output: array<byte>, isLastChunk: bool, scanPos0: nat, writePos0: nat,
              ghost written0: seq<byte>, ghost total: seq<byte>)
    returns (r: NormalizeChunkResult)
    requires ScanInvariant(input, 0, scanPos0, written0, total, isLastChunk)
    requires scanPos0 <= 1 && (scanPos0 == 1 ==> input[0] == LF)
    requires |total| <= output.Length
    requires writePos0 == |written0| && StartsWith(output, written0)
    modifies output
    ensures r.outputLen == |total| && r.endedWithCr == (!isLastChunk && EndsWithCr(input))
    ensures StartsWith(output, total)
    ensures forall j :: r.outputLen <= j < output.Length ==> output[j] == old(output[j])
  {
    var scanPos, readPos, writePos := scanPos0, 0, writePos0;
    ghost var written := written0;

    while true
      invariant ScanInvariant(input, readPos, scanPos, written, total, isLastChunk)
      invariant writePos == |written| && StartsWith(output, written)
      invariant forall j :: writePos <= j < output.Length ==> output[j] == old(output[j])
      invariant writePos0 <= writePos
      invariant scanPos == |input| && |input| > 0 ==> input[|input| - 1] != CR
      decreases |input| - scanPos
    {
      var found := Memchr2(CR, LF, input, scanPos);
      match found
      case Some(i) =>
        if input[i] == CR && i + 1 < |input| && input[i + 1] == LF {
          ScanPair(input, readPos, scanPos, i, written, total, isLastChunk);
          scanPos := i + 2;
        } else if input[i] == LF || i + 1 < |input| {
          ScanBare(input, readPos, scanPos, i, written, total, isLastChunk);
          CopyThen(input, readPos, i, [CR, LF], output, writePos, written);
          written := written + (input[readPos..i] + [CR, LF]);
          writePos := writePos + (i - readPos) + 2;
          readPos := i + 1;
          scanPos := readPos;
        } else {
          ScanFinalCr(input, readPos, scanPos, written, total, isLastChunk);
          var outputLen := CopyFinal(input, readPos, |input|, if isLastChunk then [LF] else [], output, writePos, written, total);
          return NormalizeChunkResult.New(outputLen, !isLastChunk);
        }
      case None =>
        ScanEnd(input, readPos, scanPos, written, total, isLastChunk);
        var outputLen := CopyFinal(input, readPos, |input|, [], output, writePos, written, total);
        return NormalizeChunkResult.New(outputLen, false);
    }
  }
}
