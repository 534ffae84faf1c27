/** The oldest CRLF transducer: it always demands 2n + 1 output bytes and has no special
    case for an empty chunk, so a carried CR is completed even by an empty chunk that is
    not the last one. */
module LegacyCrlf {
  import opened Types
  import opened ChunkResult
  import opened ByteSearch
  import opened Copy
  import opened CrlfSpec

  /** One chunk converted to CRLF by the oldest transducer: a carried CR is completed by
      an LF in every case, the chunk's own leading LF when it has one. */
  function LegacyToCrlf(input: seq<byte>, precededByCr: bool, isLastChunk: bool): Normalized
  {
    if precededByCr && |input| > 0 && input[0] == LF then
      Normalized([LF] + Expand(input[1..], isLastChunk), !isLastChunk && EndsWithCr(input))
    else if precededByCr then
      Normalized([LF] + Expand(input, isLastChunk), !isLastChunk && EndsWithCr(input))
    else
      Normalized(Expand(input, isLastChunk), !isLastChunk && EndsWithCr(input))
  }

  /** The oldest and the current transducer agree on every call except an empty chunk
      that carries a CR and is not the last one. */
  lemma AgreesWithCurrent(input: seq<byte>, precededByCr: bool, isLastChunk: bool)
    ensures LegacyToCrlf(input, precededByCr, isLastChunk) == ToCrlf(input, precededByCr, isLastChunk)
      <==> |input| > 0 || !precededByCr || isLastChunk
  {
  }

  /** On the one call where they differ, the current transducer passes the carried CR on
      and writes nothing, while the oldest one writes the LF and drops the carried bit. */
  lemma EmptyChunkAfterCr()
    ensures LegacyToCrlf([], true, false) == Normalized([LF], false)
    ensures ToCrlf([], true, false) == Normalized([], true)
  {
  }

  /** Feeding "\r", then an empty chunk, then "\n" gives "\r\n\r\n", where the stream
      "\r\n" as one chunk gives "\r\n": the empty chunk is not invisible. */
  lemma EmptyChunkIsVisible()
    ensures var first := LegacyToCrlf([CR], false, false);
      var second := LegacyToCrlf([], first.endedWithCr, false);
      var third := LegacyToCrlf([LF], second.endedWithCr, true);
      first.bytes + second.bytes + third.bytes == [CR, LF, CR, LF]
    ensures LegacyToCrlf([CR, LF], false, true).bytes == [CR, LF]
  {
    assert LegacyToCrlf([CR], false, false) == Normalized([CR], true);
    assert LegacyToCrlf([], true, false) == Normalized([LF], false);
    var lf: seq<byte> := [LF];
    assert lf[1..] == [];
    assert IsLineByte(lf[0]);
    assert Expand(lf, true) == [CR, LF] + Expand(lf[1..], true);
    assert [CR, LF][2..] == [];
  }

  /** Splitting is invisible for the oldest transducer too, provided no empty chunk is fed
      while a CR is carried, except as the last chunk. */
  lemma SplitInvariance(a: seq<byte>, b: seq<byte>, precededByCr: bool, isLastChunk: bool)
    requires |a| > 0 || !precededByCr
    requires |b| > 0 || isLastChunk
    ensures var first := LegacyToCrlf(a, precededByCr, false);
      var second := LegacyToCrlf(b, first.endedWithCr, isLastChunk);
      var whole := LegacyToCrlf(a + b, precededByCr, isLastChunk);
      first.bytes + second.bytes == whole.bytes && second.endedWithCr == whole.endedWithCr
  {
    AgreesWithCurrent(a, precededByCr, false);
    var first := ToCrlf(a, precededByCr, false);
    AgreesWithCurrent(b, first.endedWithCr, isLastChunk);
    AgreesWithCurrent(a + b, precededByCr, isLastChunk);
    CrlfSpec.SplitInvariance(a, b, precededByCr, isLastChunk);
  }

  /** 2n + 1 bytes always suffice, and for every n some chunk of n bytes needs them all:
      n CRs after a carried CR in a last chunk, or the lone LF an empty chunk writes for a
      carried CR. */
  lemma OutputLength(input: seq<byte>, precededByCr: bool, isLastChunk: bool)
    ensures |LegacyToCrlf(input, precededByCr, isLastChunk).bytes| <= |input| * 2 + 1
  {
    AgreesWithCurrent(input, precededByCr, isLastChunk);
    OutputLengthBounds(input, precededByCr, isLastChunk);
  }

  lemma OutputLengthIsTight(n: nat)
    ensures exists input: seq<byte> | |input| == n :: |LegacyToCrlf(input, true, true).bytes| == n * 2 + 1
  {
    var input: seq<byte> := seq(n, _ => CR);
    if n > 0 {
      AllCrAfterCrNeedsExtraByte(n);
      AgreesWithCurrent(input, true, true);
    }
    assert |LegacyToCrlf(input, true, true).bytes| == n * 2 + 1;
  }

  /** Normalizes one chunk to CRLF the oldest way. */
  method NormalizeChunk(input: seq<byte>, output: array<byte>, precededByCr: bool, isLastChunk: bool)
    returns (r: Result<NormalizeChunkResult>)
    modifies output
    ensures r.Err? <==> output.Length < |input| * 2 + 1
    ensures r.Err? ==> r.error == OutputBufferTooSmall(|input| * 2 + 1)
    ensures r.Err? ==> output[..] == old(output[..])
    ensures r.Ok? ==> r.value == LegacyToCrlf(input, precededByCr, isLastChunk).Status()
    ensures r.Ok? ==> StartsWith(output, LegacyToCrlf(input, precededByCr, isLastChunk).bytes)
    ensures r.Ok? ==> forall j :: r.value.outputLen <= j < output.Length ==> output[j] == old(output[j])
  {
    var outputRequired := |input| * 2 + 1;
    if output.Length < outputRequired {
      return Err(OutputBufferTooSmall(outputRequired));
    }

    OutputLength(input, precededByCr, isLastChunk);
    ghost var total := LegacyToCrlf(input, precededByCr, isLastChunk).bytes;
    var scanPos: nat, writePos: nat := 0, 0;
    ghost var written: seq<byte> := [];

    if |input| > 0 && input[0] == LF && precededByCr {
      scanPos := 1;
    } else if precededByCr {
      output[0] := LF;
      writePos := 1;
      written := [LF];
    }

    var status := Scan(input, output, isLastChunk, scanPos, writePos, written, total);
    return Ok(status);
  }

  /** The scanning loop of the oldest transducer. Its branches test a bare line byte
      first, then a CR LF pair, then a final CR, with no branch for anything else: every
      index the search returns falls into exactly one of them. */
  method Scan(input: seq<byte>, output: array<byte>, isLastChunk: bool, scanPos0: nat, writePos0: nat,
              ghost written0: seq<byte>, ghost total: seq<byte>)
    returns (r: NormalizeChunkResult)
    requires ScanInvariant(input, 0, scanPos0, written0, total, isLastChunk)
    requires scanPos0 <= 1 && (scanPos0 == 1 ==> input[0] == LF)
    requires |total| <= output.Length
    requires writePos0 == |written0| && StartsWith(output, written0)
    modifies output
    ensures r.outputLen == |total| && r.endedWithCr == (!isLastChunk && EndsWithCr(input))
    ensures StartsWith(output, total)
    ensures forall j :: r.outputLen <= j < output.Length ==> output[j] == old(output[j])
  {
    var scanPos, readPos, writePos := scanPos0, 0, writePos0;
    ghost var written := written0;

    while true
      invariant ScanInvariant(input, readPos, scanPos, written, total, isLastChunk)
      invariant writePos == |written| && StartsWith(output, written)
      invariant forall j :: writePos <= j < output.Length ==> output[j] == old(output[j])
      invariant scanPos == |input| && |input| > 0 ==> input[|input| - 1] != CR
      decreases |input| - scanPos
    {
      var found := Memchr2(CR, LF, input, scanPos);
      if found.Some? {
        var i := found.value;
        if input[i] == LF || (i + 1 < |input| && input[i + 1] != LF) {
          ScanBare(input, readPos, scanPos, i, written, total, isLastChunk);
          CopyThen(input, readPos, i, [CR, LF], output, writePos, written);
          written := written + (input[readPos..i] + [CR, LF]);
          writePos := writePos + (i - readPos) + 2;
          readPos := i + 1;
          scanPos := readPos;
        } else if input[i] == CR && i + 1 < |input| {
          ScanPair(input, readPos, scanPos, i, written, total, isLastChunk);
          scanPos := i + 2;
        } else if i + 1 == |input| {
          ScanFinalCr(input, readPos, scanPos, written, total, isLastChunk);
          var outputLen := CopyFinal(input, readPos, |input|, if isLastChunk then [LF] else [], output, writePos, written, total);
          if isLastChunk {
            return NormalizeChunkResult.New(outputLen, false);
          }
          return NormalizeChunkResult.New(outputLen, true);
        }
      } else {
        ScanEnd(input, readPos, scanPos, written, total, isLastChunk);
        var outputLen := CopyFinal(input, readPos, |input|, [], output, writePos, written, total);
        return NormalizeChunkResult.New(outputLen, false);
      }
    }
  }
}
