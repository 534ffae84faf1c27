/** The transducers as the adapters see them: a variant names which one a buffer drives,
    and every variant offers the same chunk call, its reference meaning and its demanded
    output size. */
module Transducer {
  import opened Types
  import opened ChunkResult
  import opened Copy
  import CrlfSpec
  import LfSpec
  import LegacyCrlf
  import FormatsCrlf
  import FormatsLf
  import CoreCrlf

  /** The transducer a buffer is built over: the current CRLF and LF formats, the CRLF
      function of the `core` generation, or the oldest CRLF function. */
  datatype Variant = Crlf | Lf | CrlfCore | CrlfLegacy

  /** The output size each variant demands for a chunk of `n` bytes. */
  function Required(v: Variant, n: nat, isLastChunk: bool): nat
  {
    match v
    case Crlf => FormatsCrlf.MaxOutputSizeForChunk(n, false, isLastChunk)
    case Lf => FormatsLf.OutputRequired(n)
    case CrlfCore => n * 2 + (if isLastChunk then 1 else 0)
    case CrlfLegacy => n * 2 + 1
  }

  /** The reference meaning of one chunk call of each variant. */
  function Chunk(v: Variant, input: seq<byte>, precededByCr: bool, isLastChunk: bool): Normalized
  {
    match v
    case Crlf => CrlfSpec.ToCrlf(input, precededByCr, isLastChunk)
    case Lf => LfSpec.ToLf(input, precededByCr, isLastChunk)
    case CrlfCore => CrlfSpec.ToCrlf(input, precededByCr, isLastChunk)
    case CrlfLegacy => LegacyCrlf.LegacyToCrlf(input, precededByCr, isLastChunk)
  }

  /** The demanded size always suffices for the chunk's output. */
  lemma ChunkFits(v: Variant, input: seq<byte>, precededByCr: bool, isLastChunk: bool)
    ensures |Chunk(v, input, precededByCr, isLastChunk).bytes| <= Required(v, |input|, isLastChunk)
  {
    match v
    case Crlf => CrlfSpec.OutputLengthBounds(input, precededByCr, isLastChunk);
    case Lf => LfSpec.OutputLength(input, precededByCr, isLastChunk);
    case CrlfCore => CrlfSpec.OutputLengthBounds(input, precededByCr, isLastChunk);
    case CrlfLegacy => LegacyCrlf.OutputLength(input, precededByCr, isLastChunk);
  }

  /** The demanded size grows with the chunk, and a last chunk never demands less. */
  lemma RequiredMonotone(v: Variant, n: nat, m: nat, last: bool, last': bool)
    requires n <= m && (last ==> last')
    ensures Required(v, n, last) <= Required(v, m, last')
  {
  }

  /** One chunk call of the variant `v`. */
  method NormalizeChunk(v: Variant, input: seq<byte>, output: array<byte>, precededByCr: bool, isLastChunk: bool)
    returns (r: Result<NormalizeChunkResult>)
    modifies output
    ensures r.Err? <==> output.Length < Required(v, |input|, isLastChunk)
    ensures r.Err? ==> r.error == OutputBufferTooSmall(Required(v, |input|, isLastChunk))
    ensures r.Err? ==> output[..] == old(output[..])
    ensures r.Ok? ==> r.value == Chunk(v, input, precededByCr, isLastChunk).Status()
    ensures r.Ok? ==> StartsWith(output, Chunk(v, input, precededByCr, isLastChunk).bytes)
    ensures r.Ok? ==> forall j :: r.value.outputLen <= j < output.Length ==> output[j] == old(output[j])
  {
    match v
    case Crlf => r := FormatsCrlf.NormalizeChunk(input, output, precededByCr, isLastChunk);
    case Lf => r := FormatsLf.NormalizeChunk(input, output, precededByCr, isLastChunk);
    case CrlfCore => r := CoreCrlf.NormalizeChunk(input, output, precededByCr, isLastChunk);
    case CrlfLegacy => r := LegacyCrlf.NormalizeChunk(input, output, precededByCr, isLastChunk);
  }

  /** A chunk call as a buffered adapter makes it: on success the output buffer starts
      with the chunk's output, whose length and carried bit the status reports. */
  method NormalizeInto(v: Variant, input: seq<byte>, output: array<byte>, precededByCr: bool, isLastChunk: bool)
    returns (r: Result<NormalizeChunkResult>)
    modifies output
    ensures r.Err? <==> output.Length < Required(v, |input|, isLastChunk)
    ensures r.Err? ==> r.error == OutputBufferTooSmall(Required(v, |input|, isLastChunk))
    ensures r.Ok? ==>
      (var step := Chunk(v, input, precededByCr, isLastChunk);
       r.value == step.Status() && r.value.outputLen <= output.Length
       && output[..r.value.outputLen] == step.bytes)
  {
    r := NormalizeChunk(v, input, output, precededByCr, isLastChunk);
    if r.Ok? {
      StartsWithPrefix(output, Chunk(v, input, precededByCr, isLastChunk).bytes);
    }
  }

  /** A call with an empty output buffer, made only to learn the demanded size: the size
      when the call fails, and None, where the caller panics, when it succeeds. */
  method Probe(v: Variant, input: seq<byte>, isLastChunk: bool) returns (r: Option<nat>)
    ensures r.Some? <==> Required(v, |input|, isLastChunk) > 0
    ensures r.Some? ==> r.value == Required(v, |input|, isLastChunk)
  {
    var empty := new byte[0];
    var status := NormalizeChunk(v, input, empty, false, isLastChunk);
    if status.Err? {
      return Some(status.error.required);
    }
    return None;
  }

  /** A probe with a chunk of `n` bytes and no last chunk succeeds, and so panics, only
      for n = 0, and never for the oldest CRLF function. */
  lemma ProbePanicsOnlyForEmpty(v: Variant, n: nat)
    ensures Required(v, n, false) == 0 <==> n == 0 && !v.CrlfLegacy?
  {
  }

  /** Splitting the input and threading the carried bit gives the output of one call.
      The oldest CRLF function needs every chunk to be non-empty while a CR is carried,
      except the last one. */
  lemma SplitInvariance(v: Variant, a: seq<byte>, b: seq<byte>, precededByCr: bool, isLastChunk: bool)
    requires v.CrlfLegacy? ==> (|a| > 0 || !precededByCr) && (|b| > 0 || isLastChunk)
    ensures var first := Chunk(v, a, precededByCr, false);
      var second := Chunk(v, b, first.endedWithCr, isLastChunk);
      var whole := Chunk(v, a + b, precededByCr, isLastChunk);
      first.bytes + second.bytes == whole.bytes && second.endedWithCr == whole.endedWithCr
  {
    match v
    case Crlf => CrlfSpec.SplitInvariance(a, b, precededByCr, isLastChunk);
    case Lf => LfSpec.SplitInvariance(a, b, precededByCr, isLastChunk);
    case CrlfCore => CrlfSpec.SplitInvariance(a, b, precededByCr, isLastChunk);
    case CrlfLegacy => LegacyCrlf.SplitInvariance(a, b, precededByCr, isLastChunk);
  }

  /** A last chunk never leaves a CR carried. */
  lemma LastChunkCarriesNothing(v: Variant, input: seq<byte>, precededByCr: bool)
    ensures !Chunk(v, input, precededByCr, true).endedWithCr
  {
  }

  /** Deleting every CR and LF from a chunk and from its output gives the same bytes. */
  lemma KeepsText(v: Variant, input: seq<byte>, precededByCr: bool, isLastChunk: bool)
    ensures StripLineBytes(Chunk(v, input, precededByCr, isLastChunk).bytes) == StripLineBytes(input)
  {
    match v
    case Crlf => CrlfSpec.KeepsText(input, precededByCr, isLastChunk);
    case Lf => LfSpec.KeepsText(input, precededByCr, isLastChunk);
    case CrlfCore => CrlfSpec.KeepsText(input, precededByCr, isLastChunk);
    case CrlfLegacy =>
      LegacyCrlf.AgreesWithCurrent(input, precededByCr, isLastChunk);
      if |input| == 0 && precededByCr && !isLastChunk {
        assert Chunk(v, input, precededByCr, isLastChunk).bytes == [LF];
        assert [LF][1..] == [];
      } else {
        CrlfSpec.KeepsText(input, precededByCr, isLastChunk);
      }
  }
  /** The demanded size of every call an adapter makes fits the buffer sized for a full
      chunk of `bufSize` bytes that is not the last: a chunk of at most `bufSize` bytes,
      and a last chunk only when it is shorter than that. */
  lemma AdapterCallFits(v: Variant, n: nat, bufSize: nat, isLastChunk: bool)
    requires n <= bufSize && (isLastChunk ==> n < bufSize)
    ensures Required(v, n, isLastChunk) <= Required(v, bufSize, false)
  {
  }

  /** The bytes of a sequence of chunks, in order. */
  function Flatten(chunks: seq<seq<byte>>): seq<byte>
  {
    if |chunks| == 0 then [] else Flatten(chunks[..|chunks| - 1]) + chunks[|chunks| - 1]
  }

  /** Feeding `chunks` one call each, none of them the last, from a clear carried bit,
      each call's carried bit passed on to the next: the concatenated output, and the
      bit the last call carries. */
  function Feed(v: Variant, chunks: seq<seq<byte>>): Normalized
  {
    if |chunks| == 0 then
      Normalized([], false)
    else
      var before := Feed(v, chunks[..|chunks| - 1]);
      var step := Chunk(v, chunks[|chunks| - 1], before.endedWithCr, false);
      Normalized(before.bytes + step.bytes, step.endedWithCr)
  }

  /** Chunking is invisible: feeding the chunks one by one, and then an empty last chunk,
      gives what one last-chunk call on all their bytes gives. The oldest CRLF function
      needs every fed chunk to be non-empty. */
  lemma {:induction false} FeedIsOneCall(v: Variant, chunks: seq<seq<byte>>)
    requires v.CrlfLegacy? ==> forall i :: 0 <= i < |chunks| ==> |chunks[i]| > 0
    ensures Feed(v, chunks) == Chunk(v, Flatten(chunks), false, false)
    ensures Feed(v, chunks).bytes + Chunk(v, [], Feed(v, chunks).endedWithCr, true).bytes
      == Chunk(v, Flatten(chunks), false, true).bytes
  {
    if |chunks| > 0 {
      var init := chunks[..|chunks| - 1];
      FeedIsOneCall(v, init);
      if v.CrlfLegacy? && |init| > 0 {
        assert |init[|init| - 1]| > 0;
        assert |Flatten(init)| > 0;
      }
      SplitInvariance(v, Flatten(init), chunks[|chunks| - 1], false, false);
    }
    SplitInvariance(v, Flatten(chunks), [], false, true);
    assert Flatten(chunks) + [] == Flatten(chunks);
  }
}
