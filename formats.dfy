/** The whole-buffer helpers every current format inherits: learning the demanded size by
    a probe call, and normalizing a whole input in one last-chunk call. */
module Formats {
  import opened Types
  import opened Copy
  import opened Transducer

  /** The size a whole input demands, learned from a probe with an empty output buffer
      as a last chunk; None where the probe succeeds and the helper panics. */
  method OutputSizeFor(v: Variant, input: seq<byte>) returns (r: Option<nat>)
    requires v.Crlf? || v.Lf?
    ensures r.Some? <==> Required(v, |input|, true) > 0
    ensures r.Some? ==> r.value == Required(v, |input|, true)
  {
    r := Probe(v, input, true);
  }

  /** The probe panics exactly for the LF format on an empty input, whose demanded size
      is zero, so that the probe call succeeds. */
  lemma OutputSizeForPanics(v: Variant, n: nat)
    requires v.Crlf? || v.Lf?
    ensures Required(v, n, true) == 0 <==> v.Lf? && n == 0
  {
  }

  /** The whole input normalized as one last chunk from a clear carried bit, read back
      from a buffer of exactly the demanded size; None where the size probe panics. */
  method Normalize(v: Variant, input: seq<byte>) returns (r: Option<seq<byte>>)
    requires v.Crlf? || v.Lf?
    ensures r.None? <==> v.Lf? && |input| == 0
    ensures r.Some? ==> r.value == Chunk(v, input, false, true).bytes
  {
    var size := OutputSizeFor(v, input);
    if size.None? {
      return None;
    }
    var output := new byte[size.value](_ => 0);
    var status := NormalizeInto(v, input, output, false, true);
    var result := status.value;
    return Some(output[..result.outputLen]);
  }

  /** Normalize on the bytes of a string: the same conversion, in which only CR and LF
      bytes are inserted or removed, which is why the result is again valid UTF-8. */
  method NormalizeStr(v: Variant, input: seq<byte>) returns (r: Option<seq<byte>>)
    requires v.Crlf? || v.Lf?
    ensures r.None? <==> v.Lf? && |input| == 0
    ensures r.Some? ==> r.value == Chunk(v, input, false, true).bytes
    ensures r.Some? ==> StripLineBytes(r.value) == StripLineBytes(input)
  {
    r := Normalize(v, input);
    KeepsText(v, input, false, true);
  }
}
