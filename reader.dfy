/** The pull adapter: a reader that normalizes the line endings of an inner reader on the
    fly. Every generation of the reader, blocking or poll-based, has the same fields and
    the same two steps; they differ in how the output buffer is sized (by the worst-case
    formula or by a probe call) and in whether the inner reader may answer Pending. */
module Readers {
  import opened Types
  import opened ChunkResult
  import opened Copy
  import opened Transducer
  import opened IoModel
  import LfSpec

  /** A normalizing reader. The inner reader is not a field: each of its answers, the
      bytes it read or its Pending or failure, is passed to the call that asks for it. */
  class Reader {
    const v: Variant
    const bufSize: nat
    const inputBuf: array<byte>
    const outputBuf: array<byte>
    var outputPos: nat
    var outputSize: nat
    var carried: bool
    var endOfStream: bool
    /** Every byte the inner reader has produced. */
    ghost var consumed: seq<byte>
    /** Every normalized byte that has left the output buffer, returned by a read or
      dropped by a refill made while bytes were still buffered. */
    ghost var drained: seq<byte>

    /** The buffers keep the sizes they were made with and the positions stay inside
      the output buffer; the normalized bytes handed out so far followed by the ones
      still buffered are exactly the one-call normalization of everything consumed,
      and the carried bit is the one that call would carry. */
    ghost predicate Valid()
      reads this, outputBuf
    {
      inputBuf.Length == bufSize &&
      outputBuf.Length == Required(v, bufSize, false) &&
      outputPos <= outputSize <= outputBuf.Length &&
      (bufSize == 0 ==> consumed == []) &&
      drained + outputBuf[outputPos..outputSize] == Chunk(v, consumed, false, endOfStream).bytes &&
      carried == Chunk(v, consumed, false, endOfStream).endedWithCr
    }

    /** The normalized bytes not yet handed out. */
    function Buffered(): (r: seq<byte>)
      requires outputPos <= outputSize <= outputBuf.Length
      reads this, outputBuf
      ensures |r| == outputSize - outputPos
    {
      outputBuf[outputPos..outputSize]
    }

    /** A reader with an output buffer of `capacity` bytes, which is the size a full
      non-last chunk demands. */
    constructor Init(v: Variant, bufSize: nat, capacity: nat)
      requires capacity == Required(v, bufSize, false)
      ensures Valid() && fresh(inputBuf) && fresh(outputBuf)
      ensures this.v == v && this.bufSize == bufSize
      ensures outputPos == 0 && outputSize == 0 && !carried && !endOfStream
      ensures consumed == [] && drained == []
    {
      this.v := v;
      this.bufSize := bufSize;
      inputBuf := new byte[bufSize](_ => 0);
      outputBuf := new byte[capacity](_ => 0);
      outputPos := 0;
      outputSize := 0;
      carried := false;
      endOfStream := false;
      consumed := [];
      drained := [];
    }

    /** A reader whose output buffer is sized by the worst-case formula for a full chunk
      that is not the last. */
    static method New(v: Variant, bufSize: nat) returns (r: Reader)
      ensures r.Valid() && fresh(r) && fresh(r.inputBuf) && fresh(r.outputBuf)
      ensures r.v == v && r.bufSize == bufSize
      ensures r.outputPos == 0 && r.outputSize == 0 && !r.carried && !r.endOfStream
      ensures r.consumed == [] && r.drained == []
    {
      var required := Required(v, bufSize, false);
      r := new Reader.Init(v, bufSize, required);
    }

    /** A reader whose output buffer is sized by a probe call on a full buffer of zeros
      with an empty output; None where that probe succeeds and the constructor panics,
      which is exactly when the demanded size is zero. */
    static method WithSize(v: Variant, bufSize: nat) returns (r: Option<Reader>)
      ensures r.None? <==> Required(v, bufSize, false) == 0
      ensures r.Some? ==> r.value.Valid() && fresh(r.value) && fresh(r.value.inputBuf) && fresh(r.value.outputBuf)
      ensures r.Some? ==> r.value.v == v && r.value.bufSize == bufSize
      ensures r.Some? ==> r.value.outputPos == 0 && r.value.outputSize == 0 && !r.value.carried && !r.value.endOfStream
      ensures r.Some? ==> r.value.consumed == [] && r.value.drained == []
    {
      var zeros := seq(bufSize, _ => 0 as byte);
      var probe := Probe(v, zeros, false);
      if probe.None? {
        return None;
      }
      var reader := new Reader.Init(v, bufSize, probe.value);
      return Some(reader);
    }

    /** Refills the output buffer. Once the stream has ended nothing is read; otherwise
      the inner reader's answer is taken: Pending or a failure is passed on with the
      carried bit and the end-of-stream flag untouched, and bytes read are normalized
      as one chunk, an empty read being the last chunk and ending the stream for good.
      The buffer sizes make the capacity error impossible unless `bufSize` is zero. */
    method FillBuf(answer: Poll<seq<byte>>) returns (r: Poll<()>)
      requires Valid()
      requires answer.Ready? ==> |answer.value| <= bufSize
      modifies this, inputBuf, outputBuf
      ensures Valid()
      ensures outputPos == 0
      ensures drained == old(drained + Buffered())
      ensures old(endOfStream) ==>
        (r == Ready(()) && outputSize == 0 && endOfStream
         && consumed == old(consumed) && carried == old(carried))
      ensures !old(endOfStream) && !answer.Ready? ==>
        (outputSize == 0 && !endOfStream && consumed == old(consumed) && carried == old(carried)
         && r == (if answer.Pending? then Pending else Failure(answer.error)))
      ensures !old(endOfStream) && answer.Ready? ==>
        consumed == old(consumed) + answer.value && endOfStream == (|answer.value| == 0)
      ensures !old(endOfStream) && answer.Ready? && r.Ready? ==>
        var step := Chunk(v, answer.value, old(carried), endOfStream);
        outputBuf[..outputSize] == step.bytes && carried == step.endedWithCr
      ensures !old(endOfStream) && answer.Ready? && !r.Ready? ==>
        (r == Failure(Transducer(OutputBufferTooSmall(Required(v, 0, true))))
         && bufSize == 0 && (v.Crlf? || v.CrlfCore?) && outputSize == 0 && carried == old(carried))
    {
      drained := drained + outputBuf[outputPos..outputSize];
      outputPos := 0;
      outputSize := 0;

      if endOfStream {
        return Ready(());
      }

      match answer
      case Pending =>
        return Pending;
      case Failure(e) =>
        return Failure(e);
      case Ready(data) =>
        var bytesRead := |data|;
        CopyNonoverlapping(data, 0, inputBuf, 0, bytesRead);
        assert inputBuf[..bytesRead] == data;
        var isLastChunk := false;
        if bytesRead == 0 {
          endOfStream := true;
          isLastChunk := true;
        }
        ghost var before := consumed;
        consumed := consumed + data;
        if bufSize > 0 {
          AdapterCallFits(v, bytesRead, bufSize, isLastChunk);
        }
        var status := NormalizeInto(v, inputBuf[..bytesRead], outputBuf, carried, isLastChunk);
        if status.Err? {
          return Failure(Transducer(status.error));
        }
        SplitInvariance(v, before, data, false, isLastChunk);
        outputSize := status.value.outputLen;
        carried := status.value.endedWithCr;
        return Ready(());
    }

    /** Reads up to `bufLen` normalized bytes. The buffer is refilled first when it is
      used up; then at most `bufLen` of the buffered bytes are returned, in order, and
      the position moves past them. Zero bytes come back when `bufLen` is zero or the
      refill produced no output, the latter also before the end of the stream. */
    method Read(bufLen: nat, answer: Poll<seq<byte>>) returns (r: Poll<seq<byte>>)
      requires Valid()
      requires answer.Ready? ==> |answer.value| <= bufSize
      modifies this, inputBuf, outputBuf
      ensures Valid()
      ensures r.Pending? ==> answer.Pending?
      ensures r.Failure? ==>
        ((answer.Failure? && r.error == answer.error)
         || (bufSize == 0 && (v.Crlf? || v.CrlfCore?)
             && r.error == Transducer(OutputBufferTooSmall(Required(v, 0, true)))))
      ensures r.Ready? ==> |r.value| <= bufLen && drained == old(drained) + r.value
      ensures !r.Ready? ==> drained == old(drained) && outputPos == 0 && outputSize == 0
      ensures r.Ready? && |r.value| == 0 ==> bufLen == 0 || outputSize == 0
      ensures old(outputPos < outputSize) ==>
        (r.Ready? && r.value + Buffered() == old(Buffered()) && |r.value| == Min(bufLen, |old(Buffered())|)
         && consumed == old(consumed) && endOfStream == old(endOfStream) && carried == old(carried))
      ensures old(outputPos >= outputSize) && r.Ready? ==>
        r.value + Buffered() == outputBuf[..outputSize] && |r.value| == Min(bufLen, outputSize)
      ensures old(outputPos >= outputSize) && old(endOfStream) ==>
        (r == Ready([]) && endOfStream && consumed == old(consumed))
      ensures old(outputPos >= outputSize) && !old(endOfStream) && r.Ready? ==>
        (answer.Ready? && consumed == old(consumed) + answer.value && endOfStream == (|answer.value| == 0)
         && outputBuf[..outputSize] == Chunk(v, answer.value, old(carried), endOfStream).bytes
         && carried == Chunk(v, answer.value, old(carried), endOfStream).endedWithCr)
    {
      if outputPos >= outputSize {
        var filled := FillBuf(answer);
        match filled
        case Pending =>
          return Pending;
        case Failure(e) =>
          return Failure(e);
        case Ready(_) =>
      }
      if outputSize == 0 {
        return Ready([]);
      }
      var copied := Take(bufLen);
      return Ready(copied);
    }

    /** Hands out the first `bufLen` buffered bytes, or all of them if fewer remain, and
      moves the position past them; nothing else changes. */
    method Take(bufLen: nat) returns (copied: seq<byte>)
      requires Valid()
      modifies this
      ensures Valid()
      ensures copied + Buffered() == old(Buffered()) && |copied| == Min(bufLen, |old(Buffered())|)
      ensures drained == old(drained) + copied
      ensures outputSize == old(outputSize) && consumed == old(consumed)
      ensures endOfStream == old(endOfStream) && carried == old(carried)
    {
      var bytesNow := Min(bufLen, outputSize - outputPos);
      copied := outputBuf[outputPos..outputPos + bytesNow];
      assert outputBuf[outputPos..outputSize] == copied + outputBuf[outputPos + bytesNow..outputSize];
      drained := drained + copied;
      outputPos := outputPos + bytesNow;
    }
  }

  /** An LF reader fed "\r" and then "\n": the first read returns "\n" and carries the
      CR; the second normalizes "\n" after that CR to nothing and returns zero bytes,
      although the inner reader has not reached its end. */
  method ZeroByteReadBeforeEnd(bufSize: nat) returns (first: Poll<seq<byte>>, second: Poll<seq<byte>>, ended: bool)
    requires bufSize > 0
    ensures first == Ready([LF]) && second == Ready([]) && !ended
  {
    var reader := Reader.New(Lf, bufSize);
    var cr: seq<byte> := [CR];
    assert cr[1..] == [] && EndsWithCr(cr);
    assert LfSpec.Collapse(cr) == [LF] + LfSpec.Collapse([]);
    assert Chunk(Lf, cr, false, false) == Normalized([LF], true);
    first := reader.Read(bufSize, Ready([CR]));
    var lf: seq<byte> := [LF];
    assert lf[1..] == [] && !EndsWithCr(lf);
    assert Chunk(Lf, lf, true, false) == Normalized([], false);
    second := reader.Read(bufSize, Ready([LF]));
    ended := reader.endOfStream;
  }
}
