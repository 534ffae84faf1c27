/** The poll-based push adapter: like the blocking writer it gathers bytes into a fixed
    input buffer and normalizes every full buffer as a chunk that is not the last, but
    the normalized bytes wait in the output buffer until the inner writer takes them,
    a poll at a time, and closing goes through the phases Writing, Finishing and
    Finished. The inner writer is passed to every call. */
module AsyncWriters {
  import opened Types
  import opened ChunkResult
  import opened Copy
  import opened Transducer
  import opened IoModel
  import CrlfSpec

  /** The closing phase: still writing, the buffered bytes normalized as the last chunk
      and written out but the inner writer not yet closed, or done. */
  datatype StreamState = Writing | Finishing | Finished

  /** The order the phases are passed through. */
  function Rank(s: StreamState): (r: nat)
    ensures r < 3
  {
    match s
    case Writing => 0
    case Finishing => 1
    case Finished => 2
  }

  /** One normalization of the buffered input keeps the session whole: the output so far
      followed by this call's output is the normalization of everything normalized so
      far, as a last chunk once `finish` is set, and the carried bit agrees. Once the
      last chunk has been normalized nothing is buffered or carried, and a further call
      adds nothing. */
  lemma SealKeepsSession(v: Variant, committed: seq<byte>, chunk: seq<byte>, carried: bool,
                         closed: bool, finish: bool)
    requires !v.CrlfLegacy?
    requires carried == Chunk(v, committed, false, closed).endedWithCr
    requires closed ==> chunk == []
    ensures var step := Chunk(v, chunk, carried, finish);
      var after := if closed then committed else committed + chunk;
      Chunk(v, committed, false, closed).bytes + step.bytes == Chunk(v, after, false, closed || finish).bytes
      && step.endedWithCr == Chunk(v, after, false, closed || finish).endedWithCr
  {
    if closed {
      LastChunkCarriesNothing(v, committed, false);
      assert Chunk(v, chunk, carried, finish) == Normalized([], false);
    } else {
      SplitInvariance(v, committed, chunk, false, finish);
    }
  }

  /** Taking the first `n` of the pending bytes moves them from the buffer to what has
      been written out, leaving what was written followed by what is pending unchanged. */
  lemma DrainSplit(emitted: seq<byte>, out: seq<byte>, pos: nat, n: nat, size: nat)
    requires pos + n <= size <= |out|
    ensures var sent := out[pos..size][..n];
      sent == out[pos..pos + n]
      && (emitted + sent) + out[pos + n..size] == emitted + out[pos..size]
      && emitted <= emitted + sent && (emitted + sent)[|emitted|..] == sent
  {
    assert out[pos..size] == out[pos..pos + n] + out[pos + n..size];
  }

  /** Two drains in a row: if the inner writer's data grew by what `emitted` grew by in
      each, it grew by what `emitted` grew by in both. */
  lemma SentChain(e0: seq<byte>, e1: seq<byte>, e2: seq<byte>, d0: seq<byte>, d1: seq<byte>, d2: seq<byte>)
    requires e0 <= e1 && d1 == d0 + e1[|e0|..]
    requires e1 <= e2 && d2 == d1 + e2[|e1|..]
    ensures e0 <= e2 && d2 == d0 + e2[|e0|..]
  {
    assert e2[|e0|..] == e1[|e0|..] + e2[|e1|..];
  }

  class WriteBuffer {
    const v: Variant
    const bufSize: nat
    const inputBuf: array<byte>
    const outputBuf: array<byte>
    var inputPos: nat
    var outputPos: nat
    var outputSize: nat
    var carried: bool
    var streamState: StreamState
    /** Every byte a write has taken. */
    ghost var accepted: seq<byte>
    /** The taken bytes that have been normalized. */
    ghost var committed: seq<byte>
    /** Every normalized byte the inner writers have taken. */
    ghost var emitted: seq<byte>
    /** Whether the normalized bytes include the last chunk. */
    ghost var closed: bool

    /** The buffers keep their sizes; the input buffer is never left full, and the
      output positions stay inside the output buffer. The taken
      bytes are the normalized ones followed by the buffered ones; what the inner writers
      took, followed by the output still buffered, is exactly the normalization of the
      normalized bytes (as a last chunk once closed), which also fixes the carried bit.
      Nothing is buffered once closed, and the phase leaves Writing only when closed and
      everything has been written out. */
    ghost predicate Valid()
      reads this, inputBuf, outputBuf
    {
      Sound() && inputPos < bufSize
    }

    /** Valid, except that the input buffer may be full. */
    ghost predicate Sound()
      reads this, inputBuf, outputBuf
    {
      !v.CrlfLegacy? && bufSize > 0 &&
      inputBuf != outputBuf &&
      inputBuf.Length == bufSize &&
      outputBuf.Length == Required(v, bufSize, false) &&
      inputPos <= bufSize &&
      outputPos <= outputSize <= outputBuf.Length &&
      accepted == committed + inputBuf[..inputPos] &&
      emitted + outputBuf[outputPos..outputSize] == Chunk(v, committed, false, closed).bytes &&
      carried == Chunk(v, committed, false, closed).endedWithCr &&
      (closed ==> inputPos == 0) &&
      (streamState != Writing ==> closed && outputSize == 0)
    }

    /** The taken bytes not yet normalized. */
    function Buffered(): (r: seq<byte>)
      requires inputPos <= inputBuf.Length
      reads this, inputBuf
      ensures |r| == inputPos
    {
      inputBuf[..inputPos]
    }

    /** A write buffer whose output buffer is sized by the worst-case formula for a full
      chunk that is not the last. */
    constructor (v: Variant, bufSize: nat)
      requires !v.CrlfLegacy? && bufSize > 0
      ensures Valid() && fresh(inputBuf) && fresh(outputBuf)
      ensures this.v == v && this.bufSize == bufSize
      ensures inputPos == 0 && outputPos == 0 && outputSize == 0 && !carried && streamState == Writing
      ensures accepted == [] && committed == [] && emitted == [] && !closed
    {
      this.v := v;
      this.bufSize := bufSize;
      inputBuf := new byte[bufSize](_ => 0);
      outputBuf := new byte[Required(v, bufSize, false)](_ => 0);
      inputPos := 0;
      outputPos := 0;
      outputSize := 0;
      carried := false;
      streamState := Writing;
      accepted := [];
      committed := [];
      emitted := [];
      closed := false;
    }

    /** Offers the buffered output to the inner writer once; what it takes leaves the
      buffer, and every answer but an exhausted script's Pending uses up one answer. */
    method Drain(inner: Sink) returns (r: Poll<nat>)
      requires Valid() && outputPos < outputSize
      modifies this, inner
      ensures Valid()
      ensures inputPos == old(inputPos) && outputSize == old(outputSize) && carried == old(carried)
      ensures streamState == old(streamState) && closed == old(closed)
      ensures accepted == old(accepted) && committed == old(committed)
      ensures old(emitted) <= emitted && inner.data == old(inner.data) + emitted[|old(emitted)|..]
      ensures r.Ready? ==> outputPos == old(outputPos) + r.value && |inner.answers| < |old(inner.answers)|
      ensures !r.Ready? ==> outputPos == old(outputPos) && emitted == old(emitted)
      ensures r.Failure? ==> r.error.Inner?
      ensures |inner.answers| <= |old(inner.answers)|
      ensures |old(inner.answers)| == 0 ==> r.Pending?
      ensures inner.flushes == old(inner.flushes)
    {
      var pending := outputBuf[outputPos..outputSize];
      r := inner.PollWrite(pending);
      if r.Ready? {
        DrainSplit(emitted, outputBuf[..], outputPos, r.value, outputSize);
        emitted := emitted + pending[..r.value];
        outputPos := outputPos + r.value;
      }
    }

    /** Normalizes the buffered input into the empty output buffer, as the last chunk
      when `finish` is set, and empties the input buffer. The buffer sizes make the
      capacity error impossible: only a non-last chunk ever fills the input buffer. */
    method Seal(finish: bool)
      requires Sound() && outputSize == 0 && (finish ==> inputPos < bufSize)
      modifies this, outputBuf
      ensures Valid()
      ensures var step := Chunk(v, old(Buffered()), old(carried), finish);
        inputPos == 0 && outputPos == 0 && outputBuf[..outputSize] == step.bytes
        && carried == step.endedWithCr && committed == accepted && closed == (old(closed) || finish)
      ensures streamState == old(streamState) && accepted == old(accepted) && emitted == old(emitted)
    {
      ghost var chunk := inputBuf[..inputPos];
      AdapterCallFits(v, inputPos, bufSize, finish);
      var status := NormalizeInto(v, inputBuf[..inputPos], outputBuf, carried, finish);
      var result := status.value;
      SealKeepsSession(v, committed, chunk, carried, closed, finish);
      assert emitted == Chunk(v, committed, false, closed).bytes;
      committed := if closed then committed else committed + chunk;
      closed := closed || finish;
      carried := result.endedWithCr;
      outputSize := result.outputLen;
      inputPos := 0;
      assert outputBuf[outputPos..outputSize] == outputBuf[..outputSize];
      assert accepted == committed + inputBuf[..inputPos];
    }

    /** The refill step of a write, made once the output buffer has been written out: the
      positions are reset, as many bytes of `source` as fit are taken, and a buffer that
      fills up is normalized as a non-last chunk and emptied. */
    method Refill(source: seq<byte>) returns (taken: nat, full: bool)
      requires Valid() && !closed && bufSize > 0 && outputPos == outputSize
      modifies this, inputBuf, outputBuf
      ensures Valid() && !closed && streamState == old(streamState) && emitted == old(emitted)
      ensures taken == Min(|source|, bufSize - old(inputPos))
      ensures accepted == old(accepted) + source[..taken]
      ensures outputPos == 0
      ensures full ==> taken > 0
      ensures !full ==> inputPos < bufSize && outputSize == 0 && committed == old(committed)
      ensures full ==>
        var step := Chunk(v, old(Buffered()) + source[..taken], old(carried), false);
        inputPos == 0 && committed == accepted && outputBuf[..outputSize] == step.bytes
        && carried == step.endedWithCr
    {
      outputPos := 0;
      outputSize := 0;
      taken := Min(|source|, bufSize - inputPos);
      CopyNonoverlapping(source, 0, inputBuf, inputPos, taken);
      inputPos := inputPos + taken;
      accepted := accepted + source[..taken];
      if inputPos < bufSize {
        return taken, false;
      }
      assert Buffered() == old(Buffered()) + source[..taken];
      Seal(false);
      return taken, true;
    }

    /** Writes `buf`: alternately offers the buffered output to the inner writer and takes
      more of `buf`, normalizing every buffer that fills up. Ready comes only once all of
      `buf` is taken and all output written out; a Pending or a failure of the inner
      writer is passed on as it is, even when bytes of `buf` were already taken, and
      then output is still buffered. `taken` counts the bytes of `buf` taken. */
    method PollWrite(buf: seq<byte>, inner: Sink) returns (r: Poll<nat>, ghost taken: nat)
      requires Valid() && !closed
      modifies this, inputBuf, outputBuf, inner
      ensures Valid() && !closed && streamState == old(streamState)
      ensures old(emitted) <= emitted && inner.data == old(inner.data) + emitted[|old(emitted)|..]
      ensures taken <= |buf| && accepted == old(accepted) + buf[..taken]
      ensures r.Ready? ==> r.value == |buf| && taken == |buf| && outputSize == 0
      ensures r.Failure? ==> r.error.Inner?
      ensures !r.Ready? ==> outputPos < outputSize
      ensures |old(inner.answers)| == 0 ==> !r.Failure? && emitted == old(emitted)
    {
      var total: nat := 0;
      while true
        invariant Valid() && !closed && streamState == old(streamState)
        invariant total <= |buf| && accepted == old(accepted) + buf[..total]
        invariant old(emitted) <= emitted && inner.data == old(inner.data) + emitted[|old(emitted)|..]
        invariant |inner.answers| <= |old(inner.answers)|
        invariant |old(inner.answers)| == 0 ==> emitted == old(emitted)
        decreases |inner.answers|, |buf| - total, if outputPos < outputSize then 0 else 1
      {
        if outputPos < outputSize {
          ghost var e1, d1 := emitted, inner.data;
          var n := Drain(inner);
          SentChain(old(emitted), e1, emitted, old(inner.data), d1, inner.data);
          if !n.Ready? {
            r := if n.Pending? then Pending else Failure(n.error);
            return r, total;
          }
        } else {
          var now, full := Refill(buf[total..]);
          PrefixGrows(buf, total, now);
          total := total + now;
          if !full {
            return Ready(total), total;
          }
        }
      }
    }

    /** PollWrite as the asynchronous write contract means it: Pending or a failure
      only when no byte of `buf` was taken in this call, and otherwise Ready with the
      number of bytes taken, which is never zero for a non-empty `buf`. Whatever the
      inner writer refused stays buffered for the next call. */
    method PollWriteCorrected(buf: seq<byte>, inner: Sink) returns (r: Poll<nat>)
      requires Valid() && !closed
      modifies this, inputBuf, outputBuf, inner
      ensures Valid() && !closed && streamState == old(streamState)
      ensures old(emitted) <= emitted && inner.data == old(inner.data) + emitted[|old(emitted)|..]
      ensures r.Ready? ==> r.value <= |buf| && accepted == old(accepted) + buf[..r.value]
      ensures r.Ready? && |buf| > 0 ==> r.value > 0
      ensures !r.Ready? ==> accepted == old(accepted)
      ensures r.Failure? ==> r.error.Inner?
    {
      var total: nat := 0;
      while true
        invariant Valid() && !closed && streamState == old(streamState)
        invariant total <= |buf| && accepted == old(accepted) + buf[..total]
        invariant old(emitted) <= emitted && inner.data == old(inner.data) + emitted[|old(emitted)|..]
        decreases |inner.answers|, |buf| - total, if outputPos < outputSize then 0 else 1
      {
        if outputPos < outputSize {
          ghost var e1, d1 := emitted, inner.data;
          var n := Drain(inner);
          SentChain(old(emitted), e1, emitted, old(inner.data), d1, inner.data);
          if !n.Ready? {
            if total > 0 {
              return Ready(total);
            }
            r := if n.Pending? then Pending else Failure(n.error);
            return;
          }
        } else {
          var now, full := Refill(buf[total..]);
          PrefixGrows(buf, total, now);
          total := total + now;
          if !full {
            return Ready(total);
          }
        }
      }
    }

    /** Writes out the buffered output and flushes the inner writer, repeating until a
      normalization of the buffered input, as the last chunk when `finish` is set,
      yields nothing. So it is Ready only with nothing left to write; when there was
      nothing to write it does not flush the inner writer at all, and otherwise it is
      Ready only after the inner writer has been flushed. */
    method PollFlush(finish: bool, inner: Sink) returns (r: Poll<()>)
      requires Valid()
      modifies this, outputBuf, inner
      ensures Valid() && streamState == old(streamState) && accepted == old(accepted)
      ensures old(emitted) <= emitted && inner.data == old(inner.data) + emitted[|old(emitted)|..]
      ensures old(closed) ==> closed
      ensures closed ==> old(closed) || finish
      ensures r.Ready? ==>
        (inputPos == 0 && outputSize == 0 && committed == accepted && closed == (old(closed) || finish))
      ensures r.Failure? ==> r.error.Inner?
      ensures old(outputSize) == 0 && |Chunk(v, old(Buffered()), old(carried), finish).bytes| == 0 ==>
        (r == Ready(()) && inner.flushes == old(inner.flushes) && inner.data == old(inner.data))
      ensures r.Ready? && (old(outputSize) > 0 || |Chunk(v, old(Buffered()), old(carried), finish).bytes| > 0) ==>
        inner.flushes > old(inner.flushes)
    {
      ghost var chunk, wasCr := Buffered(), carried;
      ghost var idle := outputSize == 0 && |Chunk(v, chunk, wasCr, finish).bytes| == 0;
      ghost var didFlush := false;
      while true
        invariant Valid() && streamState == old(streamState) && accepted == old(accepted)
        invariant old(emitted) <= emitted && inner.data == old(inner.data) + emitted[|old(emitted)|..]
        invariant old(closed) ==> closed
        invariant closed ==> old(closed) || finish
        invariant idle ==>
          (outputSize == 0 && Buffered() == chunk && carried == wasCr
           && inner.flushes == old(inner.flushes) && inner.data == old(inner.data))
        invariant inner.flushes >= old(inner.flushes) && (didFlush ==> inner.flushes > old(inner.flushes))
        invariant !idle && outputSize == 0 && !didFlush ==>
          old(outputSize) == 0 && Buffered() == chunk && carried == wasCr
        decreases |inner.answers|, if outputSize == 0 then 1 else 0
      {
        if outputSize == 0 {
          ghost var step := Chunk(v, Buffered(), carried, finish);
          Seal(finish);
          if outputSize == 0 {
            assert |step.bytes| == 0;
            return Ready(());
          }
        } else if outputPos < outputSize {
          ghost var e1, d1 := emitted, inner.data;
          var n := Drain(inner);
          SentChain(old(emitted), e1, emitted, old(inner.data), d1, inner.data);
          match n
          case Ready(_) =>
          case Pending =>
            return Pending;
          case Failure(e) =>
            return Failure(e);
        } else {
          var flushed := inner.PollFlush(false);
          if !flushed.Ready? {
            return flushed;
          }
          outputPos := 0;
          outputSize := 0;
          didFlush := true;
        }
      }
    }

    /** Closes the stream: while Writing, flushes with the last chunk and moves on to
      Finishing; while Finishing, closes the inner writer and moves on to Finished. A
      phase that is Pending or fails is kept, and once Finished the inner writer is not
      touched again. When Ready, the inner writers have taken exactly the normalization
      of every byte ever taken as one last chunk. */
    method PollFinish(inner: Sink) returns (r: Poll<()>)
      requires Valid()
      modifies this, outputBuf, inner
      ensures Valid() && accepted == old(accepted)
      ensures old(emitted) <= emitted && inner.data == old(inner.data) + emitted[|old(emitted)|..]
      ensures Rank(old(streamState)) <= Rank(streamState)
      ensures r.Ready? <==> streamState == Finished
      ensures r.Ready? ==> emitted == Chunk(v, accepted, false, true).bytes
      ensures old(streamState) == Finished ==>
        (r == Ready(()) && inner.data == old(inner.data)
         && inner.answers == old(inner.answers) && inner.flushes == old(inner.flushes))
      ensures old(streamState) != Finished && r.Ready? ==> inner.finished
    {
      if streamState == Writing {
        var flushed := PollFlush(true, inner);
        if !flushed.Ready? {
          return flushed;
        }
        streamState := Finishing;
      }
      if streamState == Finishing {
        var closedInner := inner.PollFlush(true);
        if !closedInner.Ready? {
          return closedInner;
        }
        streamState := Finished;
      }
      assert closed && outputPos == 0 && outputSize == 0 && inputPos == 0;
      assert outputBuf[outputPos..outputSize] == [] && inputBuf[..inputPos] == [];
      assert emitted == Chunk(v, committed, false, true).bytes;
      assert accepted == committed;
      return Ready(());
    }
  }

  /** A CRLF write buffer of one byte over an inner writer that is not ready at first.
      Writing "a" takes the byte, normalizes the full input buffer and offers the output
      to the inner writer, which answers Pending; the write answers Pending too, yet the
      byte stays held in the output buffer and goes out with the next write or flush,
      so a caller that repeats the write, as Pending asks it to, writes "a" twice. */
  method PendingAfterTaking() returns (first: Poll<nat>, held: nat)
    ensures first == Pending && held == 1
  {
    var a: seq<byte> := [0x61];
    assert a[1..] == [] && !EndsWithCr(a) && !IsLineByte(a[0]);
    assert CrlfSpec.Expand(a, false) == a + CrlfSpec.Expand([], false);
    assert Chunk(Crlf, a, false, false) == Normalized(a, false);
    assert Chunk(Crlf, [], false, false) == Normalized([], false);
    var buffer := new WriteBuffer(Crlf, 1);
    var inner := new Sink([]);
    ghost var taken;
    first, taken := buffer.PollWrite(a, inner);
    assert buffer.emitted == [] && (taken == 0 || taken == 1);
    assert buffer.committed <= buffer.accepted;
    if buffer.committed == [] {
      assert buffer.outputBuf[buffer.outputPos..buffer.outputSize] == [];
    } else {
      assert buffer.committed == a;
    }
    held := buffer.outputSize - buffer.outputPos;
  }
}
