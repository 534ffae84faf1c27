/** The blocking push adapter: a writer that gathers bytes into a fixed input buffer,
    normalizes every full buffer as a chunk that is not the last, and hands the output to
    an inner writer; `finish` normalizes what is left as the last chunk. The same machine
    serves both generations of the writer; they differ only in how the output buffer is
    sized. No writer drives the oldest CRLF function. */
module Writers {
  import opened Types
  import opened ChunkResult
  import opened Copy
  import opened Transducer
  import opened IoModel

  /** Writing out one more chunk's output keeps the session whole: after what the inner
      writer held before, it holds the non-last-chunk normalization of the committed
      bytes followed by the chunk, and the carried bit agrees. */
  lemma CommitKeepsSession(v: Variant, prior: seq<byte>, committed: seq<byte>, chunk: seq<byte>,
                           data: seq<byte>)
    requires !v.CrlfLegacy?
    requires data == prior + Chunk(v, committed, false, false).bytes
    ensures var step := Chunk(v, chunk, Chunk(v, committed, false, false).endedWithCr, false);
      data + step.bytes == prior + Chunk(v, committed + chunk, false, false).bytes
      && step.endedWithCr == Chunk(v, committed + chunk, false, false).endedWithCr
  {
    SplitInvariance(v, committed, chunk, false, false);
  }

  class Writer {
    const v: Variant
    const bufSize: nat
    const inner: Sink
    const inputBuf: array<byte>
    const outputBuf: array<byte>
    var inputPos: nat
    var carried: bool
    /** What the inner writer held when this writer was made. */
    ghost const prior: seq<byte>
    /** Every byte a write has taken. */
    ghost var accepted: seq<byte>
    /** The taken bytes whose normalized output has been handed to the inner writer. */
    ghost var committed: seq<byte>

    /** The buffers keep their sizes and the input position stays inside the input
      buffer; the taken bytes are the committed ones followed by the buffered ones; the
      inner writer holds, after what it held before, exactly the non-last-chunk
      normalization of the committed bytes, and the carried bit is the one that
      normalization carries. */
    ghost predicate Valid()
      reads this, inputBuf, inner
    {
      !v.CrlfLegacy? &&
      inputBuf != outputBuf &&
      inputBuf.Length == bufSize &&
      outputBuf.Length == Required(v, bufSize, false) &&
      inputPos <= bufSize &&
      accepted == committed + inputBuf[..inputPos] &&
      inner.data == prior + Chunk(v, committed, false, false).bytes &&
      carried == Chunk(v, committed, false, false).endedWithCr
    }

    /** The taken bytes not yet normalized. */
    function Buffered(): (r: seq<byte>)
      requires inputPos <= inputBuf.Length
      reads this, inputBuf
      ensures |r| == inputPos
    {
      inputBuf[..inputPos]
    }

    /** A writer over `inner` with an output buffer of `capacity` bytes, the size a full
      non-last chunk demands. */
    constructor Init(v: Variant, bufSize: nat, capacity: nat, inner: Sink)
      requires !v.CrlfLegacy? && capacity == Required(v, bufSize, false)
      ensures Valid() && fresh(inputBuf) && fresh(outputBuf)
      ensures this.v == v && this.bufSize == bufSize && this.inner == inner
      ensures inputPos == 0 && !carried && prior == inner.data
      ensures accepted == [] && committed == []
    {
      this.v := v;
      this.bufSize := bufSize;
      this.inner := inner;
      inputBuf := new byte[bufSize](_ => 0);
      outputBuf := new byte[capacity](_ => 0);
      inputPos := 0;
      carried := false;
      prior := inner.data;
      accepted := [];
      committed := [];
    }

    /** A writer whose output buffer is sized by the worst-case formula. */
    static method New(v: Variant, bufSize: nat, inner: Sink) returns (w: Writer)
      requires !v.CrlfLegacy?
      ensures w.Valid() && fresh(w) && fresh(w.inputBuf) && fresh(w.outputBuf)
      ensures w.v == v && w.bufSize == bufSize && w.inner == inner
      ensures w.inputPos == 0 && !w.carried && w.prior == inner.data
      ensures w.accepted == [] && w.committed == []
    {
      var required := Required(v, bufSize, false);
      w := new Writer.Init(v, bufSize, required, inner);
    }

    /** A writer whose output buffer is sized by a probe call on a full buffer of zeros;
      None where the probe succeeds and the constructor panics. */
    static method WithSize(v: Variant, bufSize: nat, inner: Sink) returns (r: Option<Writer>)
      requires !v.CrlfLegacy?
      ensures r.None? <==> bufSize == 0
      ensures r.Some? ==> r.value.Valid() && fresh(r.value) && fresh(r.value.inputBuf) && fresh(r.value.outputBuf)
      ensures r.Some? ==> r.value.v == v && r.value.bufSize == bufSize && r.value.inner == inner
      ensures r.Some? ==> r.value.inputPos == 0 && !r.value.carried && r.value.prior == inner.data
      ensures r.Some? ==> r.value.accepted == [] && r.value.committed == []
    {
      var zeros := seq(bufSize, _ => 0 as byte);
      var probe := Probe(v, zeros, false);
      if probe.None? {
        return None;
      }
      var writer := new Writer.Init(v, bufSize, probe.value, inner);
      return Some(writer);
    }

    /** One pass of the write loop: takes as many bytes of `source` as the input buffer
      has room for; if the buffer is still not full the write is done (Ready(true)),
      otherwise the full buffer is normalized as a non-last chunk and written out,
      after which the buffer is empty (Ready(false)) or, when the inner writer fails,
      stays full. With a zero-sized buffer a pass takes nothing, writes nothing and
      answers Ready(false), so the write loop never ends. */
    method Step(source: seq<byte>) returns (taken: nat, r: Poll<bool>)
      requires Valid() && |source| > 0
      modifies this, inputBuf, outputBuf, inner
      ensures Valid()
      ensures taken == Min(|source|, bufSize - old(inputPos))
      ensures accepted == old(accepted) + source[..taken]
      ensures !r.Pending?
      ensures r == Ready(true) ==> inputPos < bufSize && committed == old(committed)
      ensures r == Ready(false) ==> inputPos == 0 && committed == accepted
      ensures r.Failure? ==>
        (inputPos == bufSize && committed == old(committed)
         && inner.data == old(inner.data) && r.error.Inner?)
      ensures bufSize == 0 ==>
        taken == 0 && r == Ready(false) && inputPos == 0 && inner.data == old(inner.data)
    {
      taken := Min(|source|, bufSize - inputPos);
      CopyNonoverlapping(source, 0, inputBuf, inputPos, taken);
      inputPos := inputPos + taken;
      accepted := accepted + source[..taken];

      if inputPos < bufSize {
        return taken, Ready(true);
      }
      var written := CommitFull();
      match written
      case Ready(_) =>
        return taken, Ready(false);
      case Failure(e) =>
        return taken, Failure(e);
    }

    /** Normalizes the full input buffer as a chunk that is not the last and writes the
      output out; the buffer is emptied and the carried bit updated only when the inner
      writer takes it. */
    method CommitFull() returns (r: Poll<()>)
      requires Valid() && inputPos == bufSize
      modifies this, outputBuf, inner
      ensures Valid() && accepted == old(accepted) && !r.Pending?
      ensures r.Ready? ==>
        (inputPos == 0 && committed == accepted
         && inner.data == old(inner.data) + Chunk(v, old(Buffered()), old(carried), false).bytes)
      ensures r.Failure? ==>
        (inputPos == bufSize && committed == old(committed)
         && inner.data == old(inner.data) && r.error.Inner?)
      ensures |Chunk(v, old(Buffered()), old(carried), false).bytes| == 0 ==> r.Ready?
    {
      ghost var chunk := inputBuf[..];
      assert chunk == Buffered();
      var status := NormalizeInto(v, inputBuf[..], outputBuf, carried, false);
      var result := status.value;
      CommitKeepsSession(v, prior, committed, chunk, inner.data);
      r := inner.WriteAll(outputBuf[..result.outputLen]);
      if r.Failure? {
        return;
      }
      committed := committed + chunk;
      carried := result.endedWithCr;
      inputPos := 0;
      assert accepted == committed + inputBuf[..inputPos];
    }

    /** Takes all of `buf` and answers its length, leaving the input buffer not full
      unless `buf` is empty; every buffer that fills up on the way is normalized and
      written out. When the inner writer fails the error is passed on, though the first
      `taken` bytes of `buf` have already been taken. The loop needs a non-empty buffer
      to end. */
    method Write(buf: seq<byte>) returns (r: Poll<nat>, ghost taken: nat)
      requires Valid() && bufSize > 0
      modifies this, inputBuf, outputBuf, inner
      ensures Valid() && !r.Pending?
      ensures taken <= |buf| && accepted == old(accepted) + buf[..taken]
      ensures r.Ready? ==> r.value == |buf| && taken == |buf|
      ensures r.Ready? && |buf| > 0 ==> inputPos < bufSize
      ensures r.Failure? ==> r.error.Inner? && inputPos == bufSize
    {
      var total: nat := 0;
      while total < |buf|
        invariant Valid()
        invariant total <= |buf| && accepted == old(accepted) + buf[..total]
        invariant total > 0 ==> inputPos < bufSize
        decreases |buf| - total, if inputPos == bufSize then 1 else 0
      {
        var now, step := Step(buf[total..]);
        PrefixGrows(buf, total, now);
        total := total + now;
        if step.Failure? {
          return Failure(step.error), total;
        }
        if step.value {
          return Ready(total), total;
        }
      }
      return Ready(total), total;
    }

    /** Normalizes the buffered bytes as a chunk that is not the last; only when that
      yields output is it written out, the carried bit updated and the buffer emptied.
      Then the inner writer is flushed. */
    method Flush() returns (r: Poll<()>)
      requires Valid()
      modifies this, outputBuf, inner
      ensures Valid()
      ensures accepted == old(accepted) && !r.Pending?
      ensures var step := Chunk(v, old(Buffered()), old(carried), false);
        (inputPos == old(inputPos) && carried == old(carried) && committed == old(committed)
         && inner.data == old(inner.data))
        || (|step.bytes| > 0 && inputPos == 0 && carried == step.endedWithCr && committed == accepted
            && inner.data == old(inner.data) + step.bytes)
      ensures var step := Chunk(v, old(Buffered()), old(carried), false);
        r.Ready? && |step.bytes| > 0 ==> inputPos == 0 && inner.data == old(inner.data) + step.bytes
      ensures r.Ready? ==> inner.flushes == old(inner.flushes) + 1
      ensures r.Failure? ==> r.error.Inner?
    {
      r := CommitPending();
      if r.Failure? {
        return;
      }
      r := inner.Flush();
    }

    /** The write-out half of a flush: normalizes the buffered bytes as a chunk that is
      not the last and, only when that yields output, writes it out, updates the
      carried bit and empties the buffer. */
    method CommitPending() returns (r: Poll<()>)
      requires Valid()
      modifies this, outputBuf, inner
      ensures Valid()
      ensures accepted == old(accepted) && !r.Pending? && inner.flushes == old(inner.flushes)
      ensures var step := Chunk(v, old(Buffered()), old(carried), false);
        if r.Failure? || |step.bytes| == 0 then
          inputPos == old(inputPos) && carried == old(carried) && committed == old(committed)
          && inner.data == old(inner.data)
        else
          inputPos == 0 && carried == step.endedWithCr && committed == accepted
          && inner.data == old(inner.data) + step.bytes
      ensures r.Failure? ==> r.error.Inner?
    {
      AdapterCallFits(v, inputPos, bufSize, false);
      ghost var chunk := inputBuf[..inputPos];
      var status := NormalizeInto(v, inputBuf[..inputPos], outputBuf, carried, false);
      var result := status.value;
      if result.outputLen == 0 {
        return Ready(());
      }
      CommitKeepsSession(v, prior, committed, chunk, inner.data);
      r := inner.WriteAll(outputBuf[..result.outputLen]);
      if r.Failure? {
        return;
      }
      committed := committed + chunk;
      carried := result.endedWithCr;
      inputPos := 0;
      assert accepted == committed + inputBuf[..inputPos];
    }

    /** Normalizes the buffered bytes as the last chunk and writes the output out. On
      success the inner writer holds, after what it held before, the normalization of
      every byte ever taken as one last chunk. The output buffer is too small for that
      call exactly when the input buffer is full and the format is CRLF, whose last
      chunk needs one byte more than a full non-last one: after a failed write, or
      always when the buffer has size zero. */
    method Finish() returns (r: Poll<()>)
      requires Valid()
      modifies outputBuf, inner
      ensures !r.Pending?
      ensures r.Ready? ==> inner.data == prior + Chunk(v, accepted, false, true).bytes
      ensures r.Failure? && r.error.Transducer? <==> inputPos == bufSize && !v.Lf?
      ensures r.Failure? && r.error.Transducer? ==>
        r.error == Transducer(OutputBufferTooSmall(Required(v, bufSize, true)))
      ensures r.Failure? ==> inner.data == old(inner.data)
    {
      var status := NormalizeInto(v, inputBuf[..inputPos], outputBuf, carried, true);
      if status.Err? {
        return Failure(Transducer(status.error));
      }
      var result := status.value;
      r := inner.WriteAll(outputBuf[..result.outputLen]);
      SplitInvariance(v, committed, inputBuf[..inputPos], false, true);
    }
  }
}
