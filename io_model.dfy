/** What the buffered adapters see of the outside world: the outcome of a call, and the
    inner writer as a scripted sink whose answers are fixed in advance. The inner reader
    needs no object: each of its answers is passed to the call that consumes it. */
module IoModel {
  import opened Types

  /** An I/O error: one reported by the inner reader or writer, which is passed on
      unchanged, or a transducer error wrapped as an I/O error. */
  datatype IoError = Inner(code: nat) | Transducer(error: Error)

  /** The outcome of a poll-style call. A blocking call never answers Pending. */
  datatype Poll<T> = Ready(value: T) | Pending | Failure(error: IoError)

  /** The sink's answer to one call: accept up to `n` bytes (any success, for a flush or
      a finish), not ready yet, or fail. */
  datatype SinkAnswer = Accept(n: nat) | Block | Fault(code: nat)

  /** The inner writer. `data` is everything it has taken; each call consumes the next
      scripted answer, and once the script is exhausted blocking calls succeed and poll
      calls stay pending. */
  class Sink {
    var data: seq<byte>
    var answers: seq<SinkAnswer>
    var flushes: nat
    var finished: bool

    constructor (answers: seq<SinkAnswer>)
      ensures this.data == [] && this.answers == answers && flushes == 0 && !finished
    {
      this.data := [];
      this.answers := answers;
      this.flushes := 0;
      this.finished := false;
    }

    /** A blocking write of all of `bytes`: either all of them are taken or the call
      fails and none are. An empty write succeeds without a call to the sink. */
    method WriteAll(bytes: seq<byte>) returns (r: Poll<()>)
      modifies this
      ensures r.Pending? == false
      ensures r.Ready? ==> data == old(data) + bytes
      ensures r.Failure? ==> (data == old(data) && |bytes| > 0 && |old(answers)| > 0 && old(answers)[0].Fault?
                              && r.error == Inner(old(answers)[0].code))
      ensures answers == if |bytes| == 0 || |old(answers)| == 0 then old(answers) else old(answers)[1..]
      ensures flushes == old(flushes) && finished == old(finished)
    {
      if |bytes| == 0 || |answers| == 0 {
        data := data + bytes;
        return Ready(());
      }
      var answer := answers[0];
      answers := answers[1..];
      if answer.Fault? {
        return Failure(Inner(answer.code));
      }
      data := data + bytes;
      return Ready(());
    }

    /** A blocking flush. */
    method Flush() returns (r: Poll<()>)
      modifies this
      ensures r.Pending? == false
      ensures r.Ready? <==> |old(answers)| == 0 || !old(answers)[0].Fault?
      ensures r.Failure? ==> r.error == Inner(old(answers)[0].code)
      ensures answers == if |old(answers)| == 0 then [] else old(answers)[1..]
      ensures data == old(data) && finished == old(finished)
      ensures flushes == old(flushes) + (if r.Ready? then 1 else 0)
    {
      if |answers| == 0 {
        flushes := flushes + 1;
        return Ready(());
      }
      var answer := answers[0];
      answers := answers[1..];
      if answer.Fault? {
        return Failure(Inner(answer.code));
      }
      flushes := flushes + 1;
      return Ready(());
    }

    /** A poll-style write of a non-empty span: a prefix of it is taken, or the sink is
      not ready, or it fails. Every answer but Pending consumes a scripted answer. */
    method PollWrite(bytes: seq<byte>) returns (r: Poll<nat>)
      modifies this
      ensures r.Ready? ==> r.value <= |bytes| && data == old(data) + bytes[..r.value]
      ensures !r.Ready? ==> data == old(data)
      ensures r.Ready? ==> |old(answers)| > 0 && old(answers)[0].Accept?
      ensures r.Failure? ==> (|old(answers)| > 0 && old(answers)[0].Fault?
                              && r.error == Inner(old(answers)[0].code))
      ensures r.Pending? <==> |old(answers)| == 0 || old(answers)[0].Block?
      ensures answers == if |old(answers)| == 0 then [] else old(answers)[1..]
      ensures flushes == old(flushes) && finished == old(finished)
    {
      if |answers| == 0 {
        return Pending;
      }
      var answer := answers[0];
      answers := answers[1..];
      match answer
      case Accept(n) =>
        var taken := if n < |bytes| then n else |bytes|;
        data := data + bytes[..taken];
        return Ready(taken);
      case Block =>
        return Pending;
      case Fault(code) =>
        return Failure(Inner(code));
    }

    /** A poll-style flush, or with `finish` a poll-style close of the inner writer. */
    method PollFlush(finish: bool) returns (r: Poll<()>)
      modifies this
      ensures r.Ready? <==> |old(answers)| > 0 && old(answers)[0].Accept?
      ensures r.Failure? ==> (|old(answers)| > 0 && old(answers)[0].Fault?
                              && r.error == Inner(old(answers)[0].code))
      ensures r.Pending? <==> |old(answers)| == 0 || old(answers)[0].Block?
      ensures answers == if |old(answers)| == 0 then [] else old(answers)[1..]
      ensures data == old(data)
      ensures flushes == old(flushes) + (if r.Ready? && !finish then 1 else 0)
      ensures finished == (old(finished) || (r.Ready? && finish))
    {
      if |answers| == 0 {
        return Pending;
      }
      var answer := answers[0];
      answers := answers[1..];
      match answer
      case Accept(_) =>
        if finish {
          finished := true;
        } else {
          flushes := flushes + 1;
        }
        return Ready(());
      case Block =>
        return Pending;
      case Fault(code) =>
        return Failure(Inner(code));
    }
  }
}
