/** Byte constants and the single error kind of the transducer layer. */
module Types {

  /** An unsigned 8-bit value, the unit every transducer works on. */
  newtype byte = b: int | 0 <= b < 0x100

  /** Carriage return. */
  const CR: byte := 0x0D

  /** Line feed. */
  const LF: byte := 0x0A

  /** The only failure of a chunk call: the caller's output buffer is smaller than the
      worst case the transducer needs for the chunk. */
  datatype Error = OutputBufferTooSmall(required: nat) {

    /** The number of bytes the call would have needed. */
    function RequiredSize(): (r: nat)
      ensures OutputBufferTooSmall(r) == this
    {
      match this
      case OutputBufferTooSmall(required) => required
    }
  }

  datatype Result<T> = Ok(value: T) | Err(error: Error)

  datatype Option<T> = None | Some(value: T)

  /** CR or LF: the only bytes any transducer inserts, removes or rewrites. */
  predicate IsLineByte(b: byte)
  {
    b == CR || b == LF
  }

  /** Whether a byte sequence ends with CR. */
  predicate EndsWithCr(s: seq<byte>)
  {
    |s| > 0 && s[|s| - 1] == CR
  }

  /** A concatenation ends with CR as its back part does, or as its front when the back
      is empty. */
  lemma EndsWithCrAppend(h: seq<byte>, t: seq<byte>)
    ensures EndsWithCr(h + t) == if |t| == 0 then EndsWithCr(h) else EndsWithCr(t)
  {
    if |t| == 0 {
      assert h + t == h;
    } else {
      assert (h + t)[|h + t| - 1] == t[|t| - 1];
    }
  }

  /** Dropping a proper prefix does not change whether a sequence ends with CR. */
  lemma EndsWithCrSuffix(s: seq<byte>, n: nat)
    requires n < |s|
    ensures EndsWithCr(s[n..]) == EndsWithCr(s)
  {
    assert s[n..][|s[n..]| - 1] == s[|s| - 1];
  }

  /** The sequence with every CR and LF removed. */
  function StripLineBytes(s: seq<byte>): (r: seq<byte>)
    ensures |r| <= |s|
    ensures forall k :: 0 <= k < |r| ==> !IsLineByte(r[k])
  {
    if |s| == 0 then []
    else if IsLineByte(s[0]) then StripLineBytes(s[1..])
    else [s[0]] + StripLineBytes(s[1..])
  }

  lemma {:induction false} StripConcat(a: seq<byte>, b: seq<byte>)
    ensures StripLineBytes(a + b) == StripLineBytes(a) + StripLineBytes(b)
  {
    if |a| == 0 {
      assert a + b == b;
    } else {
      assert (a + b)[1..] == a[1..] + b;
      StripConcat(a[1..], b);
    }
  }

  /** Regrouping a three-part concatenation, stated over opaque parts so that callers
      need not unfold the functions that produced them. */
  lemma Regroup(whole: seq<byte>, left: seq<byte>, head: seq<byte>, rest: seq<byte>, tail: seq<byte>, after: seq<byte>)
    requires whole == head + after && after == rest + tail && left == head + rest
    ensures whole == left + tail
  {
  }

  /** The last cursor step of a transducer: the pending part and the rest are emitted
      as `emitted`, which completes the output. */
  lemma Finish(written: seq<byte>, pending: seq<byte>, rest: seq<byte>, total: seq<byte>, emitted: seq<byte>)
    requires written + pending + rest == total
    requires pending + rest == emitted
    ensures written + emitted == total
  {
    assert written + pending + rest == written + (pending + rest);
  }

  /** Moves the three front parts of a right-nested tail into the middle part. */
  lemma Shift(w: seq<byte>, a: seq<byte>, b: seq<byte>, c: seq<byte>, d: seq<byte>, total: seq<byte>)
    requires w + a + (b + (c + d)) == total
    ensures w + (a + b + c) + d == total
  {
    assert w + a + (b + (c + d)) == w + (a + b + c) + d;
  }

  /** The smaller of two counts. */
  function Min(a: nat, b: nat): (r: nat)
    ensures r <= a && r <= b && (r == a || r == b)
  {
    if a < b then a else b
  }
}
