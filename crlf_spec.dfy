/** The reference meaning of CRLF normalization of one chunk, stated byte by byte, and
    the properties every CRLF transducer inherits from it. */
module CrlfSpec {
  import opened Types
  import opened ChunkResult

  /** CRLF conversion of a span into which no CR is carried: an existing CR LF pair is
      kept, a bare LF or a CR followed by another byte becomes CR LF, and a CR in final
      position becomes CR LF on the last chunk and stays a lone CR otherwise. */
  function Expand(s: seq<byte>, isLastChunk: bool): seq<byte>
  {
    if |s| == 0 then []
    else if s[0] == CR && |s| == 1 then (if isLastChunk then [CR, LF] else [CR])
    else if s[0] == CR && s[1] == LF then [CR, LF] + Expand(s[2..], isLastChunk)
    else if IsLineByte(s[0]) then [CR, LF] + Expand(s[1..], isLastChunk)
    else [s[0]] + Expand(s[1..], isLastChunk)
  }

  /** One chunk converted to CRLF. An empty chunk that is not the last one passes the
      carried bit through; otherwise a carried CR is completed by an LF, which is the
      chunk's own leading LF when it has one. */
  function ToCrlf(input: seq<byte>, precededByCr: bool, isLastChunk: bool): Normalized
  {
    if |input| == 0 && !isLastChunk then Normalized([], precededByCr)
    else if precededByCr && |input| > 0 && input[0] == LF then
      Normalized([LF] + Expand(input[1..], isLastChunk), !isLastChunk && EndsWithCr(input))
    else if precededByCr then
      Normalized([LF] + Expand(input, isLastChunk), !isLastChunk && EndsWithCr(input))
    else
      Normalized(Expand(input, isLastChunk), !isLastChunk && EndsWithCr(input))
  }

  /** Output with no bare line byte: every CR is followed by LF and every LF follows a CR,
      except a leading LF when `leadingLf` and a final CR when `trailingCr`. */
  predicate CrlfClean(out: seq<byte>, leadingLf: bool, trailingCr: bool)
  {
    forall k :: 0 <= k < |out| ==> CrCompleted(out, k, trailingCr) && LfCompleted(out, k, leadingLf)
  }

  /** The byte at `k` is not a CR, or an LF follows it, or it is an allowed final CR. */
  predicate CrCompleted(out: seq<byte>, k: nat, trailingCr: bool)
    requires k < |out|
  {
    out[k] == CR ==> (k + 1 < |out| && out[k + 1] == LF) || (trailingCr && k == |out| - 1)
  }

  /** The byte at `k` is not an LF, or a CR precedes it, or it is an allowed leading LF. */
  predicate LfCompleted(out: seq<byte>, k: nat, leadingLf: bool)
    requires k < |out|
  {
    out[k] == LF ==> (k > 0 && out[k - 1] == CR) || (leadingLf && k == 0)
  }

  // ---------------------------------------------------------------------------
  // Scanning steps used by the imperative transducers

  /** Bytes other than CR and LF are copied through unchanged. */
  lemma {:induction false} ExpandSkipsPlain(s: seq<byte>, from: nat, to: nat, isLastChunk: bool)
    requires from <= to <= |s|
    requires forall j :: from <= j < to ==> !IsLineByte(s[j])
    ensures Expand(s[from..], isLastChunk) == s[from..to] + Expand(s[to..], isLastChunk)
    decreases (to as int) - (from as int)
  {
    if from < to {
      assert s[from..][1..] == s[from + 1..];
      ExpandSkipsPlain(s, from + 1, to, isLastChunk);
      assert s[from..to] == [s[from]] + s[from + 1..to];
    }
  }

  /** The loop invariant of the CRLF transducers: the bytes already written, the pending
      run not yet copied and the conversion of the unscanned rest make up the chunk's
      whole output. */
  ghost predicate ScanInvariant(input: seq<byte>, readPos: nat, scanPos: nat, written: seq<byte>,
                                total: seq<byte>, isLastChunk: bool)
  {
    readPos <= scanPos <= |input| &&
    written + input[readPos..scanPos] + Expand(input[scanPos..], isLastChunk) == total
  }

  /** A CR LF pair found by the scan is kept as it is and left for a later bulk copy. */
  lemma ScanPair(input: seq<byte>, readPos: nat, scanPos: nat, i: nat, written: seq<byte>,
                 total: seq<byte>, isLastChunk: bool)
    requires ScanInvariant(input, readPos, scanPos, written, total, isLastChunk)
    requires scanPos <= i && i + 1 < |input|
    requires input[i] == CR && input[i + 1] == LF
    requires forall j :: scanPos <= j < i ==> !IsLineByte(input[j])
    ensures ScanInvariant(input, readPos, i + 2, written, total, isLastChunk)
  {
    ScanStep(input, readPos, scanPos, i, 2, [CR, LF], written, total, isLastChunk);
    assert input[readPos..i + 2] == input[readPos..scanPos] + input[scanPos..i] + [CR, LF];
  }

  /** A bare LF, or a CR followed by another byte, found by the scan becomes CR LF after
      the pending run is copied. */
  lemma ScanBare(input: seq<byte>, readPos: nat, scanPos: nat, i: nat, written: seq<byte>,
                 total: seq<byte>, isLastChunk: bool)
    requires ScanInvariant(input, readPos, scanPos, written, total, isLastChunk)
    requires scanPos <= i < |input|
    requires input[i] == LF || (input[i] == CR && i + 1 < |input| && input[i + 1] != LF)
    requires forall j :: scanPos <= j < i ==> !IsLineByte(input[j])
    ensures ScanInvariant(input, i + 1, i + 1, written + (input[readPos..i] + [CR, LF]), total, isLastChunk)
  {
    ScanStep(input, readPos, scanPos, i, 1, [CR, LF], written, total, isLastChunk);
    assert input[readPos..i] == input[readPos..scanPos] + input[scanPos..i];
    var w := written + (input[readPos..i] + [CR, LF]);
    assert input[i + 1..i + 1] == [];
    assert w + input[i + 1..i + 1] == w;
  }

  /** The scan step shared by ScanPair and ScanBare: the run before `i` is plain and the
      `n` bytes at `i` expand to `head`. */
  lemma ScanStep(input: seq<byte>, readPos: nat, scanPos: nat, i: nat, n: nat, head: seq<byte>,
                 written: seq<byte>, total: seq<byte>, isLastChunk: bool)
    requires ScanInvariant(input, readPos, scanPos, written, total, isLastChunk)
    requires scanPos <= i && i + n <= |input|
    requires n == 2 ==> input[i] == CR && input[i + 1] == LF && head == [CR, LF]
    requires n == 1 ==> (input[i] == LF || (input[i] == CR && i + 1 < |input| && input[i + 1] != LF)) && head == [CR, LF]
    requires n == 1 || n == 2
    requires forall j :: scanPos <= j < i ==> !IsLineByte(input[j])
    ensures written + (input[readPos..scanPos] + input[scanPos..i] + head) + Expand(input[i + n..], isLastChunk) == total
  {
    ExpandSkipsPlain(input, scanPos, i, isLastChunk);
    ExpandHead(input[i..], n, head, isLastChunk);
    assert input[i..][n..] == input[i + n..];
    Shift(written, input[readPos..scanPos], input[scanPos..i], head, Expand(input[i + n..], isLastChunk), total);
  }

  /** A CR in final position found by the scan is copied with the pending run, and
      completed by LF only on the last chunk. */
  lemma ScanFinalCr(input: seq<byte>, readPos: nat, scanPos: nat, written: seq<byte>,
                    total: seq<byte>, isLastChunk: bool)
    requires ScanInvariant(input, readPos, scanPos, written, total, isLastChunk)
    requires scanPos < |input| && input[|input| - 1] == CR
    requires forall j :: scanPos <= j < |input| - 1 ==> !IsLineByte(input[j])
    ensures written + (input[readPos..|input|] + (if isLastChunk then [LF] else [])) == total
  {
    var i := |input| - 1;
    ExpandSkipsPlain(input, scanPos, i, isLastChunk);
    assert input[i..] == [CR];
    assert input[readPos..|input|] == input[readPos..i] + input[i..];
    assert input[readPos..i] == input[readPos..scanPos] + input[scanPos..i];
    Finish(written, input[readPos..scanPos], Expand(input[scanPos..], isLastChunk), total,
      input[readPos..|input|] + (if isLastChunk then [LF] else []));
  }

  /** When the scan finds no line byte the rest of the input is copied as it is. */
  lemma ScanEnd(input: seq<byte>, readPos: nat, scanPos: nat, written: seq<byte>,
                total: seq<byte>, isLastChunk: bool)
    requires ScanInvariant(input, readPos, scanPos, written, total, isLastChunk)
    requires forall j :: scanPos <= j < |input| ==> !IsLineByte(input[j])
    ensures written + (input[readPos..|input|] + []) == total
  {
    ExpandSkipsPlain(input, scanPos, |input|, isLastChunk);
    assert input[|input|..] == [];
    assert input[readPos..|input|] + [] == input[readPos..scanPos] + input[scanPos..];
    Finish(written, input[readPos..scanPos], Expand(input[scanPos..], isLastChunk), total,
      input[readPos..|input|] + []);
  }

  // ---------------------------------------------------------------------------
  // Capacity

  /** Every input byte yields at least one and at most two output bytes; a span that does
      not start with LF and is not last saves one byte on the worst case. */
  lemma {:induction false} ExpandLength(s: seq<byte>, isLastChunk: bool)
    ensures |s| <= |Expand(s, isLastChunk)| <= 2 * |s|
    ensures !isLastChunk && |s| > 0 && s[0] != LF ==> |Expand(s, isLastChunk)| <= 2 * |s| - 1
  {
    if |s| == 0 {
    } else if s[0] == CR && |s| == 1 {
    } else if s[0] == CR && s[1] == LF {
      ExpandLength(s[2..], isLastChunk);
    } else {
      ExpandLength(s[1..], isLastChunk);
    }
  }

  /** The capacity 2n + [last] always suffices, and the output is never shorter than
      the input. */
  lemma OutputLengthBounds(input: seq<byte>, precededByCr: bool, isLastChunk: bool)
    ensures var out := ToCrlf(input, precededByCr, isLastChunk).bytes;
      |input| <= |out| <= 2 * |input| + (if isLastChunk then 1 else 0)
  {
    if |input| > 0 {
      ExpandLength(input, isLastChunk);
      ExpandLength(input[1..], isLastChunk);
    }
  }

  /** An all-LF chunk doubles. */
  lemma {:induction false} AllLfDoubles(n: nat, isLastChunk: bool)
    ensures |ToCrlf(seq(n, _ => LF), false, isLastChunk).bytes| == 2 * n
  {
    AllLfExpand(n, isLastChunk);
  }

  lemma {:induction false} AllLfExpand(n: nat, isLastChunk: bool)
    ensures |Expand(seq(n, _ => LF), isLastChunk)| == 2 * n
  {
    if n > 0 {
      var s: seq<byte> := seq(n, _ => LF);
      assert s[1..] == seq(n - 1, _ => LF);
      AllLfExpand(n - 1, isLastChunk);
    }
  }

  /** A carried CR followed by an all-CR last chunk reaches 2n + 1: the extra byte of the
      last-chunk capacity is needed. */
  lemma {:induction false} AllCrAfterCrNeedsExtraByte(n: nat)
    requires n > 0
    ensures |ToCrlf(seq(n, _ => CR), true, true).bytes| == 2 * n + 1
  {
    AllCrExpand(n);
  }

  lemma {:induction false} AllCrExpand(n: nat)
    requires n > 0
    ensures |Expand(seq(n, _ => CR), true)| == 2 * n
  {
    var s: seq<byte> := seq(n, _ => CR);
    if n > 1 {
      assert s[1..] == seq(n - 1, _ => CR);
      AllCrExpand(n - 1);
    }
  }

  // ---------------------------------------------------------------------------
  // No bare line bytes

  lemma CleanConcat(a: seq<byte>, b: seq<byte>, leadingLf: bool, trailingCr: bool)
    requires CrlfClean(a, leadingLf, false) && CrlfClean(b, false, trailingCr)
    ensures CrlfClean(a + b, leadingLf, trailingCr)
  {
    var out := a + b;
    forall k | 0 <= k < |out|
      ensures CrCompleted(out, k, trailingCr) && LfCompleted(out, k, leadingLf)
    {
      if k < |a| {
        assert CrCompleted(a, k, false) && LfCompleted(a, k, leadingLf);
        assert out[k] == a[k];
        if k + 1 < |a| {
          assert out[k + 1] == a[k + 1];
        }
        if k > 0 {
          assert out[k - 1] == a[k - 1];
        }
      } else {
        var j := k - |a|;
        assert CrCompleted(b, j, trailingCr) && LfCompleted(b, j, false);
        assert out[k] == b[j];
        if j + 1 < |b| {
          assert out[k + 1] == b[j + 1];
        }
        if j > 0 {
          assert out[k - 1] == b[j - 1];
        }
      }
    }
  }

  /** Expansion leaves no bare line byte; only a CR carried out of a non-last span may
      end it. */
  lemma {:induction false} ExpandClean(s: seq<byte>, isLastChunk: bool)
    ensures CrlfClean(Expand(s, isLastChunk), false, !isLastChunk && EndsWithCr(s))
  {
    var t := !isLastChunk && EndsWithCr(s);
    if |s| == 0 {
    } else if s[0] == CR && |s| == 1 {
    } else if s[0] == CR && s[1] == LF {
      ExpandClean(s[2..], isLastChunk);
      assert EndsWithCr(s[2..]) == EndsWithCr(s);
      CleanConcat([CR, LF], Expand(s[2..], isLastChunk), false, t);
    } else if IsLineByte(s[0]) {
      ExpandClean(s[1..], isLastChunk);
      assert EndsWithCr(s[1..]) == EndsWithCr(s);
      CleanConcat([CR, LF], Expand(s[1..], isLastChunk), false, t);
    } else {
      ExpandClean(s[1..], isLastChunk);
      assert EndsWithCr(s[1..]) == EndsWithCr(s);
      CleanConcat([s[0]], Expand(s[1..], isLastChunk), false, t);
    }
  }

  /** The expansion ends with CR exactly when a CR is withheld from a non-last span. */
  lemma {:induction false} ExpandEndsWithCr(s: seq<byte>, isLastChunk: bool)
    ensures EndsWithCr(Expand(s, isLastChunk)) <==> !isLastChunk && EndsWithCr(s)
  {
    if |s| == 0 {
    } else if s[0] == CR && |s| == 1 {
    } else {
      var n := if s[0] == CR && s[1] == LF then 2 else 1;
      var head := if n == 2 || IsLineByte(s[0]) then [CR, LF] else [s[0]];
      ExpandHead(s, n, head, isLastChunk);
      ExpandEndsWithCr(s[n..], isLastChunk);
      EndsWithCrAppend(head, Expand(s[n..], isLastChunk));
      if n < |s| {
        EndsWithCrSuffix(s, n);
      } else {
        assert s[n..] == [];
        assert !EndsWithCr(s) by { assert s[|s| - 1] == s[n - 1]; }
      }
    }
  }


  /** A chunk's output has no bare CR or LF, except a leading LF completing a carried CR
      and a final CR that the call reports as `endedWithCr`. */
  lemma ChunkClean(input: seq<byte>, precededByCr: bool, isLastChunk: bool)
    ensures var r := ToCrlf(input, precededByCr, isLastChunk);
      CrlfClean(r.bytes, precededByCr, r.endedWithCr)
  {
    if |input| == 0 && !isLastChunk {
    } else if precededByCr && |input| > 0 && input[0] == LF {
      ExpandClean(input[1..], isLastChunk);
      assert EndsWithCr(input[1..]) == EndsWithCr(input);
      CleanConcat([LF], Expand(input[1..], isLastChunk), true, !isLastChunk && EndsWithCr(input));
    } else if precededByCr {
      ExpandClean(input, isLastChunk);
      CleanConcat([LF], Expand(input, isLastChunk), true, !isLastChunk && EndsWithCr(input));
    } else {
      ExpandClean(input, isLastChunk);
    }
  }

  /** `endedWithCr` is set only by a final CR of a chunk that is not last, or passed
      through by an empty chunk that is not last; for a non-empty chunk it holds exactly
      when the output ends with CR. */
  lemma ChunkEndedWithCr(input: seq<byte>, precededByCr: bool, isLastChunk: bool)
    ensures var r := ToCrlf(input, precededByCr, isLastChunk);
      && (isLastChunk ==> !r.endedWithCr)
      && (r.endedWithCr <==> !isLastChunk && (if |input| == 0 then precededByCr else EndsWithCr(input)))
      && (|input| > 0 ==> (EndsWithCr(r.bytes) <==> r.endedWithCr))
  {
    if |input| > 0 {
      if precededByCr && input[0] == LF {
        ExpandEndsWithCr(input[1..], isLastChunk);
        assert EndsWithCr(input[1..]) == EndsWithCr(input);
        assert EndsWithCr([LF] + Expand(input[1..], isLastChunk)) == EndsWithCr(Expand(input[1..], isLastChunk));
      } else if precededByCr {
        ExpandEndsWithCr(input, isLastChunk);
        assert EndsWithCr([LF] + Expand(input, isLastChunk)) == EndsWithCr(Expand(input, isLastChunk));
      } else {
        ExpandEndsWithCr(input, isLastChunk);
      }
    }
  }

  // ---------------------------------------------------------------------------
  // Idempotence

  lemma CleanSuffix(s: seq<byte>, j: nat)
    requires CrlfClean(s, false, false)
    requires 0 < j <= |s| && s[j - 1] != CR
    ensures CrlfClean(s[j..], false, false)
  {
    var t := s[j..];
    forall k | 0 <= k < |t|
      ensures CrCompleted(t, k, false) && LfCompleted(t, k, false)
    {
      assert CrCompleted(s, j + k, false) && LfCompleted(s, j + k, false);
      assert t[k] == s[j + k];
      if k > 0 {
        assert t[k - 1] == s[j + k - 1];
      }
      if k + 1 < |t| {
        assert t[k + 1] == s[j + k + 1];
      }
    }
  }

  /** Output that is already clean CRLF is left unchanged. */
  lemma {:induction false} ExpandKeepsClean(s: seq<byte>, isLastChunk: bool)
    requires CrlfClean(s, false, false)
    ensures Expand(s, isLastChunk) == s
  {
    if |s| == 0 {
    } else {
      assert CrCompleted(s, 0, false) && LfCompleted(s, 0, false);
      if s[0] == CR {
        CleanSuffix(s, 2);
        ExpandKeepsClean(s[2..], isLastChunk);
        assert s == [CR, LF] + s[2..];
      } else {
        if |s| > 1 {
          assert LfCompleted(s, 1, false);
        }
        CleanSuffix(s, 1);
        ExpandKeepsClean(s[1..], isLastChunk);
        assert s == [s[0]] + s[1..];
      }
    }
  }

  /** Normalizing a whole-stream output again, as a single last chunk, changes nothing. */
  lemma Idempotent(input: seq<byte>)
    ensures var once := ToCrlf(input, false, true).bytes;
      ToCrlf(once, false, true).bytes == once
  {
    ExpandClean(input, true);
    ExpandKeepsClean(Expand(input, true), true);
  }

  // ---------------------------------------------------------------------------
  // Chunk boundaries

  /** Expanding a concatenation is expanding the front as a non-last span and then
      treating the back as a chunk that carries the front's final CR. */
  lemma {:induction false} ExpandConcat(a: seq<byte>, b: seq<byte>, isLastChunk: bool)
    ensures Expand(a + b, isLastChunk) == Expand(a, false) + ToCrlf(b, EndsWithCr(a), isLastChunk).bytes
    decreases |a|
  {
    if |a| == 0 {
      assert a + b == b;
    } else if a[0] == CR && |a| == 1 {
      LoneCrThenChunk(b, isLastChunk);
      assert a + b == [CR] + b;
    } else if a[0] == CR && a[1] == LF {
      ExpandConcat(a[2..], b, isLastChunk);
      ExpandConcatStep(a, b, 2, [CR, LF], isLastChunk);
    } else {
      ExpandConcat(a[1..], b, isLastChunk);
      ExpandConcatStep(a, b, 1, if IsLineByte(a[0]) then [CR, LF] else [a[0]], isLastChunk);
    }
  }

  /** One step of ExpandConcat: the first `n` bytes of `a` expand to `head` whatever
      follows them. */
  lemma ExpandConcatStep(a: seq<byte>, b: seq<byte>, n: nat, head: seq<byte>, isLastChunk: bool)
    requires n == 1 || n == 2
    requires n <= |a|
    requires n == 2 ==> a[0] == CR && a[1] == LF && head == [CR, LF]
    requires n == 1 ==> a[0] != CR || (|a| > 1 && a[1] != LF)
    requires n == 1 ==> head == if IsLineByte(a[0]) then [CR, LF] else [a[0]]
    requires Expand(a[n..] + b, isLastChunk) == Expand(a[n..], false) + ToCrlf(b, EndsWithCr(a[n..]), isLastChunk).bytes
    ensures Expand(a + b, isLastChunk) == Expand(a, false) + ToCrlf(b, EndsWithCr(a), isLastChunk).bytes
  {
    var ab := a + b;
    var tail := ToCrlf(b, EndsWithCr(a), isLastChunk).bytes;
    assert ab[n..] == a[n..] + b;
    assert EndsWithCr(a[n..]) == EndsWithCr(a) by {
      if n < |a| { assert a[n..][|a[n..]| - 1] == a[|a| - 1]; }
    }
    assert ab[0] == a[0];
    if n == 2 || a[0] == CR { assert ab[1] == a[1]; }
    var rest := Expand(a[n..], false);
    assert Expand(ab[n..], isLastChunk) == rest + tail;
    ExpandHead(ab, n, head, isLastChunk);
    ExpandHead(a, n, head, false);
    Regroup(Expand(ab, isLastChunk), Expand(a, false), head, rest, tail, Expand(ab[n..], isLastChunk));
  }

  /** The first `n` bytes of `s` expand to `head` on their own. */
  lemma ExpandHead(s: seq<byte>, n: nat, head: seq<byte>, isLastChunk: bool)
    requires n == 1 || n == 2
    requires n <= |s|
    requires n == 2 ==> s[0] == CR && s[1] == LF && head == [CR, LF]
    requires n == 1 ==> s[0] != CR || (|s| > 1 && s[1] != LF)
    requires n == 1 ==> head == if IsLineByte(s[0]) then [CR, LF] else [s[0]]
    ensures Expand(s, isLastChunk) == head + Expand(s[n..], isLastChunk)
  {
  }

  /** A lone CR in front of a chunk is completed the way a carried CR is. */
  lemma LoneCrThenChunk(b: seq<byte>, isLastChunk: bool)
    ensures Expand([CR] + b, isLastChunk) == [CR] + ToCrlf(b, true, isLastChunk).bytes
  {
    var s := [CR] + b;
    if |b| == 0 {
      assert s == [CR];
    } else if b[0] == LF {
      assert s[1] == LF && s[2..] == b[1..];
    } else {
      assert s[1] == b[0] && s[1..] == b;
    }
  }

  /** Splitting the input at any point and threading `endedWithCr` from a non-last call
      into the next one gives the bytes and carried bit of a single call. */
  lemma SplitInvariance(a: seq<byte>, b: seq<byte>, precededByCr: bool, isLastChunk: bool)
    ensures var first := ToCrlf(a, precededByCr, false);
      var second := ToCrlf(b, first.endedWithCr, isLastChunk);
      var whole := ToCrlf(a + b, precededByCr, isLastChunk);
      first.bytes + second.bytes == whole.bytes && second.endedWithCr == whole.endedWithCr
  {
    if |a| == 0 {
      assert a + b == b;
    } else {
      var k := if precededByCr && a[0] == LF then 1 else 0;
      var lead := if precededByCr then [LF] else [];
      ToCrlfShape(a, precededByCr, false);
      ToCrlfShape(a + b, precededByCr, isLastChunk);
      assert (a + b)[0] == a[0];
      assert (a + b)[k..] == a[k..] + b;
      if k < |a| {
        EndsWithCrSuffix(a, k);
      } else {
        assert a[k..] == [] && !EndsWithCr(a);
      }
      ExpandConcat(a[k..], b, isLastChunk);
      var second := ToCrlf(b, EndsWithCr(a), isLastChunk);
      Regroup(ToCrlf(a + b, precededByCr, isLastChunk).bytes, ToCrlf(a, precededByCr, false).bytes,
        lead, Expand(a[k..], false), second.bytes, Expand(a[k..] + b, isLastChunk));
      EndsWithCrAppend(a, b);
    }
  }

  /** Outside the empty non-last case a chunk's output is the completion of a carried
      CR, which is a single LF either way, followed by the expansion of the rest. */
  lemma ToCrlfShape(input: seq<byte>, precededByCr: bool, isLastChunk: bool)
    requires |input| > 0 || isLastChunk
    ensures var k := if precededByCr && |input| > 0 && input[0] == LF then 1 else 0;
      ToCrlf(input, precededByCr, isLastChunk)
        == Normalized((if precededByCr then [LF] else []) + Expand(input[k..], isLastChunk),
                      !isLastChunk && EndsWithCr(input))
  {
    assert input[0..] == input;
    if !precededByCr {
      assert [] + Expand(input, isLastChunk) == Expand(input, isLastChunk);
    }
  }


  /** What a carried CR changes in a chunk's output: where the chunk starts with LF that
      LF completes the CR, so the CR LF pair the chunk would otherwise produce loses its
      CR; elsewhere, outside the empty non-last case, a single LF is put in front. The
      outgoing bit does not depend on it. */
  lemma CarriedCrCompleted(input: seq<byte>, isLastChunk: bool)
    ensures |input| > 0 && input[0] == LF ==>
      ToCrlf(input, true, isLastChunk).bytes == ToCrlf(input, false, isLastChunk).bytes[1..]
    ensures (|input| > 0 || isLastChunk) && !(|input| > 0 && input[0] == LF) ==>
      ToCrlf(input, true, isLastChunk).bytes == [LF] + ToCrlf(input, false, isLastChunk).bytes
    ensures |input| > 0 || isLastChunk ==>
      ToCrlf(input, true, isLastChunk).endedWithCr == ToCrlf(input, false, isLastChunk).endedWithCr
  {
    if |input| > 0 && input[0] == LF {
      assert Expand(input, isLastChunk) == [CR, LF] + Expand(input[1..], isLastChunk);
    }
  }


  // ---------------------------------------------------------------------------
  // Only line bytes change

  lemma {:induction false} ExpandKeepsText(s: seq<byte>, isLastChunk: bool)
    ensures StripLineBytes(Expand(s, isLastChunk)) == StripLineBytes(s)
  {
    if |s| == 0 {
    } else if s[0] == CR && |s| == 1 {
      assert StripLineBytes(s[1..]) == [];
      if isLastChunk {
        assert StripLineBytes([CR, LF]) == StripLineBytes([LF]) == StripLineBytes([]);
      } else {
        assert StripLineBytes([CR]) == StripLineBytes([]);
      }
    } else if s[0] == CR && s[1] == LF {
      ExpandKeepsText(s[2..], isLastChunk);
      StripConcat([CR, LF], Expand(s[2..], isLastChunk));
      assert StripLineBytes([CR, LF]) == [] by {
        assert StripLineBytes([CR, LF]) == StripLineBytes([LF]) == StripLineBytes([]);
      }
      assert StripLineBytes(s) == StripLineBytes(s[1..]) == StripLineBytes(s[2..]) by {
        assert s[1..][1..] == s[2..];
      }
    } else if IsLineByte(s[0]) {
      ExpandKeepsText(s[1..], isLastChunk);
      StripConcat([CR, LF], Expand(s[1..], isLastChunk));
      assert StripLineBytes([CR, LF]) == [] by {
        assert StripLineBytes([CR, LF]) == StripLineBytes([LF]) == StripLineBytes([]);
      }
    } else {
      ExpandKeepsText(s[1..], isLastChunk);
      StripConcat([s[0]], Expand(s[1..], isLastChunk));
      assert StripLineBytes([s[0]]) == [s[0]] by {
        assert [s[0]][1..] == [];
      }
    }
  }

  /** Deleting every CR and LF from the input and from the output gives the same bytes. */
  lemma KeepsText(input: seq<byte>, precededByCr: bool, isLastChunk: bool)
    ensures StripLineBytes(ToCrlf(input, precededByCr, isLastChunk).bytes) == StripLineBytes(input)
  {
    if |input| == 0 && !isLastChunk {
    } else if precededByCr && |input| > 0 && input[0] == LF {
      ExpandKeepsText(input[1..], isLastChunk);
      StripConcat([LF], Expand(input[1..], isLastChunk));
      assert StripLineBytes([LF]) == [] by { assert [LF][1..] == []; }
    } else if precededByCr {
      ExpandKeepsText(input, isLastChunk);
      StripConcat([LF], Expand(input, isLastChunk));
      assert StripLineBytes([LF]) == [] by { assert [LF][1..] == []; }
    } else {
      ExpandKeepsText(input, isLastChunk);
    }
  }
}
