/** The two ways the transducers write into their output buffer: a bulk copy of a run
    of unchanged input bytes, and a store of one synthetic byte. */
module Copy {
  import opened Types

  /** Copies `count` bytes of `src` starting at `from` into `dst` starting at `at`;
      every other cell of `dst` keeps its value. */
  method CopyNonoverlapping(src: seq<byte>, from: nat, dst: array<byte>, at: nat, count: nat)
    requires from + count <= |src| && at + count <= dst.Length
    modifies dst
    ensures dst[..at + count] == old(dst[..at]) + src[from..from + count]
    ensures forall j :: at + count <= j < dst.Length ==> dst[j] == old(dst[j])
  {
    var k := 0;
    while k < count
      invariant 0 <= k <= count
      invariant dst[..at + k] == old(dst[..at]) + src[from..from + k]
      invariant forall j :: at + k <= j < dst.Length ==> dst[j] == old(dst[j])
    {
      dst[at + k] := src[from + k];
      assert src[from..from + k + 1] == src[from..from + k] + [src[from + k]];
      k := k + 1;
    }
  }

  /** Stores one byte at `at`; every other cell of `dst` keeps its value. */
  method Put(dst: array<byte>, at: nat, b: byte)
    requires at < dst.Length
    modifies dst
    ensures dst[..at + 1] == old(dst[..at]) + [b]
    ensures forall j :: at + 1 <= j < dst.Length ==> dst[j] == old(dst[j])
  {
    dst[at] := b;
  }

  /** The first |s| cells of `dst` hold `s`. */
  ghost predicate StartsWith(dst: array<byte>, s: seq<byte>)
    reads dst
  {
    |s| <= dst.Length && forall j :: 0 <= j < |s| ==> dst[j] == s[j]
  }

  /** Taking `n` more bytes of `s` after its first `i` extends the prefix taken. */
  lemma PrefixGrows(s: seq<byte>, i: nat, n: nat)
    requires i + n <= |s|
    ensures s[..i + n] == s[..i] + s[i..][..n]
  {
    assert s[..i + n] == s[..i] + s[i..i + n];
  }

  /** StartsWith, stated on the array's contents. */
  lemma StartsWithPrefix(dst: array<byte>, s: seq<byte>)
    requires StartsWith(dst, s)
    ensures dst[..|s|] == s
  {
  }

  /** A bulk copy of `src[from..to]`, followed by the synthetic bytes `extra` stored one
      at a time, all starting at `at`, right after `prefix`. */
  method CopyThen(src: seq<byte>, from: nat, to: nat, extra: seq<byte>, dst: array<byte>, at: nat,
                  ghost prefix: seq<byte>)
    requires from <= to <= |src| && at + (to - from) + |extra| <= dst.Length
    requires |prefix| == at && StartsWith(dst, prefix)
    modifies dst
    ensures StartsWith(dst, prefix + (src[from..to] + extra))
    ensures forall j :: at + (to - from) + |extra| <= j < dst.Length ==> dst[j] == old(dst[j])
  {
    var count := to - from;
    StartsWithPrefix(dst, prefix);
    CopyNonoverlapping(src, from, dst, at, count);
    ghost var copied := prefix + src[from..from + count];
    var k := 0;
    while k < |extra|
      invariant 0 <= k <= |extra|
      invariant dst[..at + count + k] == copied + extra[..k]
      invariant forall j :: at + count + k <= j < dst.Length ==> dst[j] == old(dst[j])
    {
      Put(dst, at + count + k, extra[k]);
      assert extra[..k + 1] == extra[..k] + [extra[k]];
      k := k + 1;
    }
    assert extra[..|extra|] == extra;
    assert dst[..at + count + |extra|] == copied + extra;
    assert src[from..from + count] == src[from..to];
    assert copied + extra == prefix + (src[from..to] + extra);
    forall j | 0 <= j < |copied + extra|
      ensures dst[j] == (copied + extra)[j]
    {
      assert dst[..at + count + |extra|][j] == dst[j];
    }
  }

  /** The last copy of a chunk: `src[from..to]` and then `extra` after `prefix` complete
      `total`; returns the length of `total`, which is now at the front of `dst`. */
  method CopyFinal(src: seq<byte>, from: nat, to: nat, extra: seq<byte>, dst: array<byte>, at: nat,
                   ghost prefix: seq<byte>, ghost total: seq<byte>)
    returns (outputLen: nat)
    requires from <= to <= |src|
    requires prefix + (src[from..to] + extra) == total
    requires |total| <= dst.Length
    requires |prefix| == at && StartsWith(dst, prefix)
    modifies dst
    ensures outputLen == |total|
    ensures StartsWith(dst, total)
    ensures forall j :: outputLen <= j < dst.Length ==> dst[j] == old(dst[j])
  {
    CopyThen(src, from, to, extra, dst, at, prefix);
    outputLen := at + (to - from) + |extra|;
  }
}
