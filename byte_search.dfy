/** The byte search primitives the transducers use. The result is an absolute index into
    the whole input, not one relative to the searched suffix. */
module ByteSearch {
  import opened Types

  /** The least index at or after `from` holding `needle`, if any. */
  method Memchr(needle: byte, s: seq<byte>, from: nat) returns (r: Option<nat>)
    requires from <= |s|
    ensures r.Some? ==> from <= r.value < |s| && s[r.value] == needle
    ensures r.Some? ==> forall j :: from <= j < r.value ==> s[j] != needle
    ensures r.None? ==> forall j :: from <= j < |s| ==> s[j] != needle
  {
    var k := from;
    while k < |s|
      invariant from <= k <= |s|
      invariant forall j :: from <= j < k ==> s[j] != needle
    {
      if s[k] == needle {
        return Some(k);
      }
      k := k + 1;
    }
    return None;
  }

  /** The least index at or after `from` holding `a` or `b`, if any. */
  method Memchr2(a: byte, b: byte, s: seq<byte>, from: nat) returns (r: Option<nat>)
    requires from <= |s|
    ensures r.Some? ==> from <= r.value < |s| && (s[r.value] == a || s[r.value] == b)
    ensures r.Some? ==> forall j :: from <= j < r.value ==> s[j] != a && s[j] != b
    ensures r.None? ==> forall j :: from <= j < |s| ==> s[j] != a && s[j] != b
  {
    var k := from;
    while k < |s|
      invariant from <= k <= |s|
      invariant forall j :: from <= j < k ==> s[j] != a && s[j] != b
    {
      if s[k] == a || s[k] == b {
        return Some(k);
      }
      k := k + 1;
    }
    return None;
  }
}
