/**
 * The two ways twig.cc fills a reply buffer: `memcpy` of a run of bytes and
 * assignment to a `u_short` field (stored in host order). Each states the
 * bytes written and that every other byte keeps its value; the lemmas carry
 * facts about one region of a buffer across writes to another region.
 */
module Buffers {
  import opened Bytes

  /** `a` and `b` hold the same bytes at the indices `lo..hi`. */
  ghost predicate Agree(a: seq<uint8>, b: seq<uint8>, lo: nat, hi: nat)
    requires lo <= hi <= |a| && hi <= |b|
  {
    forall k :: lo <= k < hi ==> a[k] == b[k]
  }

  /** `memcpy(dst + off, src, |src|)`. */
  method Memcpy(dst: array<uint8>, off: nat, src: seq<uint8>)
    requires off + |src| <= dst.Length
    modifies dst
    ensures dst[off..off + |src|] == src
    ensures Agree(old(dst[..]), dst[..], 0, off)
    ensures Agree(old(dst[..]), dst[..], off + |src|, dst.Length)
  {
    for i := 0 to |src|
      invariant forall k :: 0 <= k < i ==> dst[off + k] == src[k]
      invariant forall k :: 0 <= k < dst.Length && !(off <= k < off + i) ==> dst[k] == old(dst[k])
    {
      dst[off + i] := src[i];
    }
  }

  /** Assignment of `v` to a `u_short` field at `dst[off]`. */
  method Store16(dst: array<uint8>, off: nat, v: uint16)
    requires off + 2 <= dst.Length
    modifies dst
    ensures dst[off..off + 2] == HostBytes16(v)
    ensures Agree(old(dst[..]), dst[..], 0, off)
    ensures Agree(old(dst[..]), dst[..], off + 2, dst.Length)
  {
    var b := HostBytes16(v);
    dst[off] := b[0];
    dst[off + 1] := b[1];
  }

  /** Assignment of `v` to a `u_char` field at `dst[off]`. */
  method Store8(dst: array<uint8>, off: nat, v: uint8)
    requires off < dst.Length
    modifies dst
    ensures dst[off] == v
    ensures Agree(old(dst[..]), dst[..], 0, off)
    ensures Agree(old(dst[..]), dst[..], off + 1, dst.Length)
  {
    dst[off] := v;
  }

  /** Buffers that agree on a region have equal slices inside it. */
  lemma {:induction false} Keep(a: seq<uint8>, b: seq<uint8>, lo: nat, hi: nat, i: nat, j: nat)
    requires lo <= i <= j <= hi <= |a| && hi <= |b|
    requires Agree(a, b, lo, hi)
    ensures a[i..j] == b[i..j]
  {
    assert forall k :: 0 <= k < j - i ==> a[i..j][k] == a[i + k] == b[i + k] == b[i..j][k];
  }

  /** Agreement on two adjacent regions is agreement on their union. */
  lemma Join(a: seq<uint8>, b: seq<uint8>, lo: nat, mid: nat, hi: nat)
    requires lo <= mid <= hi <= |a| && hi <= |b|
    requires Agree(a, b, lo, mid) && Agree(a, b, mid, hi)
    ensures Agree(a, b, lo, hi)
  {
  }

  /** Agreement is transitive, on the common part of two regions. */
  lemma Chain(a: seq<uint8>, b: seq<uint8>, c: seq<uint8>, lo: nat, hi: nat)
    requires lo <= hi <= |a| && hi <= |b| && hi <= |c|
    requires Agree(a, b, lo, hi) && Agree(b, c, lo, hi)
    ensures Agree(a, c, lo, hi)
  {
  }

  /** Agreement on a region implies agreement on any part of it. */
  lemma Narrow(a: seq<uint8>, b: seq<uint8>, lo: nat, hi: nat, i: nat, j: nat)
    requires lo <= i <= j <= hi <= |a| && hi <= |b|
    requires Agree(a, b, lo, hi)
    ensures Agree(a, b, i, j)
  {
  }

  /** Slices are equal exactly when the buffers agree on the region. */
  lemma {:induction false} AgreeOfSlices(a: seq<uint8>, b: seq<uint8>, lo: nat, hi: nat)
    requires lo <= hi <= |a| && hi <= |b|
    requires a[lo..hi] == b[lo..hi]
    ensures Agree(a, b, lo, hi)
  {
    forall k | lo <= k < hi
      ensures a[k] == b[k]
    {
      assert a[k] == a[lo..hi][k - lo];
    }
  }
}
