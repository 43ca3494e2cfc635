/**
 * Machine integers and byte order, as twig.cc uses them.
 *
 * The program runs on a little-endian host: a `u_short` or `u_int32_t`
 * read from memory takes its low byte from the lowest address ("host
 * order"), while protocol fields are stored most significant byte first
 * ("network order"). `byteswap16` and `byteswap32` convert between the two.
 */
module Bytes {

  newtype uint8 = x: int | 0 <= x < 0x100
  newtype uint16 = x: int | 0 <= x < 0x1_0000
  newtype uint32 = x: int | 0 <= x < 0x1_0000_0000

  /** `(val << 8) | (val >> 8)` truncated to 16 bits: the two shifted parts
      occupy disjoint bits, so `|` is `+`, and the truncation keeps the low
      byte of `val` as the new high byte. */
  function ByteSwap16(val: uint16): (r: uint16)
    ensures HostBytes16(r) == [HostBytes16(val)[1], HostBytes16(val)[0]]
  {
    var lo, hi := val as int % 0x100, val as int / 0x100;
    Split16(val as int);
    Split16(lo * 0x100 + hi);
    (lo * 0x100 + hi) as uint16
  }

  /** `((val << 24) & 0xFF000000) | ((val << 8) & 0x00FF0000) |
      ((val >> 8) & 0x0000FF00) | (val >> 24)`: byte k of the input
      becomes byte 3 - k of the result. */
  function ByteSwap32(val: uint32): (r: uint32)
    ensures HostBytes32(r) == Reverse4(HostBytes32(val))
  {
    var b := HostBytes32(val);
    var r := b[0] as int * 0x100_0000 + b[1] as int * 0x1_0000 + b[2] as int * 0x100 + b[3] as int;
    Join32(b[0], b[1], b[2], b[3]);
    r as uint32
  }

  /** The low byte of a value becomes the high byte of its swap. */
  lemma ByteSwap32HighByte(val: uint32)
    ensures ByteSwap32(val) as int / 0x100_0000 == val as int % 0x100
  {
    assert HostBytes32(ByteSwap32(val))[3] == HostBytes32(val)[0];
  }

  function Reverse4(s: seq<uint8>): (r: seq<uint8>)
    requires |s| == 4
  {
    [s[3], s[2], s[1], s[0]]
  }

  /** The two bytes a `u_short` occupies in host memory. */
  function HostBytes16(v: uint16): (r: seq<uint8>)
    ensures |r| == 2
  {
    [(v as int % 0x100) as uint8, (v as int / 0x100) as uint8]
  }

  /** The four bytes a `u_int32_t` occupies in host memory. */
  function HostBytes32(v: uint32): (r: seq<uint8>)
    ensures |r| == 4
  {
    var x := v as int;
    [(x % 0x100) as uint8, (x / 0x100 % 0x100) as uint8,
     (x / 0x1_0000 % 0x100) as uint8, (x / 0x100_0000) as uint8]
  }

  /** A `u_short` read from host memory at `s[off]`. */
  function HostLoad16(s: seq<uint8>, off: nat): (v: uint16)
    requires off + 2 <= |s|
    ensures HostBytes16(v) == s[off..off + 2]
  {
    var x := s[off] as int + 0x100 * s[off + 1] as int;
    Split16(x);
    x as uint16
  }

  /** A `u_int32_t` read from host memory at `s[off]`. */
  function HostLoad32(s: seq<uint8>, off: nat): (v: uint32)
    requires off + 4 <= |s|
    ensures HostBytes32(v) == s[off..off + 4]
  {
    var x := s[off + 3] as int * 0x100_0000 + s[off + 2] as int * 0x1_0000
             + s[off + 1] as int * 0x100 + s[off] as int;
    Join32(s[off + 3], s[off + 2], s[off + 1], s[off]);
    assert s[off..off + 4] == [s[off], s[off + 1], s[off + 2], s[off + 3]];
    x as uint32
  }

  /** The two bytes of `v` in network order. */
  function NetBytes16(v: uint16): (r: seq<uint8>)
    ensures |r| == 2
  {
    [(v as int / 0x100) as uint8, (v as int % 0x100) as uint8]
  }

  /** A protocol field as the program reads it: `byteswap16` of the host-order
      load, which is the big-endian value of the two bytes. */
  function NetLoad16(s: seq<uint8>, off: nat): (v: uint16)
    requires off + 2 <= |s|
    ensures v as int == s[off] as int * 0x100 + s[off + 1] as int
    ensures NetBytes16(v) == s[off..off + 2]
  {
    var v := ByteSwap16(HostLoad16(s, off));
    Split16(v as int);
    v
  }

  /** Two bytes holding `v` in network order read back as `v`. */
  lemma NetLoadOfBytes(s: seq<uint8>, off: nat, v: uint16)
    requires off + 2 <= |s| && s[off..off + 2] == NetBytes16(v)
    ensures NetLoad16(s, off) == v
  {
    assert s[off] == NetBytes16(v)[0] && s[off + 1] == NetBytes16(v)[1];
    Split16(v as int);
  }

  /** Storing `byteswap16(v)` into host memory writes `v` in network order. */
  lemma HostStoreOfSwap16(v: uint16)
    ensures HostBytes16(ByteSwap16(v)) == NetBytes16(v)
  {
  }

  /** Storing a value and loading it back gives the value again. */
  lemma HostLoadStore16(v: uint16, pre: seq<uint8>, post: seq<uint8>)
    ensures HostLoad16(pre + HostBytes16(v) + post, |pre|) == v
  {
    var s := pre + HostBytes16(v) + post;
    assert s[|pre|..|pre| + 2] == HostBytes16(v);
    HostBytesInjective16(HostLoad16(s, |pre|), v);
  }

  lemma HostLoadStore32(v: uint32, pre: seq<uint8>, post: seq<uint8>)
    ensures HostLoad32(pre + HostBytes32(v) + post, |pre|) == v
  {
    var s := pre + HostBytes32(v) + post;
    assert s[|pre|..|pre| + 4] == HostBytes32(v);
    HostBytesInjective32(HostLoad32(s, |pre|), v);
  }

  lemma HostBytesInjective16(a: uint16, b: uint16)
    requires HostBytes16(a) == HostBytes16(b)
    ensures a == b
  {
    Split16(a as int);
    Split16(b as int);
  }

  lemma HostBytesInjective32(a: uint32, b: uint32)
    requires HostBytes32(a) == HostBytes32(b)
    ensures a == b
  {
    Split32(a as int);
    Split32(b as int);
  }

  /** byteswap16 is an involution. */
  lemma {:induction false} ByteSwap16Involution(v: uint16)
    ensures ByteSwap16(ByteSwap16(v)) == v
  {
    HostBytesInjective16(ByteSwap16(ByteSwap16(v)), v);
  }

  /** byteswap32 is an involution. */
  lemma {:induction false} ByteSwap32Involution(v: uint32)
    ensures ByteSwap32(ByteSwap32(v)) == v
  {
    HostBytesInjective32(ByteSwap32(ByteSwap32(v)), v);
  }

  /** Digit decomposition of a 16-bit value. */
  lemma Split16(x: int)
    requires 0 <= x < 0x1_0000
    ensures 0 <= x % 0x100 < 0x100 && 0 <= x / 0x100 < 0x100
    ensures x == x / 0x100 * 0x100 + x % 0x100
  {
  }

  /** A value built from four byte digits stores as those digits, low first. */
  lemma Join32(d3: uint8, d2: uint8, d1: uint8, d0: uint8)
    ensures var x := d3 as int * 0x100_0000 + d2 as int * 0x1_0000 + d1 as int * 0x100 + d0 as int;
      0 <= x < 0x1_0000_0000 && HostBytes32(x as uint32) == [d0, d1, d2, d3]
  {
    var x := d3 as int * 0x100_0000 + d2 as int * 0x1_0000 + d1 as int * 0x100 + d0 as int;
    var q1 := d3 as int * 0x1_0000 + d2 as int * 0x100 + d1 as int;
    var q2 := d3 as int * 0x100 + d2 as int;
    assert x == q1 * 0x100 + d0 as int;
    assert x % 0x100 == d0 as int && x / 0x100 == q1;
    assert q1 == q2 * 0x100 + d1 as int;
    assert q1 % 0x100 == d1 as int && q1 / 0x100 == q2;
    assert x / 0x1_0000 == q2 by { DivDiv(x); }
    assert x / 0x100_0000 == d3 as int by { DivDiv(x); }
  }

  lemma DivDiv(x: int)
    requires 0 <= x
    ensures x / 0x100 / 0x100 == x / 0x1_0000
    ensures x / 0x1_0000 / 0x100 == x / 0x100_0000
  {
  }

  /** Digit decomposition of a 32-bit value. */
  lemma Split32(x: int)
    requires 0 <= x < 0x1_0000_0000
    ensures 0 <= x / 0x100_0000 < 0x100
    ensures x == x / 0x100_0000 * 0x100_0000 + x / 0x1_0000 % 0x100 * 0x1_0000
                 + x / 0x100 % 0x100 * 0x100 + x % 0x100
  {
  }

  /** A sequence is the concatenation of its three consecutive parts. */
  lemma {:induction false} Splice<T>(t: seq<T>, pre: seq<T>, mid: seq<T>, post: seq<T>)
    requires |t| == |pre| + |mid| + |post|
    requires t[..|pre|] == pre && t[|pre|..|pre| + |mid|] == mid && t[|pre| + |mid|..] == post
    ensures t == pre + mid + post
  {
    assert t == t[..|pre|] + t[|pre|..|pre| + |mid|] + t[|pre| + |mid|..];
  }

  /** A slice of a slice is a slice. */
  lemma SliceOfSlice<T>(s: seq<T>, a: nat, b: nat, i: nat, j: nat)
    requires a <= b <= |s| && i <= j <= b - a
    ensures s[a..b][i..j] == s[a + i..a + j]
  {
    var t := s[a..b][i..j];
    assert |t| == j - i;
    forall k | 0 <= k < j - i
      ensures t[k] == s[a + i..a + j][k]
    {
      assert t[k] == s[a..b][i + k] == s[a + i + k];
    }
  }

  lemma {:induction false} SliceOfSuffix<T>(s: seq<T>, a: nat, i: nat, j: nat)
    requires a <= |s| && i <= j <= |s| - a
    ensures s[a..][i..j] == s[a + i..a + j] && s[a..][i..] == s[a + i..]
  {
    assert s[a..] == s[a..|s|];
    SliceOfSlice(s, a, |s|, i, j);
    SliceOfSlice(s, a, |s|, i, |s| - a);
  }
}
