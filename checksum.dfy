/**
 * The Internet checksum of twig.cc (ICMP_checksum_maker, IPv4_checksum_maker
 * and UDP_checksum_maker, which have identical bodies): the buffer is summed
 * as host-order 16-bit words in a wide accumulator, a trailing odd byte is
 * added on its own, carries are folded back into the low 16 bits until none
 * is left, and the result is the complement of the folded sum.
 *
 * The Internet checksum itself (RFC 1071) is defined over big-endian words.
 * On the little-endian host the makers sum each word with its bytes
 * exchanged; the last part of this module proves that a buffer checks to 0
 * in host order exactly when it does in network order.
 */
module InternetChecksum {
  import opened Bytes

  /** The wide sum of the buffer read as host-order `u_short`s; a final odd
      byte is added as the `u_char` it is. */
  function WordSum(s: seq<uint8>): nat
    decreases |s|
  {
    if |s| == 0 then 0
    else if |s| == 1 then s[0] as nat
    else s[0] as nat + 0x100 * s[1] as nat + WordSum(s[2..])
  }

  /** The carry-folding loop `while (sum >> 16) sum = (sum & 0xFFFF) + (sum >> 16)`.
      The folded value is the ones'-complement sum: below 2^16, congruent to
      the wide sum modulo 0xFFFF, and zero only for a zero sum. */
  function Fold(sum: nat): (r: nat)
    ensures r < 0x1_0000
    ensures r % 0xFFFF == sum % 0xFFFF
    ensures r == 0 <==> sum == 0
    decreases sum
  {
    if sum < 0x1_0000 then sum
    else
      var next := sum % 0x1_0000 + sum / 0x1_0000;
      FoldStep(sum);
      Fold(next)
  }

  /** One folding step keeps the value modulo 0xFFFF, keeps it positive and
      makes it smaller. */
  lemma FoldStep(sum: nat)
    requires sum >= 0x1_0000
    ensures 0 < sum % 0x1_0000 + sum / 0x1_0000 < sum
    ensures (sum % 0x1_0000 + sum / 0x1_0000) % 0xFFFF == sum % 0xFFFF
  {
    var q, r := sum / 0x1_0000, sum % 0x1_0000;
    assert sum == q * 0x1_0000 + r;
    assert sum == (r + q) + q * 0xFFFF;
  }

  /** The value the checksum makers return: the low 16 bits of `~sum` for the
      folded sum, that is 0xFFFF minus it. */
  function Checksum(s: seq<uint8>): uint16
  {
    (0xFFFF - Fold(WordSum(s))) as uint16
  }

  /** The checksum maker: a walk over the buffer word by word, then the fold. */
  method ChecksumMaker(buffer: seq<uint8>) returns (csum: uint16)
    ensures csum == Checksum(buffer)
  {
    var sum: nat := 0;
    var p, size := 0, |buffer|;
    while size > 1
      invariant 0 <= size && p + size == |buffer|
      invariant sum + WordSum(buffer[p..]) == WordSum(buffer)
    {
      sum := sum + HostLoad16(buffer, p) as nat;
      p, size := p + 2, size - 2;
    }
    if size == 1 {
      sum := sum + buffer[p] as nat;
    } else {
      assert buffer[p..] == [];
    }
    while sum >= 0x1_0000
      invariant Fold(sum) == Fold(WordSum(buffer))
    {
      sum := sum % 0x1_0000 + sum / 0x1_0000;
    }
    csum := (0xFFFF - sum) as uint16;
  }

  /** Summing a concatenation whose first part has even length adds the sums. */
  lemma {:induction false} WordSumAppend(a: seq<uint8>, b: seq<uint8>)
    requires |a| % 2 == 0
    ensures WordSum(a + b) == WordSum(a) + WordSum(b)
  {
    if a != [] {
      var ab := a + b;
      assert ab[0] == a[0] && ab[1] == a[1] && ab[2..] == a[2..] + b;
      WordSumAppend(a[2..], b);
    } else {
      assert a + b == b;
    }
  }

  /** An odd trailing byte counts as a word padded with a zero byte. */
  lemma {:induction false} OddTrailingByte(s: seq<uint8>)
    requires |s| % 2 == 1
    ensures WordSum(s) == WordSum(s + [0])
    ensures Checksum(s) == Checksum(s + [0])
  {
    var n := |s| - 1;
    assert s == s[..n] + [s[n]];
    WordSumAppend(s[..n], [s[n]]);
    assert s + [0] == s[..n] + [s[n], 0];
    WordSumAppend(s[..n], [s[n], 0]);
    assert WordSum([s[n], 0]) == s[n] as nat + WordSum([]);
  }

  /** A two-byte word stored in host order sums to its value. */
  lemma WordSumOfStore(c: uint16)
    ensures WordSum(HostBytes16(c)) == c as nat
  {
    var w := HostBytes16(c);
    assert w[2..] == [];
    Split16(c as int);
  }

  /** Checksum verification: zero the checksum field, compute the checksum,
      store it in host order in the field; the checksum of the result is 0.
      The field must start at an even offset of the span. */
  lemma {:induction false} ChecksumVerifies(pre: seq<uint8>, post: seq<uint8>)
    requires |pre| % 2 == 0
    ensures Checksum(pre + HostBytes16(Checksum(pre + [0, 0] + post)) + post) == 0
  {
    var c := Checksum(pre + [0, 0] + post);
    var t := WordSum(pre) + WordSum(post);
    WordSumWithField(pre, 0, post);
    WordSumWithField(pre, c, post);
    OnesComplementCancels(t);
  }

  /** The sum of a span is the sum around the checksum field plus the field. */
  lemma WordSumWithField(pre: seq<uint8>, c: uint16, post: seq<uint8>)
    requires |pre| % 2 == 0
    ensures WordSum(pre + HostBytes16(c) + post) == WordSum(pre) + c as nat + WordSum(post)
  {
    WordSumAppend(pre, HostBytes16(c));
    WordSumAppend(pre + HostBytes16(c), post);
    WordSumOfStore(c);
  }

  /** Adding the complement of the folded sum makes the folded sum 0xFFFF. */
  lemma OnesComplementCancels(t: nat)
    ensures Fold(t + (0xFFFF - Fold(t))) == 0xFFFF
  {
    var f := Fold(t);
    var total := t + (0xFFFF - f);
    assert total > 0;
    var k := t / 0xFFFF - f / 0xFFFF + 1;
    assert total == k * 0xFFFF by {
      assert t == t / 0xFFFF * 0xFFFF + t % 0xFFFF;
      assert f == f / 0xFFFF * 0xFFFF + f % 0xFFFF;
    }
    assert total % 0xFFFF == 0 by { MultipleMod(k); }
    var r := Fold(total);
    assert 0 < r < 0x1_0000 && r % 0xFFFF == 0;
  }

  lemma MultipleMod(k: int)
    ensures (k * 0xFFFF) % 0xFFFF == 0
  {
  }

  // ---------------------------------------------------------------------
  // The checksum on the wire (RFC 1071): big-endian words

  /** The sum the Internet checksum is defined by: the buffer read as
      big-endian 16-bit words, a final odd byte as the high byte of a word
      padded with zero. */
  function WordSumNet(s: seq<uint8>): nat
    decreases |s|
  {
    if |s| == 0 then 0
    else if |s| == 1 then 0x100 * s[0] as nat
    else 0x100 * s[0] as nat + s[1] as nat + WordSumNet(s[2..])
  }

  /** The Internet checksum as a receiver computes it in network order. */
  function ChecksumNet(s: seq<uint8>): uint16
  {
    (0xFFFF - Fold(WordSumNet(s))) as uint16
  }

  /** Reading every word with its bytes exchanged multiplies the sum by 0x100
      modulo 0xFFFF, since 0x10000 is 1 modulo 0xFFFF; and both sums are zero
      exactly for an all-zero buffer. */
  lemma {:induction false} WordSumNetCongruent(s: seq<uint8>)
    ensures WordSumNet(s) % 0xFFFF == (0x100 * WordSum(s)) % 0xFFFF
    ensures WordSumNet(s) == 0 <==> WordSum(s) == 0
    decreases |s|
  {
    if |s| >= 2 {
      WordSumNetCongruent(s[2..]);
      var a, b := s[0] as int, s[1] as int;
      var h: int, n: int := WordSum(s[2..]), WordSumNet(s[2..]);
      var k: int := (0x100 * h) / 0xFFFF - n / 0xFFFF;
      assert 0x100 * h - n == 0xFFFF * k by {
        assert 0x100 * h == (0x100 * h) / 0xFFFF * 0xFFFF + (0x100 * h) % 0xFFFF;
        assert n == n / 0xFFFF * 0xFFFF + n % 0xFFFF;
      }
      assert 0x100 * WordSum(s) == WordSumNet(s) + 0xFFFF * (b + k);
      ShiftMod(WordSumNet(s), b + k);
    }
  }

  /** Adding a multiple of 0xFFFF keeps the residue. */
  lemma ShiftMod(x: int, m: int)
    requires x >= 0 && x + 0xFFFF * m >= 0
    ensures (x + 0xFFFF * m) % 0xFFFF == x % 0xFFFF
  {
    var y := x + 0xFFFF * m;
    assert y == (x / 0xFFFF + m) * 0xFFFF + x % 0xFFFF;
  }

  /** 0x100 is invertible modulo 0xFFFF: 0x100 * h is a multiple of 0xFFFF
      only when h is. */
  lemma ShiftInvertible(h: nat)
    ensures (0x100 * h) % 0xFFFF == 0 <==> h % 0xFFFF == 0
  {
    if (0x100 * h) % 0xFFFF == 0 {
      var k := (0x100 * h) / 0xFFFF;
      assert 0x100 * h == 0xFFFF * k;
      assert h == 0xFFFF * (0x100 * k - h);
      ShiftMod(0, 0x100 * k - h);
    }
  }

  /** The checksum is 0 exactly when the folded sum is 0xFFFF, that is when
      the sum is a positive multiple of 0xFFFF. */
  lemma {:induction false} ChecksumZero(sum: nat)
    ensures (0xFFFF - Fold(sum)) as uint16 == 0 <==> sum != 0 && sum % 0xFFFF == 0
  {
    var r := Fold(sum);
    if sum != 0 && sum % 0xFFFF == 0 {
      assert r != 0 && r % 0xFFFF == 0;
      assert r == 0xFFFF;
    }
  }

  /** Host order and network order agree on whether a buffer checks: the
      host-order checksum of twig.cc is 0 exactly when the network-order
      checksum a receiver computes is 0. */
  lemma {:induction false} ChecksumByteOrder(s: seq<uint8>)
    ensures Checksum(s) == 0 <==> ChecksumNet(s) == 0
  {
    WordSumNetCongruent(s);
    ShiftInvertible(WordSum(s));
    ChecksumZero(WordSum(s));
    ChecksumZero(WordSumNet(s));
  }

  /** A span sealed by the host-order checksum also checks to 0 in network
      order, as a receiver verifies it. */
  lemma {:induction false} ChecksumVerifiesOnTheWire(pre: seq<uint8>, post: seq<uint8>)
    requires |pre| % 2 == 0
    ensures ChecksumNet(pre + HostBytes16(Checksum(pre + [0, 0] + post)) + post) == 0
  {
    ChecksumVerifies(pre, post);
    ChecksumByteOrder(pre + HostBytes16(Checksum(pre + [0, 0] + post)) + post);
  }
}
