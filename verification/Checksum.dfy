/** The Internet checksum: folding loops against the one's-complement sum of the data. */
module Checksum {
  import opened Bytes

  /** The 16-bit big-endian value at offset `o`. */
  function NetHalf(s: seq<byte>, o: nat): (h: nat)
    requires o + 2 <= |s|
    ensures h < 0x1_0000
  {
    0x100 * s[o] as int + s[o + 1] as int
  }

  function NetBytes(h: nat): (b: seq<byte>)
    requires h < 0x1_0000
    ensures |b| == 2 && NetHalf(b, 0) == h
  {
    [h / 0x100, h % 0x100]
  }

  /** The plain sum of the big-endian 16-bit words, an odd last byte padded with zero. */
  function WordSum(s: seq<byte>): nat {
    if |s| == 0 then 0
    else if |s| == 1 then 0x100 * s[0] as int
    else NetHalf(s, 0) + WordSum(s[2..])
  }

  /** The one's-complement value of a sum: congruent to it modulo 65535, and zero only for zero. */
  function OnesSum(n: nat): (r: nat)
    ensures r < 0x1_0000
  {
    if n == 0 then 0 else (n - 1) % 0xFFFF + 1
  }

  function ChecksumOf(s: seq<byte>): (c: nat)
    ensures c < 0x1_0000
  {
    0xFFFF - OnesSum(WordSum(s))
  }

  /** What `OnesSum` is: the only 16-bit value congruent to the sum that is zero exactly with it. */
  lemma OnesSumUnique(n: nat, r: nat)
    requires r < 0x1_0000
    ensures r == OnesSum(n) <==> r % 0xFFFF == n % 0xFFFF && (r == 0 <==> n == 0)
  {
    if n > 0 {
      var k := (n - 1) / 0xFFFF;
      assert n == 0xFFFF * k + ((n - 1) % 0xFFFF + 1);
    }
  }

  lemma {:induction false} WordSumAppend(a: seq<byte>, b: seq<byte>)
    requires |a| % 2 == 0
    ensures WordSum(a + b) == WordSum(a) + WordSum(b)
    decreases |a|
  {
    if |a| == 0 {
      assert a + b == b;
    } else {
      assert (a + b)[2..] == a[2..] + b;
      WordSumAppend(a[2..], b);
    }
  }

  /** An odd last byte counts as the high half of a word whose low half is 0; a word of two bytes
      counts its first byte 256-fold. */
  lemma {:induction false} OddByte(s: seq<byte>)
    ensures |s| % 2 == 1 ==> WordSum(s) == WordSum(s + [0])
    ensures |s| == 2 ==> WordSum(s) == 0x100 * s[0] as int + s[1] as int
    decreases |s|
  {
    if |s| == 1 {
      assert (s + [0])[2..] == [];
    } else if |s| > 1 {
      assert (s + [0])[2..] == s[2..] + [0];
      OddByte(s[2..]);
    }
  }

  lemma {:induction false} WordSumBound(s: seq<byte>)
    ensures 2 * WordSum(s) <= 0xFFFF * (|s| + 1)
    decreases |s|
  {
    if |s| > 1 {
      WordSumBound(s[2..]);
    }
  }

  /** Carries are folded back until none is left. */
  method Fold(total: word) returns (r: nat)
    ensures r == OnesSum(total)
  {
    var sum: word := total;
    while sum / 0x1_0000 != 0
      invariant sum <= total
      invariant OnesSum(sum) == OnesSum(total)
      decreases sum
    {
      FoldStep(sum);
      assert sum / 0x1_0000 < 0x1_0000;
      sum := sum % 0x1_0000 + sum / 0x1_0000;
    }
    r := sum;
  }

  lemma FoldStep(sum: word)
    ensures OnesSum(sum % 0x1_0000 + sum / 0x1_0000) == OnesSum(sum)
  {
    var hi, lo := sum / 0x1_0000, sum % 0x1_0000;
    assert sum == lo + hi + 0xFFFF * hi;
    assert (lo + hi) % 0xFFFF == sum % 0xFFFF;
    OnesSumUnique(sum, OnesSum(lo + hi));
    OnesSumUnique(lo + hi, OnesSum(lo + hi));
  }

  /** Adds the words of `s` to a running sum; the 32-bit accumulator never overflows. */
  method AddWords(start: word, s: seq<byte>) returns (sum: word)
    requires start < 0x8000_0000 && |s| < 0x1_0000
    ensures sum == start + WordSum(s)
  {
    sum := start;
    var p: nat := 0;
    WordSumBound(s);
    while |s| - p > 1
      invariant p <= |s|
      invariant sum + WordSum(s[p..]) == start + WordSum(s)
    {
      assert s[p..][2..] == s[p + 2..];
      sum := sum + NetHalf(s, p);
      p := p + 2;
    }
    if p < |s| {
      sum := sum + 0x100 * s[p] as int;
    }
  }

  method Ipv4Checksum(data: seq<byte>) returns (c: nat)
    requires |data| < 0x1_0000
    ensures c == ChecksumOf(data)
  {
    var sum := AddWords(0, data);
    var folded := Fold(sum);
    c := 0xFFFF - folded;
  }

  const IP_PROTO_TCP: byte := 6

  /** The pseudo-header of section 3.1 of RFC 9293. */
  function Pseudo(src: seq<byte>, dst: seq<byte>, len: nat): (p: seq<byte>)
    requires |src| == 4 && |dst| == 4 && len < 0x1_0000
    ensures |p| == 12
  {
    src + dst + [0, IP_PROTO_TCP] + NetBytes(len)
  }

  lemma PseudoSum(src: seq<byte>, dst: seq<byte>, len: nat)
    requires |src| == 4 && |dst| == 4 && len < 0x1_0000
    ensures WordSum(Pseudo(src, dst, len)) ==
      NetHalf(src, 0) + NetHalf(src, 2) + NetHalf(dst, 0) + NetHalf(dst, 2) + IP_PROTO_TCP as int + len
  {
    FourSum(src);
    FourSum(dst);
    var tail := [0, IP_PROTO_TCP] + NetBytes(len);
    FourSum(tail);
    assert Pseudo(src, dst, len) == src + (dst + tail);
    WordSumAppend(src, dst + tail);
    WordSumAppend(dst, tail);
  }

  lemma FourSum(s: seq<byte>)
    requires |s| == 4
    ensures WordSum(s) == NetHalf(s, 0) + NetHalf(s, 2)
  {
    var t := s[2..];
    assert WordSum(t) == NetHalf(t, 0) + WordSum(t[2..]) && WordSum(t[2..]) == 0;
  }

  /** The TCP checksum is the Internet checksum of the pseudo-header followed by the segment. */
  method TcpChecksum(src: seq<byte>, dst: seq<byte>, seg: seq<byte>) returns (c: nat)
    requires |src| == 4 && |dst| == 4 && |seg| < 0x1_0000
    ensures c == ChecksumOf(Pseudo(src, dst, |seg|) + seg)
  {
    var sum: word := 0;
    sum := sum + NetHalf(src, 0);
    sum := sum + NetHalf(src, 2);
    sum := sum + NetHalf(dst, 0);
    sum := sum + NetHalf(dst, 2);
    sum := sum + IP_PROTO_TCP as int;
    sum := sum + |seg|;
    PseudoSum(src, dst, |seg|);
    WordSumAppend(Pseudo(src, dst, |seg|), seg);
    sum := AddWords(sum, seg);
    var folded := Fold(sum);
    c := 0xFFFF - folded;
  }

  /** `s` with the two bytes at `o` replaced by `h`, high byte first. */
  function PutNetHalf(s: seq<byte>, o: nat, h: nat): (t: seq<byte>)
    requires o + 2 <= |s| && h < 0x1_0000
    ensures |t| == |s|
  {
    s[..o] + NetBytes(h) + s[o + 2..]
  }

  lemma PutNetHalfSum(s: seq<byte>, o: nat, h: nat)
    requires o % 2 == 0 && o + 2 <= |s| && NetHalf(s, o) == 0 && h < 0x1_0000
    ensures WordSum(PutNetHalf(s, o, h)) == WordSum(s) + h
  {
    var a, z := s[..o], s[o + 2..];
    assert s == a + ([0, 0] + z) && PutNetHalf(s, o, h) == a + (NetBytes(h) + z);
    WordSumAppend(a, [0, 0] + z);
    WordSumAppend(a, NetBytes(h) + z);
    WordSumAppend([0, 0], z);
    WordSumAppend(NetBytes(h), z);
  }

  /**
   * Data whose zeroed even-offset field then takes the checksum sums to all ones, so a receiver
   * computes 0. Any other field value fails, except the second representation of zero.
   */
  lemma FieldVerifies(s: seq<byte>, o: nat, h: nat)
    requires o % 2 == 0 && o + 2 <= |s| && NetHalf(s, o) == 0 && h < 0x1_0000
    ensures ChecksumOf(PutNetHalf(s, o, ChecksumOf(s))) == 0
    ensures ChecksumOf(PutNetHalf(s, o, h)) == 0 <==>
      h % 0xFFFF == ChecksumOf(s) % 0xFFFF && (h == 0 ==> WordSum(s) != 0)
  {
    PutNetHalfSum(s, o, ChecksumOf(s));
    PutNetHalfSum(s, o, h);
    Complements(s, PutNetHalf(s, o, ChecksumOf(s)), ChecksumOf(s));
    Complements(s, PutNetHalf(s, o, h), h);
  }

  lemma Complements(s: seq<byte>, t: seq<byte>, h: nat)
    requires h < 0x1_0000 && WordSum(t) == WordSum(s) + h
    ensures ChecksumOf(t) == 0 <==> h % 0xFFFF == ChecksumOf(s) % 0xFFFF && (h == 0 ==> WordSum(s) != 0)
    ensures ChecksumOf(s) == 0 ==> WordSum(s) != 0
  {
    SumToAllOnes(WordSum(s), h);
  }

  /** A sum and a 16-bit value fold to all ones exactly when the value complements the folded sum. */
  lemma SumToAllOnes(w: nat, h: nat)
    requires h < 0x1_0000
    ensures OnesSum(w + h) == 0xFFFF <==> h % 0xFFFF == (0xFFFF - OnesSum(w)) % 0xFFFF && (h == 0 ==> w != 0)
  {
    var r := OnesSum(w);
    OnesSumUnique(w + h, 0xFFFF);
    var k := if w == 0 then 0 else (w - 1) / 0xFFFF;
    assert w == 0xFFFF * k + r;
    Wraps(k, r + h);
    SmallSum(r, h);
  }

  lemma Wraps(k: nat, x: nat)
    ensures (0xFFFF * k + x) % 0xFFFF == x % 0xFFFF
  {}

  lemma SmallSum(r: nat, h: nat)
    requires r < 0x1_0000 && h < 0x1_0000
    ensures (r + h) % 0xFFFF == 0 <==> h % 0xFFFF == (0xFFFF - r) % 0xFFFF
  {}
}
