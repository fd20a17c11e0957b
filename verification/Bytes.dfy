/** Bytes and little-endian 32-bit words, as the kernel's i686 target lays them out. */
module Bytes {
  type byte = b: int | 0 <= b < 0x100
  type word = w: int | 0 <= w < 0x1_0000_0000

  /** The 16-bit little-endian value at offset `o`. */
  function GetHalf(s: seq<byte>, o: nat): (h: nat)
    requires o + 2 <= |s|
    ensures h < 0x1_0000
  {
    s[o] as int + 0x100 * s[o + 1] as int
  }

  /** The 32-bit little-endian value at offset `o`. */
  function GetWord(s: seq<byte>, o: nat): word
    requires o + 4 <= |s|
  {
    s[o] as int + 0x100 * s[o + 1] as int + 0x1_0000 * s[o + 2] as int + 0x100_0000 * s[o + 3] as int
  }

  function HalfBytes(h: nat): (b: seq<byte>)
    requires h < 0x1_0000
  {
    [h % 0x100, h / 0x100]
  }

  function WordBytes(w: word): (b: seq<byte>)
  {
    [w % 0x100, w / 0x100 % 0x100, w / 0x1_0000 % 0x100, w / 0x100_0000]
  }

  function SetWord(s: seq<byte>, o: nat, w: word): (t: seq<byte>)
    requires o + 4 <= |s|
    ensures |t| == |s|
  {
    s[..o] + WordBytes(w) + s[o + 4..]
  }

  /** Writing a word changes that word and no other aligned one. */
  lemma SetWordReads(s: seq<byte>, o: nat, w: word)
    requires o + 4 <= |s|
    ensures GetWord(SetWord(s, o, w), o) == w
    ensures forall p: nat :: p + 4 <= |s| && (p + 4 <= o || o + 4 <= p) ==>
      GetWord(SetWord(s, o, w), p) == GetWord(s, p)
  {
    assert SetWord(s, o, w)[o..o + 4] == WordBytes(w);
    WordSplit(w);
  }

  lemma WordSplit(w: word)
    ensures w == w % 0x100 + 0x100 * (w / 0x100 % 0x100) + 0x1_0000 * (w / 0x1_0000 % 0x100) + 0x100_0000 * (w / 0x100_0000)
  {
    assert w / 0x100 == w / 0x100 % 0x100 + 0x100 * (w / 0x1_0000);
    assert w / 0x1_0000 == w / 0x1_0000 % 0x100 + 0x100 * (w / 0x100_0000);
  }
}
