/** Bytes and 32-bit words: the big-endian framing of the USB protocol, and the little-endian view
    under which the device treats a 512-byte buffer as 128 words. */
module Bytes {
  import opened Card
  import opened DivMod
  import opened Words

  type Byte = x: int | 0 <= x < 256

  /** A word put together from its bytes, the least significant first. */
  function Join(a: int, b: int, c: int, d: int): int {
    a + 0x100 * b + 0x10000 * c + 0x1000000 * d
  }

  function LittleEndian(w: Word): (s: seq<Byte>)
    ensures |s| == 4
  {
    [w % 0x100, w / 0x100 % 0x100, w / 0x10000 % 0x100, w / 0x1000000]
  }

  function FromLittleEndian(s: seq<Byte>): Word
    requires |s| == 4
  {
    Join(s[0], s[1], s[2], s[3])
  }

  function BigEndian(w: Word): (s: seq<Byte>)
    ensures |s| == 4
  {
    [w / 0x1000000, w / 0x10000 % 0x100, w / 0x100 % 0x100, w % 0x100]
  }

  function FromBigEndian(s: seq<Byte>): Word
    requires |s| == 4
  {
    Join(s[3], s[2], s[1], s[0])
  }

  /** Which byte comes first: the most significant one on the wire, the least significant one in memory. */
  lemma ByteOrder(w: Word)
    ensures var s: seq<int> := BigEndian(w); 0x1000000 * s[0] + 0x10000 * s[1] + 0x100 * s[2] + s[3] == w
    ensures var s: seq<int> := LittleEndian(w); s[0] + 0x100 * s[1] + 0x10000 * s[2] + 0x1000000 * s[3] == w
  {
    LittleEndianRoundTrip(w);
  }

  /** __builtin_bswap32. */
  function Swap(w: Word): Word { FromBigEndian(LittleEndian(w)) }

  lemma LittleEndianRoundTrip(w: Word)
    ensures FromLittleEndian(LittleEndian(w)) == w
  {
    assert w / 0x10000 == w / 0x100 / 0x100;
    assert w / 0x1000000 == w / 0x10000 / 0x100;
  }

  /** Dividing by 0x100 drops the lowest byte. */
  lemma JoinShift(a: Byte, b: Byte, c: Byte, d: Byte)
    ensures Join(a, b, c, d) / 0x100 == Join(b, c, d, 0) && Join(a, b, c, d) % 0x100 == a
  {
    DivModUnique(Join(a, b, c, d), 0x100, Join(b, c, d, 0), a);
  }

  lemma JoinSplits(a: Byte, b: Byte, c: Byte, d: Byte)
    ensures LittleEndian(Join(a, b, c, d)) == [a, b, c, d]
  {
    var w: nat := Join(a, b, c, d);
    JoinShift(a, b, c, d);
    JoinShift(b, c, d, 0);
    JoinShift(c, d, 0, 0);
    DivideTwice(w, 0x100);
    DivideTwice(w, 0x10000);
    DivideTwice(w / 0x100, 0x100);
    hide Join;
  }

  lemma FromLittleEndianRoundTrip(s: seq<Byte>)
    requires |s| == 4
    ensures LittleEndian(FromLittleEndian(s)) == s
  {
    JoinSplits(s[0], s[1], s[2], s[3]);
  }

  lemma BigEndianRoundTrip(w: Word)
    ensures FromBigEndian(BigEndian(w)) == w
  {
    LittleEndianRoundTrip(w);
  }

  lemma FromBigEndianRoundTrip(s: seq<Byte>)
    requires |s| == 4
    ensures BigEndian(FromBigEndian(s)) == s
  {
    var t := [s[3], s[2], s[1], s[0]];
    FromLittleEndianRoundTrip(t);
    assert FromBigEndian(s) == FromLittleEndian(t);
    assert LittleEndian(FromBigEndian(s))[3] == s[0];
  }

  /** Storing a word in memory after swapping it is storing its bytes in the order of the wire. */
  lemma SwapStoresWireOrder(w: Word)
    ensures LittleEndian(Swap(w)) == BigEndian(w)
  {
    var t := BigEndian(w);
    FromLittleEndianRoundTrip(t);
    assert Swap(w) == FromLittleEndian(t);
  }

  // ---- Words in memory ----

  /** The bytes of a buffer of words, as the device's memory holds them. */
  function ToBytes(b: seq<Word>): (s: seq<Byte>)
    ensures |s| == 4 * |b|
    ensures forall i :: 0 <= i < |b| ==> s[4 * i..4 * i + 4] == LittleEndian(b[i])
  {
    if b == [] then []
    else
      var r := ToBytes(b[..|b| - 1]) + LittleEndian(b[|b| - 1]);
      assert forall i :: 0 <= i < |b| - 1 ==> r[4 * i..4 * i + 4] == ToBytes(b[..|b| - 1])[4 * i..4 * i + 4];
      r
  }

  function ToWords(s: seq<Byte>): (b: seq<Word>)
    requires |s| % 4 == 0
    ensures |b| == |s| / 4
    ensures forall i :: 0 <= i < |b| ==> b[i] == FromLittleEndian(s[4 * i..4 * i + 4])
  {
    seq(|s| / 4, i requires 0 <= i < |s| / 4 => FromLittleEndian(s[4 * i..4 * i + 4]))
  }

  lemma WordsOfBytes(b: seq<Word>)
    ensures ToWords(ToBytes(b)) == b
  {
    hide ToBytes, ToWords, LittleEndian, FromLittleEndian;
    var s := ToBytes(b);
    forall i | 0 <= i < |b|
      ensures ToWords(s)[i] == b[i]
    {
      assert s[4 * i..4 * i + 4] == LittleEndian(b[i]);
      LittleEndianRoundTrip(b[i]);
    }
  }

  lemma SameQuad(s: seq<Byte>, t: seq<Byte>, i: nat, k: nat)
    requires 4 * i + 4 <= |s| == |t| && s[4 * i..4 * i + 4] == t[4 * i..4 * i + 4] && 4 * i <= k < 4 * i + 4
    ensures s[k] == t[k]
  {
    assert s[k] == s[4 * i..4 * i + 4][k - 4 * i];
    assert t[k] == t[4 * i..4 * i + 4][k - 4 * i];
  }

  lemma BytesOfWords(s: seq<Byte>)
    requires |s| % 4 == 0
    ensures ToBytes(ToWords(s)) == s
  {
    hide ToBytes, ToWords, LittleEndian, FromLittleEndian;
    var b := ToWords(s);
    var t := ToBytes(b);
    forall k | 0 <= k < |s|
      ensures t[k] == s[k]
    {
      var i := k / 4;
      assert t[4 * i..4 * i + 4] == s[4 * i..4 * i + 4] by {
        FromLittleEndianRoundTrip(s[4 * i..4 * i + 4]);
        assert b[i] == FromLittleEndian(s[4 * i..4 * i + 4]);
      }
      SameQuad(s, t, i, k);
    }
  }
}
