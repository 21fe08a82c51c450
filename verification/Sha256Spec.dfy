/** The Secure Hash Algorithm as FIPS 180-4 defines it: functions (section 4.1.2),
    constants (4.2.2), padding (5.1.1), initial value (5.3.3) and the hash
    computation with its full 64-word message schedule (6.2.2). */
module Sha256Spec {
  import opened DivMod

  /** The eight working variables, and equally an intermediate hash value. */
  datatype Regs = Regs(a: bv32, b: bv32, c: bv32, d: bv32, e: bv32, f: bv32, g: bv32, h: bv32)

  /** ROTR of section 3.2. */
  function RotR(x: bv32, n: bv6): bv32
    requires 0 < n < 32
  {
    (x >> n) | (x << (32 - n))
  }

  function Xor2(x: bv32, y: bv32): bv32 { x ^ y }

  function Xor3(x: bv32, y: bv32, z: bv32): bv32 { Xor2(Xor2(x, y), z) }

  // Section 4.1.2.

  function Ch(x: bv32, y: bv32, z: bv32): bv32 { (x & y) ^ (!x & z) }

  function Maj(x: bv32, y: bv32, z: bv32): bv32 { (x & y) ^ (x & z) ^ (y & z) }

  function BigSigma0(x: bv32): bv32 { Xor3(RotR(x, 2), RotR(x, 13), RotR(x, 22)) }

  function BigSigma1(x: bv32): bv32 { Xor3(RotR(x, 6), RotR(x, 11), RotR(x, 25)) }

  function SmallSigma0(x: bv32): bv32 { Xor3(RotR(x, 7), RotR(x, 18), x >> 3) }

  function SmallSigma1(x: bv32): bv32 { Xor3(RotR(x, 17), RotR(x, 19), x >> 10) }

  /** Bit i of a word, counted from the least significant. Bit numbers are added modulo 32. */
  function Bit(x: bv32, i: bv5): bool { Masked(x, (1 as bv32) << i) != 0 }

  function Masked(x: bv32, m: bv32): bv32 { x & m }

  lemma Rotated2(x: bv32, i: bv5) ensures Bit(RotR(x, 2), i) == Bit(x, i + 2) {}
  lemma Rotated13(x: bv32, i: bv5) ensures Bit(RotR(x, 13), i) == Bit(x, i + 13) {}
  lemma Rotated22(x: bv32, i: bv5) ensures Bit(RotR(x, 22), i) == Bit(x, i + 22) {}
  lemma Rotated6(x: bv32, i: bv5) ensures Bit(RotR(x, 6), i) == Bit(x, i + 6) {}
  lemma Rotated11(x: bv32, i: bv5) ensures Bit(RotR(x, 11), i) == Bit(x, i + 11) {}
  lemma Rotated25(x: bv32, i: bv5) ensures Bit(RotR(x, 25), i) == Bit(x, i + 25) {}
  lemma Rotated7(x: bv32, i: bv5) ensures Bit(RotR(x, 7), i) == Bit(x, i + 7) {}
  lemma Rotated18(x: bv32, i: bv5) ensures Bit(RotR(x, 18), i) == Bit(x, i + 18) {}
  lemma Rotated17(x: bv32, i: bv5) ensures Bit(RotR(x, 17), i) == Bit(x, i + 17) {}
  lemma Rotated19(x: bv32, i: bv5) ensures Bit(RotR(x, 19), i) == Bit(x, i + 19) {}
  lemma Shifted3(x: bv32, i: bv5) ensures Bit(x >> 3, i) == (i < 29 && Bit(x, i + 3)) {}
  lemma Shifted10(x: bv32, i: bv5) ensures Bit(x >> 10, i) == (i < 22 && Bit(x, i + 10)) {}

  lemma MaskedXor2(x: bv32, y: bv32, m: bv32)
    ensures Masked(Xor2(x, y), m) == Xor2(Masked(x, m), Masked(y, m))
  {}

  lemma MaskedBit(x: bv32, i: bv5)
    ensures Masked(x, (1 as bv32) << i) == if Bit(x, i) then (1 as bv32) << i else 0
  {}

  lemma Xor2OfMasks(p: bool, q: bool, i: bv5)
    ensures var m := (1 as bv32) << i; (Xor2(if p then m else 0, if q then m else 0) != 0) == (p != q)
  {}

  lemma Xor2Bit(x: bv32, y: bv32, i: bv5)
    ensures Bit(Xor2(x, y), i) == (Bit(x, i) != Bit(y, i))
  {
    hide Masked, Xor2;
    MaskedXor2(x, y, (1 as bv32) << i);
    MaskedBit(x, i);
    MaskedBit(y, i);
    Xor2OfMasks(Bit(x, i), Bit(y, i), i);
  }

  lemma Xor3Bit(x: bv32, y: bv32, z: bv32, i: bv5)
    ensures Bit(Xor3(x, y, z), i) == ((Bit(x, i) != Bit(y, i)) != Bit(z, i))
  {
    hide Bit, Xor2;
    Xor2Bit(x, y, i);
    Xor2Bit(Xor2(x, y), z, i);
  }

  // Bit by bit, the four functions are exclusive ors of bits of x; a shift has none to bring beyond bit 31.

  lemma BigSigma0Bit(x: bv32, i: bv5)
    ensures Bit(BigSigma0(x), i) == ((Bit(x, i + 2) != Bit(x, i + 13)) != Bit(x, i + 22))
  {
    hide Bit, RotR, Xor3;
    Rotated2(x, i);
    Rotated13(x, i);
    Rotated22(x, i);
    Xor3Bit(RotR(x, 2), RotR(x, 13), RotR(x, 22), i);
  }

  lemma BigSigma1Bit(x: bv32, i: bv5)
    ensures Bit(BigSigma1(x), i) == ((Bit(x, i + 6) != Bit(x, i + 11)) != Bit(x, i + 25))
  {
    hide Bit, RotR, Xor3;
    Rotated6(x, i);
    Rotated11(x, i);
    Rotated25(x, i);
    Xor3Bit(RotR(x, 6), RotR(x, 11), RotR(x, 25), i);
  }

  lemma SmallSigma0Bit(x: bv32, i: bv5)
    ensures Bit(SmallSigma0(x), i) == ((Bit(x, i + 7) != Bit(x, i + 18)) != (i < 29 && Bit(x, i + 3)))
  {
    hide Bit, RotR, Xor3;
    Rotated7(x, i);
    Rotated18(x, i);
    Shifted3(x, i);
    Xor3Bit(RotR(x, 7), RotR(x, 18), x >> 3, i);
  }

  lemma SmallSigma1Bit(x: bv32, i: bv5)
    ensures Bit(SmallSigma1(x), i) == ((Bit(x, i + 17) != Bit(x, i + 19)) != (i < 22 && Bit(x, i + 10)))
  {
    hide Bit, RotR, Xor3;
    Rotated17(x, i);
    Rotated19(x, i);
    Shifted10(x, i);
    Xor3Bit(RotR(x, 17), RotR(x, 19), x >> 10, i);
  }

  /** K_t of section 4.2.2. */
  function RoundConstant(t: nat): bv32
    requires t < 64
  {
    match t
    case 0  => 0x428a2f98 case 1  => 0x71374491 case 2  => 0xb5c0fbcf case 3  => 0xe9b5dba5
    case 4  => 0x3956c25b case 5  => 0x59f111f1 case 6  => 0x923f82a4 case 7  => 0xab1c5ed5
    case 8  => 0xd807aa98 case 9  => 0x12835b01 case 10 => 0x243185be case 11 => 0x550c7dc3
    case 12 => 0x72be5d74 case 13 => 0x80deb1fe case 14 => 0x9bdc06a7 case 15 => 0xc19bf174
    case 16 => 0xe49b69c1 case 17 => 0xefbe4786 case 18 => 0x0fc19dc6 case 19 => 0x240ca1cc
    case 20 => 0x2de92c6f case 21 => 0x4a7484aa case 22 => 0x5cb0a9dc case 23 => 0x76f988da
    case 24 => 0x983e5152 case 25 => 0xa831c66d case 26 => 0xb00327c8 case 27 => 0xbf597fc7
    case 28 => 0xc6e00bf3 case 29 => 0xd5a79147 case 30 => 0x06ca6351 case 31 => 0x14292967
    case 32 => 0x27b70a85 case 33 => 0x2e1b2138 case 34 => 0x4d2c6dfc case 35 => 0x53380d13
    case 36 => 0x650a7354 case 37 => 0x766a0abb case 38 => 0x81c2c92e case 39 => 0x92722c85
    case 40 => 0xa2bfe8a1 case 41 => 0xa81a664b case 42 => 0xc24b8b70 case 43 => 0xc76c51a3
    case 44 => 0xd192e819 case 45 => 0xd6990624 case 46 => 0xf40e3585 case 47 => 0x106aa070
    case 48 => 0x19a4c116 case 49 => 0x1e376c08 case 50 => 0x2748774c case 51 => 0x34b0bcb5
    case 52 => 0x391c0cb3 case 53 => 0x4ed8aa4a case 54 => 0x5b9cca4f case 55 => 0x682e6ff3
    case 56 => 0x748f82ee case 57 => 0x78a5636f case 58 => 0x84c87814 case 59 => 0x8cc70208
    case 60 => 0x90befffa case 61 => 0xa4506ceb case 62 => 0xbef9a3f7 case 63 => 0xc67178f2
  }

  // Section 5.3.3.
  const H0 := Regs(0x6a09e667, 0xbb67ae85, 0x3c6ef372, 0xa54ff53a,
                   0x510e527f, 0x9b05688c, 0x1f83d9ab, 0x5be0cd19)

  function Sum4(w: bv32, x: bv32, y: bv32, z: bv32): bv32 { w + x + y + z }

  /** A later schedule word from the words 2, 7, 15 and 16 places before it. */
  function Mix(w2: bv32, w7: bv32, w15: bv32, w16: bv32): bv32 {
    Sum4(SmallSigma1(w2), w7, SmallSigma0(w15), w16)
  }

  /** W_t of section 6.2.2, step 1. */
  function Schedule(m: seq<bv32>, t: nat): bv32
    requires |m| == 16
  {
    if t < 16 then m[t]
    else Mix(Schedule(m, t - 2), Schedule(m, t - 7), Schedule(m, t - 15), Schedule(m, t - 16))
  }

  lemma ScheduleNext(m: seq<bv32>, t: nat)
    requires |m| == 16 && t >= 16
    ensures Schedule(m, t) == Mix(Schedule(m, t - 2), Schedule(m, t - 7), Schedule(m, t - 15), Schedule(m, t - 16))
  {
    hide Mix;
  }

  function Sum5(v: bv32, w: bv32, x: bv32, y: bv32, z: bv32): bv32 { v + w + x + y + z }

  function Sum2(x: bv32, y: bv32): bv32 { x + y }

  /** One iteration of step 3. */
  function Step(r: Regs, k: bv32, w: bv32): Regs {
    var t1 := Sum5(r.h, BigSigma1(r.e), Ch(r.e, r.f, r.g), k, w);
    var t2 := Sum2(BigSigma0(r.a), Maj(r.a, r.b, r.c));
    Regs(Sum2(t1, t2), r.a, r.b, r.c, Sum2(r.d, t1), r.e, r.f, r.g)
  }

  function Rounds(r: Regs, m: seq<bv32>, n: nat): Regs
    requires |m| == 16 && n <= 64
  {
    if n == 0 then r else Step(Rounds(r, m, n - 1), RoundConstant(n - 1), Schedule(m, n - 1))
  }

  function Add(x: Regs, y: Regs): Regs {
    Regs(Sum2(x.a, y.a), Sum2(x.b, y.b), Sum2(x.c, y.c), Sum2(x.d, y.d),
         Sum2(x.e, y.e), Sum2(x.f, y.f), Sum2(x.g, y.g), Sum2(x.h, y.h))
  }

  /** Steps 1 to 4 for one message block. */
  function Compress(h: Regs, m: seq<bv32>): Regs
    requires |m| == 16
  {
    Add(h, Rounds(h, m, 64))
  }

  /** Big-endian word of four bytes (section 3.1). */
  function BeWord(b0: bv8, b1: bv8, b2: bv8, b3: bv8): bv32 {
    (b0 as bv32 << 24) | (b1 as bv32 << 16) | (b2 as bv32 << 8) | (b3 as bv32)
  }

  function BlockWords(block: seq<bv8>): (m: seq<bv32>)
    requires |block| == 64
    ensures |m| == 16
  {
    seq(16, i requires 0 <= i < 16 =>
      BeWord(block[4 * i], block[4 * i + 1], block[4 * i + 2], block[4 * i + 3]))
  }

  /** The intermediate hash value after all blocks of `data` (section 6.2.2). */
  function HashBlocks(data: seq<bv8>): Regs
    requires |data| % 64 == 0
  {
    if data == [] then H0
    else
      var n := |data| - 64;
      Compress(HashBlocks(data[..n]), BlockWords(data[n..]))
  }

  function Zeros(n: nat): (z: seq<bv8>)
    ensures |z| == n
  {
    seq(n, _ => 0)
  }

  /** Number of zero bytes that section 5.1.1 puts between the marker and the length. */
  function ZeroPad(len: nat): nat { (119 - len % 64) % 64 }

  /** Truncation to one byte. */
  function ByteOf(n: int): bv8 { (n % 256) as bv8 }

  /** The number `n` as `k` big-endian bytes, taken modulo 256^k. */
  function BeBytes(n: nat, k: nat): (s: seq<bv8>)
    ensures |s| == k
  {
    if k == 0 then [] else BeBytes(n / 256, k - 1) + [ByteOf(n)]
  }

  function Pow256(k: nat): (p: nat)
    ensures p > 0
  {
    if k == 0 then 1 else 256 * Pow256(k - 1)
  }

  /** Only the value modulo 256^k is written. */
  lemma {:induction false} BeBytesMod(n: nat, k: nat)
    ensures BeBytes(n, k) == BeBytes(n % Pow256(k), k)
  {
    if k > 0 {
      hide ByteOf;
      DivideTwice(n, Pow256(k - 1));
      LowByte(n, Pow256(k - 1));
      BeBytesMod(n / 256, k - 1);
    }
  }

  /** The most significant byte comes first, the other bytes are those of the remainder. */
  lemma {:induction false} BeBytesTop(n: nat, k: nat)
    ensures BeBytes(n, k + 1) == [ByteOf(n / Pow256(k))] + BeBytes(n % Pow256(k), k)
  {
    hide ByteOf;
    if k == 0 {
      assert BeBytes(n / 256, 0) == [];
    } else {
      var p := Pow256(k - 1);
      DivideTwice(n, p);
      LowByte(n, p);
      BeBytesTop(n / 256, k - 1);
      assert BeBytes(n, k + 1) == [ByteOf(n / 256 / p)] + BeBytes(n / 256 % p, k - 1) + [ByteOf(n)];
    }
  }

  lemma LowByte(n: nat, p: nat)
    requires p > 0
    ensures ByteOf(n) == ByteOf(n % (256 * p))
  {
    DivideTwice(n, p);
  }

  const TWO56 := 0x100_0000_0000_0000
  const TWO64 := 0x1_0000_0000_0000_0000

  lemma Pow256Values()
    ensures Pow256(7) == TWO56 && Pow256(8) == TWO64
  {
    assert Pow256(4) == 0x1_0000_0000;
  }

  lemma ShiftedLength(x: nat)
    requires x < TWO64
    ensures x * 256 % TWO64 == x % TWO56 * 256
    ensures x * 256 % TWO64 / 256 == x % TWO56
    ensures ByteOf(x * 256 % TWO64) == 0
  {
    var q, r := x / TWO56, x % TWO56;
    assert x * 256 == q * TWO64 + r * 256;
    DivModUnique(x * 256, TWO64, q, r * 256);
  }

  /** Taking the top byte of a 64-bit value and shifting it left walks through its bytes. */
  lemma ShiftOutByte(x: nat)
    requires x < TWO64
    ensures BeBytes(x, 8)[0] == ByteOf(x / TWO56)
    ensures BeBytes(x * 256 % TWO64, 8) == BeBytes(x, 8)[1..] + [0]
  {
    Pow256Values();
    ShiftedLength(x);
    hide ByteOf, Pow256;
    BeBytesTop(x, 7);
  }

  /** Section 5.1.1: the message, a 1 bit, zero bits, the bit length in 64 bits. */
  function Pad(msg: seq<bv8>): seq<bv8> {
    msg + [0x80] + Zeros(ZeroPad(|msg|)) + BeBytes(8 * |msg|, 8)
  }

  /** A message of `len` bytes, the marker byte, `z` zero bytes and the length fill whole blocks. */
  ghost predicate FillsBlocks(len: nat, z: nat) { (len + 1 + z + 8) % 64 == 0 }

  lemma ZeroPadByTail(len: nat)
    ensures ZeroPad(len) == if len % 64 <= 55 then 55 - len % 64 else 119 - len % 64
  {}

  /** Section 5.1.1 asks for the smallest zero padding that completes a block, and
      the tail of the message then needs one closing block or two. */
  lemma ZeroPadIsLeast(len: nat)
    ensures FillsBlocks(len, ZeroPad(len))
    ensures forall z: nat | z < ZeroPad(len) :: !FillsBlocks(len, z)
    ensures len + 1 + ZeroPad(len) + 8 == len - len % 64 + (if len % 64 <= 55 then 64 else 128)
  {
    ZeroPadByTail(len);
    hide ZeroPad, FillsBlocks;
    var q, r := len / 64, len % 64;
    FillsBlocksByTail(q, r, ZeroPad(len));
    forall z: nat | z < ZeroPad(len) ensures !FillsBlocks(len, z) {
      FillsBlocksByTail(q, r, z);
    }
  }

  lemma FillsBlocksByTail(q: nat, r: nat, z: nat)
    requires r < 64 && z < 64
    ensures FillsBlocks(64 * q + r, z) <==> r + z + 9 == 64 || r + z + 9 == 128
  {
    assert 64 * q + r + 1 + z + 8 == 64 * q + (r + z + 9);
  }

  function WordBytes(x: bv32): (s: seq<bv8>)
    ensures |s| == 4
  {
    [(x >> 24) as bv8, ((x >> 16) & 0xFF) as bv8, ((x >> 8) & 0xFF) as bv8, (x & 0xFF) as bv8]
  }

  function Digest(r: Regs): (s: seq<bv8>)
    ensures |s| == 32
  {
    WordBytes(r.a) + WordBytes(r.b) + WordBytes(r.c) + WordBytes(r.d)
    + WordBytes(r.e) + WordBytes(r.f) + WordBytes(r.g) + WordBytes(r.h)
  }

  /** SHA-256 of a message. FIPS 180-4 defines it below 2^64 bits; BeBytes reduces
      the length of a longer one modulo 2^64. */
  function Sha256(msg: seq<bv8>): (s: seq<bv8>)
    ensures |s| == 32
  {
    ZeroPadIsLeast(|msg|);
    Digest(HashBlocks(Pad(msg)))
  }
}
