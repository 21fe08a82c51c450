/** The streaming SHA-256 of crypto/sha256.c: a compression function that keeps only a
    16-word window of the schedule and renames its registers instead of moving them, and
    a context that takes a message byte by byte. Both are proved against Sha256Spec. */
module Sha256 {
  import opened DivMod
  import opened Sha256Spec

  // The source's macros. ROTR32 of rotate-bits.h is a rotation to the left by 32 - n.

  function Rotl32(v: bv32, n: bv6): bv32
    requires 0 < n < 32
  {
    (v << n) | (v >> (32 - n))
  }

  function Rotr32(v: bv32, n: bv6): bv32
    requires 0 < n < 32
  {
    Rotl32(v, 32 - n)
  }

  function S0(x: bv32): bv32 { Xor3(Rotr32(x, 2), Rotr32(x, 13), Rotr32(x, 22)) }

  function S1(x: bv32): bv32 { Xor3(Rotr32(x, 6), Rotr32(x, 11), Rotr32(x, 25)) }

  function LowerS0(x: bv32): bv32 { Xor3(Rotr32(x, 7), Rotr32(x, 18), x >> 3) }

  function LowerS1(x: bv32): bv32 { Xor3(Rotr32(x, 17), Rotr32(x, 19), x >> 10) }

  lemma RotationIs(v: bv32, n: bv6)
    requires 0 < n < 32
    ensures Rotr32(v, n) == RotR(v, n)
  {}

  lemma RotationsAreSigmas(x: bv32)
    ensures S0(x) == BigSigma0(x) && S1(x) == BigSigma1(x)
    ensures LowerS0(x) == SmallSigma0(x) && LowerS1(x) == SmallSigma1(x)
  {
    hide Rotr32, RotR, Xor3;
    RotationIs(x, 2); RotationIs(x, 13); RotationIs(x, 22);
    RotationIs(x, 6); RotationIs(x, 11); RotationIs(x, 25);
    RotationIs(x, 7); RotationIs(x, 18); RotationIs(x, 17); RotationIs(x, 19);
  }

  // Its three-operation forms of Ch and Maj.

  function FastCh(x: bv32, y: bv32, z: bv32): bv32 { z ^ (x & (y ^ z)) }

  function FastMaj(x: bv32, y: bv32, z: bv32): bv32 { (x & y) | (z & (x | y)) }

  lemma FastChIsCh(x: bv32, y: bv32, z: bv32)
    ensures FastCh(x, y, z) == Ch(x, y, z)
  {
    assert z ^ (x & (y ^ z)) == (x & y) ^ (!x & z);
  }

  lemma FastMajIsMaj(x: bv32, y: bv32, z: bv32)
    ensures FastMaj(x, y, z) == Maj(x, y, z)
  {
    assert (x & y) | (z & (x | y)) == (x & y) ^ (x & z) ^ (y & z);
  }

  /** The window before round t: slot k mod 16 holds schedule word k, for the last 16 words. */
  ghost predicate Window(w: seq<bv32>, m: seq<bv32>, t: nat) {
    |w| == 16 && |m| == 16
    && forall k {:trigger Schedule(m, k)} | t - 16 <= k < t && 0 <= k :: w[k % 16] == Schedule(m, k)
  }

  lemma SlotsBehind(t: nat)
    requires t >= 16
    ensures (t - 2) % 16 == (t + 14) % 16 && (t - 7) % 16 == (t + 9) % 16
    ensures (t - 15) % 16 == (t + 1) % 16 && (t - 16) % 16 == t % 16
  {}

  lemma OtherSlot(k: nat, t: nat)
    requires t - 16 < k < t
    ensures k % 16 != t % 16
  {}

  /** The window advances when slot t mod 16 receives schedule word t. */
  lemma WindowAdvances(w: seq<bv32>, m: seq<bv32>, t: nat, x: bv32)
    requires Window(w, m, t)
    requires x == if t < 16 then m[t] else Mix(w[(t + 14) % 16], w[(t + 9) % 16], w[(t + 1) % 16], w[t % 16])
    ensures Window(w[t % 16 := x], m, t + 1) && x == Schedule(m, t)
  {
    if t >= 16 {
      ScheduleNext(m, t);
      SlotsBehind(t);
    } else {
      assert Schedule(m, t) == m[t];
    }
    hide Mix, Schedule;
    if t >= 16 {
      assert w[(t - 2) % 16] == Schedule(m, t - 2) && w[(t - 7) % 16] == Schedule(m, t - 7)
        && w[(t - 15) % 16] == Schedule(m, t - 15) && w[(t - 16) % 16] == Schedule(m, t - 16);
    }
    forall k {:trigger Schedule(m, k)} | t + 1 - 16 <= k < t + 1 && 0 <= k
      ensures w[t % 16 := x][k % 16] == Schedule(m, k)
    {
      if k < t {
        OtherSlot(k, t);
      }
    }
  }

  /** The sum of macro blk2, in its order. */
  function FastSum4(x: bv32, y: bv32, z: bv32, w16: bv32): bv32 { w16 + (x + y + z) }

  lemma FastSum4IsSum4(x: bv32, y: bv32, z: bv32, w16: bv32)
    ensures FastSum4(x, y, z, w16) == Sum4(x, y, z, w16)
  {}

  /** What macro blk2 adds up. */
  function FastMix(w2: bv32, w7: bv32, w15: bv32, w16: bv32): bv32 {
    FastSum4(LowerS1(w2), w7, LowerS0(w15), w16)
  }

  lemma FastMixIsMix(w2: bv32, w7: bv32, w15: bv32, w16: bv32)
    ensures FastMix(w2, w7, w15, w16) == Mix(w2, w7, w15, w16)
  {
    hide LowerS0, LowerS1, SmallSigma0, SmallSigma1, FastSum4, Sum4;
    FastSum4IsSum4(SmallSigma1(w2), w7, SmallSigma0(w15), w16);
    RotationsAreSigmas(w2);
    RotationsAreSigmas(w15);
  }

  /** The first statement of macro R: h += S1(e) + Ch(e,f,g) + K + W. */
  function FastSum5(v: bv32, w: bv32, x: bv32, y: bv32, z: bv32): bv32 { v + (w + x + y + z) }

  lemma FastSum5IsSum5(v: bv32, w: bv32, x: bv32, y: bv32, z: bv32)
    ensures FastSum5(v, w, x, y, z) == Sum5(v, w, x, y, z)
  {}

  /** Macro R: the new values of the fourth and the eighth register it is given. */
  function FastRound(r: Regs, k: bv32, w: bv32): (bv32, bv32) {
    var h := FastSum5(r.h, S1(r.e), FastCh(r.e, r.f, r.g), k, w);
    (Sum2(r.d, h), Sum2(h, Sum2(S0(r.a), FastMaj(r.a, r.b, r.c))))
  }

  /** The two registers macro R changes, and the renaming that follows, are one step. */
  lemma FastRoundIsStep(r: Regs, k: bv32, w: bv32)
    ensures var (d, h) := FastRound(r, k, w);
            Step(r, k, w) == Regs(h, r.a, r.b, r.c, d, r.e, r.f, r.g)
  {
    hide FastSum5, Sum5, Sum2, S0, S1, BigSigma0, BigSigma1, FastCh, FastMaj, Ch, Maj;
    RotationsAreSigmas(r.a);
    RotationsAreSigmas(r.e);
    FastChIsCh(r.e, r.f, r.g);
    FastMajIsMaj(r.a, r.b, r.c);
    FastSum5IsSum5(r.h, BigSigma1(r.e), Ch(r.e, r.f, r.g), k, w);
  }

  lemma SlotsOfRound(i: nat, j: nat)
    requires i < 16 && j % 16 == 0
    ensures (i + j) % 16 == i && (i + j + 14) % 16 == (i + 14) % 16
    ensures (i + j + 9) % 16 == (i + 9) % 16 && (i + j + 1) % 16 == (i + 1) % 16
  {
    SameSlot(i, j);
    SameSlot(i + 14, j);
    SameSlot(i + 9, j);
    SameSlot(i + 1, j);
  }

  lemma SameSlot(k: nat, j: nat)
    requires j % 16 == 0
    ensures (k + j) % 16 == k % 16
  {
    DivModUnique(k + j, 16, k / 16 + j / 16, k % 16);
  }

  /** Macros blk0 and blk2: slot i of the window receives, and yields, schedule word i + j. */
  method Blk(W: array<bv32>, data: seq<bv32>, i: nat, j: nat) returns (w: bv32)
    requires |data| == 16 && W.Length == 16
    requires i < 16 && j % 16 == 0
    requires Window(W[..], data, i + j)
    modifies W
    ensures Window(W[..], data, i + j + 1)
    ensures w == Schedule(data, i + j)
  {
    hide FastMix, Mix, Schedule, Window;
    ghost var before := W[..];
    var w2, w7, w15, w16 := W[(i + 14) % 16], W[(i + 9) % 16], W[(i + 1) % 16], W[i];
    FastMixIsMix(w2, w7, w15, w16);
    w := if j != 0 then FastMix(w2, w7, w15, w16) else data[i];
    W[i] := w;
    SlotsOfRound(i, j);
    WindowAdvances(before, data, i + j, w);
    assert W[..] == before[i := w];
  }

  /** Macro R for round i + j, on whatever registers the caller names a to h. */
  method R(W: array<bv32>, data: seq<bv32>, a: bv32, b: bv32, c: bv32, d: bv32, e: bv32, f: bv32, g: bv32, h: bv32,
           i: nat, j: nat, ghost start: Regs)
    returns (d': bv32, h': bv32)
    requires |data| == 16 && W.Length == 16
    requires i < 16 && j <= 48 && j % 16 == 0
    requires Window(W[..], data, i + j)
    requires Regs(a, b, c, d, e, f, g, h) == Rounds(start, data, i + j)
    modifies W
    ensures Window(W[..], data, i + j + 1)
    ensures Regs(h', a, b, c, d', e, f, g) == Rounds(start, data, i + j + 1)
  {
    hide FastRound, Step, RoundConstant, Schedule, Window;
    var w := Blk(W, data, i, j);
    var regs := Regs(a, b, c, d, e, f, g, h);
    FastRoundIsStep(regs, RoundConstant(i + j), w);
    var pair := FastRound(regs, RoundConstant(i + j), w);
    d', h' := pair.0, pair.1;
  }

  /** Macro RX_8: eight rounds in which the registers rotate by name only. */
  method Rx8(W: array<bv32>, data: seq<bv32>, r: Regs, i: nat, j: nat, ghost start: Regs) returns (r': Regs)
    requires |data| == 16 && W.Length == 16
    requires i <= 8 && j <= 48 && j % 16 == 0
    requires Window(W[..], data, i + j)
    requires r == Rounds(start, data, i + j)
    modifies W
    ensures Window(W[..], data, i + j + 8)
    ensures r' == Rounds(start, data, i + j + 8)
  {
    hide Rounds, Window;
    var Regs(a, b, c, d, e, f, g, h) := r;
    d, h := R(W, data, a, b, c, d, e, f, g, h, i, j, start);
    c, g := R(W, data, h, a, b, c, d, e, f, g, i + 1, j, start);
    b, f := R(W, data, g, h, a, b, c, d, e, f, i + 2, j, start);
    a, e := R(W, data, f, g, h, a, b, c, d, e, i + 3, j, start);
    h, d := R(W, data, e, f, g, h, a, b, c, d, i + 4, j, start);
    g, c := R(W, data, d, e, f, g, h, a, b, c, i + 5, j, start);
    f, b := R(W, data, c, d, e, f, g, h, a, b, i + 6, j, start);
    e, a := R(W, data, b, c, d, e, f, g, h, a, i + 7, j, start);
    r' := Regs(a, b, c, d, e, f, g, h);
  }

  /** The hash state as the eight words of the source's array. */
  function StateOf(s: seq<bv32>): Regs
    requires |s| == 8
  {
    Regs(s[0], s[1], s[2], s[3], s[4], s[5], s[6], s[7])
  }

  lemma NoRoundsYet(w: seq<bv32>, m: seq<bv32>, start: Regs)
    requires |w| == 16 && |m| == 16
    ensures Window(w, m, 0) && Rounds(start, m, 0) == start
  {}

  /** The round loop of sha256_transform, from the chaining value `r`. */
  method AllRounds(data: seq<bv32>, start: Regs) returns (r: Regs)
    requires |data| == 16
    ensures r == Rounds(start, data, 64)
  {
    hide *;
    var W := new bv32[16](_ => 0);
    r := start;
    NoRoundsYet(W[..], data, start);
    var j := 0;
    while j < 64
      invariant j <= 64 && j % 16 == 0
      invariant Window(W[..], data, j)
      invariant r == Rounds(start, data, j)
    {
      r := Rx8(W, data, r, 0, j, start);
      r := Rx8(W, data, r, 8, j, start);
      j := j + 16;
    }
  }

  /** The closing additions of sha256_transform. */
  method AddTo(state: array<bv32>, r: Regs)
    requires state.Length == 8
    modifies state
    ensures StateOf(state[..]) == Add(old(StateOf(state[..])), r)
  {
    hide Sum2;
    state[0] := Sum2(state[0], r.a);
    state[1] := Sum2(state[1], r.b);
    state[2] := Sum2(state[2], r.c);
    state[3] := Sum2(state[3], r.d);
    state[4] := Sum2(state[4], r.e);
    state[5] := Sum2(state[5], r.f);
    state[6] := Sum2(state[6], r.g);
    state[7] := Sum2(state[7], r.h);
  }

  /** sha256_transform. */
  method Transform(state: array<bv32>, data: seq<bv32>)
    requires state.Length == 8 && |data| == 16
    modifies state
    ensures StateOf(state[..]) == Compress(old(StateOf(state[..])), data)
  {
    hide Rounds, Add;
    var r := AllRounds(data, StateOf(state[..]));
    AddTo(state, r);
  }

  /** sha256_write_byte_block adds its four shifted bytes instead of or-ing them. */
  function AddedWord(b0: bv8, b1: bv8, b2: bv8, b3: bv8): bv32 {
    (b0 as bv32 << 24) + (b1 as bv32 << 16) + (b2 as bv32 << 8) + (b3 as bv32)
  }

  lemma AddedWordIsBeWord(b0: bv8, b1: bv8, b2: bv8, b3: bv8)
    ensures AddedWord(b0, b1, b2, b3) == BeWord(b0, b1, b2, b3)
  {}

  lemma EmptyHash()
    ensures HashBlocks([]) == H0
  {}

  lemma BlockWordsAre(block: seq<bv8>, words: seq<bv32>)
    requires |block| == 64 && |words| == 16
    requires forall k | 0 <= k < 16 ::
               words[k] == BeWord(block[4 * k], block[4 * k + 1], block[4 * k + 2], block[4 * k + 3])
    ensures words == BlockWords(block)
  {
    hide BeWord;
  }

  lemma HashOneMore(data: seq<bv8>)
    requires |data| >= 64 && |data| % 64 == 0
    ensures HashBlocks(data) == Compress(HashBlocks(data[..|data| - 64]), BlockWords(data[|data| - 64..]))
  {
    hide Compress, BlockWords;
  }

  lemma EightfoldWraps(n: nat)
    ensures n % TWO64 * 8 % TWO64 == 8 * n % TWO64
  {}

  lemma LengthWraps(n: nat)
    ensures n % TWO64 * 8 % TWO64 < TWO64
    ensures BeBytes(n % TWO64 * 8 % TWO64, 8) == BeBytes(8 * n, 8)
  {
    Pow256Values();
    BeBytesMod(8 * n, 8);
    EightfoldWraps(n);
  }

  function WordsBytes(words: seq<bv32>): seq<bv8> {
    if words == [] then [] else WordsBytes(words[..|words| - 1]) + WordBytes(words[|words| - 1])
  }

  lemma OneMoreWord(words: seq<bv32>, n: nat)
    requires n < |words|
    ensures WordsBytes(words[..n + 1]) == WordsBytes(words[..n]) + WordBytes(words[n])
  {
    hide WordBytes;
    assert words[..n + 1][..n] == words[..n];
  }

  lemma DigestIsWordsBytes(words: seq<bv32>)
    requires |words| == 8
    ensures WordsBytes(words[..8]) == Digest(StateOf(words))
  {
    hide WordBytes, WordsBytes;
    OneMoreWord(words, 0); OneMoreWord(words, 1); OneMoreWord(words, 2); OneMoreWord(words, 3);
    OneMoreWord(words, 4); OneMoreWord(words, 5); OneMoreWord(words, 6); OneMoreWord(words, 7);
    NoWords(words);
    assert [] + WordBytes(words[0]) == WordBytes(words[0]);
  }

  lemma NoWords(words: seq<bv32>)
    ensures WordsBytes(words[..0]) == []
  {}

  lemma ZerosFed(marked: seq<bv8>, z: nat)
    ensures marked + Zeros(0) == marked && marked + Zeros(z) + [0] == marked + Zeros(z + 1)
  {
    assert Zeros(z) + [0] == Zeros(z + 1);
  }

  /** With the marker and `z` zero bytes written, the next byte goes to `cur` (64 for a full buffer). */
  ghost predicate Padding(len: nat, z: nat, cur: nat) {
    1 <= cur <= 64 && z <= ZeroPad(len)
    && (cur == len % 64 + 1 + z || cur + 64 == len % 64 + 1 + z)
  }

  /** Position 56 is reached exactly when the zero bytes of section 5.1.1 are in place. */
  lemma PaddingProgress(len: nat, z: nat, cur: nat)
    requires Padding(len, z, cur)
    ensures cur == 56 <==> z == ZeroPad(len)
    ensures cur != 56 ==> Padding(len, z + 1, cur % 64 + 1)
    ensures 1 <= cur <= 64 && z <= ZeroPad(len)
  {
    ZeroPadByTail(len);
    hide ZeroPad;
  }

  lemma PaddingStarts(len: nat)
    ensures Padding(len, 0, len % 64 + 1)
  {}

  lemma NextPosition(n: nat)
    ensures (n + 1) % 64 == if n % 64 == 63 then 0 else n % 64 + 1
  {}

  lemma CountWraps(n: nat)
    ensures (n % TWO64 + 1) % TWO64 == (n + 1) % TWO64
    ensures n % TWO64 % 64 == n % 64
  {
    var q, r := n / TWO64, n % TWO64;
    if r + 1 < TWO64 {
      DivModUnique(n + 1, TWO64, q, r + 1);
    } else {
      DivModUnique(n + 1, TWO64, q + 1, 0);
    }
    DivModUnique(n, 64, q * 0x400_0000_0000_0000 + r / 64, r % 64);
  }

  /** struct sha256_t. `msg` is the message absorbed since the last initialisation. */
  class Context {
    const state: array<bv32>
    var count: nat
    const buffer: array<bv8>
    ghost var msg: seq<bv8>

    /** `fed` has been written to the buffer, its last `cur` bytes are still there, and
        every block before them has been compressed. */
    ghost predicate Absorbed(fed: seq<bv8>, cur: nat)
      reads state, buffer
    {
      state.Length == 8 && buffer.Length == 64
      && cur <= 64 && cur <= |fed| && (|fed| - cur) % 64 == 0
      && StateOf(state[..]) == HashBlocks(fed[..|fed| - cur])
      && buffer[..cur] == fed[|fed| - cur..]
    }

    ghost predicate Valid()
      reads this, state, buffer
    {
      Absorbed(msg, |msg| % 64) && count == |msg| % TWO64
    }

    /** The storage of the structure, and sha256_init on it. */
    constructor ()
      ensures Valid() && msg == []
      ensures fresh(state) && fresh(buffer)
    {
      state := new bv32[8];
      buffer := new bv8[64];
      msg := [];
      count := 0;
      new;
      Init();
    }

    /** sha256_init. */
    method Init()
      requires state.Length == 8 && buffer.Length == 64
      modifies this, state
      ensures Valid() && msg == []
    {
      hide HashBlocks;
      EmptyHash();
      state[0] := 0x6a09e667;
      state[1] := 0xbb67ae85;
      state[2] := 0x3c6ef372;
      state[3] := 0xa54ff53a;
      state[4] := 0x510e527f;
      state[5] := 0x9b05688c;
      state[6] := 0x1f83d9ab;
      state[7] := 0x5be0cd19;
      count := 0;
      msg := [];
    }

    /** Storing one byte at `cur`, the position after the bytes still buffered. */
    method Put(b: bv8, cur: nat, ghost fed: seq<bv8>)
      requires Absorbed(fed, cur) && cur < 64
      modifies buffer
      ensures Absorbed(fed + [b], cur + 1)
    {
      hide HashBlocks, StateOf;
      buffer[cur] := b;
      ghost var n := |fed| - cur;
      assert (fed + [b])[..n] == fed[..n];
      assert (fed + [b])[n..] == fed[n..] + [b];
    }

    /** sha256_write_byte_block. */
    method WriteByteBlock(ghost fed: seq<bv8>)
      requires Absorbed(fed, 64)
      modifies state
      ensures Absorbed(fed, 0)
    {
      hide AddedWord, BeWord, Compress, HashBlocks, BlockWords, StateOf;
      ghost var block := buffer[..];
      var data32: seq<bv32> := [];
      var i := 0;
      while i < 16
        invariant state[..] == old(state[..])
        invariant |data32| == i <= 16
        invariant forall k | 0 <= k < i ::
                    data32[k] == BeWord(block[4 * k], block[4 * k + 1], block[4 * k + 2], block[4 * k + 3])
      {
        AddedWordIsBeWord(buffer[4 * i], buffer[4 * i + 1], buffer[4 * i + 2], buffer[4 * i + 3]);
        data32 := data32 + [AddedWord(buffer[4 * i], buffer[4 * i + 1], buffer[4 * i + 2], buffer[4 * i + 3])];
        i := i + 1;
      }
      BlockWordsAre(block, data32);
      HashOneMore(fed);
      assert block == buffer[..64] == fed[|fed| - 64..];
      Transform(state, data32);
      assert fed[..|fed| - 0] == fed && buffer[..0] == fed[|fed| - 0..];
    }

    /** curBufferPos = count & 0x3F. */
    method Position() returns (cur: nat)
      requires Valid()
      ensures cur == |msg| % 64
    {
      CountWraps(|msg|);
      cur := count % 64;
    }

    /** One iteration of sha256_update. */
    method Absorb(b: bv8, cur: nat) returns (next: nat)
      requires Valid() && cur == |msg| % 64
      modifies this, state, buffer
      ensures Valid() && next == |msg| % 64
      ensures msg == old(msg) + [b]
    {
      hide HashBlocks, StateOf, Absorbed;
      CountWraps(|msg|);
      NextPosition(|msg|);
      Put(b, cur, msg);
      next := cur + 1;
      count := (count + 1) % TWO64;
      msg := msg + [b];
      if next == 64 {
        next := 0;
        WriteByteBlock(msg);
      }
    }

    /** sha256_update: byte by byte, so any split of a message is absorbed alike. */
    method Update(data: seq<bv8>)
      requires Valid()
      modifies this, state, buffer
      ensures Valid() && msg == old(msg) + data
    {
      hide *;
      var cur := Position();
      var i := 0;
      while i < |data|
        invariant 0 <= i <= |data|
        invariant Valid() && cur == |msg| % 64
        invariant msg == old(msg) + data[..i]
      {
        assert data[..i + 1] == data[..i] + [data[i]];
        cur := Absorb(data[i], cur);
        i := i + 1;
      }
    }

    /** One iteration of the padding loop of sha256_final. */
    method PadByte(cur: nat, ghost fed: seq<bv8>) returns (next: nat)
      requires 1 <= cur <= 64 && Absorbed(fed, cur)
      modifies state, buffer
      ensures next == cur % 64 + 1 && Absorbed(fed + [0], next)
    {
      hide HashBlocks, StateOf, Absorbed;
      var pos := cur % 64;
      if pos == 0 {
        WriteByteBlock(fed);
      }
      Put(0, pos, fed);
      next := pos + 1;
    }

    /** The first loop of sha256_final: zeros up to position 56, wrapping to a new block
        when the marker byte left no room for the length. */
    method PadZeros(ghost marked: seq<bv8>, cur0: nat, ghost len: nat) returns (ghost fed: seq<bv8>)
      requires Absorbed(marked, cur0) && Padding(len, 0, cur0)
      modifies state, buffer
      ensures fed == marked + Zeros(ZeroPad(len))
      ensures Absorbed(fed, 56)
    {
      hide *;
      var cur := cur0;
      ghost var z := 0;
      fed := marked;
      ZerosFed(marked, 0);
      PaddingProgress(len, z, cur);
      while cur != 56
        invariant Padding(len, z, cur) && 1 <= cur <= 64 && z <= ZeroPad(len)
        invariant fed == marked + Zeros(z)
        invariant Absorbed(fed, cur)
        decreases ZeroPad(len) - z
      {
        PaddingProgress(len, z, cur);
        cur := PadByte(cur, fed);
        ZerosFed(marked, z);
        fed, z := fed + [0], z + 1;
        PaddingProgress(len, z, cur);
      }
      PaddingProgress(len, z, cur);
    }

    /** The second loop of sha256_final: the length, most significant byte first. */
    method PutLength(bits: nat, ghost padded: seq<bv8>)
      requires Absorbed(padded, 56) && bits < TWO64
      modifies state, buffer
      ensures Absorbed(padded + BeBytes(bits, 8), 64)
    {
      hide HashBlocks, StateOf, Absorbed, BeBytes, ByteOf;
      var lenInBits: nat, cur, i := bits, 56, 0;
      ghost var fed := padded;
      assert BeBytes(lenInBits, 8)[..8] == BeBytes(bits, 8);
      while i < 8
        invariant i <= 8 && cur == 56 + i
        invariant lenInBits < TWO64
        invariant fed + BeBytes(lenInBits, 8)[..8 - i] == padded + BeBytes(bits, 8)
        invariant Absorbed(fed, cur)
      {
        ShiftOutByte(lenInBits);
        ghost var rest := BeBytes(lenInBits, 8);
        var b := ByteOf(lenInBits / TWO56);
        Put(b, cur, fed);
        lenInBits := lenInBits * 256 % TWO64;
        assert rest[..8 - i] == [b] + rest[1..8 - i];
        assert BeBytes(lenInBits, 8)[..7 - i] == rest[1..8 - i];
        assert fed + ([b] + rest[1..8 - i]) == (fed + [b]) + rest[1..8 - i];
        fed := fed + [b];
        cur, i := cur + 1, i + 1;
      }
      assert fed == padded + BeBytes(bits, 8);
    }

    /** The padding of sha256_final: afterwards the state is the hash of the padded message. */
    method Finish()
      requires Valid()
      modifies state, buffer
      ensures |Pad(msg)| % 64 == 0 && StateOf(state[..]) == HashBlocks(Pad(msg))
    {
      hide HashBlocks, StateOf, Padding, BeBytes, Zeros, ZeroPad;
      var lenInBits := count * 8 % TWO64;
      var cur := Position();
      PaddingStarts(|msg|);
      LengthWraps(|msg|);
      Put(0x80, cur, msg);
      ghost var fed := PadZeros(msg + [0x80], cur + 1, |msg|);
      PutLength(lenInBits, fed);
      fed := fed + BeBytes(lenInBits, 8);
      assert fed == Pad(msg);
      WriteByteBlock(fed);
      assert fed[..|fed| - 0] == fed;
    }

    /** Four consecutive stores through the advancing pointer `digest`. */
    static method Store4(digest: array<bv8>, at: nat, p: nat, b: seq<bv8>)
      requires at <= p && p + 4 <= digest.Length && |b| == 4
      modifies digest
      ensures digest[at..p + 4] == old(digest[at..p]) + b
      ensures forall k | 0 <= k < digest.Length && !(p <= k < p + 4) :: digest[k] == old(digest[k])
    {
      digest[p] := b[0];
      digest[p + 1] := b[1];
      digest[p + 2] := b[2];
      digest[p + 3] := b[3];
    }

    /** The output loop of sha256_final: the state words, most significant byte first. */
    method WriteDigest(digest: array<bv8>, at: nat)
      requires state.Length == 8 && digest != buffer && at + 32 <= digest.Length
      modifies digest
      ensures digest[at..at + 32] == Digest(StateOf(state[..]))
      ensures forall k | 0 <= k < digest.Length && !(at <= k < at + 32) :: digest[k] == old(digest[k])
    {
      ghost var words := state[..];
      NoWords(words);
      DigestIsWordsBytes(words);
      hide *;
      var i := 0;
      while i < 8
        invariant i <= 8
        invariant digest[at..at + 4 * i] == WordsBytes(words[..i])
        invariant forall k | 0 <= k < digest.Length && !(at <= k < at + 4 * i) :: digest[k] == old(digest[k])
      {
        var b := WordBytes(state[i]);
        Store4(digest, at, at + 4 * i, b);
        OneMoreWord(words, i);
        i := i + 1;
      }
    }

    /** sha256_final: the digest goes to `digest` from position `at`, and the context restarts. */
    method Final(digest: array<bv8>, at: nat)
      requires Valid() && digest != buffer && at + 32 <= digest.Length
      modifies this, state, buffer, digest
      ensures Valid() && msg == []
      ensures digest[at..at + 32] == Sha256(old(msg))
      ensures forall k | 0 <= k < digest.Length && !(at <= k < at + 32) :: digest[k] == old(digest[k])
    {
      hide HashBlocks, StateOf, Digest, Pad;
      Finish();
      WriteDigest(digest, at);
      Init();
    }
  }

  /** sha256_hash. */
  method Hash(buf: array<bv8>, data: seq<bv8>)
    requires buf.Length >= 32
    modifies buf
    ensures buf[..32] == Sha256(data)
    ensures buf[32..] == old(buf[32..])
  {
    hide *;
    var ctx := new Context();
    ctx.Update(data);
    assert [] + data == data;
    ctx.Final(buf, 0);
  }
}
