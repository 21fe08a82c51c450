/** HMAC-SHA-256 of crypto/hmac-sha256.c against its definition in RFC 2104 section 2. */
module Hmac {
  import opened Sha256Spec
  import opened Sha256

  // RFC 2104 section 2, with B = 64 and H = SHA-256.

  /** The key of at most B bytes that steps (1) to (7) work with. */
  function ShortKey(key: seq<bv8>): (k: seq<bv8>)
    ensures |k| <= 64
  {
    if |key| > 64 then Sha256Spec.Sha256(key) else key
  }

  function Xor(x: bv8, y: bv8): bv8 { x ^ y }

  lemma XorIs(x: bv8, y: bv8)
    ensures Xor(x, y) == x ^ y && Xor(x, 0) == x
  {}

  /** The B-byte key string of step (1), combined with one pad byte as in steps (2) and (5). */
  function PaddedKey(key: seq<bv8>, pad: bv8): (k: seq<bv8>)
    requires |key| <= 64
    ensures |k| == 64
  {
    seq(64, i requires 0 <= i < 64 => Xor(pad, if i < |key| then key[i] else 0))
  }

  function HmacSha256(key: seq<bv8>, text: seq<bv8>): seq<bv8> {
    var k := ShortKey(key);
    Sha256Spec.Sha256(PaddedKey(k, 0x5C) + Sha256Spec.Sha256(PaddedKey(k, 0x36) + text))
  }

  /** IPAD and OPAD of the source. */
  const IPAD: bv8 := 0x36
  const OPAD: bv8 := 0x5C

  /** The two loops that fill kx with the key combined with `pad`. */
  method FillKx(kx: array<bv8>, key: array<bv8>, keyAt: nat, keyLen: nat, pad: bv8)
    requires kx.Length == 64 && kx != key && keyLen <= 64 && keyAt + keyLen <= key.Length
    modifies kx
    ensures kx[..] == PaddedKey(key[keyAt..keyAt + keyLen], pad)
  {
    hide Xor;
    var i := 0;
    while i < keyLen
      invariant i <= keyLen
      invariant forall n | 0 <= n < i :: kx[n] == Xor(pad, key[keyAt + n])
    {
      kx[i] := pad ^ key[keyAt + i];
      XorIs(pad, key[keyAt + i]);
      i := i + 1;
    }
    while i < 64
      invariant keyLen <= i <= 64
      invariant forall n | 0 <= n < keyLen :: kx[n] == Xor(pad, key[keyAt + n])
      invariant forall n | keyLen <= n < i :: kx[n] == Xor(pad, 0)
    {
      kx[i] := pad;
      XorIs(pad, 0);
      i := i + 1;
    }
  }

  /** One pass of H over kx followed by `text`, as hmac_sha256 does for steps (4) and (7). */
  method HashAfterKx(ss: Context, kx: array<bv8>, text: seq<bv8>, out: array<bv8>, outAt: nat)
    requires ss.state.Length == 8 && ss.buffer.Length == 64
    requires kx != ss.buffer && out != ss.buffer && outAt + 32 <= out.Length
    modifies ss, ss.state, ss.buffer, out
    ensures out[outAt..outAt + 32] == Sha256Spec.Sha256(old(kx[..]) + text)
    ensures forall n | 0 <= n < out.Length && !(outAt <= n < outAt + 32) :: out[n] == old(out[n])
  {
    hide *;
    ss.Init();
    ss.Update(kx[..]);
    ss.Update(text);
    assert [] + kx[..] + text == kx[..] + text;
    ss.Final(out, outAt);
  }

  /** Memory after a digest has been written to it. */
  ghost function Overwritten(mem: seq<bv8>, at: nat, digest: seq<bv8>): (m: seq<bv8>)
    requires at + |digest| <= |mem|
    ensures |m| == |mem|
  {
    mem[..at] + digest + mem[at + |digest|..]
  }

  /** The key that the second pass works with. A key of at most 64 bytes is read again after the first
      digest has been written, which shows if key and output are in the same memory. */
  ghost function SecondKey(mem: seq<bv8>, keyAt: nat, keyLen: nat, shared: bool, outAt: nat, digest: seq<bv8>): (k: seq<bv8>)
    requires keyAt + keyLen <= |mem| && (shared ==> outAt + |digest| <= |mem|)
    ensures |k| <= 64
  {
    if shared && keyLen <= 64 then Overwritten(mem, outAt, digest)[keyAt..keyAt + keyLen]
    else ShortKey(mem[keyAt..keyAt + keyLen])
  }

  /** The bytes of the key that are read again are not those of the output. */
  predicate KeySurvives(keyAt: nat, keyLen: nat, shared: bool, outAt: nat) {
    !shared || keyLen > 64 || keyLen == 0 || keyAt + keyLen <= outAt || outAt + 32 <= keyAt
  }

  /** Both passes work with the same key, whatever the first digest is, exactly if the key survives. */
  lemma SameKeyIffSurvives(mem: seq<bv8>, keyAt: nat, keyLen: nat, shared: bool, outAt: nat)
    requires keyAt + keyLen <= |mem| && (shared ==> outAt + 32 <= |mem|)
    ensures (forall d: seq<bv8> :: |d| == 32 ==> SecondKey(mem, keyAt, keyLen, shared, outAt, d) == ShortKey(mem[keyAt..keyAt + keyLen]))
            <==> KeySurvives(keyAt, keyLen, shared, outAt)
  {
    if KeySurvives(keyAt, keyLen, shared, outAt) {
      forall d: seq<bv8> | |d| == 32
        ensures SecondKey(mem, keyAt, keyLen, shared, outAt, d) == ShortKey(mem[keyAt..keyAt + keyLen])
      {
        if shared && keyLen <= 64 {
          assert Overwritten(mem, outAt, d)[keyAt..keyAt + keyLen] == mem[keyAt..keyAt + keyLen];
        }
      }
    } else {
      var at := if keyAt <= outAt then outAt else keyAt;
      var d := seq(32, i => if mem[at] == 0 then 1 else 0);
      assert |d| == 32 && Overwritten(mem, outAt, d)[at] == d[at - outAt] != mem[at];
      assert SecondKey(mem, keyAt, keyLen, shared, outAt, d)[at - keyAt] != mem[keyAt..keyAt + keyLen][at - keyAt];
    }
  }

  /** The replacement of a long key by its digest. */
  method Shorten(ss: Context, key: array<bv8>, keyAt: nat, keyLen: nat)
    returns (k: array<bv8>, kAt: nat, kLen: nat)
    requires ss.Valid() && ss.msg == [] && key != ss.buffer && keyAt + keyLen <= key.Length
    modifies ss, ss.state, ss.buffer
    ensures kLen <= 64 && kAt + kLen <= k.Length
    ensures ss.state.Length == 8 && ss.buffer.Length == 64
    ensures keyLen > 64 ==> fresh(k) && k != ss.buffer
    ensures keyLen <= 64 ==> (k, kAt, kLen) == (key, keyAt, keyLen)
    ensures k[kAt..kAt + kLen] == ShortKey(key[keyAt..keyAt + keyLen])
  {
    hide Sha256Spec.Sha256;
    k, kAt, kLen := key, keyAt, keyLen;
    if keyLen > 64 {
      var kh := new bv8[32];
      ss.Update(key[keyAt..keyAt + keyLen]);
      assert [] + key[keyAt..keyAt + keyLen] == key[keyAt..keyAt + keyLen];
      ss.Final(kh, 0);
      assert kh[0..32] == kh[0..0 + 32];
      k, kAt, kLen := kh, 0, 32;
    }
  }

  /** Steps (1) to (4). Of all that existed before, only the output changes. */
  method FirstPass(ss: Context, kx: array<bv8>, k: array<bv8>, kAt: nat, kLen: nat, text: seq<bv8>, out: array<bv8>, outAt: nat)
    returns (ghost inner: seq<bv8>)
    requires ss.state.Length == 8 && ss.buffer.Length == 64 && kx.Length == 64 && kx != k && kx != out && kx != ss.buffer
    requires kLen <= 64 && kAt + kLen <= k.Length && out != ss.buffer && k != ss.buffer && outAt + 32 <= out.Length
    modifies ss, ss.state, ss.buffer, kx, out
    ensures ss.state.Length == 8 && ss.buffer.Length == 64
    ensures inner == Sha256Spec.Sha256(PaddedKey(old(k[kAt..kAt + kLen]), 0x36) + text) && |inner| == 32
    ensures out[..] == Overwritten(old(out[..]), outAt, inner) && out[outAt..outAt + 32] == inner
    ensures forall n | 0 <= n < out.Length && !(outAt <= n < outAt + 32) :: out[n] == old(out[n])
    ensures k != out ==> k[..] == old(k[..]) && k[kAt..kAt + kLen] == old(k[kAt..kAt + kLen])
  {
    hide Sha256Spec.Sha256, PaddedKey;
    FillKx(kx, k, kAt, kLen, IPAD);
    HashAfterKx(ss, kx, text, out, outAt);
    inner := out[outAt..outAt + 32];
  }

  /** Steps (5) to (7). */
  method SecondPass(ss: Context, kx: array<bv8>, k: array<bv8>, kAt: nat, kLen: nat, out: array<bv8>, outAt: nat,
                    ghost key: seq<bv8>, ghost inner: seq<bv8>)
    requires ss.state.Length == 8 && ss.buffer.Length == 64 && kx.Length == 64 && kx != k && kx != out && kx != ss.buffer
    requires kLen <= 64 && kAt + kLen <= k.Length && out != ss.buffer && outAt + 32 <= out.Length
    requires key == k[kAt..kAt + kLen] && inner == out[outAt..outAt + 32]
    modifies ss, ss.state, ss.buffer, kx, out
    ensures out[outAt..outAt + 32] == Sha256Spec.Sha256(PaddedKey(key, 0x5C) + inner)
    ensures forall n | 0 <= n < out.Length && !(outAt <= n < outAt + 32) :: out[n] == old(out[n])
  {
    hide Sha256Spec.Sha256, PaddedKey;
    FillKx(kx, k, kAt, kLen, OPAD);
    HashAfterKx(ss, kx, out[outAt..outAt + 32], out, outAt);
  }

  lemma SecondKeyIs(mem: seq<bv8>, now: seq<bv8>, keyAt: nat, keyLen: nat, shared: bool, outAt: nat, digest: seq<bv8>)
    requires keyAt + keyLen <= |mem| && (shared ==> outAt + |digest| <= |mem|)
    requires now == if shared then Overwritten(mem, outAt, digest) else mem
    ensures SecondKey(mem, keyAt, keyLen, shared, outAt, digest)
         == if keyLen <= 64 then now[keyAt..keyAt + keyLen] else ShortKey(mem[keyAt..keyAt + keyLen])
  {}

  lemma Survived(mem: seq<bv8>, keyAt: nat, keyLen: nat, shared: bool, outAt: nat, digest: seq<bv8>)
    requires keyAt + keyLen <= |mem| && (shared ==> outAt + 32 <= |mem|) && |digest| == 32
    ensures KeySurvives(keyAt, keyLen, shared, outAt) ==>
              SecondKey(mem, keyAt, keyLen, shared, outAt, digest) == ShortKey(mem[keyAt..keyAt + keyLen])
  {
    SameKeyIffSurvives(mem, keyAt, keyLen, shared, outAt);
  }

  lemma HmacIs(key: seq<bv8>, text: seq<bv8>)
    ensures var k := ShortKey(key);
            HmacSha256(key, text) == Sha256Spec.Sha256(PaddedKey(k, 0x5C) + Sha256Spec.Sha256(PaddedKey(k, 0x36) + text))
  {}

  /** The locals of hmac_sha256, and the key it works with. */
  method Prepare(key: array<bv8>, keyAt: nat, keyLen: nat)
    returns (ss: Context, kx: array<bv8>, k: array<bv8>, kAt: nat, kLen: nat)
    requires keyAt + keyLen <= key.Length
    ensures fresh(ss) && fresh(ss.state) && fresh(ss.buffer) && fresh(kx) && kx != ss.buffer && k != kx && k != ss.buffer
    ensures ss.state.Length == 8 && ss.buffer.Length == 64 && kx.Length == 64 && kLen <= 64 && kAt + kLen <= k.Length
    ensures if keyLen <= 64 then (k, kAt, kLen) == (key, keyAt, keyLen) else fresh(k)
    ensures k[kAt..kAt + kLen] == ShortKey(key[..][keyAt..keyAt + keyLen])
  {
    assert key[keyAt..keyAt + keyLen] == key[..][keyAt..keyAt + keyLen];
    hide *;
    ss := new Context();
    k, kAt, kLen := Shorten(ss, key, keyAt, keyLen);
    kx := new bv8[64];
  }

  /** hmac_sha256 up to step (4). */
  method Inner(out: array<bv8>, outAt: nat, data: array<bv8>, dataAt: nat, dataLen: nat,
               key: array<bv8>, keyAt: nat, keyLen: nat)
    returns (ss: Context, kx: array<bv8>, k: array<bv8>, kAt: nat, kLen: nat, ghost inner: seq<bv8>)
    requires outAt + 32 <= out.Length && dataAt + dataLen <= data.Length && keyAt + keyLen <= key.Length
    modifies out
    ensures fresh(ss) && fresh(ss.state) && fresh(ss.buffer) && fresh(kx) && kx != ss.buffer && k != kx
    ensures ss.state.Length == 8 && ss.buffer.Length == 64 && kx.Length == 64 && kLen <= 64 && kAt + kLen <= k.Length
    ensures |inner| == 32 && out[outAt..outAt + 32] == inner
    ensures inner == Sha256Spec.Sha256(PaddedKey(ShortKey(old(key[..])[keyAt..keyAt + keyLen]), 0x36)
                                       + old(data[dataAt..dataAt + dataLen]))
    ensures k[kAt..kAt + kLen] == SecondKey(old(key[..]), keyAt, keyLen, key == out, outAt, inner)
    ensures forall n | 0 <= n < out.Length && !(outAt <= n < outAt + 32) :: out[n] == old(out[n])
  {
    ghost var mem := key[..];
    hide *;
    ss, kx, k, kAt, kLen := Prepare(key, keyAt, keyLen);
    ghost var short := k[kAt..kAt + kLen];
    inner := FirstPass(ss, kx, k, kAt, kLen, data[dataAt..dataAt + dataLen], out, outAt);
    SecondKeyIs(mem, key[..], keyAt, keyLen, key == out, outAt, inner);
    if keyLen <= 64 {
      assert key[keyAt..keyAt + keyLen] == key[..][keyAt..keyAt + keyLen];
    } else {
      assert k[kAt..kAt + kLen] == short;
    }
  }

  /** hmac_sha256, with `out` anywhere: the two hashes of RFC 2104, of which the second uses the key as
      it is then. If the key survives, the result is the HMAC; data may always be overwritten. */
  method HmacOver(out: array<bv8>, outAt: nat, data: array<bv8>, dataAt: nat, dataLen: nat,
                  key: array<bv8>, keyAt: nat, keyLen: nat)
    requires outAt + 32 <= out.Length && dataAt + dataLen <= data.Length && keyAt + keyLen <= key.Length
    modifies out
    ensures var text := old(data[dataAt..dataAt + dataLen]);
            var inner := Sha256Spec.Sha256(PaddedKey(ShortKey(old(key[keyAt..keyAt + keyLen])), 0x36) + text);
            out[outAt..outAt + 32]
            == Sha256Spec.Sha256(PaddedKey(SecondKey(old(key[..]), keyAt, keyLen, key == out, outAt, inner), 0x5C) + inner)
    ensures KeySurvives(keyAt, keyLen, key == out, outAt) ==>
              out[outAt..outAt + 32] == HmacSha256(old(key[keyAt..keyAt + keyLen]), old(data[dataAt..dataAt + dataLen]))
    ensures forall n | 0 <= n < out.Length && !(outAt <= n < outAt + 32) :: out[n] == old(out[n])
  {
    ghost var mem, text := key[..], data[dataAt..dataAt + dataLen];
    hide *;
    var ss, kx, k, kAt, kLen, inner := Inner(out, outAt, data, dataAt, dataLen, key, keyAt, keyLen);
    SecondPass(ss, kx, k, kAt, kLen, out, outAt, SecondKey(mem, keyAt, keyLen, key == out, outAt, inner), inner);
    assert key[keyAt..keyAt + keyLen] == key[..][keyAt..keyAt + keyLen];
    Survived(mem, keyAt, keyLen, key == out, outAt, inner);
    HmacIs(mem[keyAt..keyAt + keyLen], text);
  }
}
