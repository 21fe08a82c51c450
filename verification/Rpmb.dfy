/** The RPMB part of drivers/mmc.c: preparing, authenticating and parsing the 512-byte data
    frame of JESD84-B51 section 6.6.22. */
module Rpmb {
  import opened Sha256Spec
  import opened Hmac

  // Request types (drivers/mmc.h).
  const PROGRAM_KEY: bv16 := 1
  const GET_WRITE_COUNTER: bv16 := 2
  const WRITE_DATA: bv16 := 3
  const READ_DATA: bv16 := 4
  const RESULT_READ: bv16 := 5

  // Field offsets (drivers/mmc.h).
  const TYPE_BEG := 510
  const RES_BEG := 508
  const BLKS_BEG := 506
  const ADDR_BEG := 504
  const WCOUNTER_BEG := 500
  const NONCE_BEG := 484
  const DATA_BEG := 228
  const MAC_BEG := 196

  const EINVAL := -22
  const ENOMEM := -12
  const EOPNOTSUPP := -95

  // ---- The frame of JESD84-B51 section 6.6.22: nine fields in this order, numbers MSB first ----

  datatype Frame = Frame(stuff: seq<bv8>, mac: seq<bv8>, data: seq<bv8>, nonce: seq<bv8>,
                         counter: bv32, addr: bv16, blks: bv16, result: bv16, kind: bv16)
  {
    ghost predicate WellFormed() {
      |stuff| == 196 && |mac| == 32 && |data| == 256 && |nonce| == 16
    }
  }

  function Be16(x: bv16): (s: seq<bv8>)
    ensures |s| == 2
  {
    [(x >> 8) as bv8, (x & 0xFF) as bv8]
  }

  function Half(b0: bv8, b1: bv8): bv16 { (b0 as bv16 << 8) | b1 as bv16 }

  function Encode(f: Frame): (s: seq<bv8>)
    requires f.WellFormed()
    ensures |s| == 512
  {
    f.stuff + f.mac + f.data + f.nonce
    + WordBytes(f.counter) + Be16(f.addr) + Be16(f.blks) + Be16(f.result) + Be16(f.kind)
  }

  function Decode(s: seq<bv8>): (f: Frame)
    requires |s| == 512
    ensures f.WellFormed()
  {
    Frame(s[..196], s[196..228], s[228..484], s[484..500], BeWord(s[500], s[501], s[502], s[503]),
          Half(s[504], s[505]), Half(s[506], s[507]), Half(s[508], s[509]), Half(s[510], s[511]))
  }

  lemma NumbersDecode(x: bv16, y: bv32)
    ensures Half(Be16(x)[0], Be16(x)[1]) == x
    ensures BeWord(WordBytes(y)[0], WordBytes(y)[1], WordBytes(y)[2], WordBytes(y)[3]) == y
  {}

  lemma NumbersEncode(b0: bv8, b1: bv8, b2: bv8, b3: bv8)
    ensures Be16(Half(b0, b1)) == [b0, b1]
    ensures WordBytes(BeWord(b0, b1, b2, b3)) == [b0, b1, b2, b3]
  {}

  lemma DecodeEncode(f: Frame)
    requires f.WellFormed()
    ensures Decode(Encode(f)) == f
  {
    hide Be16, WordBytes, Half, BeWord;
    var s := Encode(f);
    NumbersDecode(f.addr, f.counter);
    NumbersDecode(f.blks, 0);
    NumbersDecode(f.result, 0);
    NumbersDecode(f.kind, 0);
    Placed([], f.stuff, s[196..]);
    Placed(f.stuff, f.mac, s[228..]);
    Placed(f.stuff + f.mac, f.data, s[484..]);
    Placed(f.stuff + f.mac + f.data, f.nonce, s[500..]);
    var fields := f.stuff + f.mac + f.data + f.nonce;
    Placed(fields, WordBytes(f.counter), s[504..]);
    Placed(fields + WordBytes(f.counter), Be16(f.addr), s[506..]);
    Placed(fields + WordBytes(f.counter) + Be16(f.addr), Be16(f.blks), s[508..]);
    Placed(fields + WordBytes(f.counter) + Be16(f.addr) + Be16(f.blks), Be16(f.result), s[510..]);
    Placed(fields + WordBytes(f.counter) + Be16(f.addr) + Be16(f.blks) + Be16(f.result), Be16(f.kind), []);
  }

  lemma Placed(before: seq<bv8>, field: seq<bv8>, after: seq<bv8>)
    ensures (before + field + after)[|before|..|before| + |field|] == field
  {}

  lemma EncodeDecode(s: seq<bv8>)
    requires |s| == 512
    ensures Encode(Decode(s)) == s
  {
    hide Be16, WordBytes, Half, BeWord;
    NumbersEncode(s[500], s[501], s[502], s[503]);
    NumbersEncode(s[504], s[505], 0, 0);
    NumbersEncode(s[506], s[507], 0, 0);
    NumbersEncode(s[508], s[509], 0, 0);
    NumbersEncode(s[510], s[511], 0, 0);
  }

  // ---- Writing one field ----

  /** A frame after memcpy(frame + at, b, |b|). */
  function Overlay(s: seq<bv8>, at: nat, b: seq<bv8>): (r: seq<bv8>)
    requires at + |b| <= |s|
    ensures |r| == |s|
  {
    s[..at] + b + s[at + |b|..]
  }

  lemma OverlayAt(s: seq<bv8>, at: nat, b: seq<bv8>)
    requires at + |b| <= |s|
    ensures Overlay(s, at, b)[at..at + |b|] == b
  {}

  lemma OverlayBeside(s: seq<bv8>, at: nat, b: seq<bv8>, lo: nat, hi: nat)
    requires at + |b| <= |s| && lo <= hi <= |s| && (hi <= at || at + |b| <= lo)
    ensures Overlay(s, at, b)[lo..hi] == s[lo..hi]
  {}

  lemma SetMac(s: seq<bv8>, b: seq<bv8>)
    requires |s| == 512 && |b| == 32
    ensures Decode(Overlay(s, MAC_BEG, b)) == Decode(s).(mac := b)
  {
    hide Half, BeWord;
    OverlayAt(s, MAC_BEG, b);
    OverlayBeside(s, MAC_BEG, b, 0, 196);
    OverlayBeside(s, MAC_BEG, b, 228, 484);
    OverlayBeside(s, MAC_BEG, b, 484, 500);
    assert Overlay(s, MAC_BEG, b)[..196] == Overlay(s, MAC_BEG, b)[0..196] && s[..196] == s[0..196];
  }

  lemma SetData(s: seq<bv8>, b: seq<bv8>)
    requires |s| == 512 && |b| == 256
    ensures Decode(Overlay(s, DATA_BEG, b)) == Decode(s).(data := b)
  {
    hide Half, BeWord;
    OverlayAt(s, DATA_BEG, b);
    OverlayBeside(s, DATA_BEG, b, 0, 196);
    OverlayBeside(s, DATA_BEG, b, 196, 228);
    OverlayBeside(s, DATA_BEG, b, 484, 500);
    assert Overlay(s, DATA_BEG, b)[..196] == Overlay(s, DATA_BEG, b)[0..196] && s[..196] == s[0..196];
  }

  lemma SetNonce(s: seq<bv8>, b: seq<bv8>)
    requires |s| == 512 && |b| == 16
    ensures Decode(Overlay(s, NONCE_BEG, b)) == Decode(s).(nonce := b)
  {
    hide Half, BeWord;
    OverlayAt(s, NONCE_BEG, b);
    OverlayBeside(s, NONCE_BEG, b, 0, 196);
    OverlayBeside(s, NONCE_BEG, b, 196, 228);
    OverlayBeside(s, NONCE_BEG, b, 228, 484);
    assert Overlay(s, NONCE_BEG, b)[..196] == Overlay(s, NONCE_BEG, b)[0..196] && s[..196] == s[0..196];
  }

  lemma SetNumbers(s: seq<bv8>, x: bv16, y: bv32)
    requires |s| == 512
    ensures Decode(Overlay(s, WCOUNTER_BEG, WordBytes(y))) == Decode(s).(counter := y)
    ensures Decode(Overlay(s, ADDR_BEG, Be16(x))) == Decode(s).(addr := x)
    ensures Decode(Overlay(s, BLKS_BEG, Be16(x))) == Decode(s).(blks := x)
    ensures Decode(Overlay(s, TYPE_BEG, Be16(x))) == Decode(s).(kind := x)
  {
    NumbersDecode(x, y);
    SetNumberAt(s, WCOUNTER_BEG, WordBytes(y));
    SetNumberAt(s, ADDR_BEG, Be16(x));
    SetNumberAt(s, BLKS_BEG, Be16(x));
    SetNumberAt(s, TYPE_BEG, Be16(x));
    hide Half, BeWord, Be16, WordBytes;
  }

  /** A store into the numeric part leaves the byte-string fields alone. */
  lemma SetNumberAt(s: seq<bv8>, at: nat, b: seq<bv8>)
    requires |s| == 512 && 500 <= at && at + |b| <= 512
    ensures var t := Overlay(s, at, b);
            t[..196] == s[..196] && t[196..228] == s[196..228] && t[228..484] == s[228..484] && t[484..500] == s[484..500]
  {
    OverlayBeside(s, at, b, 0, 196);
    OverlayBeside(s, at, b, 196, 228);
    OverlayBeside(s, at, b, 228, 484);
    OverlayBeside(s, at, b, 484, 500);
    var t := Overlay(s, at, b);
    hide Overlay;
    assert t[..196] == t[0..196] && s[..196] == s[0..196];
  }

  /** memcpy into the frame. */
  method MemCpy(frame: array<bv8>, at: nat, b: seq<bv8>)
    requires at + |b| <= frame.Length
    modifies frame
    ensures frame[..] == Overlay(old(frame[..]), at, b)
  {
    var i := 0;
    while i < |b|
      invariant i <= |b|
      invariant forall k | 0 <= k < frame.Length ::
                  frame[k] == if at <= k < at + i then b[k - at] else old(frame[k])
    {
      frame[at + i] := b[i];
      i := i + 1;
    }
  }

  // One memcpy of the preparation code each, seen as an update of the decoded frame.

  method PutHalf(frame: array<bv8>, at: nat, x: bv16)
    requires frame.Length == 512 && (at == ADDR_BEG || at == BLKS_BEG || at == TYPE_BEG)
    modifies frame
    ensures at == ADDR_BEG ==> Decode(frame[..]) == Decode(old(frame[..])).(addr := x)
    ensures at == BLKS_BEG ==> Decode(frame[..]) == Decode(old(frame[..])).(blks := x)
    ensures at == TYPE_BEG ==> Decode(frame[..]) == Decode(old(frame[..])).(kind := x)
  {
    hide Be16, LittleEndian16, Bswap16, Decode, Overlay;
    SwappedStoresAreBigEndian(x, 0);
    SetNumbers(frame[..], x, 0);
    MemCpy(frame, at, LittleEndian16(Bswap16(x)));
  }

  method PutCounter(frame: array<bv8>, x: bv32)
    requires frame.Length == 512
    modifies frame
    ensures Decode(frame[..]) == Decode(old(frame[..])).(counter := x)
  {
    hide WordBytes, LittleEndian32, Bswap32, Decode, Overlay;
    SwappedStoresAreBigEndian(0, x);
    SetNumbers(frame[..], 0, x);
    MemCpy(frame, WCOUNTER_BEG, LittleEndian32(Bswap32(x)));
  }

  method PutBytes(frame: array<bv8>, at: nat, b: seq<bv8>)
    requires frame.Length == 512
    requires (at == MAC_BEG && |b| == 32) || (at == DATA_BEG && |b| == 256) || (at == NONCE_BEG && |b| == 16)
    modifies frame
    ensures at == MAC_BEG ==> Decode(frame[..]) == Decode(old(frame[..])).(mac := b)
    ensures at == DATA_BEG ==> Decode(frame[..]) == Decode(old(frame[..])).(data := b)
    ensures at == NONCE_BEG ==> Decode(frame[..]) == Decode(old(frame[..])).(nonce := b)
    ensures at == MAC_BEG ==> frame[DATA_BEG..] == old(frame[DATA_BEG..])
  {
    ghost var s := frame[..];
    MemCpy(frame, at, b);
    if at == MAC_BEG {
      SetMac(s, b);
      assert Overlay(s, at, b)[DATA_BEG..] == s[DATA_BEG..];
    } else if at == DATA_BEG {
      SetData(s, b);
    } else {
      SetNonce(s, b);
    }
    hide Decode;
  }

  // ---- Requests ----

  /** cpu_to_be16p and the store of its result by a little-endian CPU. */
  function Bswap16(x: bv16): bv16 { (x << 8) | (x >> 8) }

  function LittleEndian16(x: bv16): (s: seq<bv8>)
    ensures |s| == 2
  {
    [(x & 0xFF) as bv8, (x >> 8) as bv8]
  }

  function Bswap32(x: bv32): bv32 {
    (x << 24) | ((x << 8) & 0xFF0000) | ((x >> 8) & 0xFF00) | (x >> 24)
  }

  function LittleEndian32(x: bv32): (s: seq<bv8>)
    ensures |s| == 4
  {
    [(x & 0xFF) as bv8, ((x >> 8) & 0xFF) as bv8, ((x >> 16) & 0xFF) as bv8, (x >> 24) as bv8]
  }

  lemma SwappedStoresAreBigEndian(x: bv16, y: bv32)
    ensures LittleEndian16(Bswap16(x)) == Be16(x)
    ensures LittleEndian32(Bswap32(y)) == WordBytes(y)
  {}

  /** A little-endian load. */
  function Load16(b0: bv8, b1: bv8): bv16 { b0 as bv16 | (b1 as bv16 << 8) }

  function Load32(b0: bv8, b1: bv8, b2: bv8, b3: bv8): bv32 {
    b0 as bv32 | (b1 as bv32 << 8) | (b2 as bv32 << 16) | (b3 as bv32 << 24)
  }

  lemma SwappedLoadsAreBigEndian(b0: bv8, b1: bv8, b2: bv8, b3: bv8)
    ensures Bswap16(Load16(b0, b1)) == Half(b0, b1)
    ensures Bswap32(Load32(b0, b1, b2, b3)) == BeWord(b0, b1, b2, b3)
  {}

  /** struct mmc_ioc_rpmb_req; a null array is a null pointer. */
  class Request {
    var kind: bv16
    var result: array?<bv16>
    var blkCnt: bv16
    var addr: bv16
    var wc: array?<bv32>
    var nonce: array?<bv8>
    var data: array?<bv8>
    var mac: array?<bv8>

    constructor (kind: bv16)
      ensures this.kind == kind && blkCnt == 0 && addr == 0
      ensures result == null && wc == null && nonce == null && data == null && mac == null
    {
      this.kind := kind;
      blkCnt, addr := 0, 0;
      result, wc, nonce, data, mac := null, null, null, null, null;
    }

    /** Whatever buffers are present have the sizes the frame code copies. */
    ghost predicate Sized()
      reads this
    {
      (result != null ==> result.Length == 1) && (wc != null ==> wc.Length == 1)
      && (nonce != null ==> nonce.Length >= 16) && (data != null ==> data.Length >= 256)
      && (mac != null ==> mac.Length == 32)
    }

    /** The buffers JESD84-B51 needs for this type are present, and the request is one block. The types of
        section 6.6.22.3 are 1 (key), 2 (counter), 3 (write) and 4 (read). */
    ghost predicate Complete()
      reads this
    {
      result != null &&
      (|| (kind == 2 && nonce != null && wc != null)
       || (kind == 3 && blkCnt == 1 && data != null && wc != null && mac != null)
       || (kind == 4 && blkCnt == 1 && data != null && nonce != null)
       || (kind == 1 && mac != null))
    }

    /** mmc_rpmb_request_check. */
    method Check() returns (code: int)
      modifies this`blkCnt
      ensures code == 0 && blkCnt == 1 <==> old(Complete())
      ensures code == 0 && blkCnt == 1 ==> Complete()
      ensures blkCnt == if code == 0 && kind in {1, 2} then 1 else old(blkCnt)
      ensures code == 0 && kind in {3, 4} ==> blkCnt > 0
      ensures code == -95 <==> result != null && kind !in {1, 2, 3, 4}
      ensures code in {0, -22, -95}
    {
      if result == null {
        return EINVAL;
      }
      if kind == GET_WRITE_COUNTER {
        if nonce == null || wc == null {
          return EINVAL;
        }
        blkCnt := 1;
      } else if kind == WRITE_DATA || kind == READ_DATA {
        if blkCnt == 0 {
          return EINVAL;
        }
        if data == null {
          return EINVAL;
        }
        if kind == WRITE_DATA {
          if wc == null || mac == null {
            return EINVAL;
          }
        } else {
          if nonce == null {
            return EINVAL;
          }
        }
      } else if kind == PROGRAM_KEY {
        if mac == null {
          return EINVAL;
        }
        blkCnt := 1;
      } else {
        return EOPNOTSUPP;
      }
      return 0;
    }
  }

  /** struct mmc_core_rpmb_req. */
  class CoreRequest {
    const req: Request
    const frame: array<bv8>
    var ready: bool

    constructor (req: Request)
      ensures this.req == req && frame.Length == 512 && fresh(frame) && !ready
      ensures frame[..] == Zeros(512)
    {
      this.req := req;
      frame := new bv8[512](_ => 0);
      ready := false;
    }

    ghost predicate Valid()
      reads this, req
    {
      frame.Length == 512 && req.Sized() && frame != req.nonce && frame != req.data && frame != req.mac
    }

    /** The fields a complete request puts into frame `f`. */
    ghost function Prepared(f: Frame): Frame
      requires Valid() && req.Complete()
      reads this, req, req.wc, req.nonce, req.data, req.mac
    {
      if req.kind == 2 then
        f.(kind := req.kind, nonce := req.nonce[..16])
      else if req.kind == 4 then
        f.(kind := req.kind, addr := req.addr, nonce := req.nonce[..16])
      else if req.kind == 3 then
        f.(kind := req.kind, blks := 1, addr := req.addr, counter := req.wc[0],
           data := req.data[..256], mac := req.mac[..])
      else
        f.(kind := req.kind, mac := req.mac[..])
    }

    /** The body of the block loop for WRITE_DATA, after the type, and the MAC copy that follows it. */
    method FillWrite()
      requires Valid() && req.Complete() && req.kind == WRITE_DATA
      modifies frame
      ensures Decode(frame[..]) == Decode(old(frame[..])).(blks := req.blkCnt, addr := req.addr,
                 counter := req.wc[0], data := req.data[..256], mac := req.mac[..])
    {
      hide Decode;
      PutHalf(frame, BLKS_BEG, req.blkCnt);
      PutHalf(frame, ADDR_BEG, req.addr);
      PutCounter(frame, req.wc[0]);
      PutBytes(frame, DATA_BEG, req.data[..256]);
      PutBytes(frame, MAC_BEG, req.mac[..]);
    }

    /** mmc_rpmb_pre_frame: it succeeds exactly on complete requests. */
    method PreFrame() returns (code: int)
      requires Valid()
      modifies this`ready, frame, req`blkCnt
      ensures Valid()
      ensures ready == (code == 0)
      ensures code == 0 <==> old(req.Complete())
      ensures code == 0 ==> req.Complete() && req.blkCnt == 1 && Decode(frame[..]) == Prepared(Decode(old(frame[..])))
      ensures code != 0 ==> frame[..] == old(frame[..])
      ensures code in {0, -12, -22, -95}
    {
      ready := false;
      ghost var f := Decode(frame[..]);
      hide Decode;
      code := req.Check();
      if code != 0 {
        return;
      }
      if req.blkCnt != 1 {
        return ENOMEM;
      }
      if req.kind == GET_WRITE_COUNTER || req.kind == READ_DATA {
        PutHalf(frame, TYPE_BEG, req.kind);
        if req.kind == READ_DATA {
          PutHalf(frame, ADDR_BEG, req.addr);
        }
        PutBytes(frame, NONCE_BEG, req.nonce[..16]);
      } else if req.kind == WRITE_DATA {
        PutHalf(frame, TYPE_BEG, req.kind);
        FillWrite();
      } else {
        PutHalf(frame, TYPE_BEG, req.kind);
        PutBytes(frame, MAC_BEG, req.mac[..]);
      }
      ready := true;
    }

    /** rpmb_calc_mac: the MAC of the final bytes 228 to 511, whose insertion below them
        leaves every other field alone. */
    method CalcMac(key: array<bv8>)
      requires Valid() && req.mac != null && key.Length == 32 && key != req.mac
      modifies frame, req.mac
      ensures Decode(frame[..]).mac == HmacSha256(old(key[..]), frame[228..])
      ensures Decode(frame[..]) == Decode(old(frame[..])).(mac := Decode(frame[..]).mac)
      ensures req.mac[..] == Decode(frame[..]).mac
    {
      hide HmacSha256, Decode;
      HmacOver(req.mac, 0, frame, DATA_BEG, 512 - DATA_BEG, key, 0, key.Length);
      assert key[0..0 + key.Length] == key[..];
      assert frame[DATA_BEG..DATA_BEG + (512 - DATA_BEG)] == frame[DATA_BEG..];
      assert req.mac[0..0 + 32] == req.mac[..];
      PutBytes(frame, MAC_BEG, req.mac[..]);
    }

    /** mmc_rpmb_post_frame for one block: what each request type takes out of the response. For READ_DATA
        the MAC is taken from behind the frame, so that it can be anything. */
    method PostFrame()
      requires Valid() && (ready ==> req.Complete() && req.blkCnt == 1)
      requires req.data != null ==> req.data != req.nonce && req.data != req.mac
      requires req.nonce != null ==> req.nonce != req.mac
      modifies req.result, req.wc, req.nonce, req.data, req.mac
      ensures ready ==> req.result[0] == Decode(frame[..]).result
      ensures ready && req.kind in {2, 3} ==> req.wc[0] == Decode(frame[..]).counter
      ensures ready && req.kind in {2, 4} ==> req.nonce[..16] == Decode(frame[..]).nonce
      ensures ready && req.kind == 4 ==>
                req.data[..256] == Decode(frame[..]).data && req.data[256..] == old(req.data[256..])
      ensures ready && req.kind in {2, 3} && req.mac != null ==>
                req.mac[..] == Decode(frame[..]).mac
      ensures ready && req.kind == 1 ==> req.mac[..] == old(req.mac[..])
    {
      if !ready {
        return;
      }
      DecodeFields(frame[..]);
      hide Half, BeWord, Bswap16, Bswap32, Decode;
      TakeNumbers();
      if req.kind == PROGRAM_KEY {
        return;
      }
      if req.kind == GET_WRITE_COUNTER || req.kind == READ_DATA {
        MemCpy(req.nonce, 0, frame[NONCE_BEG..NONCE_BEG + 16]);
      }
      if req.kind == READ_DATA {
        MemCpy(req.data, 0, frame[DATA_BEG..DATA_BEG + 256]);
        if req.mac != null {
          var behind := BehindFrame();
          MemCpy(req.mac, 0, behind);
        }
      } else if req.mac != null {
        MemCpy(req.mac, 0, frame[MAC_BEG..MAC_BEG + 32]);
      }
    }

    /** 32 bytes of whatever memory follows the frame. */
    method BehindFrame() returns (s: seq<bv8>)
      ensures |s| == 32
    {
      s := [];
      while |s| < 32
        invariant |s| <= 32
      {
        var b: bv8 := *;
        s := s + [b];
      }
    }

    /** The result code and, where there is one, the write counter. */
    method TakeNumbers()
      requires Valid() && req.Complete()
      modifies req.result, req.wc
      ensures req.result[0] == Half(frame[RES_BEG], frame[RES_BEG + 1])
      ensures req.kind in {GET_WRITE_COUNTER, WRITE_DATA} ==>
                req.wc[0] == BeWord(frame[500], frame[501], frame[502], frame[503])
    {
      hide Half, BeWord, Bswap16, Bswap32, Load16, Load32;
      SwappedLoadsAreBigEndian(frame[RES_BEG], frame[RES_BEG + 1], 0, 0);
      req.result[0] := Bswap16(Load16(frame[RES_BEG], frame[RES_BEG + 1]));
      if req.kind == GET_WRITE_COUNTER || req.kind == WRITE_DATA {
        SwappedLoadsAreBigEndian(frame[500], frame[501], frame[502], frame[503]);
        req.wc[0] := Bswap32(Load32(frame[500], frame[501], frame[502], frame[503]));
      }
    }
  }

  lemma DecodeFields(s: seq<bv8>)
    requires |s| == 512
    ensures var f := Decode(s);
            f.result == Half(s[508], s[509]) && f.counter == BeWord(s[500], s[501], s[502], s[503])
            && f.nonce == s[484..500] && f.data == s[228..484] && f.mac == s[196..228]
  {}

  // ---- Payload order ----

  function Reversed(s: seq<bv8>): (r: seq<bv8>)
    ensures |r| == |s|
  {
    seq(|s|, i requires 0 <= i < |s| => s[|s| - 1 - i])
  }

  lemma ReversedTwice(s: seq<bv8>)
    ensures Reversed(Reversed(s)) == s
  {}

  /** byteswap. */
  method ByteSwap(buf: array<bv8>, sz: nat)
    requires sz <= buf.Length
    modifies buf
    ensures buf[..sz] == Reversed(old(buf[..sz])) && buf[sz..] == old(buf[sz..])
  {
    var i := 0;
    while i < sz / 2
      invariant i <= sz / 2
      invariant forall k | 0 <= k < i :: buf[k] == old(buf[sz - 1 - k]) && buf[sz - 1 - k] == old(buf[k])
      invariant forall k | i <= k < sz - i || sz <= k < buf.Length :: buf[k] == old(buf[k])
    {
      var j := sz - i - 1;
      var o := buf[j];
      buf[j] := buf[i];
      buf[i] := o;
      i := i + 1;
    }
  }

  // ---- Commands and transfers ----

  /** What crosses the bus: an acknowledged command, or a frame in either direction. */
  datatype Event = Command(opcode: nat, arg: bv32) | Out(frame: seq<bv8>) | In(frame: seq<bv8>)

  /** The number of the RPMB partition for mmc_set_part. */
  const RPMB_PART: bv8 := 3

  const PART_CONFIG: bv8 := 179
  const CMD_SET_NORMAL: bv8 := 1
  const STATE_PRG: bv32 := 7
  const SWITCH_ERROR: bv32 := 0x80
  const EBADMSG := -74

  /** The argument that __mmc_switch assembles for CMD6. */
  function SwitchArg(cmdSet: bv8, index: bv8, value: bv8): bv32 {
    (3 << 24) | (index as bv32 << 16) | (value as bv32 << 8) | cmdSet as bv32
  }

  /** It writes one byte: the access mode is write-byte, and index, value and command set are in
      the places of JESD84-B51 section 6.6.1. */
  lemma SwitchArgFields(cmdSet: bv8, index: bv8, value: bv8)
    ensures var arg := SwitchArg(cmdSet, index, value);
            arg >> 24 == 3 && (arg >> 16) & 0xFF == index as bv32 && (arg >> 8) & 0xFF == value as bv32
            && arg & 0xFF == cmdSet as bv32
  {
    Narrow(cmdSet);
    Narrow(index);
    Narrow(value);
    SwitchArgBits(cmdSet as bv32, index as bv32, value as bv32);
  }

  lemma Narrow(b: bv8)
    ensures b as bv32 <= 0xFF
  {}

  lemma SwitchArgBits(cmdSet: bv32, index: bv32, value: bv32)
    requires cmdSet <= 0xFF && index <= 0xFF && value <= 0xFF
    ensures var arg := (3 << 24) | (index << 16) | (value << 8) | cmdSet;
            arg >> 24 == 3 && (arg >> 16) & 0xFF == index && (arg >> 8) & 0xFF == value && arg & 0xFF == cmdSet
  {}

  /** CURRENT_STATE in a status word. */
  function StateOf(status: bv32): bv32 { (status & 0x1E00) >> 9 }

  /** A status word of a card that has left the programming state (7, in bits 9 to 12) and reports no switch
      error (bit 7). */
  ghost predicate Settled(status: bv32) { (status >> 9) & 0xF != 7 && status & 0x80 == 0 }

  lemma SettledIs(status: bv32)
    ensures Settled(status) <==> StateOf(status) != STATE_PRG && status & SWITCH_ERROR == 0
  {}

  /** mmc_set_part: CMD6 on PARTITION_CONFIG. */
  function SelectedPart(part: bv8): seq<Event> { [Command(6, SwitchArg(CMD_SET_NORMAL, PART_CONFIG, 72 | part))] }

  /** Partition 3 is selected by writing 0x4B to byte 179 of the extended CSD. */
  lemma RpmbSelected()
    ensures SelectedPart(RPMB_PART) == [Command(6, 0x03B34B01)]
  {}

  /** The CMD23 argument of a request: one block, as a reliable write for the types that write. */
  function BlockCount(kind: bv16): bv32 { if kind == 3 || kind == 1 then 0x80000001 else 1 }

  /** A request frame of the given type on its way to the card. */
  function SentFrame(frame: seq<bv8>, kind: bv16): seq<Event> {
    [Command(23, BlockCount(kind)), Command(25, 0), Out(frame)]
  }

  /** A response frame on its way back. */
  function ReceivedFrame(frame: seq<bv8>): seq<Event> { [Command(23, 1), Command(18, 0), In(frame)] }

  /** Every one of these events has crossed the bus or is counted as lost, and they are what has crossed the
      bus exactly if none was lost. */
  ghost predicate Crossed(log: seq<Event>, lost: nat, events: seq<Event>, after: seq<Event>, lostAfter: nat) {
    && lost <= lostAfter && |after| + lostAfter == |log| + lost + |events|
    && (lostAfter == lost <==> after == log + events)
  }

  lemma CrossedBoth(log: seq<Event>, lost: nat, first: seq<Event>, between: seq<Event>, lostBetween: nat,
                    second: seq<Event>, after: seq<Event>, lostAfter: nat)
    requires Crossed(log, lost, first, between, lostBetween) && Crossed(between, lostBetween, second, after, lostAfter)
    ensures Crossed(log, lost, first + second, after, lostAfter)
  {
    assert log + first + second == log + (first + second);
  }

  /** Transfers never fail, always fail, or do as they please. */
  datatype Bus = Sound | Broken | Erratic

  /** The controller with the card's RPMB partition behind it: it answers arbitrarily, and `log`
      records what crossed the bus, but for status polls. */
  class Partition {
    ghost var log: seq<Event>

    /** How many data transfers have failed. The source ignores the result of its PIO functions, so
        nothing but this tells. */
    ghost var lost: nat

    /** For how many more status polls the card may stay busy. */
    var busy: nat

    /** No command fails. What the operations do on success depends neither on this nor on the bus. */
    const works: bool

    const bus: Bus

    /** msdc_cmd. */
    method Cmd(opcode: nat, arg: bv32) returns (err: int)
      modifies this`log
      ensures err == 0 ==> log == old(log) + [Command(opcode, arg)]
      ensures works ==> err == 0
    {
      err := *;
      if works {
        err := 0;
      }
      if err == 0 {
        log := log + [Command(opcode, arg)];
      }
    }

    /** mmc_send_status. */
    method SendStatus() returns (err: int, status: bv32)
      modifies this`busy
      ensures busy <= old(busy) && (err == 0 && StateOf(status) == STATE_PRG ==> busy < old(busy))
      ensures works ==> err == 0 && status & 0x80 == 0
    {
      err, status := *, *;
      if works {
        err, status := 0, status & !SWITCH_ERROR;
      }
      if StateOf(status) == STATE_PRG {
        if busy == 0 {
          status := 0x900;
        } else {
          busy := busy - 1;
        }
      }
    }

    /** __mmc_switch with the busy signal. On success the card has acknowledged CMD6, has left the
        programming state and has reported no switch error. */
    method Switch(cmdSet: bv8, index: bv8, value: bv8) returns (err: int, ghost status: bv32)
      modifies this
      ensures err == 0 ==> log == old(log) + [Command(6, SwitchArg(cmdSet, index, value))]
                           && Settled(status)
      ensures works ==> err == 0
      ensures lost == old(lost)
    {
      hide SwitchArg, StateOf, Settled;
      status := 0;
      err := Cmd(6, SwitchArg(cmdSet, index, value));
      if err != 0 {
        return;
      }
      var answer: bv32;
      err, answer := SendStatus();
      while err == 0 && StateOf(answer) == STATE_PRG
        invariant log == old(log) + [Command(6, SwitchArg(cmdSet, index, value))] && lost == old(lost)
        invariant works ==> err == 0 && answer & 0x80 == 0
        decreases busy, if err == 0 && StateOf(answer) == STATE_PRG then 1 else 0
      {
        err, answer := SendStatus();
      }
      status := answer;
      if err != 0 {
        return;
      }
      SettledIs(answer);
      if answer & SWITCH_ERROR != 0 {
        err := EBADMSG;
      }
    }

    /** mmc_set_part. */
    method Select(part: bv8) returns (err: int)
      modifies this
      ensures err == 0 ==> log == old(log) + SelectedPart(part)
      ensures works ==> err == 0
      ensures lost == old(lost)
    {
      hide SwitchArg;
      ghost var status;
      err, status := Switch(CMD_SET_NORMAL, PART_CONFIG, 72 | part);
    }

    /** msdc_pio_write of a frame, whose result nobody looks at. */
    method PioOut(buf: array<bv8>)
      modifies this`log, this`lost
      ensures Crossed(old(log), old(lost), [Out(buf[..])], log, lost)
      ensures (bus.Sound? ==> lost == old(lost)) && (bus.Broken? ==> lost > old(lost))
    {
      var fails: bool := *;
      if bus.Broken? || (fails && !bus.Sound?) {
        lost := lost + 1;
      } else {
        log := log + [Out(buf[..])];
      }
    }

    /** msdc_pio_read of a frame, whose result nobody looks at. */
    method PioIn(buf: array<bv8>)
      requires buf.Length == 512
      modifies this`log, this`lost, buf
      ensures Crossed(old(log), old(lost), [In(buf[..])], log, lost)
      ensures (bus.Sound? ==> lost == old(lost)) && (bus.Broken? ==> lost > old(lost))
    {
      var i := 0;
      while i < 512
        invariant i <= 512 && log == old(log) && lost == old(lost)
      {
        buf[i] := *;
        i := i + 1;
      }
      var fails: bool := *;
      if bus.Broken? || (fails && !bus.Sound?) {
        lost := lost + 1;
      } else {
        log := log + [In(buf[..])];
      }
    }

    /** mmc_rpmb_send_command with RPMB_REQ. Zero means that both commands were taken; that the frame has
        crossed the bus as well exactly if its transfer did not fail. */
    method Send(buf: array<bv8>, kind: bv16) returns (err: int)
      requires buf.Length == 512
      modifies this
      ensures err == 0 ==> Crossed(old(log), old(lost), SentFrame(buf[..], kind), log, lost)
      ensures (works ==> err == 0) && lost >= old(lost)
      ensures (bus.Sound? ==> lost == old(lost)) && (err == 0 && bus.Broken? ==> lost > old(lost))
    {
      var blocks: bv32 := 1;
      if kind == WRITE_DATA || kind == PROGRAM_KEY {
        blocks := blocks | (1 << 31);
      }
      err := Cmd(23, blocks);
      if err != 0 {
        return;
      }
      err := Cmd(25, 0);
      if err != 0 {
        return;
      }
      PioOut(buf);
      CrossedBoth(old(log), old(lost), [Command(23, blocks), Command(25, 0)], old(log) + [Command(23, blocks), Command(25, 0)],
                  old(lost), [Out(buf[..])], log, lost);
    }

    /** mmc_rpmb_send_command with RPMB_RESP: whatever arrives is in the frame. */
    method Receive(buf: array<bv8>) returns (err: int)
      requires buf.Length == 512
      modifies this, buf
      ensures err == 0 ==> Crossed(old(log), old(lost), ReceivedFrame(buf[..]), log, lost)
      ensures (works ==> err == 0) && lost >= old(lost)
      ensures (bus.Sound? ==> lost == old(lost)) && (err == 0 && bus.Broken? ==> lost > old(lost))
    {
      err := Cmd(23, 1);
      if err != 0 {
        return;
      }
      err := Cmd(18, 0);
      if err != 0 {
        return;
      }
      PioIn(buf);
      CrossedBoth(old(log), old(lost), [Command(23, 1), Command(18, 0)], old(log) + [Command(23, 1), Command(18, 0)],
                  old(lost), [In(buf[..])], log, lost);
    }
  }

  /** The frame that asks for the outcome of a write: all zero but for its type. */
  ghost function ResultQuery(): Frame {
    Frame(Zeros(196), Zeros(32), Zeros(256), Zeros(16), 0, 0, 0, 0, 5)
  }

  /** What one operation puts on the bus: its request, for writing types the result query, the response. */
  ghost function Exchanges(kind: bv16, request: seq<bv8>, response: seq<bv8>): seq<Event> {
    SentFrame(request, kind)
    + (if kind == 3 || kind == 1 then SentFrame(Encode(ResultQuery()), 5) else [])
    + ReceivedFrame(response)
  }

  /** mmc_rpmb_partition_ops on a prepared one-block request. Zero means that the frames have crossed the bus
      exactly if no transfer of this call failed; on a broken bus it returns zero with nothing transferred. */
  method PartitionOps(core: CoreRequest, card: Partition) returns (err: int)
    requires core.Valid()
    modifies core.frame, card
    ensures core.Valid()
    ensures !core.ready ==> err == -22
    ensures core.ready && card.works ==> err == 0
    ensures err == 0 ==>
              Crossed(old(card.log), old(card.lost), Exchanges(core.req.kind, old(core.frame[..]), core.frame[..]), card.log, card.lost)
    ensures card.lost >= old(card.lost) && (card.bus.Sound? ==> card.lost == old(card.lost))
    ensures err == 0 && card.bus.Broken? ==> card.lost > old(card.lost)
  {
    hide Encode, ResultQuery, SentFrame, ReceivedFrame, Crossed;
    ghost var log0, lost0 := card.log, card.lost;
    if !core.ready {
      return EINVAL;
    }
    var kind := core.req.kind;
    ghost var request := core.frame[..];
    err := card.Send(core.frame, kind);
    if err != 0 {
      return;
    }
    ghost var sent := SentFrame(request, kind);
    forall i | 0 <= i < 512 {
      core.frame[i] := 0;
    }
    if kind == WRITE_DATA || kind == PROGRAM_KEY {
      core.frame[TYPE_BEG + 1] := 5;
      ResultQueryBytes(core.frame[..]);
      ghost var log1, lost1 := card.log, card.lost;
      err := card.Send(core.frame, RESULT_READ);
      if err != 0 {
        return;
      }
      CrossedBoth(log0, lost0, sent, log1, lost1, SentFrame(core.frame[..], RESULT_READ), card.log, card.lost);
      sent := sent + SentFrame(core.frame[..], RESULT_READ);
    }
    ghost var log2, lost2 := card.log, card.lost;
    err := card.Receive(core.frame);
    if err == 0 {
      CrossedBoth(log0, lost0, sent, log2, lost2, ReceivedFrame(core.frame[..]), card.log, card.lost);
      assert SentFrame(request, kind) + [] == SentFrame(request, kind);
    }
  }

  lemma ResultQueryBytes(s: seq<bv8>)
    requires |s| == 512 && s[TYPE_BEG + 1] == 5 && forall i | 0 <= i < 512 && i != TYPE_BEG + 1 :: s[i] == 0
    ensures s == Encode(ResultQuery())
  {
    EncodeDecode(s);
    assert Half(0, 0) == 0 && Half(0, 5) == RESULT_READ && BeWord(0, 0, 0, 0) == 0;
    hide Half, BeWord, Encode;
    assert Decode(s) == ResultQuery();
  }

  /** The frame of a request whose unset fields are zero. */
  ghost function EmptyFrame(): Frame {
    Frame(Zeros(196), Zeros(32), Zeros(256), Zeros(16), 0, 0, 0, 0, 0)
  }

  lemma ZerosDecode()
    ensures Decode(Zeros(512)) == EmptyFrame()
  {
    assert Half(0, 0) == 0 && BeWord(0, 0, 0, 0) == 0;
    hide Half, BeWord;
  }

  lemma AfterSelect(log: seq<Event>, lost: nat, selected: seq<Event>, events: seq<Event>, after: seq<Event>, lostAfter: nat)
    requires selected == log + [Command(6, 0x03B34B01)] && Crossed(selected, lost, events, after, lostAfter)
    ensures Crossed(log, lost, [Command(6, 0x03B34B01)] + events, after, lostAfter)
  {
    CrossedBoth(log, lost, [Command(6, 0x03B34B01)], selected, lost, events, after, lostAfter);
  }

  /** mmc_rpmb_get_write_count. */
  method GetWriteCount(card: Partition, wc: array<bv32>)
    returns (ret: int, ghost request: seq<bv8>, ghost response: seq<bv8>)
    requires wc.Length == 1
    modifies card, wc
    ensures ret == 0 ==>
              |request| == |response| == 512
              && Crossed(old(card.log), old(card.lost),
                         [Command(6, 0x03B34B01)] + Exchanges(2, request, response), card.log, card.lost)
              && Decode(request) == EmptyFrame().(kind := 2)
              && wc[0] == Decode(response).counter
    ensures (card.works ==> ret == 0) && card.lost >= old(card.lost) && (card.bus.Sound? ==> card.lost == old(card.lost))
    ensures ret == 0 && card.bus.Broken? ==> card.lost > old(card.lost)
  {
    hide Decode, Exchanges, Crossed;
    request, response := [], [];
    var req := new Request(GET_WRITE_COUNTER);
    req.result := new bv16[1](_ => 0);
    req.wc := wc;
    req.nonce := new bv8[32](_ => 0);
    assert req.nonce[..16] == Zeros(16) && req.Sized();
    var core := new CoreRequest(req);
    ZerosDecode();
    ret := core.PreFrame();
    if ret != 0 {
      return;
    }
    request := core.frame[..];
    ret := card.Select(RPMB_PART);
    if ret != 0 {
      return;
    }
    RpmbSelected();
    ghost var selected := card.log;
    ret := PartitionOps(core, card);
    response := core.frame[..];
    if ret == 0 {
      AfterSelect(old(card.log), old(card.lost), selected, Exchanges(2, request, response), card.log, card.lost);
    }
    core.PostFrame();
  }

  /** mmc_rpmb_read: on success the buffer is the response's data field, byte-reversed. */
  method RpmbRead(card: Partition, addr: bv16, buf: array<bv8>)
    returns (ret: int, ghost request: seq<bv8>, ghost response: seq<bv8>)
    requires buf.Length == 256
    modifies card, buf
    ensures ret == 0 ==>
              |request| == |response| == 512
              && Crossed(old(card.log), old(card.lost),
                         [Command(6, 0x03B34B01)] + Exchanges(4, request, response), card.log, card.lost)
              && Decode(request) == EmptyFrame().(kind := 4, addr := addr)
              && buf[..] == Reversed(Decode(response).data)
    ensures (card.works ==> ret == 0) && card.lost >= old(card.lost) && (card.bus.Sound? ==> card.lost == old(card.lost))
    ensures ret == 0 && card.bus.Broken? ==> card.lost > old(card.lost)
  {
    hide Decode, Exchanges, Reversed, Crossed;
    request, response := [], [];
    var req := new Request(READ_DATA);
    req.blkCnt := 1;
    req.result := new bv16[1](_ => 0);
    req.nonce := new bv8[32](_ => 0);
    req.addr := addr;
    req.data := buf;
    assert req.nonce[..16] == Zeros(16) && req.Sized();
    var core := new CoreRequest(req);
    ZerosDecode();
    ret := core.PreFrame();
    if ret != 0 {
      return;
    }
    request := core.frame[..];
    ret := card.Select(RPMB_PART);
    if ret != 0 {
      return;
    }
    RpmbSelected();
    ghost var selected := card.log;
    ret := PartitionOps(core, card);
    response := core.frame[..];
    if ret == 0 {
      AfterSelect(old(card.log), old(card.lost), selected, Exchanges(4, request, response), card.log, card.lost);
    }
    core.PostFrame();
    assert buf[..256] == buf[..];
    ByteSwap(buf, 0x100);
  }

  /** The frame of an authenticated one-block write to address 0. */
  ghost predicate IsWriteFrame(f: seq<bv8>, payload: seq<bv8>, counter: bv32, key: seq<bv8>) {
    |f| == 512 && |payload| == 256
    && Decode(f) == EmptyFrame().(kind := 3, blks := 1, counter := counter, data := Reversed(payload),
                                  mac := HmacSha256(key, f[228..]))
  }

  /** The request of mmc_rpmb_write and its frame, still without a MAC. */
  method PrepareWrite(tmp: array<bv8>, wc: array<bv32>) returns (code: int, core: CoreRequest)
    requires tmp.Length == 256 && wc.Length == 1
    ensures fresh(core.frame) && core.Valid() && fresh(core) && fresh(core.req)
    ensures core.req.kind == WRITE_DATA && core.req.wc == wc && core.req.data == tmp
    ensures core.req.mac != null && fresh(core.req.mac) && core.req.result != null && fresh(core.req.result)
    ensures core.req.nonce != null && fresh(core.req.nonce) && core.req.nonce != core.req.mac
    ensures code == 0 && core.ready && core.req.Complete() && core.req.blkCnt == 1
    ensures Decode(core.frame[..]) == EmptyFrame().(kind := 3, blks := 1, counter := wc[0], data := tmp[..],
                                                    mac := core.req.mac[..])
  {
    hide Decode;
    var req := new Request(WRITE_DATA);
    req.blkCnt := 1;
    req.result := new bv16[1](_ => 0);
    req.nonce := new bv8[32](_ => 0);
    req.addr := 0;
    req.data := tmp;
    req.wc := wc;
    req.mac := new bv8[32](_ => 0);
    assert tmp[..256] == tmp[..];
    assert req.Sized() && req.Complete();
    core := new CoreRequest(req);
    ZerosDecode();
    code := core.PreFrame();
  }

  /** The second half of mmc_rpmb_write: building and authenticating the frame. */
  method BuildWrite(tmp: array<bv8>, wc: array<bv32>, key: array<bv8>, ghost payload: seq<bv8>)
    returns (code: int, core: CoreRequest)
    requires tmp.Length == 256 && wc.Length == 1 && key.Length == 32
    requires |payload| == 256 && tmp[..] == Reversed(payload)
    ensures fresh(core.frame) && core.Valid() && fresh(core) && fresh(core.req)
    ensures core.req.kind == WRITE_DATA && core.req.wc == wc && core.req.data == tmp
    ensures core.req.mac != null && fresh(core.req.mac) && core.req.result != null && fresh(core.req.result)
    ensures core.req.nonce != null && fresh(core.req.nonce) && core.req.nonce != core.req.mac
    ensures code == 0 && core.ready && core.req.Complete() && core.req.blkCnt == 1
    ensures IsWriteFrame(core.frame[..], payload, wc[0], key[..])
  {
    hide Decode, Reversed, HmacSha256, EmptyFrame, IsWriteFrame;
    code, core := PrepareWrite(tmp, wc);
    core.CalcMac(key);
    WriteFrameBuilt(core.frame[..], payload, wc[0], key[..]);
  }

  lemma WriteFrameBuilt(f: seq<bv8>, payload: seq<bv8>, counter: bv32, key: seq<bv8>)
    requires |f| == 512 && |payload| == 256
    requires Decode(f) == EmptyFrame().(kind := 3, blks := 1, counter := counter, data := Reversed(payload),
                                        mac := HmacSha256(key, f[228..]))
    ensures IsWriteFrame(f, payload, counter, key)
  {}

  /** mmc_rpmb_write: on success the card was asked for its counter, and then handed the
      reversed payload under that counter, with a MAC under the key. */
  method RpmbWrite(card: Partition, buf: array<bv8>, key: array<bv8>)
    returns (ret: int, ghost ask: seq<bv8>, ghost told: seq<bv8>, ghost request: seq<bv8>, ghost response: seq<bv8>)
    requires buf.Length == 256 && key.Length == 32
    modifies card
    ensures ret == 0 ==>
              |ask| == |told| == |request| == |response| == 512
              && Crossed(old(card.log), old(card.lost),
                         [Command(6, 0x03B34B01)] + Exchanges(2, ask, told)
                         + ([Command(6, 0x03B34B01)] + Exchanges(3, request, response)), card.log, card.lost)
              && Decode(ask) == EmptyFrame().(kind := 2)
              && IsWriteFrame(request, buf[..], Decode(told).counter, key[..])
    ensures (card.works ==> ret == 0) && card.lost >= old(card.lost) && (card.bus.Sound? ==> card.lost == old(card.lost))
    ensures ret == 0 && card.bus.Broken? ==> card.lost > old(card.lost)
  {
    hide Decode, Exchanges, Reversed, IsWriteFrame, EmptyFrame, Crossed;
    request, response := [], [];
    var tmp := new bv8[0x100](i requires 0 <= i < 256 reads buf => buf[i]);
    assert tmp[..256] == buf[..];
    ByteSwap(tmp, 0x100);
    assert tmp[..256] == tmp[..];
    var wc := new bv32[1](_ => 0);
    ret, ask, told := GetWriteCount(card, wc);
    if ret != 0 {
      return;
    }
    ghost var log0, lost0 := card.log, card.lost;
    var core;
    ret, core := BuildWrite(tmp, wc, key, buf[..]);
    request := core.frame[..];
    ret := card.Select(RPMB_PART);
    if ret != 0 {
      return;
    }
    RpmbSelected();
    ghost var selected := card.log;
    ret := PartitionOps(core, card);
    response := core.frame[..];
    if ret == 0 {
      AfterSelect(log0, lost0, selected, Exchanges(3, request, response), card.log, card.lost);
      CrossedBoth(old(card.log), old(card.lost), [Command(6, 0x03B34B01)] + Exchanges(2, ask, told), log0, lost0,
                  [Command(6, 0x03B34B01)] + Exchanges(3, request, response), card.log, card.lost);
    }
    core.PostFrame();
  }

  /** Reversing the payload on the way in and on the way out composes to the identity: when the
      card returns the data field it was given, the reader gets the bytes the writer gave. */
  lemma PayloadRoundTrip(request: seq<bv8>, response: seq<bv8>, payload: seq<bv8>, counter: bv32, key: seq<bv8>)
    requires IsWriteFrame(request, payload, counter, key)
    requires |response| == 512 && Decode(response).data == Decode(request).data
    ensures Reversed(Decode(response).data) == payload
  {
    hide HmacSha256, Decode;
    ReversedTwice(payload);
  }
}
