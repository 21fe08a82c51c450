/** The command loop of stage2.c over the eMMC driver and a USB link of two byte queues. */
module Stage2 {
  import opened Card
  import opened Bytes
  import opened Protocol
  import opened Emmc
  import opened Words

  class Link {
    /** Bytes on their way to the device and to the host. */
    var h2d: seq<Byte>
    var d2h: seq<Byte>

    /** How many reads of the host may come back with nothing before there are bytes or a timeout. */
    var idle: nat

    constructor (idle: nat)
      ensures h2d == [] && d2h == [] && this.idle == idle
    {
      h2d, d2h, this.idle := [], [], idle;
    }
  }

  const CHUNK_WORDS := 64

  /** What the payload announces itself with. */
  const HELLO: Word := 0xB1B2B3B4

  lemma HelloBytes()
    ensures BigEndian(HELLO) == [0xB1, 0xB2, 0xB3, 0xB4]
  {}

  class Device {
    const driver: Driver
    const link: Link

    /** char buf[0x200], used as words. */
    const buf: array<Word>

    /** The loop has not been left. */
    var alive: bool

    /** The commands served so far. */
    ghost var served: seq<Command>

    constructor (driver: Driver, link: Link)
      ensures this.driver == driver && this.link == link && fresh(buf) && buf.Length == 128 && alive && served == []
    {
      this.driver, this.link := driver, link;
      buf := new Word[128](_ => 0);
      alive := true;
      served := [];
    }

    ghost predicate Valid()
      reads this, driver, driver.hw
    {
      driver.Valid() && buf.Length == 128
    }

    /** Nothing is under way, the driver knows which partition the card is in, and the card takes whole
        words out of the transmit FIFO and refuses no block. */
    ghost predicate Clean()
      reads this, driver, driver.hw
    {
      Valid() && driver.Agreed() && Quiet(driver.hw.s) && driver.hw.wholeWords && driver.hw.Accepting()
    }

    ghost function Now(): View
      reads this, driver, driver.hw
    {
      View(driver.hw.s.disk, Clean(), driver.currentPartition)
    }

    /** Clean, with a prompt controller and a card in the transfer state. */
    ghost predicate Fit()
      reads this, driver, driver.hw
    {
      Clean() && driver.hw.prompt && driver.hw.s.state == Tran
    }

    /** A fit device can do what c asks for. */
    ghost predicate Can(c: Command)
      reads this, driver, driver.hw
    {
      Fit() && ((c.Read? || c.Write?) ==> c.region <= 2 && Key(c.region, c.sector) in driver.hw.s.disk)
    }

    /** recv_dword: four bytes go into a word in memory, which is swapped. */
    method RecvDword() returns (w: Word)
      requires |link.h2d| >= 4
      modifies link
      ensures w == WordAt(old(link.h2d), 0) && link.h2d == old(link.h2d)[4..] && link.d2h == old(link.d2h)
    {
      var value := FromLittleEndian(link.h2d[..4]);
      FromLittleEndianRoundTrip(link.h2d[..4]);
      link.h2d := link.h2d[4..];
      w := Swap(value);
    }

    /** send_dword. */
    method SendDword(w: Word)
      modifies link
      ensures link.d2h == old(link.d2h) + BigEndian(w) && link.h2d == old(link.h2d)
    {
      var ack := Swap(w);
      SwapStoresWireOrder(w);
      link.d2h := link.d2h + LittleEndian(ack);
    }

    /** recv_data: the words taken are swapped twice, so the bytes land in memory in wire order. */
    method RecvData(data: array<Word>, sz: Word)
      requires |link.h2d| >= 4 * Quads(sz) && data.Length >= Quads(sz)
      modifies link, data
      ensures ToBytes(data[..Quads(sz)]) == old(link.h2d)[..4 * Quads(sz)] && data[Quads(sz)..] == old(data[Quads(sz)..])
      ensures link.h2d == old(link.h2d)[4 * Quads(sz)..] && link.d2h == old(link.d2h)
    {
      hide ToBytes, LittleEndian, WordAt;
      ghost var s := link.h2d;
      var i := 0;
      assert ToBytes(data[..0]) == s[..0];
      while i < Quads(sz)
        invariant i <= Quads(sz) && link.h2d == s[4 * i..] && link.d2h == old(link.d2h)
        invariant ToBytes(data[..i]) == s[..4 * i] && data[Quads(sz)..] == old(data[Quads(sz)..])
      {
        ghost var filled := data[..i];
        var w := RecvDword();
        data[i] := Swap(w);
        WordLater(s, 4 * i, 0);
        TakenQuad(s, 4 * i);
        assert data[..i + 1] == filled + [Swap(w)];
        BytesOfAppend(filled, Swap(w));
        assert s[..4 * i] + s[4 * i..4 * i + 4] == s[..4 * (i + 1)];
        i := i + 1;
      }
    }

    /** usbdl_get_data into a buffer of words. */
    method GetData(data: array<Word>)
      requires |link.h2d| >= 4 * data.Length
      modifies link, data
      ensures data[..] == ToWords(old(link.h2d)[..4 * data.Length])
      ensures link.h2d == old(link.h2d)[4 * data.Length..] && link.d2h == old(link.d2h)
    {
      var words := ToWords(link.h2d[..4 * data.Length]);
      forall i | 0 <= i < data.Length {
        data[i] := words[i];
      }
      link.h2d := link.h2d[4 * data.Length..];
    }

    /** The loop that sends a buffer of 512 bytes in chunks of 256. */
    method PutSector(data: array<Word>)
      requires data.Length == 128
      modifies link
      ensures link.d2h == old(link.d2h) + ToBytes(data[..]) && link.h2d == old(link.h2d)
    {
      hide ToBytes, LittleEndian;
      var i := 0;
      while i < data.Length
        invariant i in {0, CHUNK_WORDS, 2 * CHUNK_WORDS}
        invariant link.d2h == old(link.d2h) + ToBytes(data[..])[..4 * i] && link.h2d == old(link.h2d)
      {
        link.d2h := link.d2h + ToBytes(data[i..i + CHUNK_WORDS]);
        BytesOfPart(data[..], i, i + CHUNK_WORDS);
        assert data[i..i + CHUNK_WORDS] == data[..][i..i + CHUNK_WORDS];
        assert ToBytes(data[..])[..4 * i] + ToBytes(data[..])[4 * i..4 * (i + CHUNK_WORDS)] == ToBytes(data[..])[..4 * (i + CHUNK_WORDS)];
        i := i + CHUNK_WORDS;
      }
      assert ToBytes(data[..])[..512] == ToBytes(data[..]);
    }

    /** memset(buf, 0, sizeof(buf)). */
    method ClearBuf()
      modifies buf
      ensures forall i :: 0 <= i < buf.Length ==> buf[i] == 0
    {
      forall i | 0 <= i < buf.Length {
        buf[i] := 0;
      }
    }

    /** Command 0x1001. */
    method ServeRead() returns (ghost reply: seq<Byte>)
      requires Valid() && |link.h2d| >= 8
      modifies link, buf, driver, driver.hw
      ensures Valid()
      ensures link.h2d == old(link.h2d)[8..] && link.d2h == old(link.d2h) + reply && |reply| in {0, 512}
      ensures var c := Read(WordAt(old(link.h2d), 0), WordAt(old(link.h2d), 4));
              Performs(driver.hw.Manners(), old(Now()), old(driver.hw.s), c, Now(), driver.hw.s, reply)
      ensures old(Can(Read(WordAt(link.h2d, 0), WordAt(link.h2d, 4)))) ==> reply != [] && Fit()
    {
      hide WordAt, ToBytes;
      var region := RecvDword();
      var block := RecvDword();
      WordLater(old(link.h2d), 4, 0);
      ClearBuf();
      reply := [];
      var code := driver.ReadSector(region, block, buf);
      if code == 0 {
        PutSector(buf);
        reply := ToBytes(buf[..]);
      }
    }

    /** The write of command 0x1002, from the buffer. */
    method WriteBuf(region: Word, block: Word, ghost data: Payload) returns (code: int)
      requires Valid() && buf[..] == ToWords(data)
      modifies driver, driver.hw
      ensures Valid() && code in {0, -1}
      ensures Performs(driver.hw.Manners(), old(Now()), old(driver.hw.s), Write(region, block, data), Now(), driver.hw.s,
                       if code == 0 then BigEndian(ACK_WRITE) else [])
      ensures old(Can(Write(region, block, data))) ==> code == 0 && Fit()
    {
      hide WordAt, ToWords, BigEndian, WritesPartitionConfig;
      AckSize();
      code := driver.WriteSector(region, block, buf);
    }

    /** Command 0x1002. */
    method ServeWrite() returns (ghost reply: seq<Byte>)
      requires Valid() && |link.h2d| >= 520
      modifies link, buf, driver, driver.hw
      ensures Valid()
      ensures link.h2d == old(link.h2d)[520..] && link.d2h == old(link.d2h) + reply && |reply| in {0, 4}
      ensures var c := Write(WordAt(old(link.h2d), 0), WordAt(old(link.h2d), 4), old(link.h2d)[8..520]);
              Performs(driver.hw.Manners(), old(Now()), old(driver.hw.s), c, Now(), driver.hw.s, reply)
      ensures old(Can(Write(WordAt(link.h2d, 0), WordAt(link.h2d, 4), link.h2d[8..520]))) ==> reply != [] && Fit()
    {
      hide WordAt, ToWords, BigEndian, Performs;
      var region := RecvDword();
      var block := RecvDword();
      WordLater(old(link.h2d), 4, 0);
      ClearBuf();
      assert link.h2d[..512] == old(link.h2d)[8..520];
      GetData(buf);
      AckSize();
      reply := [];
      var code := WriteBuf(region, block, old(link.h2d)[8..520]);
      if code == 0 {
        SendDword(ACK_WRITE);
        reply := BigEndian(ACK_WRITE);
      }
    }

    /** main before its loop. The driver knows the card's partition afterwards if it did before, unless the
        card followed a CMD7 of which the driver was not told. From any card at rest, a prompt controller
        makes the device fit. */
    method Boot()
      requires Valid()
      modifies link, driver, driver.hw
      ensures Valid()
      ensures link.h2d == old(link.h2d) && link.d2h == old(link.d2h) + [0xB1, 0xB2, 0xB3, 0xB4]
      ensures Quiet(old(driver.hw.s)) ==> Quiet(driver.hw.s) && driver.hw.s.disk == old(driver.hw.s.disk)
      ensures driver.currentPartition in {PART_USER, old(driver.currentPartition)}
      ensures old(Clean()) ==>
                (!Clean() <==> driver.hw.switches > old(driver.hw.switches) && driver.currentPartition != PART_USER)
      ensures old(Clean()) && (driver.hw.candid || old(driver.currentPartition) == PART_USER) ==> Clean()
      ensures Quiet(old(driver.hw.s)) && driver.hw.prompt && driver.hw.wholeWords ==> Fit()
    {
      ghost var done, ocr := driver.Init();
      SendDword(HELLO);
      HelloBytes();
    }

    /** Command 0x1000. */
    method ServeInit() returns (ghost reply: seq<Byte>)
      requires Valid()
      modifies link, driver, driver.hw
      ensures Valid()
      ensures link.h2d == old(link.h2d) && link.d2h == old(link.d2h) + reply && |reply| == 4
      ensures Performs(driver.hw.Manners(), old(Now()), old(driver.hw.s), Init, Now(), driver.hw.s, reply)
      ensures old(Fit()) ==> Fit()
    {
      ghost var done, ocr := driver.Init();
      SendDword(ACK_INIT);
      reply := BigEndian(ACK_INIT);
    }

    /** Command 0x1003: 512 bytes are sent even when reading EXT_CSD failed. */
    method ServeExtCsd() returns (ghost reply: seq<Byte>, ghost code: int)
      requires Valid()
      modifies link, driver, driver.hw
      ensures Valid()
      ensures link.h2d == old(link.h2d) && link.d2h == old(link.d2h) + reply && |reply| == 512
      ensures Performs(driver.hw.Manners(), old(Now()), old(driver.hw.s), ExtCsd, Now(), driver.hw.s, reply)
      ensures old(Fit()) ==> Fit() && code == 0
      ensures code == 0 ==> reply == ToBytes(driver.hw.s.extCsd)
      ensures driver.hw.s.extCsd == old(driver.hw.s.extCsd)
    {
      hide ToBytes;
      var extCsd := new Word[128](_ => 0);
      code := driver.ReadExtCsd(extCsd);
      PutSector(extCsd);
      reply := ToBytes(extCsd[..]);
    }

    /** Commands that touch neither the card nor the link. */
    lemma Idle(c: Command)
      requires c.Kick? || c.Invalid?
      ensures Performs(driver.hw.Manners(), Now(), driver.hw.s, c, Now(), driver.hw.s, [])
    {}

    /** The switch on the command word, with the bytes s of the whole command. */
    method Execute(cmd: Word, ghost s: seq<Byte>) returns (ghost reply: seq<Byte>)
      requires Valid() && Deliverable(s) && cmd == WordAt(s, 4) && link.h2d == s[8..]
      modifies link, buf, driver, driver.hw
      ensures Valid()
      ensures link.h2d == s[|Wire(Parse(s))|..] && link.d2h == old(link.d2h) + reply
      ensures Performs(driver.hw.Manners(), old(Now()), old(driver.hw.s), Parse(s), Now(), driver.hw.s, reply)
      ensures old(Can(Parse(s))) ==> |reply| == ReplySize(Parse(s)) && Fit()
      ensures Parse(s).ExtCsd? ==>
                driver.hw.s.extCsd == old(driver.hw.s.extCsd) && (old(Fit()) ==> reply == ToBytes(driver.hw.s.extCsd))
    {
      Taken(s);
      hide *;
      reply := [];
      if cmd == OP_INIT {
        reply := ServeInit();
      } else if cmd == OP_READ {
        WordLater(s, 8, 0);
        WordLater(s, 8, 4);
        reply := ServeRead();
      } else if cmd == OP_WRITE {
        WordLater(s, 8, 0);
        WordLater(s, 8, 4);
        assert s[8..][8..520] == s[16..528];
        reply := ServeWrite();
      } else if cmd == OP_EXT_CSD {
        ghost var code;
        reply, code := ServeExtCsd();
      } else {
        // 0x3001 writes a watchdog register; everything else is an invalid command.
        Idle(Parse(s));
      }
    }

    /** One turn of the command loop. On the bytes of a command it takes these and no others, and
        does what the command asks for; anything but the magic number ends the loop. */
    method ServeOne() returns (ghost reply: seq<Byte>)
      requires Valid() && alive && |link.h2d| >= 4
      requires StartsWithMagic(link.h2d) ==> Deliverable(link.h2d)
      modifies this, link, buf, driver, driver.hw
      ensures Valid() && link.d2h == old(link.d2h) + reply
      ensures alive <==> StartsWithMagic(old(link.h2d))
      ensures served == if alive then old(served) + [Parse(old(link.h2d))] else old(served)
      ensures !alive ==> reply == [] && link.h2d == old(link.h2d)[4..] && driver.hw.s == old(driver.hw.s)
      ensures alive ==>
                var c := Parse(old(link.h2d));
                && link.h2d == old(link.h2d)[|Wire(c)|..]
                && Performs(driver.hw.Manners(), old(Now()), old(driver.hw.s), c, Now(), driver.hw.s, reply)
                && (old(Can(Parse(link.h2d))) ==> |reply| == ReplySize(c) && Fit())
                && (c.ExtCsd? ==> driver.hw.s.extCsd == old(driver.hw.s.extCsd)
                                  && (old(Fit()) ==> reply == ToBytes(driver.hw.s.extCsd)))
    {
      ghost var s := link.h2d;
      Taken(s);
      hide *;
      ClearBuf();
      reply := [];
      var magic := RecvDword();
      if magic != MAGIC {
        alive := false;
        return;
      }
      var cmd := RecvDword();
      WordLater(s, 4, 0);
      assert link.h2d == s[8..];
      reply := Execute(cmd, s);
      served := served + [Parse(s)];
    }
  }

  lemma AckSize()
    ensures |BigEndian(ACK_WRITE)| == 4
  {}

  lemma WordLater(s: seq<Byte>, skip: nat, i: nat)
    requires skip + i + 4 <= |s|
    ensures WordAt(s[skip..], i) == WordAt(s, skip + i)
  {
    assert s[skip..][i..i + 4] == s[skip + i..skip + i + 4];
  }

  /** ((sz + 3) & ~3) / 4 on 32-bit words. */
  function Quads(sz: Word): (n: nat)
    ensures if sz <= 0xFFFF_FFFC then 4 * n - 4 < sz <= 4 * n else n == 0
  {
    (sz + 3) % TWO32 / 4
  }

  lemma TakenQuad(s: seq<Byte>, i: nat)
    requires i + 4 <= |s|
    ensures LittleEndian(Swap(WordAt(s, i))) == s[i..i + 4]
  {
    SwapStoresWireOrder(WordAt(s, i));
    FromBigEndianRoundTrip(s[i..i + 4]);
  }

  lemma BytesOfAppend(b: seq<Word>, w: Word)
    ensures ToBytes(b + [w]) == ToBytes(b) + LittleEndian(w)
  {
    hide LittleEndian;
    assert (b + [w])[..|b|] == b;
  }

  lemma BytesOfOneMore(b: seq<Word>, lo: nat, hi: nat)
    requires lo < hi <= |b|
    ensures ToBytes(b[lo..hi]) == ToBytes(b[lo..hi - 1]) + LittleEndian(b[hi - 1])
  {
    hide ToBytes, LittleEndian;
    BytesOfAppend(b[lo..hi - 1], b[hi - 1]);
    assert b[lo..hi] == b[lo..hi - 1] + [b[hi - 1]];
  }

  lemma {:induction false} BytesOfPart(b: seq<Word>, lo: nat, hi: nat)
    requires lo <= hi <= |b|
    ensures ToBytes(b[lo..hi]) == ToBytes(b)[4 * lo..4 * hi]
  {
    hide ToBytes, LittleEndian;
    if lo < hi {
      BytesOfPart(b, lo, hi - 1);
      BytesOfOneMore(b, lo, hi);
      var all := ToBytes(b);
      assert all[4 * lo..4 * (hi - 1)] + all[4 * (hi - 1)..4 * (hi - 1) + 4] == all[4 * lo..4 * hi];
    }
  }

  /** How the bytes of a command tell the loop what it is and where it ends. */
  lemma Taken(s: seq<Byte>)
    requires |s| >= 4 && (StartsWithMagic(s) ==> Deliverable(s))
    ensures StartsWithMagic(s) <==> WordAt(s, 0) == MAGIC
    ensures StartsWithMagic(s) ==>
              |s| >= |Wire(Parse(s))| >= 8
              && var code, c, size := WordAt(s, 4), Parse(s), |Wire(Parse(s))|;
                 if code == OP_INIT then c == Init && size == 8 && ReplySize(c) == 4
                 else if code == OP_READ then size == 16 && c == Read(WordAt(s, 8), WordAt(s, 12)) && ReplySize(c) == 512
                 else if code == OP_WRITE then
                   size == 528 && c == Write(WordAt(s, 8), WordAt(s, 12), s[16..528]) && ReplySize(c) == 4
                 else if code == OP_EXT_CSD then c == ExtCsd && size == 8 && ReplySize(c) == 512
                 else (c.Kick? || c.Invalid?) && size == 8 && ReplySize(c) == 0
  {
    if StartsWithMagic(s) {
      ParseWire(Parse(s), []);
    }
  }

  /** All that a command can change of a flash with contents d, now or when a block under way is finished:
      a write one sector of the partition that the card is in, and anything else nothing. */
  ghost predicate Contained(d: Disk, c: Command, s: Hw) {
    if c.Write? then Confined(d, Key(s.part, c.sector), s) else Quiet(s) && s.disk == d
  }

  /** One turn of the loop on c, with card and controller in state s before it and t after. Whatever the
      driver knows, at most one sector of the card's partition changes; if it knows which partition that is,
      it is the sector addressed. */
  ghost predicate Performs(m: Temper, v: View, s: Hw, c: Command, w: View, t: Hw, reply: seq<Byte>) {
    && Turn(m, v, c, w, reply)
    && (Quiet(s) ==> Contained(s.disk, c, t))
    && (c.Write? && v.known && (w.known || Obeys(m, v.cached, c)) ==> Confined(v.flash, Key(c.region, c.sector), t))
    && (c.Kick? || c.Invalid? ==> t == s)
  }

  // ---- u32_to_str ----

  const HEX := "0123456789ABCDEF"

  /** The value of a text of hexadecimal digits. */
  ghost function HexValue(s: string): nat {
    if s == [] then 0 else 16 * HexValue(s[..|s| - 1]) + HexDigit(s[|s| - 1])
  }

  ghost function HexDigit(c: char): nat {
    if '0' <= c <= '9' then (c - '0') as nat else if 'A' <= c <= 'F' then (c - 'A') as nat + 10 else 0
  }

  /** The words before the last i hexadecimal digits of a 32-bit value: v >> 4 * i. */
  function Above(v: nat, i: nat): nat {
    if i == 0 then v else Above(v / 16, i - 1)
  }

  lemma {:induction false} AboveNext(v: nat, i: nat)
    ensures Above(v, i + 1) == Above(v, i) / 16
  {
    if i > 0 {
      AboveNext(v / 16, i - 1);
    }
  }

  function Sixteens(i: nat): nat { if i == 0 then 1 else 16 * Sixteens(i - 1) }

  lemma {:induction false} NothingAbove(v: nat, i: nat)
    requires v < Sixteens(i)
    ensures Above(v, i) == 0
  {
    if i > 0 {
      NothingAbove(v / 16, i - 1);
    }
  }

  /** u32_to_str: eight digits, most significant first, that denote the value. */
  method U32ToStr(v: Word, buf: array<char>)
    requires buf.Length == 9
    modifies buf
    ensures HexValue(buf[..8]) == v && buf[8] == '\0'
    ensures forall k :: 0 <= k < 8 ==> buf[k] in HEX
  {
    AllEight(v);
    hide HexValue, HexDigit, Above;
    var i := 0;
    while i < 8
      invariant 0 <= i <= 8 && HexValue(buf[..i]) == Above(v, 8 - i)
      invariant forall k :: 0 <= k < i ==> buf[k] in HEX
    {
      ghost var done := buf[..i];
      AboveNext(v, 7 - i);
      buf[i] := HEX[Above(v, 7 - i) % 16];
      NextDigit(done, Above(v, 7 - i));
      assert buf[..i + 1] == done + [buf[i]];
      i := i + 1;
    }
    buf[8] := '\0';
  }

  lemma AllEight(v: Word)
    ensures HexValue([]) == Above(v, 8) && Above(v, 0) == v
  {
    assert Sixteens(4) == 0x10000 && Sixteens(8) == TWO32;
    NothingAbove(v, 8);
  }

  /** Appending the lowest digit of v to the digits above it. */
  lemma NextDigit(s: string, v: nat)
    requires HexValue(s) == v / 16
    ensures HEX[v % 16] in HEX && HexValue(s + [HEX[v % 16]]) == v
  {
    assert HexDigit(HEX[v % 16]) == v % 16;
    assert (s + [HEX[v % 16]])[..|s|] == s;
  }
}
