/** The commands of the stage2 payload: how mt8113_reflash.py puts them on the wire, how the command
    loop of stage2.c takes them off again, and what serving one means. */
module Protocol {
  import opened Card
  import opened Bytes
  import opened Words

  const MAGIC: Word := 0xf00dd00d
  const OP_INIT: Word := 0x1000
  const OP_READ: Word := 0x1001
  const OP_WRITE: Word := 0x1002
  const OP_EXT_CSD: Word := 0x1003
  const OP_KICK: Word := 0x3001
  const ACK_INIT: Word := 0xD1D1D1D1
  const ACK_WRITE: Word := 0xD0D0D0D0

  /** Reboot, raw memory access, cache control and the self-test. */
  const UNMODELLED: set<Word> := {0x3000, 0x4000, 0x4002, 0x5000, 0x7000}
  const MODELLED: set<Word> := {OP_INIT, OP_READ, OP_WRITE, OP_EXT_CSD, OP_KICK}

  type Payload = s: seq<Byte> | |s| == 512 witness seq(512, _ => 0)

  type BadCode = w: Word | w !in UNMODELLED && w !in MODELLED witness 0

  datatype Command =
    | Init
    | Read(region: Word, sector: Word)
    | Write(region: Word, sector: Word, data: Payload)
    | ExtCsd
    | Kick
    | Invalid(bad: BadCode)

  function Code(c: Command): Word {
    match c
    case Init => OP_INIT
    case Read(_, _) => OP_READ
    case Write(_, _, _) => OP_WRITE
    case ExtCsd => OP_EXT_CSD
    case Kick => OP_KICK
    case Invalid(bad) => bad
  }

  function Arguments(c: Command): seq<Byte> {
    match c
    case Read(region, sector) => BigEndian(region) + BigEndian(sector)
    case Write(region, sector, data) => BigEndian(region) + BigEndian(sector) + data
    case _ => []
  }

  /** What send_command and write_sector put on the wire. */
  function Wire(c: Command): seq<Byte> { BigEndian(MAGIC) + BigEndian(Code(c)) + Arguments(c) }

  /** The bytes on the wire: the magic word, the code, and for reads and writes region and sector. */
  lemma WireBytes(c: Command)
    ensures Wire(c) == [0xF0, 0x0D, 0xD0, 0x0D] + (
              match c
              case Init => [0, 0, 0x10, 0x00]
              case Read(region, sector) => [0, 0, 0x10, 0x01] + BigEndian(region) + BigEndian(sector)
              case Write(region, sector, data) => [0, 0, 0x10, 0x02] + BigEndian(region) + BigEndian(sector) + data
              case ExtCsd => [0, 0, 0x10, 0x03]
              case Kick => [0, 0, 0x30, 0x01]
              case Invalid(bad) => BigEndian(bad))
    ensures c.Invalid? ==>
              c.bad !in {0x1000, 0x1001, 0x1002, 0x1003, 0x3000, 0x3001, 0x4000, 0x4002, 0x5000, 0x7000}
  {
    assert BigEndian(MAGIC) == [0xF0, 0x0D, 0xD0, 0x0D];
    CodeBytes(c);
    hide BigEndian;
  }

  lemma CodeBytes(c: Command)
    ensures !c.Invalid? ==>
              BigEndian(Code(c)) == [0, 0, if c.Kick? then 0x30 else 0x10,
                                     if c.Init? then 0 else if c.Write? then 2 else if c.ExtCsd? then 3 else 1]
  {}

  function ArgumentSize(code: Word): nat {
    if code == OP_READ then 8 else if code == OP_WRITE then 8 + 512 else 0
  }

  function WordAt(s: seq<Byte>, i: nat): Word
    requires i + 4 <= |s|
  {
    FromBigEndian(s[i..i + 4])
  }

  predicate StartsWithMagic(s: seq<Byte>) { |s| >= 4 && WordAt(s, 0) == MAGIC }

  /** The device can run from the head of its loop back to it without waiting for bytes. */
  predicate Deliverable(s: seq<Byte>) {
    StartsWithMagic(s) && |s| >= 8 && WordAt(s, 4) !in UNMODELLED && |s| >= 8 + ArgumentSize(WordAt(s, 4))
  }

  /** The command the loop makes of the bytes it takes. */
  function Parse(s: seq<Byte>): Command
    requires Deliverable(s)
  {
    var code := WordAt(s, 4);
    if code == OP_INIT then Init
    else if code == OP_READ then Read(WordAt(s, 8), WordAt(s, 12))
    else if code == OP_WRITE then Write(WordAt(s, 8), WordAt(s, 12), s[16..528])
    else if code == OP_EXT_CSD then ExtCsd
    else if code == OP_KICK then Kick
    else Invalid(code)
  }

  /** The bytes of several commands, one after the other. */
  function Wires(cs: seq<Command>): seq<Byte> {
    if cs == [] then [] else Wire(cs[0]) + Wires(cs[1..])
  }

  function Kicks(n: nat): seq<Command> { seq(n, _ => Kick) }

  /** A word written at an offset is read back there. */
  lemma WordPlaced(before: seq<Byte>, w: Word, after: seq<Byte>)
    ensures WordAt(before + BigEndian(w) + after, |before|) == w
  {
    var s := before + BigEndian(w) + after;
    assert s[|before|..|before| + 4] == BigEndian(w);
    BigEndianRoundTrip(w);
  }

  lemma HeaderPlaced(code: Word, rest: seq<Byte>, s: seq<Byte>)
    requires s == BigEndian(MAGIC) + BigEndian(code) + rest
    ensures WordAt(s, 0) == MAGIC && WordAt(s, 4) == code
  {
    hide WordAt, BigEndian;
    assert s == [] + BigEndian(MAGIC) + (BigEndian(code) + rest);
    WordPlaced([], MAGIC, BigEndian(code) + rest);
    WordPlaced(BigEndian(MAGIC), code, rest);
  }

  lemma AddressPlaced(code: Word, region: Word, sector: Word, rest: seq<Byte>, s: seq<Byte>)
    requires s == BigEndian(MAGIC) + BigEndian(code) + (BigEndian(region) + BigEndian(sector) + rest)
    ensures WordAt(s, 8) == region && WordAt(s, 12) == sector
  {
    hide WordAt, BigEndian;
    var head := BigEndian(MAGIC) + BigEndian(code);
    assert s == head + BigEndian(region) + (BigEndian(sector) + rest);
    WordPlaced(head, region, BigEndian(sector) + rest);
    assert s == head + BigEndian(region) + BigEndian(sector) + rest;
    WordPlaced(head + BigEndian(region), sector, rest);
  }

  /** The device reads every command as the one that was sent, whatever follows it on the wire. */
  lemma ParseWire(c: Command, rest: seq<Byte>)
    ensures Deliverable(Wire(c) + rest) && Parse(Wire(c) + rest) == c
    ensures |Wire(c)| == 8 + ArgumentSize(Code(c))
  {
    hide WordAt, BigEndian;
    var s := Wire(c) + rest;
    assert s == BigEndian(MAGIC) + BigEndian(Code(c)) + (Arguments(c) + rest);
    HeaderPlaced(Code(c), Arguments(c) + rest, s);
    if c.Read? {
      assert Arguments(c) + rest == BigEndian(c.region) + BigEndian(c.sector) + rest;
      AddressPlaced(Code(c), c.region, c.sector, rest, s);
    } else if c.Write? {
      assert Arguments(c) + rest == BigEndian(c.region) + BigEndian(c.sector) + (c.data + rest);
      AddressPlaced(Code(c), c.region, c.sector, c.data + rest, s);
      assert s[16..528] == c.data;
    }
  }

  lemma WordBack(s: seq<Byte>, i: nat)
    requires i + 4 <= |s|
    ensures BigEndian(WordAt(s, i)) == s[i..i + 4]
  {
    FromBigEndianRoundTrip(s[i..i + 4]);
  }

  lemma HeaderParse(s: seq<Byte>)
    requires Deliverable(s)
    ensures BigEndian(MAGIC) + BigEndian(Code(Parse(s))) == s[..8]
  {
    hide BigEndian, WordAt;
    WordBack(s, 0);
    WordBack(s, 4);
    assert s[0..4] + s[4..8] == s[..8];
  }

  lemma ArgumentsParse(s: seq<Byte>) returns (end: nat)
    requires Deliverable(s)
    ensures 8 <= end <= |s| && Arguments(Parse(s)) == s[8..end]
  {
    hide BigEndian, WordAt;
    end := 8 + ArgumentSize(WordAt(s, 4));
    if end > 8 {
      WordBack(s, 8);
      WordBack(s, 12);
      AddressBytes(s, end);
    }
  }

  lemma AddressBytes(s: seq<Byte>, end: nat)
    requires 16 <= end <= |s|
    ensures s[8..12] + s[12..16] == s[8..16] && s[8..12] + s[12..16] + s[16..end] == s[8..end]
  {}

  /** The device takes exactly the bytes of the command it serves. */
  lemma WireParse(s: seq<Byte>)
    requires Deliverable(s)
    ensures Wire(Parse(s)) <= s
  {
    hide BigEndian, Arguments, Parse, Deliverable;
    HeaderParse(s);
    var end := ArgumentsParse(s);
    assert s[..8] + s[8..end] == s[..end];
  }

  // ---- What serving a command means ----

  /** The number of bytes the host waits for. */
  function ReplySize(c: Command): nat {
    match c
    case Init => 4
    case Read(_, _) => 512
    case Write(_, _, _) => 4
    case ExtCsd => 512
    case Kick => 0
    case Invalid(_) => 0
  }

  /** Nothing but the sector under key differs. */
  predicate SameElsewhere(d: Disk, key: Key, e: Disk) {
    e.Keys == d.Keys && forall k <- d :: k != key ==> e[k] == d[k]
  }

  /** The device at its loop head, over a flash with contents d, serves c: the flash then holds e
      and the reply has been sent. No reply means that the operation failed. */
  predicate Serves(d: Disk, c: Command, e: Disk, reply: seq<Byte>) {
    match c
    case Init => e == d && reply == BigEndian(ACK_INIT)
    case Read(region, sector) =>
      e == d && (reply == [] || (Key(region, sector) in d && reply == ToBytes(d[Key(region, sector)])))
    case Write(region, sector, data) =>
      if reply == [] then SameElsewhere(d, Key(region, sector), e)
      else Key(region, sector) in d && e == d[Key(region, sector) := ToWords(data)] && reply == BigEndian(ACK_WRITE)
    case ExtCsd => e == d && |reply| == 512
    case Kick => e == d && reply == []
    case Invalid(_) => e == d && reply == []
  }

  /** The acknowledgements on the wire. */
  lemma Acknowledgements(d: Disk, c: Command, e: Disk, reply: seq<Byte>)
    requires Serves(d, c, e, reply)
    ensures c.Init? ==> reply == [0xD1, 0xD1, 0xD1, 0xD1]
    ensures c.Write? && reply != [] ==> reply == [0xD0, 0xD0, 0xD0, 0xD0]
  {
    hide ToBytes, ToWords;
  }

  /** What there is to know of a device between two turns of its loop: the contents of the flash, whether
      the driver knows the card's partition and nothing is under way, and which partition it believes in. */
  datatype View = View(flash: Disk, known: bool, cached: nat)

  /** Serving c needs no partition switch, or the card does not refuse any. */
  predicate Obeys(m: Temper, cached: nat, c: Command) {
    (c.Read? || c.Write?) && !m.obliging ==> c.region == cached
  }

  /** The driver still knows the partition after c: the operation has succeeded without a switch that could be
      refused, or is an initialization with candid hardware or of a driver that believes in the user area. */
  predicate KeepsKnown(m: Temper, cached: nat, c: Command, reply: seq<Byte>) {
    match c
    case Read(_, _) => reply != [] && Obeys(m, cached, c)
    case Write(_, _, _) => reply != [] && Obeys(m, cached, c)
    case Init => m.candid || cached == PART_USER
    case ExtCsd => m.candid || cached == PART_USER
    case _ => true
  }

  predicate Caches(cached: nat, c: Command, reply: seq<Byte>, after: nat) {
    match c
    case Read(region, _) => reply != [] ==> after == region
    case Write(region, _, _) => reply != [] ==> after == region
    case Init => after in {PART_USER, cached}
    case ExtCsd => after in {PART_USER, cached}
    case _ => after == cached
  }

  /** One turn of the command loop: a whole reply, or none for a read or write that failed. If the driver
      knows the partition before and after it, or no switch can be refused, the command is served as it
      should be. */
  predicate Turn(m: Temper, v: View, c: Command, w: View, reply: seq<Byte>) {
    && |reply| in {0, ReplySize(c)} && (!c.Read? && !c.Write? ==> |reply| == ReplySize(c))
    && (v.known && (w.known || Obeys(m, v.cached, c)) ==> Serves(v.flash, c, w.flash, reply))
    && (v.known && KeepsKnown(m, v.cached, c, reply) ==> w.known)
    && Caches(v.cached, c, reply, w.cached)
    && (c.Write? && reply != [] ==> reply == BigEndian(ACK_WRITE))
  }

  lemma TurnReplySize(m: Temper, v: View, c: Command, w: View, reply: seq<Byte>)
    requires Turn(m, v, c, w, reply)
    ensures reply == [] || |reply| == ReplySize(c)
    ensures !c.Read? && !c.Write? ==> |reply| == ReplySize(c)
  {}
}
