/** class MT8113USB of mt8113_reflash.py, talking to the device of Stage2. The device runs when the host
    waits for a reply, or some time after a call that does not; module Lockstep has the schedules in which
    host and device interleave freely. */
module Host {
  import opened Card
  import opened Bytes
  import opened Protocol
  import opened Emmc
  import opened Stage2
  import opened Words

  /** A call returns normally or raises an exception. */
  datatype Result<+T> = Ok(value: T) | Raised

  predicate IsWord(v: int) { 0 <= v < TWO32 }

  /** struct.pack(">I", v), which raises struct.error for anything but an unsigned 32-bit value. */
  function Pack(v: int): Result<seq<Byte>> { if IsWord(v) then Ok(BigEndian(v)) else Raised }

  /** The arguments that reach the wire: those before the first that cannot be packed. */
  function Packed(args: seq<int>): seq<Byte> {
    if args == [] || !IsWord(args[0]) then [] else BigEndian(args[0]) + Packed(args[1..])
  }

  predicate AllWords(args: seq<int>) { forall i :: 0 <= i < |args| ==> IsWord(args[i]) }

  lemma {:induction false} PackedAppend(args: seq<int>, n: nat)
    requires n < |args| && AllWords(args[..n])
    ensures Packed(args[..n]) + (if IsWord(args[n]) then BigEndian(args[n]) else []) == Packed(args[..n + 1])
    ensures !IsWord(args[n]) ==> Packed(args) == Packed(args[..n])
  {
    if n > 0 {
      assert IsWord(args[..n][0]);
      assert args[1..][..n - 1] == args[..n][1..] && args[1..][..n] == args[..n + 1][1..];
      PackedAppend(args[1..], n - 1);
    }
  }

  class MT8113USB {
    const dev: Device

    /** Reads from the endpoint do not time out while there are bytes to read. As with a prompt controller,
        nothing that is guaranteed of the calls depends on it but that they return normally. */
    const patient: bool

    constructor (dev: Device, patient: bool)
      ensures this.dev == dev && this.patient == patient
    {
      this.dev, this.patient := dev, patient;
    }

    function Footprint(): set<object> {
      {dev, dev.link, dev.buf, dev.driver, dev.driver.hw}
    }

    ghost predicate Valid()
      reads dev, dev.driver, dev.driver.hw
    {
      dev.Valid()
    }

    /** Host and device are in step: the device waits at its loop head, and nothing is on the wire but
        watchdog kicks that it has not taken yet. */
    ghost predicate InStep()
      reads Footprint()
    {
      dev.alive && Valid() && dev.link.d2h == [] && OnlyKicks(dev.link.h2d)
    }

    /** The commands that the host has sent, served or not. */
    ghost function Sent(): seq<Command>
      reads dev, dev.link
    {
      dev.served + Waiting(dev.link.h2d)
    }

    /** In step, with a card at rest whose partition the driver knows. */
    ghost predicate Ready()
      reads Footprint()
    {
      InStep() && dev.Clean()
    }

    /** An access to this region cannot be misled by a switch that the card refuses. */
    ghost predicate Obliges(region: int)
      reads dev.driver
    {
      dev.driver.hw.Obliging() || dev.driver.currentPartition == region
    }

    ghost predicate ReadyFor(region: int)
      reads Footprint()
    {
      Ready() && Obliges(region)
    }

    /** The driver cannot lose track of the card's partition in an initialization: the hardware is candid, or
        the driver believes in the user area, which is where an initialized card is. */
    ghost predicate Steady()
      reads dev.driver
    {
      dev.driver.hw.candid || dev.driver.currentPartition == PART_USER
    }

    /** What a command of the tool needs that dumps EXT_CSD and then accesses a region. */
    ghost predicate SteadyFor(region: int)
      reads Footprint()
    {
      Ready() && Steady()
      && (dev.driver.hw.Obliging() || dev.driver.currentPartition == region == PART_USER)
    }

    /** Everything is ready, and neither hardware nor link will fail. */
    ghost predicate Fit()
      reads Footprint()
    {
      patient && InStep() && dev.Fit()
    }

    /** A sector that the calls can reach. */
    ghost predicate Exists(region: int, sector: int)
      reads dev.driver.hw
    {
      0 <= region <= 2 && IsWord(sector) && Key(region, sector) in Flash()
    }

    ghost function Flash(): Disk
      reads dev.driver.hw
    {
      dev.driver.hw.s.disk
    }

    method UsbWrite(data: seq<Byte>)
      modifies dev.link
      ensures dev.link.h2d == old(dev.link.h2d) + data && dev.link.d2h == old(dev.link.d2h)
    {
      dev.link.h2d := dev.link.h2d + data;
      var idle: int := *;
      dev.link.idle := if idle > 0 then idle else 0;
    }

    /** ep_in.read: some of the bytes that are there, possibly none, or a timeout. */
    method EpRead(size: nat) returns (chunk: Result<seq<Byte>>)
      requires size > 0
      modifies dev.link
      ensures dev.link.h2d == old(dev.link.h2d)
      ensures chunk.Ok? ==> |chunk.value| <= size && old(dev.link.d2h) == chunk.value + dev.link.d2h
      ensures chunk.Ok? && chunk.value == [] ==> dev.link.idle < old(dev.link.idle)
      ensures chunk.Raised? ==> dev.link.d2h == old(dev.link.d2h)
      ensures patient && |old(dev.link.d2h)| > 0 ==> chunk.Ok?
    {
      var k: int := *;
      if k == 0 && dev.link.idle > 0 {
        dev.link.idle := dev.link.idle - 1;
        return Ok([]);
      }
      if patient && (k <= 0 || k > size || k > |dev.link.d2h|) {
        k := if size <= |dev.link.d2h| then size else |dev.link.d2h|;
      }
      if k <= 0 || k > size || k > |dev.link.d2h| {
        return Raised;
      }
      chunk := Ok(dev.link.d2h[..k]);
      dev.link.d2h := dev.link.d2h[k..];
    }

    /** usbread: chunks, which may be empty, are accumulated until there are enough bytes, and never more. */
    method UsbRead(size: nat) returns (r: Result<seq<Byte>>)
      modifies dev.link
      ensures dev.link.h2d == old(dev.link.h2d)
      ensures r.Ok? ==> |r.value| == size && old(dev.link.d2h) == r.value + dev.link.d2h
      ensures patient && |old(dev.link.d2h)| >= size ==> r.Ok?
    {
      var data := [];
      while |data| < size
        invariant |data| <= size && dev.link.h2d == old(dev.link.h2d)
        invariant old(dev.link.d2h) == data + dev.link.d2h
        decreases size - |data|, dev.link.idle
      {
        var chunk := EpRead(size - |data|);
        if chunk.Raised? {
          return Raised;
        }
        data := data + chunk.value;
      }
      r := Ok(data);
    }

    /** send_command. Words are sent one by one, so an argument that cannot be packed leaves the
        command cut short on the wire. */
    method SendCommand(code: Word, args: seq<int>) returns (r: Result<()>)
      modifies dev.link
      ensures r.Ok? <==> AllWords(args)
      ensures dev.link.h2d == old(dev.link.h2d) + BigEndian(MAGIC) + BigEndian(code) + Packed(args)
      ensures dev.link.d2h == old(dev.link.d2h)
    {
      UsbWrite(BigEndian(MAGIC));
      UsbWrite(BigEndian(code));
      ghost var header := dev.link.h2d;
      var i := 0;
      assert args[..0] == [] && args[..|args|] == args;
      while i < |args|
        invariant i <= |args| && AllWords(args[..i]) && dev.link.d2h == old(dev.link.d2h)
        invariant dev.link.h2d == header + Packed(args[..i])
      {
        PackedAppend(args, i);
        var word := Pack(args[i]);
        if word.Raised? {
          return Raised;
        }
        UsbWrite(word.value);
        i := i + 1;
      }
      r := Ok(());
    }

    /** The device takes n of the kicks on the wire. */
    method ServeKicks(n: nat, ghost total: nat, ghost after: seq<Byte>)
      requires Valid() && dev.alive && n <= total && dev.link.h2d == Wires(Kicks(total)) + after
      modifies Footprint()
      ensures Valid() && dev.alive && dev.link.h2d == Wires(Kicks(total - n)) + after && dev.link.d2h == old(dev.link.d2h)
      ensures dev.served == old(dev.served) + Kicks(n)
      ensures dev.driver.hw.s == old(dev.driver.hw.s) && dev.driver.currentPartition == old(dev.driver.currentPartition)
      ensures (old(dev.Clean()) ==> dev.Clean()) && (old(dev.Fit()) ==> dev.Fit())
    {
      hide Wire, Parse, StartsWithMagic, Deliverable, Quiet, Contained, Confined, Wires;
      ghost var served := dev.served;
      var i := 0;
      while i < n
        invariant 0 <= i <= n && Valid() && dev.alive
        invariant dev.link.h2d == Wires(Kicks(total - i)) + after && dev.link.d2h == old(dev.link.d2h)
        invariant dev.served == served + Kicks(i)
        invariant dev.driver.hw.s == old(dev.driver.hw.s)
        invariant dev.driver.currentPartition == old(dev.driver.currentPartition)
        invariant (old(dev.Clean()) ==> dev.Clean()) && (old(dev.Fit()) ==> dev.Fit())
      {
        KickFirst(total - i, after);
        ghost var reply := dev.ServeOne();
        KickServed(served, i);
        i := i + 1;
      }
    }

    /** The host waits, and the device takes the kicks on the wire and the command behind them. */
    method Serve(c: Command, ghost n: nat) returns (ghost reply: seq<Byte>)
      requires Valid() && dev.alive && dev.link.h2d == Wires(Kicks(n)) + Wire(c) && dev.link.d2h == []
      modifies Footprint()
      ensures Valid() && dev.alive && dev.link.h2d == [] && dev.link.d2h == reply
      ensures dev.served == old(dev.served) + Kicks(n) + [c]
      ensures c.ExtCsd? ==> dev.driver.hw.s.extCsd == old(dev.driver.hw.s.extCsd)
                            && (old(dev.Fit()) ==> reply == ToBytes(dev.driver.hw.s.extCsd))
      ensures Performs(dev.driver.hw.Manners(), old(dev.Now()), old(dev.driver.hw.s), c, dev.Now(), dev.driver.hw.s, reply)
      ensures old(dev.Can(c)) ==> |reply| == ReplySize(c) && dev.Fit()
    {
      hide Wire, Parse, StartsWithMagic, Performs, Wires, Deliverable, WordAt;
      KicksSize(n);
      var kicks := (|dev.link.h2d| - |Wire(c)|) / 8;
      ServeKicks(kicks, n, Wire(c));
      NoKicks(Wire(c));
      Arrived(c, dev.link.h2d);
      reply := dev.ServeOne();
    }

    /** read_sector. */
    method ReadSector(region: int, sector: int) returns (r: Result<seq<Byte>>)
      requires InStep()
      modifies Footprint()
      ensures Valid() && ServedFrom(old(Sent()), ReadCommand(region, sector), dev.served)
      ensures r.Ok? ==> InStep() && IsWord(region) && IsWord(sector) && |r.value| == 512
                        && dev.link.h2d == [] && dev.served == old(Sent()) + [Read(region, sector)]
                        && dev.driver.currentPartition == region
      ensures Quiet(old(dev.driver.hw.s)) ==> Quiet(dev.driver.hw.s) && Flash() == old(Flash())
      ensures r.Ok? && old(Ready()) && (Ready() || old(Obliges(region))) ==>
                Ready() && Key(region, sector) in Flash() && r.value == ToBytes(Flash()[Key(region, sector)])
      ensures r.Ok? ==> Turn(dev.driver.hw.Manners(), old(dev.Now()), Read(region, sector), dev.Now(), r.value)
      ensures old(Fit() && Exists(region, sector)) ==> r.Ok? && Fit()
    {
      hide ToBytes, Wire, Wires;
      r := Raised;
      ghost var n := |dev.link.h2d| / 8;
      var sent := SendCommand(OP_READ, [region, sector]);
      if sent.Ok? {
        assert IsWord([region, sector][0]) && IsWord([region, sector][1]);
        ReadOnWire(Wires(Kicks(n)), region, sector);
        ghost var reply := Serve(Read(region, sector), n);
        r := UsbRead(512);
        NoKicks([]);
        if r.Ok? {
          assert |reply| >= 512;
        }
      }
    }

    /** write_sector. It returns true or raises. The only sector it can ever change is the addressed
        one, and that one only if it is given 512 bytes and numbers that fit the protocol; if the driver
        is or becomes wrong about the card's partition, it is the sector of that number in the card's
        partition. */
    method WriteSector(region: int, sector: int, data: seq<Byte>) returns (r: Result<bool>)
      requires InStep()
      modifies Footprint()
      ensures Valid() && ServedFrom(old(Sent()), WriteCommand(region, sector, data), dev.served)
      ensures |data| != 512 ==> r == Raised && InStep()
      ensures if |data| == 512 && IsWord(region) && IsWord(sector)
              then (Quiet(old(dev.driver.hw.s)) ==> Confined(old(Flash()), Key(dev.driver.hw.s.part, sector), dev.driver.hw.s))
                   && (old(Ready()) && (dev.Clean() || old(Obliges(region))) ==>
                         Confined(old(Flash()), Key(region, sector), dev.driver.hw.s))
              else r == Raised && dev.driver.hw.s == old(dev.driver.hw.s)
      ensures r.Ok? ==> r.value && InStep() && |data| == 512
                        && dev.link.h2d == [] && dev.served == old(Sent()) + [Write(region, sector, data)]
                        && dev.driver.currentPartition == region
      ensures r.Ok? && old(Ready()) && (Ready() || old(Obliges(region))) ==>
                Ready() && Key(region, sector) in old(Flash())
                && Flash() == old(Flash())[Key(region, sector) := ToWords(data)]
      ensures r.Ok? ==> Turn(dev.driver.hw.Manners(), old(dev.Now()), Write(region, sector, data), dev.Now(), BigEndian(ACK_WRITE))
      ensures old(Fit() && Exists(region, sector)) && |data| == 512 ==> r.Ok? && Fit()
    {
      hide ToWords, Wire, Wires, Confined;
      if |data| != 512 {
        return Raised;
      }
      r := Raised;
      ghost var n := |dev.link.h2d| / 8;
      var sent := SendCommand(OP_WRITE, [region, sector]);
      if sent.Ok? {
        assert IsWord([region, sector][0]) && IsWord([region, sector][1]);
        WriteOnWire(Wires(Kicks(n)), region, sector, data);
        UsbWrite(data);
        ghost var reply := Serve(Write(region, sector, data), n);
        var response := UsbRead(4);
        NoKicks([]);
        if response.Ok? {
          assert response.value == reply == BigEndian(ACK_WRITE);
          AckIsSymmetric();
          r := Ok(FromLittleEndian(response.value) == ACK_WRITE);
        }
      }
    }

    /** get_ext_csd. The device answers even when it could not read the register, and it has run
        emmc_init, whose failures nobody sees: the driver is sure to know the card's partition afterwards
        if it believed in the user area before, or with candid hardware. */
    method GetExtCsd() returns (r: Result<seq<Byte>>)
      requires InStep()
      modifies Footprint()
      ensures Valid() && ServedFrom(old(Sent()), [ExtCsd], dev.served)
      ensures Quiet(old(dev.driver.hw.s)) ==> Quiet(dev.driver.hw.s) && Flash() == old(Flash())
      ensures r.Ok? ==> |r.value| == 512 && InStep() && dev.link.h2d == [] && dev.served == old(Sent()) + [ExtCsd]
      ensures dev.driver.currentPartition in {PART_USER, old(dev.driver.currentPartition)}
      ensures r.Ok? && old(Ready() && Steady()) ==> Ready()
      ensures r.Ok? ==> Turn(dev.driver.hw.Manners(), old(dev.Now()), ExtCsd, dev.Now(), r.value)
      ensures dev.driver.hw.s.extCsd == old(dev.driver.hw.s.extCsd)
      ensures old(Fit()) ==> r == Ok(ToBytes(dev.driver.hw.s.extCsd)) && Fit()
    {
      hide Wire, Wires;
      r := Raised;
      ghost var n := |dev.link.h2d| / 8;
      var sent := SendCommand(OP_EXT_CSD, []);
      PlainOnWire(Wires(Kicks(n)), ExtCsd);
      ghost var reply := Serve(ExtCsd, n);
      r := UsbRead(512);
      NoKicks([]);
      if r.Ok? {
        assert |reply| == 512;
        assert r.value == reply;
      }
    }

    /** kick_watchdog, which has no reply: the command is sent, and the device takes it when it likes. */
    method KickWatchdog()
      requires InStep()
      modifies Footprint()
      ensures Sent() == old(Sent()) + [Kick]
      ensures InStep() && dev.driver.hw.s == old(dev.driver.hw.s) && dev.Now() == old(dev.Now())
      ensures dev.driver.currentPartition == old(dev.driver.currentPartition) && old(dev.served) <= dev.served
      ensures (old(Ready()) ==> Ready()) && (old(Fit()) ==> Fit())
    {
      hide Wire, Wires;
      ghost var n := |dev.link.h2d| / 8;
      var sent := SendCommand(OP_KICK, []);
      PlainOnWire(Wires(Kicks(n)), Kick);
      KickLast(n);
      KicksSize(n + 1);
      var turns: int := *;
      var total := |dev.link.h2d| / 8;
      turns := if 0 <= turns <= total then turns else total;
      NothingBehind(Wires(Kicks(n + 1)));
      ServeKicks(turns, n + 1, []);
      NothingBehind(Wires(Kicks(n + 1 - turns)));
      KicksSize(n + 1 - turns);
      KicksSplit(old(dev.served), turns, n + 1);
    }
  }

  /** The command that read_sector manages to send, if any; likewise write_sector. */
  function ReadCommand(region: int, sector: int): seq<Command> {
    if IsWord(region) && IsWord(sector) then [Read(region, sector)] else []
  }

  function WriteCommand(region: int, sector: int, data: seq<Byte>): seq<Command> {
    if |data| == 512 && IsWord(region) && IsWord(sector) then [Write(region, sector, data)] else []
  }

  /** Nothing has been served but what had been sent, and perhaps more. */
  ghost predicate ServedFrom(sent: seq<Command>, more: seq<Command>, served: seq<Command>) { served <= sent + more }

  ghost predicate OnlyKicks(h2d: seq<Byte>) { h2d == Wires(Waiting(h2d)) }

  ghost function Waiting(h2d: seq<Byte>): seq<Command> { Kicks(|h2d| / 8) }

  lemma {:induction false} KicksSize(n: nat)
    ensures |Wires(Kicks(n))| == 8 * n
  {
    if n > 0 {
      KickFirst(n, []);
      KicksSize(n - 1);
    } else {
      assert Kicks(0) == [];
    }
  }

  lemma KickFirst(n: nat, after: seq<Byte>)
    requires n > 0
    ensures Wires(Kicks(n)) == Wire(Kick) + Wires(Kicks(n - 1)) && |Wire(Kick)| == 8
    ensures var s := Wires(Kicks(n)) + after;
            |s| >= 8 && Deliverable(s) && StartsWithMagic(s) && Parse(s) == Kick && s[8..] == Wires(Kicks(n - 1)) + after
  {
    assert Kicks(n)[1..] == Kicks(n - 1);
    hide Wire;
    var rest := Wires(Kicks(n - 1)) + after;
    assert Wires(Kicks(n)) + after == Wire(Kick) + rest;
    ParseWire(Kick, rest);
  }

  lemma {:induction false} KickLast(n: nat)
    ensures Wires(Kicks(n)) + Wire(Kick) == Wires(Kicks(n + 1))
    ensures Kicks(n) + [Kick] == Kicks(n + 1)
  {
    hide Wire;
    if n > 0 {
      KickLast(n - 1);
      KickFirst(n, []);
      KickFirst(n + 1, []);
      Regroup(Wire(Kick), Wires(Kicks(n - 1)), Wire(Kick));
    } else {
      assert Kicks(0) == [] && Kicks(1)[1..] == [];
      assert Wires([]) == [];
      assert [] + Wire(Kick) == Wire(Kick) + [];
    }
  }

  lemma Regroup(a: seq<Byte>, b: seq<Byte>, c: seq<Byte>)
    ensures a + b + c == a + (b + c)
  {}

  lemma KickServed(served: seq<Command>, i: nat)
    ensures served + Kicks(i) + [Kick] == served + Kicks(i + 1)
  {}

  lemma KicksSplit(served: seq<Command>, i: nat, n: nat)
    requires i <= n
    ensures served + Kicks(i) + Kicks(n - i) == served + Kicks(n)
  {}

  lemma NoKicks(after: seq<Byte>)
    ensures Kicks(0) == [] && Wires(Kicks(0)) + after == after
  {}

  lemma NothingBehind(s: seq<Byte>)
    ensures s + [] == s
  {}

  lemma Arrived(c: Command, s: seq<Byte>)
    requires s == Wire(c)
    ensures |s| >= 4 && StartsWithMagic(s) && Deliverable(s) && Parse(s) == c && s[|Wire(c)|..] == []
  {
    ParseWire(c, []);
    assert Wire(c) + [] == Wire(c);
  }

  lemma PackedPair(a: Word, b: Word)
    ensures Packed([a, b]) == BigEndian(a) + BigEndian(b)
  {
    assert [a, b][1..] == [b] && [b][1..] == [];
    assert Packed([b]) == BigEndian(b) + [];
  }

  lemma ReadOnWire(before: seq<Byte>, region: Word, sector: Word)
    ensures before + BigEndian(MAGIC) + BigEndian(OP_READ) + Packed([region, sector]) == before + Wire(Read(region, sector))
  {
    PackedPair(region, sector);
  }

  lemma WriteOnWire(before: seq<Byte>, region: Word, sector: Word, data: Payload)
    ensures before + BigEndian(MAGIC) + BigEndian(OP_WRITE) + Packed([region, sector]) + data
            == before + Wire(Write(region, sector, data))
  {
    PackedPair(region, sector);
    var args := BigEndian(region) + BigEndian(sector);
    assert BigEndian(MAGIC) + BigEndian(OP_WRITE) + args + data == BigEndian(MAGIC) + BigEndian(OP_WRITE) + (args + data);
  }

  lemma PlainOnWire(before: seq<Byte>, c: Command)
    requires c.ExtCsd? || c.Kick?
    ensures before + BigEndian(MAGIC) + BigEndian(Code(c)) + Packed([]) == before + Wire(c)
  {}

  /** The acknowledgement reads the same in both byte orders: it is sent big-endian and the host
      unpacks it little-endian. */
  lemma AckIsSymmetric()
    ensures FromLittleEndian(BigEndian(ACK_WRITE)) == ACK_WRITE
  {}

  /** After send_command has raised on the first or second argument of a read or write, the device takes
      words of the next command for the arguments that are missing. A read is then served like that, and
      the rest of the next command is left on the wire. */
  lemma CutShortMisreads(code: Word, args: seq<int>, c: Command, s: seq<Byte>)
    requires code in {OP_READ, OP_WRITE} && |args| == 2 && !AllWords(args)
    requires s == BigEndian(MAGIC) + BigEndian(code) + Packed(args) + Wire(c)
    ensures |s| >= 16 && StartsWithMagic(s) && WordAt(s, 4) == code
    ensures if IsWord(args[0]) then WordAt(s, 8) == args[0] && WordAt(s, 12) == MAGIC
            else WordAt(s, 8) == MAGIC && WordAt(s, 12) == Code(c)
    ensures code == OP_READ ==> Deliverable(s) && Parse(s) == Read(WordAt(s, 8), WordAt(s, 12))
    ensures s[16..] == (if IsWord(args[0]) then BigEndian(Code(c)) else []) + Arguments(c)
  {
    hide BigEndian, WordAt, Arguments;
    var head := BigEndian(MAGIC) + BigEndian(code);
    if IsWord(args[0]) {
      OneArgument(args);
      assert s == head + (BigEndian(args[0]) + BigEndian(MAGIC) + (BigEndian(Code(c)) + Arguments(c)));
      HeaderPlaced(code, BigEndian(args[0]) + BigEndian(MAGIC) + (BigEndian(Code(c)) + Arguments(c)), s);
      AddressPlaced(code, args[0], MAGIC, BigEndian(Code(c)) + Arguments(c), s);
    } else {
      assert Packed(args) == [];
      assert s == head + (BigEndian(MAGIC) + BigEndian(Code(c)) + Arguments(c));
      HeaderPlaced(code, BigEndian(MAGIC) + BigEndian(Code(c)) + Arguments(c), s);
      AddressPlaced(code, MAGIC, Code(c), Arguments(c), s);
    }
  }

  lemma OneArgument(args: seq<int>)
    requires |args| == 2 && IsWord(args[0]) && !IsWord(args[1])
    ensures Packed(args) == BigEndian(args[0])
  {
    assert Packed(args[1..]) == [];
  }

  // ---- Runs of calls ----

  datatype Call = ReadCall(region: int, sector: int) | WriteCall(region: int, sector: int, data: seq<Byte>) | ExtCsdCall | KickCall

  /** The plain map that a run of calls is to behave like. */
  ghost function Replay(d: Disk, calls: seq<Call>): Disk {
    if calls == [] then d else Effect(Replay(d, calls[..|calls| - 1]), calls[|calls| - 1])
  }

  ghost function Effect(d: Disk, c: Call): Disk {
    if c.WriteCall? && |c.data| == 512 && c.region >= 0 && c.sector >= 0
    then d[Key(c.region, c.sector) := ToWords(c.data)] else d
  }

  /** A call on a map with contents d may return these bytes, and is one that can be carried out. */
  ghost predicate Answers(d: Disk, c: Call, answer: seq<Byte>) {
    match c
    case ReadCall(region, sector) =>
      region >= 0 && sector >= 0 && Key(region, sector) in d && answer == ToBytes(d[Key(region, sector)])
    case WriteCall(region, sector, data) =>
      region >= 0 && sector >= 0 && Key(region, sector) in d && |data| == 512
    case _ => true
  }

  /** Each of the first n calls has answered from the map that the calls before it have made. */
  ghost predicate Faithful(d: Disk, calls: seq<Call>, answers: seq<seq<Byte>>, n: nat) {
    n <= |answers| && n <= |calls|
    && forall i :: 0 <= i < n ==> Answers(Replay(d, calls[..i]), calls[i], answers[i])
  }

  lemma FaithfulNext(d: Disk, calls: seq<Call>, answers: seq<seq<Byte>>, n: nat, answer: seq<Byte>)
    requires Faithful(d, calls, answers, n) && |answers| < |calls|
    ensures Faithful(d, calls, answers + [answer], n)
    ensures n == |answers| && Answers(Replay(d, calls[..n]), calls[n], answer) ==>
              Faithful(d, calls, answers + [answer], n + 1)
  {}

  /** The partitions that the driver may believe in after some calls: the region of the last access, or what
      it believed in before all of them, or since an EXT_CSD dump the user area. */
  ghost function Believed(calls: seq<Call>, start: int): set<int> {
    if calls == [] then {start}
    else
      var c, before := calls[|calls| - 1], Believed(calls[..|calls| - 1], start);
      if c.ReadCall? || c.WriteCall? then {c.region} else if c.ExtCsdCall? then before + {PART_USER as int} else before
  }

  /** Call n may make the driver wrong about the card's partition: it dumps EXT_CSD when the driver may
      believe in a boot partition, and the hardware is not candid; or it accesses a region that the driver may
      not believe in, and the card may refuse a switch. */
  ghost predicate MayLose(m: Temper, calls: seq<Call>, start: int, n: nat) {
    n < |calls|
    && var c, before := calls[n], Believed(calls[..n], start);
       if c.ReadCall? || c.WriteCall? then !m.obliging && before != {c.region}
       else c.ExtCsdCall? && !m.candid && before != {PART_USER as int}
  }

  ghost predicate Certain(m: Temper, calls: seq<Call>, start: int) {
    forall n :: 0 <= n < |calls| ==> !MayLose(m, calls, start, n)
  }

  ghost predicate MayBelieve(calls: seq<Call>, n: nat, start: int, cached: int) {
    n <= |calls| && cached in Believed(calls[..n], start)
  }

  /** Any calls in any order, for as long as they return normally. Host and device stay in step
      throughout. Each call has answered from, and acted on, a plain map, up to the first call that may make
      the driver wrong about the card's partition; with candid and obliging hardware to the end. If nothing
      fails and every call asks for something that exists, all of them return. */
  method Run(usb: MT8113USB, calls: seq<Call>) returns (answers: seq<seq<Byte>>, ghost faithful: nat)
    requires usb.Ready()
    modifies usb.Footprint()
    ensures |answers| <= |calls| && faithful <= |answers| && (|answers| == |calls| ==> usb.InStep())
    ensures faithful < |answers| ==>
              MayLose(usb.dev.driver.hw.Manners(), calls, old(usb.dev.driver.currentPartition), faithful)
    ensures Certain(usb.dev.driver.hw.Manners(), calls, old(usb.dev.driver.currentPartition)) ==> faithful == |answers|
    ensures Faithful(old(usb.Flash()), calls, answers, faithful)
    ensures faithful == |calls| ==> usb.Ready() && usb.Flash() == Replay(old(usb.Flash()), calls)
    ensures old(usb.Fit()) && AllDoable(old(usb.Flash()), calls) ==> faithful == |calls| && usb.Fit()
  {
    hide *;
    ReadyInStep(usb);
    ghost var d, start, m := usb.Flash(), usb.dev.driver.currentPartition, usb.dev.driver.hw.Manners();
    ghost var fine := usb.Fit() && AllDoable(d, calls);
    answers, faithful := [], 0;
    ProgressStart(m, d, calls, start);
    while |answers| < |calls|
      invariant |answers| <= |calls| && usb.InStep()
      invariant Progress(m, d, calls, start, answers, faithful, usb.Flash(), usb.Ready(), usb.dev.driver.currentPartition)
      invariant fine ==> faithful == |answers| && usb.Fit() && usb.Flash().Keys == d.Keys
      decreases |calls| - |answers|
    {
      ghost var e, ready, cached := usb.Flash(), usb.Ready(), usb.dev.driver.currentPartition;
      ProgressMeans(m, d, calls, start, answers, faithful, e, ready, cached);
      if fine {
        StillDoable(d, e, calls, |answers|);
      }
      var answer := Perform(usb, calls, |answers|, start);
      if answer.Raised? {
        return;
      }
      ProgressNext(m, d, calls, start, answers, faithful, e, ready, cached,
                   answer.value, usb.Flash(), usb.Ready(), usb.dev.driver.currentPartition);
      if faithful == |answers| && usb.Ready() {
        faithful := faithful + 1;
      }
      answers := answers + [answer.value];
    }
    ProgressMeans(m, d, calls, start, answers, faithful, usb.Flash(), usb.Ready(), usb.dev.driver.currentPartition);
  }

  lemma ReadyInStep(usb: MT8113USB)
    requires usb.Ready()
    ensures usb.InStep()
  {}

  /** Where a run stands: what has been answered, how much of it from the plain map, and in what state
      the flash and the driver are. */
  ghost predicate Progress(m: Temper, d: Disk, calls: seq<Call>, start: int, answers: seq<seq<Byte>>, faithful: nat,
                           e: Disk, ready: bool, cached: int) {
    && faithful <= |answers| <= |calls| && Faithful(d, calls, answers, faithful)
    && (faithful < |answers| ==> MayLose(m, calls, start, faithful))
    && (faithful == |answers| ==> ready && e == Replay(d, calls[..|answers|]))
    && MayBelieve(calls, |answers|, start, cached)
  }

  lemma ProgressStart(m: Temper, d: Disk, calls: seq<Call>, start: int)
    ensures Progress(m, d, calls, start, [], 0, d, true, start)
  {}

  lemma ProgressNext(m: Temper, d: Disk, calls: seq<Call>, start: int, answers: seq<seq<Byte>>, faithful: nat,
                     e: Disk, ready: bool, cached: int, answer: seq<Byte>, f: Disk, readyAfter: bool, cachedAfter: int)
    requires Progress(m, d, calls, start, answers, faithful, e, ready, cached) && |answers| < |calls|
    requires MayBelieve(calls, |answers| + 1, start, cachedAfter)
    requires ready ==> readyAfter || MayLose(m, calls, start, |answers|)
    requires ready && readyAfter ==> Answers(e, calls[|answers|], answer) && f == Effect(e, calls[|answers|])
    ensures Progress(m, d, calls, start, answers + [answer],
                     if faithful == |answers| && readyAfter then faithful + 1 else faithful, f, readyAfter, cachedAfter)
  {
    hide MayBelieve, MayLose, Answers, Effect, Faithful, Replay;
    ReplayNext(d, calls, |answers|);
    FaithfulNext(d, calls, answers, faithful, answer);
  }

  lemma ProgressMeans(m: Temper, d: Disk, calls: seq<Call>, start: int, answers: seq<seq<Byte>>, faithful: nat,
                      e: Disk, ready: bool, cached: int)
    requires Progress(m, d, calls, start, answers, faithful, e, ready, cached)
    ensures faithful <= |answers| && Faithful(d, calls, answers, faithful) && MayBelieve(calls, |answers|, start, cached)
    ensures faithful < |answers| ==> MayLose(m, calls, start, faithful)
    ensures Certain(m, calls, start) ==> faithful == |answers|
    ensures faithful == |answers| ==> ready
    ensures faithful == |calls| ==> ready && e == Replay(d, calls)
  {
    assert calls[..|calls|] == calls;
  }

  /** What the driver believes in after one more call; and that it is certain to know the partition still. */
  lemma BelieveNext(m: Temper, calls: seq<Call>, n: nat, start: int, cached: int, after: int)
    requires n < |calls| && MayBelieve(calls, n, start, cached)
    requires if calls[n].ReadCall? || calls[n].WriteCall? then after == calls[n].region
             else after == cached || (calls[n].ExtCsdCall? && after == PART_USER)
    ensures MayBelieve(calls, n + 1, start, after)
    ensures MayLose(m, calls, start, n) || !calls[n].ExtCsdCall? || m.candid || cached == PART_USER
    ensures MayLose(m, calls, start, n) || !(calls[n].ReadCall? || calls[n].WriteCall?) || m.obliging || cached == calls[n].region
  {
    assert calls[..n + 1][..n] == calls[..n];
  }

  /** A call that asks for something that exists. */
  ghost predicate Doable(d: Disk, c: Call) {
    match c
    case ReadCall(region, sector) => 0 <= region <= 2 && IsWord(sector) && Key(region, sector) in d
    case WriteCall(region, sector, data) => 0 <= region <= 2 && IsWord(sector) && Key(region, sector) in d && |data| == 512
    case _ => true
  }

  ghost predicate AllDoable(d: Disk, calls: seq<Call>) {
    forall i :: 0 <= i < |calls| ==> Doable(d, calls[i])
  }

  lemma StillDoable(d: Disk, e: Disk, calls: seq<Call>, i: nat)
    requires i < |calls| && AllDoable(d, calls) && e.Keys == d.Keys
    ensures Doable(e, calls[i])
  {
    assert forall k :: k in e <==> k in d;
  }

  lemma ReplayNext(d: Disk, calls: seq<Call>, i: nat)
    requires i < |calls|
    ensures Replay(d, calls[..i + 1]) == Effect(Replay(d, calls[..i]), calls[i])
  {
    assert calls[..i + 1][..i] == calls[..i];
  }

  /** The next call of a run. */
  method Perform(usb: MT8113USB, calls: seq<Call>, i: nat, ghost start: int) returns (r: Result<seq<Byte>>)
    requires usb.InStep() && i < |calls| && MayBelieve(calls, i, start, usb.dev.driver.currentPartition)
    modifies usb.Footprint()
    ensures r.Ok? ==> usb.InStep() && MayBelieve(calls, i + 1, start, usb.dev.driver.currentPartition)
    ensures r.Ok? && old(usb.Ready()) ==> usb.Ready() || MayLose(usb.dev.driver.hw.Manners(), calls, start, i)
    ensures r.Ok? && old(usb.Ready()) && usb.Ready() ==>
              Answers(old(usb.Flash()), calls[i], r.value) && usb.Flash() == Effect(old(usb.Flash()), calls[i])
    ensures old(usb.Fit() && Doable(usb.Flash(), calls[i])) ==>
              r.Ok? && usb.Ready() && usb.Fit() && usb.Flash().Keys == old(usb.Flash()).Keys
  {
    ghost var cached := usb.dev.driver.currentPartition;
    hide ToBytes, ToWords, Quiet, Confined, MayBelieve, MayLose;
    match calls[i] {
      case ReadCall(region, sector) =>
        r := usb.ReadSector(region, sector);
      case WriteCall(region, sector, data) =>
        var done := usb.WriteSector(region, sector, data);
        r := if done.Ok? then Ok([]) else Raised;
      case ExtCsdCall =>
        r := usb.GetExtCsd();
      case KickCall =>
        usb.KickWatchdog();
        r := Ok([]);
    }
    if r.Ok? {
      BelieveNext(usb.dev.driver.hw.Manners(), calls, i, start, cached, usb.dev.driver.currentPartition);
    }
  }

  // ---- The plain map: reads return the last write ----

  /** The last of the calls that writes a sector, or -1. */
  ghost function LastWrite(calls: seq<Call>, key: Key): (i: int)
    ensures -1 <= i < |calls|
  {
    if calls == [] then -1
    else if Writes(calls[|calls| - 1], key) then |calls| - 1
    else LastWrite(calls[..|calls| - 1], key)
  }

  ghost predicate Writes(c: Call, key: Key) {
    c.WriteCall? && |c.data| == 512 && c.region == key.region && c.sector == key.sector
  }

  /** After any calls a sector holds what the last call to write it wrote, or what it held before. */
  lemma {:induction false} ReplayIsLastWrite(d: Disk, calls: seq<Call>, key: Key)
    requires key in d
    ensures forall j :: LastWrite(calls, key) < j < |calls| ==> !Writes(calls[j], key)
    ensures LastWrite(calls, key) >= 0 ==> Writes(calls[LastWrite(calls, key)], key)
    ensures key in Replay(d, calls)
    ensures var i := LastWrite(calls, key);
            Replay(d, calls)[key] == (if i < 0 then d[key] else ToWords(calls[i].data))
  {
    hide ToWords;
    if calls != [] {
      ReplayIsLastWrite(d, calls[..|calls| - 1], key);
    }
  }

  /** A sector that was written reads back as the bytes written, through any calls that do not write
      it again. */
  lemma ReadsBack(d: Disk, calls: seq<Call>, i: nat, key: Key, answer: seq<Byte>)
    requires key in d && i < |calls| && Writes(calls[i], key)
    requires forall j :: i < j < |calls| ==> !Writes(calls[j], key)
    requires Answers(Replay(d, calls), ReadCall(key.region, key.sector), answer)
    ensures answer == calls[i].data
  {
    ReplayIsLastWrite(d, calls, key);
    BytesOfWords(calls[i].data);
  }
}
