/** Reading and writing ranges of sectors: read_flash, write_flash and roundtrip_test of
    mt8113_reflash.py. Files are byte sequences. */
module Flash {
  import opened Card
  import opened Bytes
  import Division
  import opened DivMod
  import opened Emmc
  import opened Host
  import opened Protocol
  import opened Stage2
  import opened Words

  datatype Region = Boot0 | Boot1 | Userdata

  /** The PARTITION_ACCESS code of a region (JESD84-B51 section 7.4.69). */
  function AccessCode(r: Region): Word {
    match r
    case Userdata => 0
    case Boot0 => 1
    case Boot1 => 2
  }

  /** REGIONS. */
  function RegionId(r: Region): (id: Word)
    ensures id == AccessCode(r)
  {
    match r
    case Boot0 => PART_BOOT0
    case Boot1 => PART_BOOT1
    case Userdata => PART_USER
  }

  predicate InRange(k: Key, region: int, start: int, n: int) {
    k.region == region && start <= k.sector < start + n
  }

  /** Only sectors of the range may differ. */
  ghost predicate KeptOutside(d: Disk, e: Disk, region: int, start: int, n: int) {
    e.Keys == d.Keys && forall k <- d :: !InRange(k, region, start, n) ==> e[k] == d[k]
  }

  /** Only sectors of the range may differ, now and when a block under way is finished. */
  ghost predicate ConfinedTo(d: Disk, region: int, start: int, n: int, s: Hw) {
    KeptOutside(d, s.disk, region, start, n) && (!Quiet(s) ==> InRange(s.target, region, start, n))
  }

  predicate Has(d: Disk, region: int, sector: int) { region >= 0 && sector >= 0 && Key(region, sector) in d }

  predicate HasRange(d: Disk, region: int, start: int, n: int) {
    forall s :: start <= s < start + n ==> Has(d, region, s)
  }

  /** All sectors of the range can be reached through the protocol. */
  ghost predicate RangeExists(d: Disk, region: int, start: int, n: int) {
    0 <= region <= 2 && forall s :: start <= s < start + n ==> IsWord(s) && Has(d, region, s)
  }

  /** The bytes of n sectors from start on. */
  ghost function RangeBytes(d: Disk, region: int, start: int, n: nat): (s: seq<Byte>)
    requires HasRange(d, region, start, n)
    ensures |s| == 512 * n
  {
    if n == 0 then []
    else assert Has(d, region, start + (n - 1)); RangeBytes(d, region, start, n - 1) + ToBytes(d[Key(region, start + n - 1)])
  }

  /** The least number of sectors that hold the file. */
  function FileSectors(size: nat): (n: nat)
    ensures 512 * n - 512 < size <= 512 * n
  {
    (size + 511) / 512
  }

  function ZeroBytes(n: nat): seq<Byte> { seq(n, _ => 0) }

  /** The file with zeros up to a multiple of 512 bytes. */
  function Padded(file: seq<Byte>): (s: seq<Byte>)
    ensures |s| == 512 * FileSectors(|file|)
    ensures s[..|file|] == file && forall i :: |file| <= i < |s| ==> s[i] == 0
  {
    file + ZeroBytes(512 * FileSectors(|file|) - |file|)
  }

  /** The first n sectors of a range hold these bytes. */
  ghost predicate Holds(d: Disk, region: int, start: int, data: seq<Byte>, n: nat) {
    512 * n <= |data|
    && forall s :: start <= s < start + n ==>
         Has(d, region, s) && d[Key(region, s)] == ToWords(data[512 * (s - start)..512 * (s - start) + 512])
  }

  lemma {:induction false} HeldBytes(d: Disk, region: int, start: int, data: seq<Byte>, n: nat)
    requires Holds(d, region, start, data, n)
    ensures HasRange(d, region, start, n) && RangeBytes(d, region, start, n) == data[..512 * n]
  {
    hide ToBytes, ToWords, Holds;
    if n > 0 {
      HeldLast(d, region, start, data, n);
      HeldBytes(d, region, start, data, n - 1);
      var last := data[512 * (n - 1)..512 * (n - 1) + 512];
      BytesOfWords(last);
      assert data[..512 * (n - 1)] + last == data[..512 * n];
    }
  }

  lemma HeldLast(d: Disk, region: int, start: int, data: seq<Byte>, n: nat)
    requires n > 0 && Holds(d, region, start, data, n)
    ensures 512 * n <= |data| && Holds(d, region, start, data, n - 1) && HasRange(d, region, start, n)
    ensures Has(d, region, start + (n - 1))
            && d[Key(region, start + n - 1)] == ToWords(data[512 * (n - 1)..512 * (n - 1) + 512])
  {
    assert Has(d, region, start + (n - 1));
  }

  // ---- The two loops ----

  /** Of the commands from a position on, all but watchdog kicks read or write sectors of a region, from lo
      on and below hi. */
  ghost predicate Addresses(cs: seq<Command>, from: nat, region: int, lo: int, hi: int) {
    forall i :: from <= i < |cs| ==> Addressed(cs[i], region, lo, hi)
  }

  ghost predicate Addressed(c: Command, region: int, lo: int, hi: int) {
    c.Kick? || ((c.Read? || c.Write?) && c.region == region && lo <= c.sector < hi)
  }

  lemma NothingAddressed(usb: MT8113USB, region: int, lo: int, n: int)
    ensures Addresses(usb.Sent(), |usb.dev.served|, region, lo, lo)
    ensures Addresses(usb.dev.served, |usb.dev.served|, region, lo, lo + n)
  {}

  /** The device has served some of the commands sent, and perhaps one more. */
  lemma OneMoreAddressed(usb: MT8113USB, sent: seq<Command>, more: seq<Command>, from: nat, region: int, lo: int, sector: int)
    requires Addresses(sent, from, region, lo, sector) && lo <= sector && ServedFrom(sent, more, usb.dev.served)
    requires |more| <= 1 && forall c :: c in more ==> Addressed(c, region, sector, sector + 1)
    ensures Addresses(usb.dev.served, from, region, lo, sector + 1)
    ensures usb.dev.link.h2d == [] ==> usb.Sent() == usb.dev.served
  {
    assert forall i :: 0 <= i < |sent| && i < |usb.dev.served| ==> usb.dev.served[i] == (sent + more)[i] == sent[i];
    assert forall i :: |sent| <= i < |usb.dev.served| ==> usb.dev.served[i] == (sent + more)[i] == more[0];
    assert more != [] ==> more[0] in more;
  }

  lemma ReadAddressed(usb: MT8113USB, sent: seq<Command>, from: nat, region: int, lo: int, sector: int)
    requires Addresses(sent, from, region, lo, sector) && lo <= sector
    requires ServedFrom(sent, ReadCommand(region, sector), usb.dev.served)
    ensures Addresses(usb.dev.served, from, region, lo, sector + 1)
    ensures usb.dev.link.h2d == [] ==> usb.Sent() == usb.dev.served
  {
    OneMoreAddressed(usb, sent, ReadCommand(region, sector), from, region, lo, sector);
  }

  lemma WriteAddressed(usb: MT8113USB, sent: seq<Command>, from: nat, region: int, lo: int, sector: int, data: seq<Byte>)
    requires Addresses(sent, from, region, lo, sector) && lo <= sector && |data| == 512
    requires ServedFrom(sent, WriteCommand(region, sector, data), usb.dev.served)
    ensures Addresses(usb.dev.served, from, region, lo, sector + 1)
    ensures usb.dev.link.h2d == [] ==> usb.Sent() == usb.dev.served
  {
    OneMoreAddressed(usb, sent, WriteCommand(region, sector, data), from, region, lo, sector);
  }

  lemma FewerAddressed(cs: seq<Command>, from: nat, region: int, lo: int, hi: int, wider: int)
    requires Addresses(cs, from, region, lo, hi) && hi <= wider
    ensures Addresses(cs, from, region, lo, wider)
  {}

  /** The number of turns of a Python range(n). */
  function AtLeastZero(n: int): nat { if n > 0 then n else 0 }

  /** The loop of read_flash and read_partition. */
  method ReadSectors(usb: MT8113USB, region: int, start: int, num: int) returns (r: Result<seq<Byte>>)
    requires usb.InStep()
    modifies usb.Footprint()
    ensures usb.Valid() && (r.Ok? ==> usb.InStep())
    ensures Quiet(old(usb.dev.driver.hw.s)) ==> Quiet(usb.dev.driver.hw.s) && usb.Flash() == old(usb.Flash())
    ensures r.Ok? ==> |r.value| == 512 * AtLeastZero(num)
    ensures Addresses(usb.dev.served, |old(usb.dev.served)|, region, start, start + num)
    ensures r.Ok? && num > 0 ==> IsWord(region) && IsWord(start) && IsWord(start + num - 1)
    ensures r.Ok? && old(usb.ReadyFor(region)) ==>
              usb.ReadyFor(region) && HasRange(usb.Flash(), region, start, num)
              && r.value == RangeBytes(usb.Flash(), region, start, AtLeastZero(num))
    ensures old(usb.Fit() && RangeExists(usb.Flash(), region, start, num)) ==> r.Ok? && usb.Fit()
  {
    hide OnlyKicks, Waiting, ServedFrom, ReadCommand, ToBytes, Addresses, Addressed, Quiet;
    ghost var fit := usb.Fit() && RangeExists(usb.Flash(), region, start, num);
    ghost var d := usb.Flash();
    ghost var from := |usb.dev.served|;
    var file: seq<Byte> := [];
    var i := 0;
    NothingAddressed(usb, region, start, num);
    while i < num
      invariant 0 <= i <= AtLeastZero(num) && |file| == 512 * i && usb.InStep()
      invariant Addresses(usb.Sent(), from, region, start, start + i)
      invariant Addresses(usb.dev.served, from, region, start, start + num)
      invariant Quiet(old(usb.dev.driver.hw.s)) ==> Quiet(usb.dev.driver.hw.s) && usb.Flash() == d
      invariant old(usb.ReadyFor(region)) ==> usb.ReadyFor(region) && usb.Flash() == d
      invariant i > 0 ==> IsWord(region) && IsWord(start) && IsWord(start + i - 1)
      invariant fit ==> usb.Fit()
      invariant old(usb.ReadyFor(region)) ==> HasRange(d, region, start, i) && file == RangeBytes(d, region, start, i)
    {
      assert fit ==> Has(d, region, start + i);
      ghost var sent := usb.Sent();
      var data := usb.ReadSector(region, start + i);
      ReadAddressed(usb, sent, from, region, start, start + i);
      FewerAddressed(usb.dev.served, from, region, start, start + i + 1, start + num);
      if data.Raised? {
        return Raised;
      }
      file := file + data.value;
      i := i + 1;
    }
    r := Ok(file);
  }

  /** Where the file stands after n sectors have been taken from it. */
  ghost function Position(file: seq<Byte>, n: nat): nat { if n == FileSectors(|file|) then |file| else 512 * n }

  /** f.read(512), padded: the next sector of the padded file, until there is none. */
  method NextSector(file: seq<Byte>, pos: nat, ghost n: nat) returns (data: seq<Byte>, next: nat)
    requires n <= FileSectors(|file|) && pos == Position(file, n)
    ensures data == [] <==> n == FileSectors(|file|)
    ensures data != [] ==> data == Padded(file)[512 * n..512 * n + 512] && next == Position(file, n + 1)
  {
    next := if pos + 512 <= |file| then pos + 512 else |file|;
    data := file[pos..next];
    if 0 < |data| < 512 {
      data := data + ZeroBytes(512 - |data|);
    }
    assert data != [] ==> data == Padded(file)[512 * n..512 * n + 512];
  }

  /** One write of the loops below: the n-th of at most `total` sectors. */
  method WriteNext(usb: MT8113USB, region: int, start: int, data: seq<Byte>, ghost n: nat, ghost total: nat, sector: int,
                   ghost d: Disk) returns (ok: bool)
    requires usb.InStep() && n < total && sector == start + n
    modifies usb.Footprint()
    ensures usb.Valid() && ServedFrom(old(usb.Sent()), WriteCommand(region, sector, data), usb.dev.served)
    ensures ok ==> |data| == 512 && usb.InStep() && IsWord(region) && IsWord(sector) && usb.dev.link.h2d == []
    ensures old(usb.ReadyFor(region)) && KeptOutside(d, old(usb.Flash()), region, start, n) ==>
              ConfinedTo(d, region, start, total, usb.dev.driver.hw.s)
              && (ok ==> usb.ReadyFor(region) && KeptOutside(d, usb.Flash(), region, start, n + 1))
    ensures ok && old(usb.ReadyFor(region)) ==>
              Has(old(usb.Flash()), region, sector) && usb.Flash() == old(usb.Flash())[Key(region, sector) := ToWords(data)]
    ensures |data| == 512 && old(usb.Fit() && KeptOutside(d, usb.Flash(), region, start, n)) ==>
              (RangeExists(d, region, start, total) ==> ok && usb.Fit())
  {
    hide OnlyKicks, Waiting, ServedFrom, WriteCommand, ToWords, Confined, Quiet, KeptOutside, ConfinedTo, RangeExists;
    ghost var e, ready := usb.Flash(), usb.ReadyFor(region);
    ghost var kept := KeptOutside(d, e, region, start, n);
    if kept && RangeExists(d, region, start, total) {
      StillExists(d, e, region, start, n, total);
    }
    var success := usb.WriteSector(region, sector, data);
    if ready && kept {
      WriteKeepsOutside(d, e, region, start, n, total, usb.dev.driver.hw.s);
    }
    ok := success.Ok? && success.value;
    if ok && ready && kept {
      WriteKept(d, e, region, start, n, ToWords(data), usb.Flash());
    }
  }

  /** The loop of write_flash and write_partition: sectors are taken from the file until it ends, and
      the last one is filled up with zeros. */
  method WriteSectors(usb: MT8113USB, region: int, start: int, file: seq<Byte>) returns (r: Result<()>)
    requires usb.InStep()
    modifies usb.Footprint()
    ensures usb.Valid() && (r.Ok? ==> usb.InStep())
    ensures Addresses(usb.dev.served, |old(usb.dev.served)|, region, start, start + FileSectors(|file|))
    ensures r.Ok? && file != [] ==> IsWord(region) && IsWord(start) && IsWord(start + FileSectors(|file|) - 1)
    ensures old(usb.ReadyFor(region)) ==> ConfinedTo(old(usb.Flash()), region, start, FileSectors(|file|), usb.dev.driver.hw.s)
    ensures r.Ok? && old(usb.ReadyFor(region)) ==>
              usb.ReadyFor(region) && Holds(usb.Flash(), region, start, Padded(file), FileSectors(|file|))
    ensures old(usb.Fit() && RangeExists(usb.Flash(), region, start, FileSectors(|file|))) ==> r.Ok? && usb.Fit()
  {
    hide OnlyKicks, Waiting, ServedFrom, WriteCommand;
    hide ToWords, Confined, Quiet, KeptOutside, Holds, ConfinedTo, RangeExists, Padded, Addresses, Addressed;
    ghost var d := usb.Flash();
    ghost var from := |usb.dev.served|;
    NothingAddressed(usb, region, start, FileSectors(|file|));
    ghost var ready := usb.ReadyFor(region);
    ghost var fit := usb.Fit() && RangeExists(d, region, start, FileSectors(|file|));
    var sector, pos := start, 0;
    ghost var n: nat := 0;
    NothingWritten(d, region, start, Padded(file));
    while true
      invariant usb.InStep() && sector == start + n && n <= FileSectors(|file|)
      invariant pos == Position(file, n)
      invariant Addresses(usb.Sent(), from, region, start, sector)
      invariant Addresses(usb.dev.served, from, region, start, start + FileSectors(|file|))
      invariant n > 0 ==> IsWord(region) && IsWord(start) && IsWord(start + n - 1)
      invariant ready ==> usb.ReadyFor(region) && KeptOutside(d, usb.Flash(), region, start, n)
      invariant ready ==> Holds(usb.Flash(), region, start, Padded(file), n)
      invariant fit ==> usb.Fit()
      decreases FileSectors(|file|) - n
    {
      var data, next := NextSector(file, pos, n);
      if data == [] {
        break;
      }
      ghost var e, sent := usb.Flash(), usb.Sent();
      var success := WriteNext(usb, region, start, data, n, FileSectors(|file|), sector, d);
      WriteAddressed(usb, sent, from, region, start, sector, data);
      FewerAddressed(usb.dev.served, from, region, start, sector + 1, start + FileSectors(|file|));
      if !success {
        return Raised;
      }
      if ready {
        WriteHolds(e, region, start, Padded(file), n, usb.Flash());
      }
      n := n + 1;
      sector := sector + 1;
      pos := next;
    }
    if ready {
      AtRestConfined(d, region, start, FileSectors(|file|), usb.dev.driver.hw.s);
    }
    r := Ok(());
  }

  lemma StillExists(d: Disk, e: Disk, region: int, start: int, n: nat, total: nat)
    requires RangeExists(d, region, start, total) && KeptOutside(d, e, region, start, n) && n < total
    ensures 0 <= region <= 2 && IsWord(start + n) && Key(region, start + n) in e
  {
    assert Has(d, region, start + n);
  }

  lemma ExistsKept(d: Disk, e: Disk, region: int, start: int, n: int)
    requires RangeExists(d, region, start, n) && KeptOutside(d, e, region, start, n)
    ensures RangeExists(e, region, start, n)
  {
    assert forall s :: Has(d, region, s) ==> Has(e, region, s);
  }

  lemma NothingWritten(d: Disk, region: int, start: int, data: seq<Byte>)
    ensures KeptOutside(d, d, region, start, 0) && Holds(d, region, start, data, 0)
  {}

  lemma AtRestConfined(d: Disk, region: int, start: int, n: int, s: Hw)
    requires KeptOutside(d, s.disk, region, start, n) && Quiet(s)
    ensures ConfinedTo(d, region, start, n, s)
  {}

  lemma WriteKeepsOutside(d: Disk, e: Disk, region: int, start: int, n: nat, total: nat, s: Hw)
    requires KeptOutside(d, e, region, start, n) && n < total
    requires if IsWord(region) && IsWord(start + n) then Confined(e, Key(region, start + n), s) else s.disk == e && Quiet(s)
    ensures ConfinedTo(d, region, start, total, s)
  {}

  lemma WriteKept(d: Disk, e: Disk, region: int, start: int, n: nat, b: Block, f: Disk)
    requires KeptOutside(d, e, region, start, n) && Has(e, region, start + n) && f == e[Key(region, start + n) := b]
    ensures KeptOutside(d, f, region, start, n + 1)
  {
    assert f.Keys == e.Keys;
  }

  lemma WriteHolds(e: Disk, region: int, start: int, data: seq<Byte>, n: nat, f: Disk)
    requires Holds(e, region, start, data, n) && 512 * n + 512 <= |data|
    requires Has(e, region, start + n) && f == e[Key(region, start + n) := ToWords(data[512 * n..512 * n + 512])]
    ensures Holds(f, region, start, data, n + 1)
  {
    hide ToWords;
    forall s | start <= s < start + (n + 1)
      ensures Has(f, region, s) && f[Key(region, s)] == ToWords(data[512 * (s - start)..512 * (s - start) + 512])
    {
      if s < start + n {
        assert Has(e, region, s);
      }
    }
  }

  // ---- read_flash and write_flash ----

  /** Nothing fails, and the range is within the region and exists. */
  ghost predicate Servable(usb: MT8113USB, region: Region, start: int, n: int, max: int)
    reads usb.Footprint()
  {
    usb.Fit() && start < max && start + n <= max && RangeExists(usb.Flash(), AccessCode(region), start, n)
  }

  /** The number of sectors read_flash is asked for; zero means the rest of the region. */
  function Requested(start: int, num: int, max: int): int { if num == 0 then max - start else num }

  /** read_flash. Also when it raises, it has addressed no sector at or past the end of the region. */
  method ReadFlash(usb: MT8113USB, region: Region, start: int, num: int, max: int) returns (r: Result<seq<Byte>>)
    requires usb.InStep()
    modifies usb.Footprint()
    ensures usb.Valid() && (r.Ok? ==> usb.InStep() && start < max && start + Requested(start, num, max) <= max)
    ensures Addresses(usb.dev.served, |old(usb.dev.served)|, AccessCode(region), start, max)
    ensures Quiet(old(usb.dev.driver.hw.s)) ==> Quiet(usb.dev.driver.hw.s) && usb.Flash() == old(usb.Flash())
    ensures r.Ok? && old(usb.ReadyFor(AccessCode(region))) ==>
              var n := Requested(start, num, max);
              usb.ReadyFor(AccessCode(region)) && HasRange(usb.Flash(), AccessCode(region), start, n)
              && r.value == RangeBytes(usb.Flash(), AccessCode(region), start, AtLeastZero(n))
    ensures old(Servable(usb, region, start, Requested(start, num, max), max)) ==> r.Ok? && usb.Fit()
  {
    var n := num;
    if n == 0 {
      n := max - start;
    }
    if start >= max || start + n > max {
      return Raised;
    }
    r := ReadSectors(usb, RegionId(region), start, n);
    FewerAddressed(usb.dev.served, |old(usb.dev.served)|, AccessCode(region), start, start + n, max);
  }

  /** write_flash. Afterwards the addressed sectors hold the padded file and all others are as before;
      even when it raises, nothing outside those sectors of the region has changed or will. */
  method WriteFlash(usb: MT8113USB, region: Region, start: int, file: seq<Byte>, max: int) returns (r: Result<()>)
    requires usb.InStep()
    modifies usb.Footprint()
    ensures usb.Valid() && (r.Ok? ==> usb.InStep())
    ensures Addresses(usb.dev.served, |old(usb.dev.served)|, AccessCode(region), start, max)
    ensures start >= max || start + FileSectors(|file|) > max ==>
              r.Raised? && usb.dev.driver.hw.s == old(usb.dev.driver.hw.s)
    ensures old(usb.ReadyFor(AccessCode(region))) ==>
              ConfinedTo(old(usb.Flash()), AccessCode(region), start, FileSectors(|file|), usb.dev.driver.hw.s)
    ensures r.Ok? && old(usb.ReadyFor(AccessCode(region))) ==>
              usb.ReadyFor(AccessCode(region)) && Holds(usb.Flash(), AccessCode(region), start, Padded(file), FileSectors(|file|))
    ensures old(Servable(usb, region, start, FileSectors(|file|), max)) ==> r.Ok? && usb.Fit()
  {
    if start >= max || start + FileSectors(|file|) > max {
      return Raised;
    }
    r := WriteSectors(usb, RegionId(region), start, file);
    FewerAddressed(usb.dev.served, |old(usb.dev.served)|, AccessCode(region), start, start + FileSectors(|file|), max);
  }

  /** write_flash followed by read_flash of the same range gives back the padded file. */
  method WriteThenRead(usb: MT8113USB, region: Region, start: int, file: seq<Byte>, max: int)
    returns (r: Result<seq<Byte>>)
    requires usb.InStep() && file != []
    modifies usb.Footprint()
    ensures r.Ok? && old(usb.ReadyFor(AccessCode(region))) ==> r.value == Padded(file)
    ensures old(Servable(usb, region, start, FileSectors(|file|), max)) ==> r.Ok?
  {
    hide OnlyKicks, Waiting, ServedFrom, ReadCommand, WriteCommand, Holds, RangeBytes, ToWords, Quiet, ConfinedTo, RangeExists;
    ghost var d := usb.Flash();
    var written := WriteFlash(usb, region, start, file, max);
    if written.Raised? {
      return Raised;
    }
    if old(usb.ReadyFor(AccessCode(region))) {
      HeldBytes(usb.Flash(), AccessCode(region), start, Padded(file), FileSectors(|file|));
      ConfinedKept(d, AccessCode(region), start, FileSectors(|file|), usb.dev.driver.hw.s);
    }
    if old(usb.ReadyFor(AccessCode(region))) && RangeExists(d, AccessCode(region), start, FileSectors(|file|)) {
      ExistsKept(d, usb.Flash(), AccessCode(region), start, FileSectors(|file|));
    }
    assert Padded(file)[..512 * FileSectors(|file|)] == Padded(file);
    r := ReadFlash(usb, region, start, FileSectors(|file|), max);
  }

  // ---- roundtrip_test ----

  const COFFEE := 0x00C0FFEE

  /** a ^ b on integers of any size. */
  function Xor(a: nat, b: nat): nat {
    if a == 0 && b == 0 then 0 else (a % 2 + b % 2) % 2 + 2 * Xor(a / 2, b / 2)
  }

  lemma XorStep(a: nat, b: nat)
    ensures Xor(a, b) % 2 == (a % 2 + b % 2) % 2 && Xor(a, b) / 2 == Xor(a / 2, b / 2)
  {}

  lemma ParityCancels(p: nat, q: nat)
    requires p < 2 && q < 2
    ensures (p + (p + q) % 2) % 2 == q
  {}

  lemma SameHalves(x: nat, y: nat)
    requires x / 2 == y / 2 && x % 2 == y % 2
    ensures x == y
  {}

  /** Bit by bit it is the sum modulo 2. */
  lemma {:induction false} XorBit(a: nat, b: nat, k: nat)
    ensures Xor(a, b) / Division.Pow2(k) % 2 == (a / Division.Pow2(k) + b / Division.Pow2(k)) % 2
  {
    hide Xor, Division.Pow2;
    XorStep(a, b);
    Powers(k);
    if k > 0 {
      XorBit(a / 2, b / 2, k - 1);
      HalfThen(Xor(a, b), Division.Pow2(k - 1));
      HalfThen(a, Division.Pow2(k - 1));
      HalfThen(b, Division.Pow2(k - 1));
    } else {
      Unshifted(Xor(a, b));
      Unshifted(a);
      Unshifted(b);
      ParitySum(a, b);
    }
  }

  lemma Powers(k: nat)
    ensures Division.Pow2(k) == if k == 0 then 1 else 2 * Division.Pow2(k - 1)
  {}

  lemma Unshifted(x: nat)
    ensures x / 1 == x
  {}

  lemma ParitySum(a: nat, b: nat)
    ensures (a % 2 + b % 2) % 2 == (a + b) % 2
  {}

  lemma XorOfNothing()
    ensures Xor(0, 0) == 0
  {}

  lemma {:induction false} XorCancels(a: nat, b: nat)
    ensures Xor(a, Xor(a, b)) == b
    decreases a + b
  {
    hide Xor;
    var x := Xor(a, b);
    XorStep(a, b);
    XorStep(a, x);
    if a + b > 0 {
      XorCancels(a / 2, b / 2);
      ParityCancels(a % 2, b % 2);
      SameHalves(Xor(a, x), b);
    } else {
      XorOfNothing();
    }
  }

  /** A power of two bounds a ^ b exactly if it bounds b, provided it bounds a. */
  lemma {:induction false} XorBelow(a: nat, b: nat, k: nat)
    requires a < Division.Pow2(k)
    ensures Xor(a, b) < Division.Pow2(k) <==> b < Division.Pow2(k)
  {
    if k == 0 {
      XorCancels(0, b);
      XorZero(b);
    } else if a != 0 || b != 0 {
      XorBelow(a / 2, b / 2, k - 1);
    }
  }

  lemma {:induction false} XorZero(b: nat)
    ensures Xor(0, b) == b
  {
    if b > 0 {
      XorZero(b / 2);
    }
  }

  /** The pattern tells every word of the test range from every other. */
  lemma PatternInjective(i: nat, j: nat)
    requires i != j
    ensures Xor(COFFEE, i) != Xor(COFFEE, j)
  {
    XorCancels(COFFEE, i);
    XorCancels(COFFEE, j);
  }

  /** The pattern fits a 32-bit word exactly if the index does. */
  lemma PatternFits(index: nat)
    ensures IsWord(Xor(COFFEE, index)) <==> IsWord(index)
  {
    Division.Pow2Of32();
    XorBelow(COFFEE, index, 32);
  }

  /** The bytes of the words 0x00C0FFEE ^ (sectorIndex * 128 + i). */
  ghost predicate IsTestSector(data: seq<Byte>, sectorIndex: nat) {
    |data| == 512
    && forall i :: 0 <= i < 128 ==> ToWords(data)[i] == Xor(0x00C0FFEE, sectorIndex * 128 + i)
  }

  lemma TestSectorUnique(a: seq<Byte>, b: seq<Byte>, sectorIndex: nat)
    requires IsTestSector(a, sectorIndex) && IsTestSector(b, sectorIndex)
    ensures a == b
  {
    hide Xor, ToBytes;
    BytesOfWords(a);
    BytesOfWords(b);
    assert ToWords(a) == ToWords(b);
  }

  /** generate_test_sector, which raises when a word of the pattern does not fit 32 bits. */
  method GenerateTestSector(sectorIndex: nat) returns (r: Result<seq<Byte>>)
    ensures r.Ok? <==> sectorIndex * 128 + 127 < TWO32
    ensures r.Ok? ==> IsTestSector(r.value, sectorIndex)
  {
    hide Xor, ToBytes, LittleEndian;
    var data := ZeroBytes(512);
    ghost var words: seq<Word> := [];
    assert data[..0] == [];
    var i := 0;
    while i < 128
      invariant 0 <= i <= 128 && |words| == i && |data| == 512 && ToBytes(words) == data[..4 * i]
      invariant i > 0 ==> sectorIndex * 128 + i - 1 < TWO32
      invariant forall j :: 0 <= j < i ==> words[j] == Xor(COFFEE, sectorIndex * 128 + j)
    {
      var value := Xor(COFFEE, sectorIndex * 128 + i);
      PatternFits(sectorIndex * 128 + i);
      if !IsWord(value) {
        return Raised;
      }
      BytesOfAppend(words, value);
      words := words + [value];
      data := data[..4 * i] + LittleEndian(value) + data[4 * i + 4..];
      i := i + 1;
    }
    WordsOfBytes(words);
    assert data[..512] == data;
    r := Ok(data);
  }

  // ---- roundtrip_test ----

  /** Step 1: the sectors, one by one. */
  method Backup(usb: MT8113USB, region: int, start: int, num: int) returns (r: Result<seq<seq<Byte>>>)
    requires usb.InStep()
    modifies usb.Footprint()
    ensures usb.Valid() && (r.Ok? ==> usb.InStep() && |r.value| == AtLeastZero(num) && AllSectors(r.value))
    ensures Quiet(old(usb.dev.driver.hw.s)) ==> Quiet(usb.dev.driver.hw.s) && usb.Flash() == old(usb.Flash())
    ensures r.Ok? && old(usb.ReadyFor(region)) ==>
              usb.ReadyFor(region) && BackedUp(usb.Flash(), region, start, r.value)
    ensures old(usb.Fit() && RangeExists(usb.Flash(), region, start, num)) ==> r.Ok? && usb.Fit()
  {
    hide OnlyKicks, Waiting, ServedFrom, ReadCommand, WriteCommand, ToBytes;
    ghost var d := usb.Flash();
    ghost var fit := usb.Fit() && RangeExists(d, region, start, num);
    var originals: seq<seq<Byte>> := [];
    var i := 0;
    while i < num
      invariant i == |originals| <= AtLeastZero(num) && usb.InStep() && AllSectors(originals)
      invariant Quiet(old(usb.dev.driver.hw.s)) ==> Quiet(usb.dev.driver.hw.s) && usb.Flash() == d
      invariant old(usb.ReadyFor(region)) ==> usb.ReadyFor(region) && usb.Flash() == d
      invariant old(usb.ReadyFor(region)) ==> BackedUp(d, region, start, originals)
      invariant fit ==> usb.Fit()
    {
      assert fit ==> Has(d, region, start + i);
      var data := usb.ReadSector(region, start + i);
      if data.Raised? {
        return Raised;
      }
      if old(usb.ReadyFor(region)) {
        BackUpOne(d, region, start, originals, data.value);
      }
      originals := originals + [data.value];
      i := i + 1;
    }
    r := Ok(originals);
  }

  /** Step 2: the test pattern. */
  method WritePattern(usb: MT8113USB, region: int, start: int, num: int) returns (r: Result<()>)
    requires usb.InStep()
    modifies usb.Footprint()
    ensures usb.Valid() && (r.Ok? ==> usb.InStep())
    ensures old(usb.ReadyFor(region)) ==> ConfinedTo(old(usb.Flash()), region, start, AtLeastZero(num), usb.dev.driver.hw.s)
    ensures r.Ok? && old(usb.ReadyFor(region)) ==> usb.ReadyFor(region) && Patterned(usb.Flash(), region, start, AtLeastZero(num))
    ensures old(usb.Fit() && RangeExists(usb.Flash(), region, start, num)) && 128 * num <= TWO32 ==> r.Ok? && usb.Fit()
  {
    hide OnlyKicks, Waiting, ServedFrom, WriteCommand;
    hide RangeExists, Patterned, IsTestSector, ToWords, Confined, Quiet, KeptOutside, ConfinedTo;
    ghost var d := usb.Flash();
    ghost var ready := usb.ReadyFor(region);
    ghost var fit := usb.Fit() && RangeExists(d, region, start, num) && 128 * num <= TWO32;
    NothingWritten(d, region, start, []);
    NoPattern(d, region, start);
    var i := 0;
    while i < num
      invariant 0 <= i <= AtLeastZero(num) && usb.InStep()
      invariant ready ==> usb.ReadyFor(region) && KeptOutside(d, usb.Flash(), region, start, i)
      invariant ready ==> Patterned(usb.Flash(), region, start, i)
      invariant fit ==> usb.Fit()
    {
      var data := GenerateTestSector(i);
      if data.Raised? {
        if ready {
          FewerKept(d, usb.Flash(), region, start, i, num);
          AtRestConfined(d, region, start, num, usb.dev.driver.hw.s);
        }
        return Raised;
      }
      TestSectorSize(data.value, i);
      ghost var e := usb.Flash();
      var success := WriteNext(usb, region, start, data.value, i, num, start + i, d);
      if !success {
        return Raised;
      }
      if ready {
        WriteHoldsPattern(e, region, start, i, data.value, usb.Flash());
      }
      i := i + 1;
    }
    if ready {
      AtRestConfined(d, region, start, AtLeastZero(num), usb.dev.driver.hw.s);
    }
    r := Ok(());
  }

  ghost predicate Patterned(d: Disk, region: int, start: int, n: nat) {
    forall s :: start <= s < start + n ==> Has(d, region, s) && IsTestSector(ToBytes(d[Key(region, s)]), s - start)
  }

  lemma NoPattern(d: Disk, region: int, start: int)
    ensures Patterned(d, region, start, 0)
  {}

  lemma TestSectorSize(data: seq<Byte>, i: nat)
    requires IsTestSector(data, i)
    ensures |data| == 512
  {}

  lemma FewerKept(d: Disk, e: Disk, region: int, start: int, n: int, m: int)
    requires KeptOutside(d, e, region, start, n) && n <= m
    ensures KeptOutside(d, e, region, start, m)
  {}

  lemma WriteHoldsPattern(e: Disk, region: int, start: int, n: nat, data: seq<Byte>, f: Disk)
    requires Patterned(e, region, start, n) && IsTestSector(data, n)
    requires |data| == 512 && Has(e, region, start + n) && f == e[Key(region, start + n) := ToWords(data)]
    ensures Patterned(f, region, start, n + 1)
  {
    hide ToBytes, ToWords, IsTestSector;
    BytesOfWords(data);
  }

  /** A sector that reads as the pattern, and only such a sector, extends a range that holds it. */
  lemma PatternNext(d: Disk, region: int, start: int, n: nat, readback: seq<Byte>, expected: seq<Byte>)
    requires Has(d, region, start + n) && readback == ToBytes(d[Key(region, start + n)]) && IsTestSector(expected, n)
    ensures Patterned(d, region, start, n + 1) <==> Patterned(d, region, start, n) && readback == expected
  {
    hide IsTestSector, ToBytes;
    if readback != expected && IsTestSector(readback, n) {
      TestSectorUnique(readback, expected, n);
    }
    assert Patterned(d, region, start, n + 1) ==> IsTestSector(ToBytes(d[Key(region, start + n)]), start + n - start);
  }

  /** Step 3: the number of sectors that do not hold the pattern. */
  method Verify(usb: MT8113USB, region: int, start: int, num: int) returns (r: Result<nat>)
    requires usb.InStep()
    modifies usb.Footprint()
    ensures usb.Valid() && (r.Ok? ==> usb.InStep())
    ensures Quiet(old(usb.dev.driver.hw.s)) ==> Quiet(usb.dev.driver.hw.s) && usb.Flash() == old(usb.Flash())
    ensures r.Ok? && old(usb.ReadyFor(region)) ==>
              usb.ReadyFor(region) && (r.value == 0 <==> Patterned(usb.Flash(), region, start, AtLeastZero(num)))
    ensures old(usb.Fit() && RangeExists(usb.Flash(), region, start, num)) && 128 * num <= TWO32 ==> r.Ok? && usb.Fit()
  {
    hide OnlyKicks, Waiting, ServedFrom, ReadCommand, WriteCommand, ToBytes, IsTestSector, Quiet, Patterned, RangeExists;
    ghost var d := usb.Flash();
    ghost var fit := usb.Fit() && RangeExists(d, region, start, num) && 128 * num <= TWO32;
    NoPattern(d, region, start);
    var errors, i := 0, 0;
    while i < num
      invariant 0 <= i <= AtLeastZero(num) && 0 <= errors && usb.InStep()
      invariant Quiet(old(usb.dev.driver.hw.s)) ==> Quiet(usb.dev.driver.hw.s) && usb.Flash() == d
      invariant old(usb.ReadyFor(region)) ==> usb.ReadyFor(region) && usb.Flash() == d
      invariant old(usb.ReadyFor(region)) ==> (errors == 0 <==> Patterned(d, region, start, i))
      invariant fit ==> usb.Fit()
    {
      if fit {
        SectorExists(d, region, start, num, start + i);
      }
      var readback := usb.ReadSector(region, start + i);
      if readback.Raised? {
        return Raised;
      }
      var expected := GenerateTestSector(i);
      if expected.Raised? {
        return Raised;
      }
      if old(usb.ReadyFor(region)) {
        PatternNext(d, region, start, i, readback.value, expected.value);
      }
      if readback.value != expected.value {
        errors := errors + 1;
      }
      i := i + 1;
    }
    r := Ok(errors);
  }

  lemma SectorExists(d: Disk, region: int, start: int, n: int, sector: int)
    requires RangeExists(d, region, start, n) && start <= sector < start + n
    ensures 0 <= region <= 2 && IsWord(sector) && Has(d, region, sector)
  {}

  /** Step 4: the sectors read in step 1 are written back. */
  method Restore(usb: MT8113USB, region: int, start: int, originals: seq<seq<Byte>>, ghost d0: Disk)
    returns (r: Result<()>)
    requires usb.InStep()
    modifies usb.Footprint()
    ensures usb.Valid() && (r.Ok? ==> usb.InStep())
    ensures old(usb.ReadyFor(region)) ==> ConfinedTo(old(usb.Flash()), region, start, |originals|, usb.dev.driver.hw.s)
    ensures r.Ok? && old(usb.ReadyFor(region)) && BackedUp(d0, region, start, originals) ==>
              usb.ReadyFor(region) && (KeptOutside(d0, old(usb.Flash()), region, start, |originals|) ==> usb.Flash() == d0)
    ensures old(usb.Fit() && RangeExists(usb.Flash(), region, start, |originals|)) && AllSectors(originals) ==>
              r.Ok? && usb.Fit()
  {
    hide OnlyKicks, Waiting, ServedFrom, WriteCommand;
    hide RangeExists, ToWords, ToBytes, Confined, Quiet, KeptOutside, ConfinedTo, BackedUp, Restored;
    ghost var fit := usb.Fit() && RangeExists(usb.Flash(), region, start, |originals|) && AllSectors(originals);
    ghost var d := usb.Flash();
    ghost var ready := usb.ReadyFor(region);
    NothingWritten(d, region, start, []);
    NothingRestored(d0, d, region, start);
    var i := 0;
    while i < |originals|
      invariant 0 <= i <= |originals| && usb.InStep()
      invariant ready ==> usb.ReadyFor(region) && KeptOutside(d, usb.Flash(), region, start, i)
      invariant ready && BackedUp(d0, region, start, originals) ==> Restored(d0, usb.Flash(), region, start, i)
      invariant fit ==> usb.Fit()
    {
      ghost var e := usb.Flash();
      var success := WriteNext(usb, region, start, originals[i], i, |originals|, start + i, d);
      if !success {
        return Raised;
      }
      if ready && BackedUp(d0, region, start, originals) {
        RestoreOne(d0, e, region, start, originals, i, usb.Flash());
      }
      i := i + 1;
    }
    if ready {
      AtRestConfined(d, region, start, |originals|, usb.dev.driver.hw.s);
      if BackedUp(d0, region, start, originals) && KeptOutside(d0, d, region, start, |originals|) {
        AllRestored(d0, d, usb.Flash(), region, start, |originals|);
      }
    }
    r := Ok(());
  }

  predicate AllSectors(originals: seq<seq<Byte>>) { forall i :: 0 <= i < |originals| ==> |originals[i]| == 512 }

  /** The sectors of a range as step 1 read them. */
  ghost predicate BackedUp(d: Disk, region: int, start: int, originals: seq<seq<Byte>>) {
    forall i :: 0 <= i < |originals| ==> SectorIs(d, region, start + i, originals[i])
  }

  ghost predicate SectorIs(d: Disk, region: int, sector: int, data: seq<Byte>) {
    Has(d, region, sector) && data == ToBytes(d[Key(region, sector)])
  }

  lemma BackUpOne(d: Disk, region: int, start: int, originals: seq<seq<Byte>>, data: seq<Byte>)
    requires BackedUp(d, region, start, originals) && SectorIs(d, region, start + |originals|, data)
    ensures BackedUp(d, region, start, originals + [data])
  {}

  ghost predicate Restored(d0: Disk, e: Disk, region: int, start: int, n: nat) {
    forall s :: start <= s < start + n ==>
      Has(d0, region, s) && Has(e, region, s) && e[Key(region, s)] == d0[Key(region, s)]
  }

  lemma NothingRestored(d0: Disk, e: Disk, region: int, start: int)
    ensures Restored(d0, e, region, start, 0)
  {}

  lemma RestoreOne(d0: Disk, e: Disk, region: int, start: int, originals: seq<seq<Byte>>, n: nat, f: Disk)
    requires BackedUp(d0, region, start, originals) && n < |originals| && |originals[n]| == 512
    requires Restored(d0, e, region, start, n) && Has(e, region, start + n)
    requires f == e[Key(region, start + n) := ToWords(originals[n])]
    ensures Restored(d0, f, region, start, n + 1)
  {
    hide ToBytes, ToWords;
    assert SectorIs(d0, region, start + n, originals[n]);
    WordsOfBytes(d0[Key(region, start + n)]);
  }

  lemma AllRestored(d0: Disk, d: Disk, e: Disk, region: int, start: int, n: nat)
    requires KeptOutside(d0, d, region, start, n) && KeptOutside(d, e, region, start, n) && Restored(d0, e, region, start, n)
    ensures e == d0
  {
    assert forall k <- d0 :: InRange(k, region, start, n) ==> Has(d0, region, k.sector);
  }

  /** roundtrip_test: what was read first is written back last, so a test that returns at all has left
      the flash as it was, and it reports success. */
  method RoundtripTest(usb: MT8113USB, region: Region, start: int, num: int, max: int) returns (r: Result<bool>)
    requires usb.InStep()
    modifies usb.Footprint()
    ensures usb.Valid() && (r.Ok? ==> usb.InStep())
    ensures start >= max || start + num > max ==> r.Raised? && usb.dev.driver.hw.s == old(usb.dev.driver.hw.s)
    ensures r.Ok? && old(usb.ReadyFor(AccessCode(region))) ==> r.value && usb.ReadyFor(AccessCode(region)) && usb.Flash() == old(usb.Flash())
    ensures old(usb.ReadyFor(AccessCode(region))) ==>
              ConfinedTo(old(usb.Flash()), AccessCode(region), start, AtLeastZero(num), usb.dev.driver.hw.s)
    ensures old(Servable(usb, region, start, num, max)) && 0 <= 128 * num <= TWO32 ==> r == Ok(true)
  {
    ghost var d := usb.Flash();
    ghost var exist := num >= 0 && RangeExists(d, AccessCode(region), start, num);
    ghost var n := AtLeastZero(num);
    NothingWritten(d, AccessCode(region), start, []);
    FewerKept(d, d, AccessCode(region), start, 0, n);
    hide OnlyKicks, Waiting, ServedFrom, ReadCommand, WriteCommand, ConfinedTo, KeptOutside, BackedUp, Patterned, ToBytes, Quiet, RegionId, RangeExists;
    if old(usb.ReadyFor(AccessCode(region))) {
      AtRest(usb);
      AtRestConfined(d, AccessCode(region), start, n, usb.dev.driver.hw.s);
    }
    if start >= max || start + num > max {
      return Raised;
    }
    var originals := Backup(usb, RegionId(region), start, num);
    if old(usb.ReadyFor(AccessCode(region))) {
      AtRestConfined(d, AccessCode(region), start, n, usb.dev.driver.hw.s);
    }
    if originals.Raised? {
      return Raised;
    }
    var written := WritePattern(usb, RegionId(region), start, num);
    if written.Raised? {
      return Raised;
    }
    ghost var e := usb.Flash();
    if old(usb.ReadyFor(AccessCode(region))) {
      ConfinedKept(d, AccessCode(region), start, n, usb.dev.driver.hw.s);
      if exist {
        ExistsKept(d, e, AccessCode(region), start, n);
      }
    }
    var errors := Verify(usb, RegionId(region), start, num);
    if old(usb.ReadyFor(AccessCode(region))) {
      AtRestConfined(d, AccessCode(region), start, n, usb.dev.driver.hw.s);
    }
    if errors.Raised? {
      return Raised;
    }
    var restored := Restore(usb, RegionId(region), start, originals.value, d);
    if old(usb.ReadyFor(AccessCode(region))) {
      ConfinedTwice(d, e, AccessCode(region), start, n, usb.dev.driver.hw.s);
    }
    if restored.Raised? {
      return Raised;
    }
    r := Ok(errors.value == 0);
  }

  lemma AtRest(usb: MT8113USB)
    requires usb.Ready()
    ensures Quiet(usb.dev.driver.hw.s)
  {}

  lemma ConfinedKept(d: Disk, region: int, start: int, n: int, s: Hw)
    requires ConfinedTo(d, region, start, n, s)
    ensures KeptOutside(d, s.disk, region, start, n)
  {}

  lemma ConfinedTwice(d: Disk, e: Disk, region: int, start: int, n: int, s: Hw)
    requires KeptOutside(d, e, region, start, n) && ConfinedTo(e, region, start, n, s)
    ensures ConfinedTo(d, region, start, n, s)
  {}

  // ---- The commands of the tool ----

  /** The size of a region according to the card's EXT_CSD. */
  ghost function SizeOf(usb: MT8113USB, sizes: (seq<Byte>, Region) -> int, region: Region): int
    reads usb.dev.driver.hw
  {
    sizes(ToBytes(usb.dev.driver.hw.s.extCsd), region)
  }

  /** `read`: the sizes of the regions are taken from EXT_CSD, which is dumped first. `sizes` stands for the
      parser of EXT_CSD, and max is the size it finds. */
  method MainRead(usb: MT8113USB, region: Region, start: int, num: int, sizes: (seq<Byte>, Region) -> int)
    returns (r: Result<seq<Byte>>, ghost max: int)
    requires usb.InStep()
    modifies usb.Footprint()
    ensures Quiet(old(usb.dev.driver.hw.s)) ==> usb.Flash() == old(usb.Flash())
    ensures r.Ok? ==> usb.InStep() && start < max && start + Requested(start, num, max) <= max
    ensures r.Ok? && old(usb.SteadyFor(AccessCode(region))) ==>
              var n := Requested(start, num, max);
              usb.ReadyFor(AccessCode(region)) && HasRange(usb.Flash(), AccessCode(region), start, n)
              && r.value == RangeBytes(usb.Flash(), AccessCode(region), start, AtLeastZero(n))
    ensures var size := old(SizeOf(usb, sizes, region));
            old(Servable(usb, region, start, Requested(start, num, size), size)) ==> r.Ok? && max == size && usb.Fit()
  {
    hide OnlyKicks, Waiting, ServedFrom, ReadCommand, Addresses, Quiet, HasRange, RangeBytes, ToBytes, Turn, RangeExists;
    max := 0;
    var extCsd := usb.GetExtCsd();
    if extCsd.Raised? {
      return Raised, max;
    }
    max := sizes(extCsd.value, region);
    r := ReadFlash(usb, region, start, num, sizes(extCsd.value, region));
  }

  /** `write`. */
  method MainWrite(usb: MT8113USB, region: Region, start: int, file: seq<Byte>, sizes: (seq<Byte>, Region) -> int)
    returns (r: Result<()>)
    requires usb.InStep()
    modifies usb.Footprint()
    ensures r.Ok? ==> usb.InStep()
    ensures old(usb.SteadyFor(AccessCode(region))) ==>
              (r.Ok? ==> usb.ReadyFor(AccessCode(region)) && Holds(usb.Flash(), AccessCode(region), start, Padded(file), FileSectors(|file|)))
              && ConfinedTo(old(usb.Flash()), AccessCode(region), start, FileSectors(|file|), usb.dev.driver.hw.s)
    ensures old(Servable(usb, region, start, FileSectors(|file|), SizeOf(usb, sizes, region))) ==> r.Ok? && usb.Fit()
  {
    hide OnlyKicks, Waiting, ServedFrom, WriteCommand, Addresses, Quiet, Holds, ConfinedTo, Padded, KeptOutside, ToBytes;
    hide Turn, RangeExists;
    var extCsd := usb.GetExtCsd();
    if extCsd.Raised? {
      if old(usb.ReadyFor(AccessCode(region))) {
        NothingConfined(AccessCode(region), start, FileSectors(|file|), usb.dev.driver.hw.s);
      }
      return Raised;
    }
    r := WriteFlash(usb, region, start, file, sizes(extCsd.value, region));
  }

  /** `roundtrip-test`, for any region and range. */
  method MainRoundtripTest(usb: MT8113USB, region: Region, start: int, num: int, sizes: (seq<Byte>, Region) -> int)
    returns (r: Result<bool>)
    requires usb.InStep()
    modifies usb.Footprint()
    ensures r.Ok? ==> usb.InStep()
    ensures old(usb.SteadyFor(AccessCode(region))) ==>
              (r.Ok? ==> r.value && usb.ReadyFor(AccessCode(region)) && usb.Flash() == old(usb.Flash()))
              && ConfinedTo(old(usb.Flash()), AccessCode(region), start, AtLeastZero(num), usb.dev.driver.hw.s)
    ensures old(Servable(usb, region, start, num, SizeOf(usb, sizes, region))) && 0 <= 128 * num <= TWO32 ==> r == Ok(true)
  {
    hide OnlyKicks, Waiting, ServedFrom, Quiet, ConfinedTo, KeptOutside, ToBytes, Turn, RangeExists;
    var extCsd := usb.GetExtCsd();
    if extCsd.Raised? {
      if old(usb.ReadyFor(AccessCode(region))) {
        NothingConfined(AccessCode(region), start, AtLeastZero(num), usb.dev.driver.hw.s);
      }
      return Raised;
    }
    r := RoundtripTest(usb, region, start, num, sizes(extCsd.value, region));
  }

  lemma NothingConfined(region: int, start: int, n: int, s: Hw)
    requires Quiet(s)
    ensures ConfinedTo(s.disk, region, start, n, s)
  {}
}
