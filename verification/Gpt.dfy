/** GUID partition tables: gpt_parser.py, and read_gpt, find_partition_by_label, read_partition and
    write_partition of mt8113_reflash.py. */
module Gpt {
  import opened Card
  import opened Bytes
  import opened DivMod
  import opened Emmc
  import opened Host
  import opened Flash
  import opened Protocol
  import opened Words

  datatype Option<+T> = None | Some(value: T)

  /** unpack("<I") and unpack("<Q") of the bytes at an offset. */
  function Le32(s: seq<Byte>, i: nat): Word
    requires i + 4 <= |s|
  {
    FromLittleEndian(s[i..i + 4])
  }

  function Le64(s: seq<Byte>, i: nat): Word64
    requires i + 8 <= |s|
  {
    Le32(s, i) + TWO32 * Le32(s, i + 4)
  }

  type Word64 = x: int | 0 <= x < TWO32 * TWO32

  datatype Header = Header(revision: Word, headerSize: Word, headerCrc: Word, currentLba: Word64, backupLba: Word64,
                           firstUsable: Word64, lastUsable: Word64, diskGuid: seq<Byte>, entriesLba: Word64,
                           numEntries: Word, entrySize: Word, entriesCrc: Word)

  /** b'EFI PART'. */
  const SIGNATURE: seq<Byte> := [0x45, 0x46, 0x49, 0x20, 0x50, 0x41, 0x52, 0x54]

  /** parse_gpt_header. */
  function ParseHeader(s: seq<Byte>): Result<Header> {
    if |s| < 512 || s[..8] != SIGNATURE then Raised
    else Ok(Header(Le32(s, 8), Le32(s, 12), Le32(s, 16), Le64(s, 24), Le64(s, 32), Le64(s, 40), Le64(s, 48), s[56..72],
                   Le64(s, 72), Le32(s, 80), Le32(s, 84), Le32(s, 88)))
  }

  /** A used partition entry; the name is kept as the 72 bytes of its encoding. */
  datatype Entry = Entry(index: nat, typeGuid: seq<Byte>, uniqueGuid: seq<Byte>, firstLba: Word64, lastLba: Word64,
                         attributes: Word64, name: seq<Byte>)
  {
    function SizeSectors(): int { lastLba - firstLba + 1 }
  }

  const ENTRY_BYTES := 128

  /** parse_partition_entry: too short an entry is an error, an unused one has an all-zero type. */
  function ParseEntry(s: seq<Byte>, index: nat): Result<Option<Entry>> {
    if |s| < ENTRY_BYTES then Raised
    else if s[..16] == ZeroBytes(16) then Ok(None)
    else Ok(Some(Entry(index, s[..16], s[16..32], Le64(s, 32), Le64(s, 40), Le64(s, 48), s[56..128])))
  }

  // ---- The layout of the two structures (sections 5.3.2 and 5.3.3 of the UEFI specification) ----

  function LittleEndian64(x: Word64): (s: seq<Byte>)
    ensures |s| == 8
  {
    LittleEndian(x % 0x1_0000_0000) + LittleEndian(x / 0x1_0000_0000)
  }

  lemma Le64RoundTrip(s: seq<Byte>, i: nat)
    requires i + 8 <= |s|
    ensures LittleEndian64(Le64(s, i)) == s[i..i + 8]
  {
    hide LittleEndian, FromLittleEndian;
    FromLittleEndianRoundTrip(s[i..i + 4]);
    FromLittleEndianRoundTrip(s[i + 4..i + 8]);
    DivModUnique(Le64(s, i), 0x1_0000_0000, Le32(s, i + 4), Le32(s, i));
    assert s[i..i + 8] == s[i..i + 4] + s[i + 4..i + 8];
  }

  ghost function Ascii(text: string): seq<int> { seq(|text|, i requires 0 <= i < |text| => text[i] as int) }

  /** The fields of a header, one after the other; the four bytes behind the checksum are reserved. */
  ghost function EncodeHeader(h: Header, reserved: seq<Byte>): seq<int> {
    Ascii("EFI PART") + LittleEndian(h.revision) + LittleEndian(h.headerSize) + LittleEndian(h.headerCrc) + reserved
    + LittleEndian64(h.currentLba) + LittleEndian64(h.backupLba) + LittleEndian64(h.firstUsable)
    + LittleEndian64(h.lastUsable) + h.diskGuid + LittleEndian64(h.entriesLba) + LittleEndian(h.numEntries)
    + LittleEndian(h.entrySize) + LittleEndian(h.entriesCrc)
  }

  ghost function EncodeEntry(e: Entry): seq<Byte> {
    e.typeGuid + e.uniqueGuid + LittleEndian64(e.firstLba) + LittleEndian64(e.lastLba) + LittleEndian64(e.attributes)
    + e.name
  }

  /** A sector is taken for a header exactly if it has its mark, and then it is the encoding of what is read. */
  lemma HeaderLayout(s: seq<Byte>)
    ensures ParseHeader(s).Ok? <==> |s| >= 512 && s[..8] == Ascii("EFI PART")
    ensures ParseHeader(s).Ok? ==>
              var h := ParseHeader(s).value;
              s[..92] == EncodeHeader(h, s[20..24]) && |h.diskGuid| == 16
  {
    hide LittleEndian, LittleEndian64, FromLittleEndian, Le64;
    assert Ascii("EFI PART") == SIGNATURE;
    if ParseHeader(s).Ok? {
      FromLittleEndianRoundTrip(s[8..12]);
      FromLittleEndianRoundTrip(s[12..16]);
      FromLittleEndianRoundTrip(s[16..20]);
      Le64RoundTrip(s, 24);
      Le64RoundTrip(s, 32);
      Le64RoundTrip(s, 40);
      Le64RoundTrip(s, 48);
      Le64RoundTrip(s, 72);
      FromLittleEndianRoundTrip(s[80..84]);
      FromLittleEndianRoundTrip(s[84..88]);
      FromLittleEndianRoundTrip(s[88..92]);
      assert s[..92] == s[..8] + s[8..12] + s[12..16] + s[16..20] + s[20..24] + s[24..32] + s[32..40] + s[40..48]
                        + s[48..56] + s[56..72] + s[72..80] + s[80..84] + s[84..88] + s[88..92];
    }
  }

  /** An entry is used exactly if its type is not all zeros, and then it is the encoding of what is read. */
  lemma EntryLayout(s: seq<Byte>, index: nat)
    ensures ParseEntry(s, index).Ok? <==> |s| >= 128
    ensures |s| >= 128 ==>
              var e := ParseEntry(s, index).value;
              (e.None? <==> forall i :: 0 <= i < 16 ==> s[i] == 0)
              && (e.Some? ==>
                    s[..128] == EncodeEntry(e.value) && |e.value.typeGuid| == |e.value.uniqueGuid| == 16
                    && |e.value.name| == 72 && e.value.index == index)
  {
    hide LittleEndian64, Le64;
    if |s| >= 128 {
      Le64RoundTrip(s, 32);
      Le64RoundTrip(s, 40);
      Le64RoundTrip(s, 48);
      assert s[..128] == s[..16] + s[16..32] + s[32..40] + s[40..48] + s[48..56] + s[56..128];
      assert s[..16] == ZeroBytes(16) <==> forall i :: 0 <= i < 16 ==> s[i] == 0;
    }
  }

  // ---- The table ----

  ghost predicate Fits(data: seq<Byte>, size: nat, i: nat) { size * i + size <= |data| }

  /** The bytes of entry i, if they are there. */
  ghost function EntryBytes(data: seq<Byte>, size: nat, i: nat): seq<Byte> {
    if Fits(data, size, i) then data[size * i..size * i + size] else []
  }

  ghost function EntryAt(data: seq<Byte>, size: nat, i: nat): (e: Option<Entry>)
    ensures e.Some? ==> e.value.index == i
  {
    var r := ParseEntry(EntryBytes(data, size, i), i);
    if r.Ok? then r.value else None
  }

  /** The used ones among the first n entries, in index order. */
  ghost function Used(data: seq<Byte>, size: nat, n: nat): seq<Entry> {
    if n == 0 then []
    else
      var e := EntryAt(data, size, n - 1);
      Used(data, size, n - 1) + if e.Some? then [e.value] else []
  }

  /** Exactly the used entries are listed, each once, in the order of the table. */
  lemma {:induction false} UsedExactly(data: seq<Byte>, size: nat, n: nat)
    ensures var used := Used(data, size, n);
            && (forall k :: 0 <= k < |used| ==> used[k].index < n && EntryAt(data, size, used[k].index) == Some(used[k]))
            && (forall j, k :: 0 <= j < k < |used| ==> used[j].index < used[k].index)
            && (forall i :: 0 <= i < n && EntryAt(data, size, i).Some? ==> EntryAt(data, size, i).value in used)
  {
    hide EntryAt;
    if n > 0 {
      UsedExactly(data, size, n - 1);
    }
  }

  /** The number of entries, at most n, that lie within the data. */
  ghost function Whole(data: seq<Byte>, size: nat, n: nat): (m: nat)
    ensures m <= n && (m > 0 ==> Fits(data, size, m - 1))
  {
    if n == 0 then 0 else if Fits(data, size, n - 1) then n else Whole(data, size, n - 1)
  }

  /** parse_gpt. */
  method ParseGpt(headerSector: seq<Byte>, data: seq<Byte>, n: nat, size: nat) returns (r: Result<(Header, seq<Entry>)>)
    ensures r.Raised? <==> ParseHeader(headerSector).Raised? || (Whole(data, size, n) > 0 && size < ENTRY_BYTES)
    ensures r.Ok? ==> Ok(r.value.0) == ParseHeader(headerSector) && r.value.1 == Used(data, size, Whole(data, size, n))
  {
    hide Whole, EntryAt, EntryBytes, Fits, ParseHeader, ParseEntry;
    var header := ParseHeader(headerSector);
    if header.Raised? {
      return Raised;
    }
    var partitions: seq<Entry> := [];
    var i := 0;
    while i < n
      invariant 0 <= i <= n && (i > 0 ==> Fits(data, size, i - 1) && size >= ENTRY_BYTES)
      invariant partitions == Used(data, size, i)
    {
      var offset := i * size;
      FitsIs(data, size, i);
      if offset + size > |data| {
        break;
      }
      WholeAtLeast(data, size, n, i);
      ParsedIs(data, size, i);
      var entry := ParseEntry(data[offset..offset + size], i);
      if entry.Raised? {
        return Raised;
      }
      if entry.value.Some? {
        partitions := partitions + [entry.value.value];
      }
      i := i + 1;
    }
    WholeIs(data, size, n, i);
    r := Ok((header.value, partitions));
  }

  lemma FitsIs(data: seq<Byte>, size: nat, i: nat)
    ensures i * size >= 0 && (Fits(data, size, i) <==> i * size + size <= |data|)
  {}

  lemma ParsedIs(data: seq<Byte>, size: nat, i: nat)
    requires i * size >= 0 && i * size + size <= |data|
    ensures var e := ParseEntry(data[i * size..i * size + size], i);
            (e.Raised? <==> size < ENTRY_BYTES) && (e.Ok? ==> e.value == EntryAt(data, size, i))
  {
    assert size * i == i * size;
  }

  lemma FitsBelow(data: seq<Byte>, size: nat, i: nat, j: nat)
    requires Fits(data, size, j) && i <= j
    ensures Fits(data, size, i)
  {
    if i < j {
      MulGap(size, j, i);
    }
  }

  lemma {:induction false} WholeAtLeast(data: seq<Byte>, size: nat, n: nat, i: nat)
    requires i < n && Fits(data, size, i)
    ensures Whole(data, size, n) > i
  {
    if i < n - 1 {
      WholeAtLeast(data, size, n - 1, i);
    }
  }

  lemma {:induction false} WholeIs(data: seq<Byte>, size: nat, n: nat, i: nat)
    requires i <= n && (i > 0 ==> Fits(data, size, i - 1)) && (i < n ==> !Fits(data, size, i))
    ensures Whole(data, size, n) == i
  {
    hide Fits;
    if i < n {
      if Fits(data, size, n - 1) {
        FitsBelow(data, size, i, n - 1);
      }
      WholeIs(data, size, n - 1, i);
    }
  }

  // ---- read_gpt ----

  function SectorsNeeded(n: nat, size: nat): nat
    requires 1 <= size <= 512
  {
    QuotientAtLeastOne(size);
    var perSector := 512 / size;
    (n + perSector - 1) / perSector
  }

  lemma QuotientAtLeastOne(size: nat)
    requires 1 <= size <= 512
    ensures 512 / size >= 1 && size * (512 / size) <= 512
  {
    QuotientBelow(512, size, 1);
  }

  /** Whatever the entry size, the sectors that are fetched hold every entry, so parse_gpt never stops
      early; one sector less would not do if each holds whole entries. */
  lemma EnoughSectors(n: nat, size: nat)
    requires 1 <= size <= 512
    ensures size * n <= 512 * SectorsNeeded(n, size)
    ensures n > 0 ==> (SectorsNeeded(n, size) - 1) * (512 / size) < n
  {
    QuotientAtLeastOne(size);
    var p := 512 / size;
    var s := SectorsNeeded(n, size);
    var x := n + p - 1;
    assert x == p * s + x % p;
    assert n <= p * s;
    MulLe(size, n, p * s);
    MulLe(s, size * p, 512);
    assert size * (p * s) == s * (size * p);
  }

  lemma MulLe(k: nat, a: nat, b: nat)
    requires a <= b
    ensures k * a <= k * b
  {}

  /** The table that a flash holds: the header of sector 1 and the used ones of all its entries. */
  ghost predicate TableOf(d: Disk, h: Header, entries: seq<Entry>) {
    Has(d, PART_USER, 1) && ParseHeader(ToBytes(d[Key(PART_USER, 1)])) == Ok(h)
    && 1 <= h.entrySize <= 512
    && var m := SectorsNeeded(h.numEntries, h.entrySize);
       HasRange(d, PART_USER, h.entriesLba, m)
       && entries == Used(RangeBytes(d, PART_USER, h.entriesLba, m), h.entrySize, h.numEntries)
  }

  /** A table that can be read through the protocol: sectors 0 and 1, and those of the entries. */
  ghost predicate Readable(d: Disk, h: Header, entries: seq<Entry>) {
    TableOf(d, h, entries) && h.entrySize >= ENTRY_BYTES && RangeExists(d, PART_USER, 0, 2)
    && RangeExists(d, PART_USER, h.entriesLba, SectorsNeeded(h.numEntries, h.entrySize))
  }

  lemma FirstSectors(d: Disk)
    requires RangeExists(d, PART_USER, 0, 2)
    ensures Key(PART_USER, 0) in d && Key(PART_USER, 1) in d
  {
    assert Has(d, PART_USER, 0) && Has(d, PART_USER, 1);
  }

  lemma AllWhole(data: seq<Byte>, size: nat, n: nat)
    requires size * n <= |data|
    ensures Whole(data, size, n) == n
  {
    if n > 0 {
      assert size * n == size * (n - 1) + size;
    }
  }

  /** read_gpt. No table is found exactly if the header is not one; entry sizes of 0 and above 512
      raise in the division, and sizes below 128 in parse_partition_entry unless there are no entries.
      If nothing fails, a readable table (named by the ghost parameters) is found. */
  method ReadGpt(usb: MT8113USB, ghost h0: Header, ghost entries0: seq<Entry>)
    returns (r: Result<Option<(Header, seq<Entry>)>>)
    requires usb.InStep()
    modifies usb.Footprint()
    ensures usb.Valid() && (r.Ok? ==> usb.InStep())
    ensures Quiet(old(usb.dev.driver.hw.s)) ==> Quiet(usb.dev.driver.hw.s) && usb.Flash() == old(usb.Flash())
    ensures r.Ok? && r.value.Some? ==>
              var h := r.value.value.0;
              1 <= h.entrySize <= 512 && (h.numEntries == 0 || h.entrySize >= ENTRY_BYTES)
    ensures r.Ok? && old(usb.ReadyFor(PART_USER)) ==>
              usb.ReadyFor(PART_USER) && Has(usb.Flash(), PART_USER, 0) && Has(usb.Flash(), PART_USER, 1)
    ensures r.Ok? && old(usb.ReadyFor(PART_USER)) && r.value.None? ==>
              ParseHeader(ToBytes(usb.Flash()[Key(PART_USER, 1)])).Raised?
    ensures r.Ok? && old(usb.ReadyFor(PART_USER)) && r.value.Some? ==> TableOf(usb.Flash(), r.value.value.0, r.value.value.1)
    ensures old(usb.Fit()) && Readable(old(usb.Flash()), h0, entries0) ==> r == Ok(Some((h0, entries0))) && usb.Fit()
  {
    hide Turn, ServedFrom, OnlyKicks, Waiting, ReadCommand, Addresses;
    hide RangeExists, HasRange, ToBytes, ParseHeader, Quiet, Used, SectorsNeeded, RangeBytes, Whole;
    ghost var fit := usb.Fit() && Readable(usb.Flash(), h0, entries0);
    if fit {
      FirstSectors(usb.Flash());
    }
    var mbr := usb.ReadSector(PART_USER, 0);
    if mbr.Raised? {
      return Raised;
    }
    var headerSector := usb.ReadSector(PART_USER, 1);
    if headerSector.Raised? {
      return Raised;
    }
    var header := ParseHeader(headerSector.value);
    if header.Raised? {
      return Ok(None);
    }
    var size, n := header.value.entrySize, header.value.numEntries;
    if size == 0 || size > 512 {
      return Raised;
    }
    var sectorsNeeded := SectorsNeeded(n, size);
    var data := ReadSectors(usb, PART_USER, header.value.entriesLba, sectorsNeeded);
    if data.Raised? {
      return Raised;
    }
    EnoughSectors(n, size);
    var gpt := ParseGpt(headerSector.value, data.value, n, size);
    if gpt.Raised? {
      return Raised;
    }
    AllWhole(data.value, size, n);
    r := Ok(Some((header.value, gpt.value.1)));
  }

  ghost predicate FirstNamed(entries: seq<Entry>, fold: seq<Byte> -> string, wanted: string, p: Entry) {
    fold(p.name) == wanted
    && exists k :: 0 <= k < |entries| && entries[k] == p && forall j :: 0 <= j < k ==> fold(entries[j].name) != wanted
  }

  /** find_partition_by_label: the first partition whose name, decoded and put into lower case, is the
      label in lower case. How names are decoded is a parameter. */
  method FindPartition(entries: seq<Entry>, fold: seq<Byte> -> string, wanted: string) returns (p: Option<Entry>)
    ensures p.None? ==> forall j :: 0 <= j < |entries| ==> fold(entries[j].name) != wanted
    ensures p.Some? ==> FirstNamed(entries, fold, wanted, p.value)
  {
    var i := 0;
    while i < |entries|
      invariant i <= |entries|
      invariant forall j :: 0 <= j < i ==> fold(entries[j].name) != wanted
    {
      if fold(entries[i].name) == wanted {
        return Some(entries[i]);
      }
      i := i + 1;
    }
    p := None;
  }

  /** The partition that the tool works on: the first with that label in the table of the flash. */
  ghost predicate Labelled(d: Disk, fold: seq<Byte> -> string, wanted: string, p: Entry) {
    exists h, entries :: TableOf(d, h, entries) && FirstNamed(entries, fold, wanted, p)
  }

  ghost predicate Named(entries: seq<Entry>, fold: seq<Byte> -> string, wanted: string) {
    exists j :: 0 <= j < |entries| && fold(entries[j].name) == wanted
  }

  /** The first half of read_partition and write_partition. */
  method Locate(usb: MT8113USB, fold: seq<Byte> -> string, wanted: string, ghost h0: Header, ghost entries0: seq<Entry>)
    returns (r: Result<Entry>)
    requires usb.InStep()
    modifies usb.Footprint()
    ensures usb.Valid() && (r.Ok? ==> usb.InStep())
    ensures Quiet(old(usb.dev.driver.hw.s)) ==> Quiet(usb.dev.driver.hw.s) && usb.Flash() == old(usb.Flash())
    ensures r.Ok? && old(usb.ReadyFor(PART_USER)) ==> usb.ReadyFor(PART_USER) && Labelled(usb.Flash(), fold, wanted, r.value)
    ensures old(usb.Fit()) && Readable(old(usb.Flash()), h0, entries0) && Named(entries0, fold, wanted) ==>
              r.Ok? && usb.Fit() && FirstNamed(entries0, fold, wanted, r.value)
  {
    hide ToBytes, ParseHeader, Quiet, TableOf, Readable;
    var gpt := ReadGpt(usb, h0, entries0);
    if gpt.Raised? || gpt.value.None? {
      return Raised;
    }
    var p := FindPartition(gpt.value.value.1, fold, wanted);
    if p.None? {
      return Raised;
    }
    r := Ok(p.value);
  }

  // ---- read_partition and write_partition ----

  /** All sectors of the user area from one LBA to another, both included. */
  ghost predicate HasLbas(d: Disk, first: int, last: int) { HasRange(d, PART_USER, first, last - first + 1) }

  ghost predicate LbasExist(d: Disk, first: int, last: int) { RangeExists(d, PART_USER, first, last - first + 1) }

  /** Their bytes; none if the last comes before the first. */
  ghost function LbaBytes(d: Disk, first: int, last: int): (s: seq<Byte>)
    requires HasLbas(d, first, last)
    ensures |s| == 512 * AtLeastZero(last - first + 1)
  {
    RangeBytes(d, PART_USER, first, AtLeastZero(last - first + 1))
  }

  /** Only sectors of the user area (partition 0) from one LBA to another may differ, now and when a block
      under way is finished. */
  ghost predicate OnlyLbas(d: Disk, first: int, last: int, s: Hw) {
    s.disk.Keys == d.Keys
    && (forall k <- d :: k.region != 0 || k.sector < first || last < k.sector ==> s.disk[k] == d[k])
    && (!Quiet(s) ==> s.target.region == 0 && first <= s.target.sector <= last)
  }

  lemma ConfinedToLbas(d: Disk, first: int, n: int, last: int, s: Hw)
    requires ConfinedTo(d, PART_USER, first, n, s) && first + n <= last + 1
    ensures OnlyLbas(d, first, last, s)
  {
    assert forall k <- d :: k.region != 0 || k.sector < first || last < k.sector ==> !InRange(k, PART_USER, first, n);
  }

  lemma QuietLbas(first: int, last: int, s: Hw)
    requires Quiet(s)
    ensures OnlyLbas(s.disk, first, last, s)
  {}

  /** The sizes in sectors that both operations compare are those of the files in bytes. */
  lemma SectorsFit(size: nat, first: int, last: int)
    ensures FileSectors(size) <= last - first + 1 <==> size <= 512 * (last - first + 1)
    ensures FileSectors(size) < last - first + 1 <==> size <= 512 * (last - first)
  {}

  /** read_partition. */
  method ReadPartition(usb: MT8113USB, fold: seq<Byte> -> string, wanted: string, ghost h0: Header, ghost entries0: seq<Entry>)
    returns (r: Result<seq<Byte>>, ghost p: Option<Entry>)
    requires usb.InStep()
    modifies usb.Footprint()
    ensures usb.Valid() && (r.Ok? ==> p.Some? && usb.InStep())
    ensures Quiet(old(usb.dev.driver.hw.s)) ==> usb.Flash() == old(usb.Flash())
    ensures p.Some? && old(usb.ReadyFor(PART_USER)) ==> Labelled(old(usb.Flash()), fold, wanted, p.value)
    ensures r.Ok? ==> |r.value| == 512 * AtLeastZero(p.value.lastLba - p.value.firstLba + 1)
    ensures r.Ok? && old(usb.ReadyFor(PART_USER)) ==>
              usb.ReadyFor(PART_USER) && HasLbas(usb.Flash(), p.value.firstLba, p.value.lastLba)
              && r.value == LbaBytes(usb.Flash(), p.value.firstLba, p.value.lastLba)
    ensures old(usb.Fit()) && Readable(old(usb.Flash()), h0, entries0) && Named(entries0, fold, wanted) ==>
              p.Some? && FirstNamed(entries0, fold, wanted, p.value)
              && (LbasExist(old(usb.Flash()), p.value.firstLba, p.value.lastLba) ==> r.Ok? && usb.Fit())
  {
    hide Quiet, Labelled, HasRange, RangeBytes, Readable, RangeExists, Named, FirstNamed;
    p := None;
    var found := Locate(usb, fold, wanted, h0, entries0);
    if found.Raised? {
      return Raised, p;
    }
    p := Some(found.value);
    r := ReadSectors(usb, PART_USER, found.value.firstLba, found.value.SizeSectors());
  }

  /** write_partition. `confirmed` is the answer to the question asked about a file that is smaller
      than the partition; the result says whether the file was written. Whether it returns or raises,
      nothing outside the partition has changed or will. */
  method WritePartition(usb: MT8113USB, fold: seq<Byte> -> string, wanted: string, file: seq<Byte>, confirmed: bool,
                        ghost h0: Header, ghost entries0: seq<Entry>)
    returns (r: Result<bool>, ghost p: Option<Entry>)
    requires usb.InStep()
    modifies usb.Footprint()
    ensures usb.Valid() && (r.Ok? ==> p.Some? && usb.InStep())
    ensures p.Some? && old(usb.ReadyFor(PART_USER)) ==> Labelled(old(usb.Flash()), fold, wanted, p.value)
    ensures old(usb.ReadyFor(PART_USER)) ==>
              if p.Some? && |file| <= 512 * (p.value.lastLba - p.value.firstLba + 1)
              then OnlyLbas(old(usb.Flash()), p.value.firstLba, p.value.lastLba, usb.dev.driver.hw.s)
              else r.Raised? && Quiet(usb.dev.driver.hw.s) && usb.Flash() == old(usb.Flash())
    ensures r.Ok? && old(usb.ReadyFor(PART_USER)) ==>
              if r.value then usb.ReadyFor(PART_USER) && Holds(usb.Flash(), PART_USER, p.value.firstLba, Padded(file), FileSectors(|file|))
                              && KeptOutside(old(usb.Flash()), usb.Flash(), PART_USER, p.value.firstLba, FileSectors(|file|))
              else usb.Flash() == old(usb.Flash())
    ensures r.Ok? ==> |file| <= 512 * (p.value.lastLba - p.value.firstLba + 1)
    ensures r.Ok? ==> r.value == (confirmed || |file| > 512 * (p.value.lastLba - p.value.firstLba))
    ensures old(usb.Fit()) && Readable(old(usb.Flash()), h0, entries0) && Named(entries0, fold, wanted) ==>
              p.Some? && FirstNamed(entries0, fold, wanted, p.value)
              && (RangeExists(old(usb.Flash()), PART_USER, p.value.firstLba, FileSectors(|file|)) ==>
                    (r.Ok? <==> |file| <= 512 * (p.value.lastLba - p.value.firstLba + 1)))
  {
    hide Quiet, Labelled, Holds, ConfinedTo, KeptOutside, OnlyLbas, Readable, RangeExists, Named, FirstNamed;
    ghost var d := usb.Flash();
    p := None;
    var found := Locate(usb, fold, wanted, h0, entries0);
    if found.Raised? {
      return Raised, p;
    }
    p := Some(found.value);
    var first, size := found.value.firstLba, found.value.SizeSectors();
    SectorsFit(|file|, first, found.value.lastLba);
    if FileSectors(|file|) > size {
      return Raised, p;
    }
    if FileSectors(|file|) < size && !confirmed {
      if old(usb.ReadyFor(PART_USER)) {
        QuietLbas(first, found.value.lastLba, usb.dev.driver.hw.s);
      }
      return Ok(false), p;
    }
    var written := WriteSectors(usb, PART_USER, first, file);
    if old(usb.ReadyFor(PART_USER)) {
      ConfinedToLbas(d, first, FileSectors(|file|), found.value.lastLba, usb.dev.driver.hw.s);
      ConfinedKept(d, PART_USER, first, FileSectors(|file|), usb.dev.driver.hw.s);
    }
    r := if written.Ok? then Ok(true) else Raised;
  }

  // ---- What a written partition leaves behind ----

  /** No sector is in both ranges. */
  predicate Disjoint(a: int, m: int, b: int, n: int) { a + m <= b || b + n <= a }

  /** A partition disjoint from the sectors written reads as before. */
  lemma {:induction false} DisjointIntact(d: Disk, e: Disk, start: int, n: int, first: int, size: nat)
    requires KeptOutside(d, e, PART_USER, start, n) && HasRange(d, PART_USER, first, size) && Disjoint(start, n, first, size)
    ensures HasRange(e, PART_USER, first, size)
    ensures RangeBytes(e, PART_USER, first, size) == RangeBytes(d, PART_USER, first, size)
  {
    assert forall s :: Has(d, PART_USER, s) ==> Has(e, PART_USER, s);
    hide ToBytes;
    if size > 0 {
      DisjointIntact(d, e, start, n, first, size - 1);
      assert Has(d, PART_USER, first + (size - 1));
    }
  }

  lemma {:induction false} RangeSplits(d: Disk, region: int, start: int, m: nat, n: nat)
    requires HasRange(d, region, start, m + n)
    ensures HasRange(d, region, start, m) && HasRange(d, region, start + m, n)
    ensures RangeBytes(d, region, start, m + n) == RangeBytes(d, region, start, m) + RangeBytes(d, region, start + m, n)
  {
    hide ToBytes;
    if n > 0 {
      RangeSplits(d, region, start, m, n - 1);
      var last := start + m + n - 1;
      assert Has(d, region, last);
      assert RangeBytes(d, region, start, m + n) == RangeBytes(d, region, start, m + (n - 1)) + ToBytes(d[Key(region, last)]);
      assert RangeBytes(d, region, start + m, n) == RangeBytes(d, region, start + m, n - 1) + ToBytes(d[Key(region, last)]);
    }
  }

  lemma RangesKept(d: Disk, e: Disk, first: int, n: nat, rest: nat)
    requires HasRange(d, PART_USER, first, n + rest) && KeptOutside(d, e, PART_USER, first, n)
    ensures HasRange(e, PART_USER, first, n + rest) && HasRange(d, PART_USER, first + n, rest)
    ensures Disjoint(first, n, first + n, rest)
  {
    assert forall s :: Has(d, PART_USER, s) ==> Has(e, PART_USER, s);
  }

  lemma Spliced(d: Disk, e: Disk, first: int, data: seq<Byte>, n: nat, rest: nat)
    requires HasRange(d, PART_USER, first, n + rest) && |data| == 512 * n
    requires KeptOutside(d, e, PART_USER, first, n) && Holds(e, PART_USER, first, data, n)
    ensures HasRange(e, PART_USER, first, n + rest) && HasRange(d, PART_USER, first + n, rest)
    ensures RangeBytes(e, PART_USER, first, n + rest) == data + RangeBytes(d, PART_USER, first + n, rest)
  {
    hide *;
    RangesKept(d, e, first, n, rest);
    HeldBytes(e, PART_USER, first, data, n);
    assert data[..512 * n] == data;
    RangeSplits(e, PART_USER, first, n, rest);
    DisjointIntact(d, e, first, n, first + n, rest);
  }

  /** After write_partition, read_partition returns the padded file followed by what the rest of the
      partition held before. */
  lemma PartitionContents(d: Disk, e: Disk, first: int, last: int, file: seq<Byte>)
    requires |file| <= 512 * (last - first + 1) && HasLbas(d, first, last)
    requires KeptOutside(d, e, PART_USER, first, FileSectors(|file|))
    requires Holds(e, PART_USER, first, Padded(file), FileSectors(|file|))
    ensures HasLbas(e, first, last) && HasLbas(d, first + FileSectors(|file|), last)
    ensures LbaBytes(e, first, last) == Padded(file) + LbaBytes(d, first + FileSectors(|file|), last)
  {
    hide HasRange, RangeBytes, KeptOutside, Holds, Padded, FileSectors;
    SectorsFit(|file|, first, last);
    Spliced(d, e, first, Padded(file), FileSectors(|file|), last - first + 1 - FileSectors(|file|));
  }

  /** Every partition before or behind the one written reads as before. */
  lemma OtherPartitionsIntact(d: Disk, s: Hw, p: Entry, q: Entry)
    requires OnlyLbas(d, p.firstLba, p.lastLba, s) && HasLbas(d, q.firstLba, q.lastLba)
    requires p.lastLba < q.firstLba || q.lastLba < p.firstLba
    ensures HasLbas(s.disk, q.firstLba, q.lastLba)
    ensures LbaBytes(s.disk, q.firstLba, q.lastLba) == LbaBytes(d, q.firstLba, q.lastLba)
  {
    hide RangeBytes;
    var n := q.lastLba - q.firstLba + 1;
    if n > 0 {
      DisjointIntact(d, s.disk, p.firstLba, p.lastLba - p.firstLba + 1, q.firstLba, n);
    }
  }

  /** The table itself survives, provided the partition does not contain it: the tool does not check. */
  lemma TableSurvives(d: Disk, e: Disk, start: int, n: int, h: Header, entries: seq<Entry>)
    requires KeptOutside(d, e, PART_USER, start, n) && TableOf(d, h, entries)
    requires Disjoint(start, n, 1, 1) && Disjoint(start, n, h.entriesLba, SectorsNeeded(h.numEntries, h.entrySize))
    ensures TableOf(e, h, entries)
  {
    hide ParseHeader, Used, SectorsNeeded, RangeBytes, ToBytes;
    DisjointIntact(d, e, start, n, h.entriesLba, SectorsNeeded(h.numEntries, h.entrySize));
    assert Has(d, PART_USER, 1);
  }
}
