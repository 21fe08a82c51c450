/** The environment of the driver in mt8113_emmc.c: an eMMC card that follows the state machine
    of JESD84-B51 section 6.4, behind a controller with a receive and a transmit FIFO. The card
    chooses freely when to make progress, whether to answer a command, and what a stale read
    returns; the relations below say what it may do. */
module Card {
  import opened Words

  /** The 128 words of a sector. */
  type Block = b: seq<Word> | |b| == 128 witness seq(128, _ => 0)

  datatype Key = Key(region: nat, sector: nat)

  type Disk = map<Key, Block>

  // PARTITION_ACCESS values, and what mt8113_emmc.c starts with.
  const PART_USER: Word := 0
  const PART_BOOT0: Word := 1
  const PART_BOOT1: Word := 2
  const NO_PART: Word := 0xFF

  /** What the driver may expect of its hardware: that it is told in time what has become of its commands,
      and that the card carries out the switches that it takes. */
  datatype Temper = Temper(candid: bool, obliging: bool)

  /** CURRENT_STATE of the card; programming a block and switching share code 7. */
  datatype State = Idle | Ready | Ident | Stby | Tran | Data | Rcv | PrgWrite | PrgSwitch

  function StateCode(st: State): bv32 {
    match st
    case Idle => 0 case Ready => 1 case Ident => 2 case Stby => 3
    case Tran => 4 case Data => 5 case Rcv => 6 case PrgWrite => 7 case PrgSwitch => 7
  }

  /** CURRENT_STATE in a card status. */
  function StatusState(status: bv32): bv32 { (status >> 9) & 0xF }

  const FIFO_WORDS := 32

  /** Card and controller. `pending` are words of a read the card has not sent yet, and `corrupt` says that
      they are not what it should send; `received` are words of a write it has taken; `took` says whether the
      card took the last command, and `rejected` counts the blocks that it has received whole and refused for
      their checksum. */
  datatype Hw = Hw(state: State, part: nat, disk: Disk, extCsd: Block, stale: bool,
                   pending: seq<Word>, corrupt: bool, target: Key, received: seq<Word>,
                   rx: seq<Word>, tx: seq<Word>, resp0: bv32, took: bool, rejected: nat)

  predicate Ok(s: Hw) {
    |s.rx| <= FIFO_WORDS && |s.tx| <= FIFO_WORDS
    && (s.pending != [] ==> s.state == Data)
    && (s.state in {Idle, Ready, Ident, Stby} ==> s.part == 0)
    && (s.state in {Rcv, PrgWrite} ==> s.target in s.disk && |s.received| <= 128)
    && (s.state == PrgWrite ==> |s.received| == 128)
  }

  /** No block is on its way into the flash. */
  predicate Quiet(s: Hw) { s.state != Rcv && s.state != PrgWrite }

  /** What time alone may change: words move between card and FIFO, a block is programmed or refused, a
      busy card becomes ready. */
  predicate Later(s: Hw, t: Hw)
    requires Ok(s)
  {
    Ok(t) && t.part == s.part && t.extCsd == s.extCsd && t.stale == s.stale && t.target == s.target
    && t.corrupt == s.corrupt
    && (s.state != Rcv ==> t.received == s.received && t.rejected == s.rejected)
    && match s.state
       case Data =>
         (t.state == Data || (t.state == Tran && t.pending == []))
         && t.rx + t.pending == s.rx + s.pending && t.tx == s.tx && t.disk == s.disk
       case Rcv =>
         t.rx == s.rx && t.received + t.tx == s.received + s.tx
         && (|| (t.state == Rcv && t.disk == s.disk && t.rejected == s.rejected)
             || (t.state == PrgWrite && t.disk == s.disk && t.rejected == s.rejected)
             || (t.state == Tran && |t.received| == 128
                 && (|| (t.disk == s.disk[s.target := t.received] && t.rejected == s.rejected)
                     || (t.disk == s.disk && t.rejected == s.rejected + 1))))
       case PrgWrite =>
         t.rx == s.rx && t.tx == s.tx
         && ((t.state == PrgWrite && t.disk == s.disk) || (t.state == Tran && t.disk == s.disk[s.target := s.received]))
       case PrgSwitch =>
         (t.state == PrgSwitch || t.state == Tran) && t.rx == s.rx && t.tx == s.tx && t.disk == s.disk
       case _ =>
         t.state == s.state && t.rx == s.rx && t.tx == s.tx && t.disk == s.disk
  }

  lemma LaterRefl(s: Hw)
    requires Ok(s)
    ensures Later(s, s)
  {}

  lemma LaterOk(s: Hw, t: Hw)
    requires Ok(s) && Later(s, t)
    ensures Ok(t)
  {}

  lemma LaterTrans(s: Hw, t: Hw, u: Hw)
    requires Ok(s) && Later(s, t) && Later(t, u)
    ensures Later(s, u)
  {}

  /** A switch may end at any time. */
  lemma SwitchEnds(s: Hw)
    requires Ok(s) && s.state == PrgSwitch
    ensures Later(s, s.(state := Tran))
  {}

  // ---- A prompt card ----

  /** Everything that can happen without the driver has happened. */
  function Settle(s: Hw): (t: Hw)
    requires Ok(s)
    ensures Ok(t)
  {
    match s.state
    case Data =>
      var k := if |s.pending| <= FIFO_WORDS - |s.rx| then |s.pending| else FIFO_WORDS - |s.rx|;
      s.(rx := s.rx + s.pending[..k], pending := s.pending[k..], state := if k == |s.pending| then Tran else Data)
    case Rcv =>
      var all := s.received + s.tx;
      if |all| < 128 then s.(received := all, tx := [])
      else s.(received := all[..128], tx := all[128..], state := Tran, disk := s.disk[s.target := all[..128]])
    case PrgWrite => s.(state := Tran, disk := s.disk[s.target := s.received])
    case PrgSwitch => s.(state := Tran)
    case _ => s
  }

  predicate Settled(s: Hw) {
    s.state !in {PrgWrite, PrgSwitch} && (s.state == Data ==> |s.rx| == FIFO_WORDS) && (s.state == Rcv ==> s.tx == [] && |s.received| < 128)
  }

  lemma SettleLater(s: Hw)
    requires Ok(s)
    ensures Later(s, Settle(s)) && Settled(Settle(s)) && Ok(Settle(s))
    ensures Settle(s).resp0 == s.resp0 && Settle(s).took == s.took && Settle(s).rejected == s.rejected
  {
    if s.state == Data {
      assert forall k :: 0 <= k <= |s.pending| ==> s.rx + s.pending[..k] + s.pending[k..] == s.rx + s.pending;
    } else if s.state == Rcv {
      var all := s.received + s.tx;
      assert |all| >= 128 ==> all[..128] + all[128..] == all;
    }
  }

  // ---- Commands ----

  /** SDC_CMD flags of mt8113_emmc.c. */
  const CMD_R1_RESP: bv32 := 0x80
  const CMD_R1B_RESP: bv32 := 0x380
  const CMD_R2_RESP: bv32 := 0x100
  const CMD_R3_RESP: bv32 := 0x180
  const CMD_SINGLE_BLK: bv32 := 0x800
  const CMD_WRITE: bv32 := 0x2000
  const CMD_BLKLEN_512: bv32 := 0x2000000

  /** The controller is told to receive, or to send, one block of 512 bytes. */
  predicate ReadsOneBlock(flags: bv32) { flags & 0x0FFF3800 == 0x02000800 }

  predicate WritesOneBlock(flags: bv32) { flags & 0x0FFF3800 == 0x02002800 }

  /** R1 error bits that mt8113_emmc.c checks after CMD24. */
  const R1_ERRORS: bv32 := 0xFDF90008

  /** The states in which the card answers a command (JESD84-B51 section 6.4 and Table 61). */
  predicate Legal(st: State, cmd: nat) {
    if cmd == 0 then true
    else if cmd == 1 then st == Idle
    else if cmd == 2 then st == Ready
    else if cmd == 3 then st == Ident
    else if cmd == 7 then st == Stby
    else if cmd == 13 then st !in {Idle, Ready, Ident}
    else cmd in {6, 8, 17, 24} && st == Tran
  }

  /** CMD6 argument: write byte 179 (PARTITION_CONFIG); PARTITION_ACCESS are its low three bits. */
  predicate WritesPartitionConfig(arg: Word) { arg / 0x1000000 % 4 == 3 && arg / 0x10000 % 0x100 == 0xB3 }

  function PartitionAccess(arg: Word): nat { arg / 0x100 % 8 }

  /** The card has taken a command that moves it to another partition, and is there. */
  predicate Moves(cmd: nat, arg: Word, t: Hw) {
    t.took && (cmd == 7 || (cmd == 6 && WritesPartitionConfig(arg) && t.part == PartitionAccess(arg)))
  }

  /** The card has taken a switch command and not switched. */
  predicate RefusesSwitch(cmd: nat, arg: Word, t: Hw) {
    t.took && cmd == 6 && WritesPartitionConfig(arg) && t.part != PartitionAccess(arg)
  }

  /** A read data phase: the words sent are the block's, unless this is the first read after a switch or a
      write, or the controller was not set up for one block. They may also be damaged or cut short on their
      way; the controller knows then. */
  predicate StartsRead(s: Hw, t: Hw, block: Block, flags: bv32) {
    t == s.(state := Data, pending := t.pending, corrupt := t.corrupt, stale := false, resp0 := t.resp0, took := true)
    && |t.pending| <= 128
    && (!t.corrupt ==> |t.pending| == 128 && (!s.stale && ReadsOneBlock(flags) ==> t.pending == block))
  }

  /** The card in state s takes a command and is in state t after it. */
  predicate Takes(s: Hw, cmd: nat, arg: Word, flags: bv32, t: Hw)
    requires Ok(s)
  {
    if cmd == 0 then
      // GO_IDLE_STATE resets partition access, which is not taken for a switch that makes the next read
      // stale; a block being programmed is lost or half written.
      t == s.(state := Idle, part := 0, pending := [], disk := t.disk, resp0 := t.resp0, took := true)
      && t.disk.Keys == s.disk.Keys
      && forall k <- s.disk :: s.state != PrgWrite || k != s.target ==> t.disk[k] == s.disk[k]
    else if cmd == 1 then
      t == s.(state := if t.resp0 & 0x80000000 != 0 then Ready else Idle, resp0 := t.resp0, took := true)
    else if cmd == 2 then
      t == s.(state := Ident, resp0 := t.resp0, took := true)
    else if cmd == 3 then
      t == s.(state := Stby, resp0 := t.resp0, took := true)
    else if cmd == 7 then
      t == s.(state := Tran, resp0 := t.resp0, took := true)
    else if cmd == 13 then
      t == s.(resp0 := t.resp0, took := true) && StatusState(t.resp0) == StateCode(s.state)
    else if cmd == 6 && WritesPartitionConfig(arg) then
      // The card acknowledges before it switches, and may then stay where it is and report SWITCH_ERROR.
      t == s.(state := PrgSwitch, part := t.part, stale := true, resp0 := t.resp0, took := true)
      && t.part in {s.part, PartitionAccess(arg)}
    else if cmd == 8 then
      StartsRead(s, t, s.extCsd, flags)
    else if cmd == 17 && Key(s.part, arg) in s.disk then
      StartsRead(s, t, s.disk[Key(s.part, arg)], flags)
    else if cmd == 24 && Key(s.part, arg) in s.disk && t.resp0 & R1_ERRORS == 0 then
      t == s.(state := Rcv, target := Key(s.part, arg), received := [], corrupt := false, stale := true,
              resp0 := t.resp0, took := true)
      && WritesOneBlock(flags)
    else
      // A refused command: an address outside the partition, or an argument with errors.
      t == s.(resp0 := t.resp0, took := true)
      && (cmd == 24 ==> t.resp0 & R1_ERRORS != 0)
  }

  /** Writing the command register: the card may take a legal command, or not answer. */
  predicate Issues(s: Hw, cmd: nat, arg: Word, flags: bv32, t: Hw)
    requires Ok(s)
  {
    (t == s.(resp0 := t.resp0, took := false)) || (Legal(s.state, cmd) && Takes(s, cmd, arg, flags, t))
  }

  /** A prompt card takes every legal command, refuses only what it must, and is ready at the first CMD1. */
  function TakesAtOnce(s: Hw, cmd: nat, arg: Word, flags: bv32, junk: Block): Hw
    requires Ok(s)
  {
    var key := Key(s.part, arg);
    var r := s.(took := true, resp0 := 0);
    if cmd == 0 then r.(state := Idle, part := 0, pending := [])
    else if cmd == 1 then r.(state := Ready, resp0 := 0x80000000)
    else if cmd == 2 then r.(state := Ident)
    else if cmd == 3 then r.(state := Stby)
    else if cmd == 7 then r.(state := Tran)
    else if cmd == 13 then r.(resp0 := StateCode(s.state) << 9)
    else if cmd == 6 && WritesPartitionConfig(arg) then r.(state := PrgSwitch, part := PartitionAccess(arg), stale := true)
    else if cmd == 8 then r.(state := Data, pending := if s.stale then junk else s.extCsd, corrupt := false, stale := false)
    else if cmd == 17 && key in s.disk then
      r.(state := Data, pending := if s.stale then junk else s.disk[key], corrupt := false, stale := false)
    else if cmd == 24 && key in s.disk && WritesOneBlock(flags) then
      r.(state := Rcv, target := key, received := [], corrupt := false, stale := true)
    else r.(resp0 := R1_ERRORS)
  }

  lemma TakesAtOnceTakes(s: Hw, cmd: nat, arg: Word, flags: bv32, junk: Block)
    requires Ok(s)
    ensures Takes(s, cmd, arg, flags, TakesAtOnce(s, cmd, arg, flags, junk))
  {
    hide Takes, TakesAtOnce;
    if cmd in {8, 17, 24} {
      TransferAtOnce(s, cmd, arg, flags, junk);
    } else {
      OtherAtOnce(s, cmd, arg, flags, junk);
    }
  }

  lemma TransferAtOnce(s: Hw, cmd: nat, arg: Word, flags: bv32, junk: Block)
    requires Ok(s) && cmd in {8, 17, 24}
    ensures Takes(s, cmd, arg, flags, TakesAtOnce(s, cmd, arg, flags, junk))
  {
    hide WritesPartitionConfig, PartitionAccess, WritesOneBlock, ReadsOneBlock, StateCode, StatusState, Ok, Settle;
  }

  lemma OtherAtOnce(s: Hw, cmd: nat, arg: Word, flags: bv32, junk: Block)
    requires Ok(s) && cmd !in {8, 17, 24}
    ensures Takes(s, cmd, arg, flags, TakesAtOnce(s, cmd, arg, flags, junk))
  {
    StatusField(s.state);
    hide WritesPartitionConfig, PartitionAccess, WritesOneBlock, ReadsOneBlock, StateCode, StartsRead, Ok, Settle;
  }

  lemma StatusField(st: State)
    ensures StatusState(StateCode(st) << 9) == StateCode(st)
  {}

  lemma IssuesOk(s: Hw, cmd: nat, arg: Word, flags: bv32, t: Hw)
    requires Ok(s) && Issues(s, cmd, arg, flags, t)
    ensures Ok(t)
  {
    hide Ok, Issues;
    if cmd in {8, 17, 24} {
      TransferOk(s, cmd, arg, flags, t);
    } else {
      OtherOk(s, cmd, arg, flags, t);
    }
  }

  lemma TransferOk(s: Hw, cmd: nat, arg: Word, flags: bv32, t: Hw)
    requires Ok(s) && Issues(s, cmd, arg, flags, t) && cmd in {8, 17, 24}
    ensures Ok(t)
  {
    hide WritesPartitionConfig, PartitionAccess, WritesOneBlock, ReadsOneBlock, StateCode, StatusState;
  }

  lemma OtherOk(s: Hw, cmd: nat, arg: Word, flags: bv32, t: Hw)
    requires Ok(s) && Issues(s, cmd, arg, flags, t) && cmd !in {8, 17, 24}
    ensures Ok(t)
  {
    hide WritesPartitionConfig, PartitionAccess, WritesOneBlock, ReadsOneBlock, StateCode, StatusState, StartsRead;
  }

  // ---- A write under way ----

  /** From the acceptance of CMD24 on: the words given so far are with the card or in the FIFO. */
  ghost predicate Filling(disk: Disk, rejected: nat, key: Key, given: seq<Word>, s: Hw) {
    Ok(s) && s.state == Rcv && s.target == key && s.part == key.region && s.disk == disk && s.rejected == rejected
    && s.received + s.tx == given
  }

  /** Once all words are given, the card is receiving, programming, or done: there is nothing
      else it can do but put exactly this block in exactly this place, or refuse it as a whole. */
  ghost predicate Committing(disk: Disk, rejected: nat, key: Key, data: Block, s: Hw) {
    Ok(s) && s.target == key && s.part == key.region && key in disk
    && (|| Filling(disk, rejected, key, data, s)
        || (s.state == PrgWrite && s.received == data && s.disk == disk && s.rejected == rejected)
        || (s.state == Tran && s.disk == disk[key := data] && s.rejected == rejected)
        || (s.state == Tran && s.disk == disk && s.rejected == rejected + 1))
  }

  lemma FillingLater(disk: Disk, rejected: nat, key: Key, given: seq<Word>, s: Hw, t: Hw)
    requires Filling(disk, rejected, key, given, s) && |given| < 128 && Later(s, t)
    ensures Filling(disk, rejected, key, given, t)
  {
    assert |t.received| + |t.tx| == |given|;
  }

  lemma CommittingLater(disk: Disk, rejected: nat, key: Key, data: Block, s: Hw, t: Hw)
    requires Committing(disk, rejected, key, data, s) && Later(s, t)
    ensures Committing(disk, rejected, key, data, t)
  {
    if s.state == Rcv && t.state != Rcv {
      assert |t.received| + |t.tx| == 128;
      assert t.received == t.received + t.tx;
    }
  }
}
