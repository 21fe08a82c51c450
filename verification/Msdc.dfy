/** The registers of the controller through which mt8113_emmc.c sees the card. Every access lets
    the card and the FIFOs make whatever progress they like. */
module Msdc {
  import opened Card
  import opened Words

  /** The interrupts that a prompt controller shows. */
  function PromptInts(s: Hw): bv32 {
    (if s.took then 0x100 else 0) | (if s.state == Tran then 0x8 else 0)
  }

  datatype Access = Sent(cmd: nat, arg: Word, flags: bv32) | Seen(ints: bv32)

  class Controller {
    var s: Hw

    /** The hardware wastes no time: whatever can happen has happened before every access, every legal
        command is taken, and there are no data errors. Nothing that the driver guarantees depends on
        this; it serves to say that with such hardware the driver succeeds. */
    const prompt: bool

    /** The driver is told in time what has become of its commands: the response to a command that was
        taken shows within 100000 looks, so a command reported as failed had no effect, and after
        CMD6 or CMD7 the card is back in the transfer state and says so within 1000 polls. Commands
        may still get lost and transfers fail. */
    const candid: bool

    /** The card carries out every partition switch that it takes. */
    const obliging: bool

    /** Words leave the transmit FIFO whole. */
    const wholeWords: bool

    /** The card refuses no block that it has received. */
    const accepting: bool

    /** The looks for which the response to the last command stays hidden, and the status polls for which
        a card may be switching or silent. */
    var delay: nat
    var work: nat

    /** How many commands that move the card to another partition it has taken and carried out, how many
        switches it has taken and not carried out, and how many words were written to a full FIFO. */
    ghost var switches: nat
    ghost var refused: nat
    ghost var overruns: nat

    /** The commands issued and the looks at MSDC_INT so far. */
    ghost var trace: seq<Access>

    /** Prompt hardware is obliging and accepting. */
    predicate Obliging() { obliging || prompt }

    predicate Accepting() { accepting || prompt }

    function Manners(): Temper { Temper(candid, Obliging()) }

    /** Time passes: the hardware moves to any state that Later permits. */
    method Tick()
      requires Ok(s)
      modifies this`s
      ensures Ok(s) && Later(old(s), s) && s.resp0 == old(s.resp0) && s.took == old(s.took)
      ensures prompt ==> s == Settle(old(s))
      ensures candid && work == 0 ==> s.state != PrgSwitch
      ensures Accepting() ==> s.rejected == old(s.rejected)
    {
      hide Settle, Later, Ok;
      LaterRefl(s);
      SettleLater(s);
      if prompt {
        s := Settle(s);
        return;
      }
      ghost var s0 := s;
      var t: Hw := *;
      t := t.(resp0 := s.resp0, took := s.took);
      if Later(s, t) && (accepting ==> t.rejected == s.rejected) {
        LaterOk(s, t);
        s := t;
      }
      if candid && work == 0 && s.state == PrgSwitch {
        SwitchEnds(s);
        LaterOk(s, s.(state := Tran));
        LaterTrans(s0, s, s.(state := Tran));
        s := s.(state := Tran);
      }
    }

    /** MSDC_INT: data bits come and go, but once the whole of a damaged block has been sent an error shows;
        command-ready shows only for a command that was taken. */
    method ReadInt() returns (v: bv32)
      requires Ok(s)
      modifies this`s, this`delay, this`trace
      ensures trace == old(trace) + [Seen(v)]
      ensures Ok(s) && Later(old(s), s) && s.resp0 == old(s.resp0) && s.took == old(s.took)
      ensures v & 0x100 != 0 ==> s.took
      ensures s.corrupt && s.pending == [] && s.state in {Data, Tran} && !prompt ==> v & 0x30 != 0
      ensures Accepting() ==> s.rejected == old(s.rejected)
      ensures prompt ==> s == Settle(old(s)) && v == PromptInts(s)
      ensures candid && s.took && old(delay) == 0 ==> v & 0x100 != 0
      ensures delay == if old(delay) > 0 then old(delay) - 1 else 0
    {
      hide Later, Settle;
      Tick();
      v := *;
      if prompt {
        v := PromptInts(s);
      } else if !s.took {
        v := v & !0x100;
      } else if candid && delay == 0 {
        v := v | 0x100;
      }
      if s.corrupt && s.pending == [] && s.state in {Data, Tran} && !prompt {
        v := v | 0x20;
      }
      if delay > 0 {
        delay := delay - 1;
      }
      trace := trace + [Seen(v)];
    }

    /** MSDC_FIFOCS: byte counts. Part of a word may have arrived in the receive FIFO, and part of the
        first word of the transmit FIFO may have left. */
    method ReadFifocs() returns (rxcnt: nat, txcnt: nat)
      requires Ok(s)
      modifies this`s
      ensures Ok(s) && Later(old(s), s) && s.resp0 == old(s.resp0) && s.took == old(s.took)
      ensures Accepting() ==> s.rejected == old(s.rejected)
      ensures rxcnt / 4 == |s.rx| && (rxcnt % 4 != 0 ==> s.pending != []) && rxcnt <= 4 * FIFO_WORDS
      ensures 4 * |s.tx| - 4 < txcnt <= 4 * |s.tx| && (wholeWords ==> txcnt == 4 * |s.tx|)
      ensures prompt ==> s == Settle(old(s))
    {
      hide Later, Settle;
      Tick();
      var part, gone: int := *, *;
      rxcnt, txcnt := 4 * |s.rx|, 4 * |s.tx|;
      if s.pending != [] && |s.rx| < FIFO_WORDS {
        rxcnt := rxcnt + part % 4;
      }
      if s.tx != [] && !wholeWords {
        txcnt := txcnt - gone % 4;
      }
    }

    /** Reading MSDC_RXDATA takes one word out of the FIFO; a whole word must be there. */
    method PopRx() returns (w: Word)
      requires Ok(s) && s.rx != []
      modifies this`s
      ensures Ok(s) && w == old(s.rx[0])
      ensures Ok(old(s).(rx := old(s.rx)[1..])) && Later(old(s).(rx := old(s.rx)[1..]), s)
      ensures prompt ==> s == Settle(old(s).(rx := old(s.rx)[1..]))
    {
      w := s.rx[0];
      s := s.(rx := s.rx[1..]);
      Tick();
    }

    /** Writing MSDC_TXDATA puts one word into the FIFO. Without room for it the word is lost. */
    method PushTx(w: Word)
      requires Ok(s)
      modifies this`s, this`overruns
      ensures Ok(s) && (Accepting() ==> s.rejected == old(s.rejected))
      ensures overruns == old(overruns) + if |old(s.tx)| < FIFO_WORDS then 0 else 1
      ensures |old(s.tx)| < FIFO_WORDS ==>
                Ok(old(s).(tx := old(s.tx) + [w])) && Later(old(s).(tx := old(s.tx) + [w]), s)
                && (prompt ==> s == Settle(old(s).(tx := old(s.tx) + [w])))
      ensures |old(s.tx)| == FIFO_WORDS ==> Later(old(s), s)
    {
      if |s.tx| < FIFO_WORDS {
        s := s.(tx := s.tx + [w]);
      } else {
        overruns := overruns + 1;
      }
      Tick();
    }

    /** MSDC_FIFOCS_CLR: the transmit FIFO is emptied; words may be left in the receive FIFO. */
    method ClearFifo()
      requires Ok(s)
      modifies this`s
      ensures Ok(s) && exists rx :: |rx| <= |old(s.rx)| && Later(old(s).(rx := rx, tx := []), s)
                                    && (prompt ==> s == Settle(old(s).(rx := rx, tx := [])))
    {
      var k: nat := *;
      ghost var s0 := s;
      s := s.(rx := s.rx[|s.rx| - k % (|s.rx| + 1)..], tx := []);
      ghost var rx := s.rx;
      Tick();
      assert |rx| <= |s0.rx| && Later(s0.(rx := rx, tx := []), s);
    }

    /** What the card makes of a command. */
    method Respond(cmd: nat, arg: Word, flags: bv32)
      requires Ok(s)
      modifies this`s
      ensures Ok(s) && Issues(old(s), cmd, arg, flags, s) && s.rejected == old(s.rejected)
      ensures prompt && Legal(old(s.state), cmd) ==> exists junk: Block :: s == TakesAtOnce(old(s), cmd, arg, flags, junk)
      ensures candid && cmd == 13 && work == 0 && old(s.state) == Tran ==> s.took
      ensures Obliging() ==> !RefusesSwitch(cmd, arg, s)
    {
      hide Issues, Takes, TakesAtOnce, RefusesSwitch, Ok;
      ghost var s0 := s;
      NotTaken(s, cmd, arg, flags);
      if Legal(s.state, cmd) && (prompt || (candid && cmd == 13 && work == 0)) {
        var zero: Block := seq(128, _ => 0);
        assert |zero| == 128;
        var junk: Block :| |junk| == 128;
        Answers(s, cmd, arg, flags, junk);
        s := TakesAtOnce(s, cmd, arg, flags, junk);
      } else {
        var t: Hw := *;
        if Issues(s, cmd, arg, flags, t) && (Obliging() ==> !RefusesSwitch(cmd, arg, t)) {
          s := t;
        } else {
          s := s.(took := false);
        }
      }
      IssuesOk(s0, cmd, arg, flags, s);
      SameRejected(s0, cmd, arg, flags, s);
    }

    /** Writing SDC_ARG and SDC_CMD issues a command. */
    method Issue(cmd: nat, arg: Word, flags: bv32)
      requires Ok(s)
      modifies this`s, this`delay, this`trace, this`work, this`switches, this`refused
      ensures trace == old(trace) + [Sent(cmd, arg, flags)]
      ensures Ok(s) && Issues(old(s), cmd, arg, flags, s) && s.rejected == old(s.rejected)
      ensures prompt && Legal(old(s.state), cmd) ==> exists junk: Block :: s == TakesAtOnce(old(s), cmd, arg, flags, junk)
      ensures delay < 100000 && (cmd in {6, 7} ==> work < 1000)
      ensures cmd !in {6, 7} ==> work == if cmd == 13 && old(work) > 0 then old(work) - 1 else old(work)
      ensures candid && cmd == 13 && old(work) == 0 && old(s.state) == Tran ==> s.took
      ensures switches == old(switches) + if Moves(cmd, arg, s) then 1 else 0
      ensures refused == old(refused) + if RefusesSwitch(cmd, arg, s) then 1 else 0
      ensures Obliging() ==> refused == old(refused)
    {
      hide Issues, TakesAtOnce, Moves, RefusesSwitch, Ok, Legal;
      Respond(cmd, arg, flags);
      var looks, polls: int := *, *;
      trace := trace + [Sent(cmd, arg, flags)];
      delay := looks % 100000;
      if cmd in {6, 7} {
        work := polls % 1000;
      } else if cmd == 13 && work > 0 {
        work := work - 1;
      }
      if Moves(cmd, arg, s) {
        switches := switches + 1;
      }
      if RefusesSwitch(cmd, arg, s) {
        refused := refused + 1;
      }
    }
  }

  lemma Answers(s: Hw, cmd: nat, arg: Word, flags: bv32, junk: Block)
    requires Ok(s)
    ensures var t := TakesAtOnce(s, cmd, arg, flags, junk); t.took && !RefusesSwitch(cmd, arg, t)
    ensures Legal(s.state, cmd) ==> Issues(s, cmd, arg, flags, TakesAtOnce(s, cmd, arg, flags, junk))
  {
    TakesAtOnceTakes(s, cmd, arg, flags, junk);
    hide Takes;
  }

  lemma NotTaken(s: Hw, cmd: nat, arg: Word, flags: bv32)
    requires Ok(s)
    ensures var t := s.(took := false); Ok(t) && Issues(s, cmd, arg, flags, t) && !RefusesSwitch(cmd, arg, t)
  {}

  lemma SameRejected(s: Hw, cmd: nat, arg: Word, flags: bv32, t: Hw)
    requires Ok(s) && Issues(s, cmd, arg, flags, t)
    ensures t.rejected == s.rejected
  {
    hide WritesPartitionConfig, PartitionAccess, WritesOneBlock, ReadsOneBlock, StateCode, StatusState, Ok;
  }
}
