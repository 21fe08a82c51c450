/** The eMMC driver of mt8113_emmc.c over the controller and card of Msdc and Card. */
module Emmc {
  import opened Card
  import opened Msdc
  import opened Words

  // MSDC_INT bits as mt8113_emmc.c uses them.
  const INT_CMDRDY: bv32 := 0x100
  const INT_DATCRCERR: bv32 := 0x20
  const INT_DATTMO: bv32 := 0x10
  const INT_XFER_COMPL: bv32 := 0x8
  const INT_DATA_BITS: bv32 := 0x38

  /** How often the driver looks for the response to a command, and polls the status of the card. */
  const RESPONSE_POLLS: Word := 100000
  const STATUS_POLLS := 1000

  /** timeout_val-- on a 32-bit word. */
  function Decrement(x: Word): Word { (x - 1) % TWO32 }

  // ---- What the driver asks of the controller ----

  /** What has been added to a trace. */
  ghost function Added(before: seq<Access>, after: seq<Access>): seq<Access> {
    if before <= after then after[|before|..] else []
  }

  /** The last access is a look that shows one of these bits. */
  ghost predicate Shows(t: seq<Access>, mask: bv32) { t != [] && t[|t| - 1].Seen? && t[|t| - 1].ints & mask != 0 }

  /** Looks that show none of these bits. */
  ghost predicate Blank(t: seq<Access>, mask: bv32) {
    forall k :: 0 <= k < |t| ==> t[k].Seen? && t[k].ints & mask == 0
  }

  /** Looks until one shows one of these bits, or until there have been so many. */
  ghost predicate LooksFor(t: seq<Access>, mask: bv32, budget: nat) {
    if Shows(t, mask) then |t| <= budget && Blank(t[..|t| - 1], mask) else |t| == budget && Blank(t, mask)
  }

  /** A command and the looks for the response to it. */
  ghost predicate Commanded(t: seq<Access>, cmd: nat, arg: Word, flags: bv32) {
    t != [] && t[0] == Sent(cmd, arg, flags) && LooksFor(t[1..], 0x100, 100000)
  }

  lemma AddedLook(before: seq<Access>, after: seq<Access>, v: bv32, mask: bv32)
    requires before <= after && Blank(Added(before, after), mask)
    ensures before <= after + [Seen(v)] && Added(before, after + [Seen(v)]) == Added(before, after) + [Seen(v)]
    ensures var t := Added(before, after + [Seen(v)]);
            |t| == |Added(before, after)| + 1 && (Shows(t, mask) <==> v & mask != 0)
            && (if v & mask != 0 then Blank(t[..|t| - 1], mask) else Blank(t, mask))
  {
    AddedOne(before, after, Seen(v));
    LookAdded(Added(before, after), v, mask);
    hide Blank, Shows, Added;
  }

  lemma WhatWasAdded(before: seq<Access>, after: seq<Access>)
    requires before <= after
    ensures before + Added(before, after) == after
  {}

  lemma AddedOne(before: seq<Access>, after: seq<Access>, x: Access)
    requires before <= after
    ensures before <= after + [x] && Added(before, after + [x]) == Added(before, after) + [x]
  {}

  lemma LookAdded(t: seq<Access>, v: bv32, mask: bv32)
    requires Blank(t, mask)
    ensures var u := t + [Seen(v)];
            (Shows(u, mask) <==> v & mask != 0) && (if v & mask != 0 then Blank(u[..|u| - 1], mask) else Blank(u, mask))
  {
    assert (t + [Seen(v)])[..|t|] == t;
  }

  /** Looks of which all but the last show none of these bits. */
  ghost predicate LooksBut(t: seq<Access>, mask: bv32) { t != [] && t[|t| - 1].Seen? && Blank(t[..|t| - 1], mask) }

  lemma BlankButLast(t: seq<Access>, v: bv32, mask: bv32)
    requires Blank(t, mask)
    ensures LooksBut(t + [Seen(v)], mask)
  {
    assert (t + [Seen(v)])[..|t|] == t;
  }

  lemma NothingAdded(before: seq<Access>, mask: bv32)
    ensures Added(before, before) == [] && Blank([], mask) && !Shows([], mask)
  {}

  lemma BlankShowsNothing(t: seq<Access>, mask: bv32)
    requires Blank(t, mask)
    ensures !Shows(t, mask)
  {}

  /** The commands in a trace. */
  ghost function Commands(t: seq<Access>): seq<Access> {
    if t == [] then [] else Commands(t[..|t| - 1]) + if t[|t| - 1].Sent? then [t[|t| - 1]] else []
  }

  lemma {:induction false} CommandsOfSum(t: seq<Access>, u: seq<Access>)
    ensures Commands(t + u) == Commands(t) + Commands(u)
  {
    if u == [] {
      assert t + u == t;
    } else {
      assert (t + u)[..|t + u| - 1] == t + u[..|u| - 1];
      CommandsOfSum(t, u[..|u| - 1]);
    }
  }

  lemma {:induction false} LooksAreNoCommands(t: seq<Access>)
    requires forall k :: 0 <= k < |t| ==> t[k].Seen?
    ensures Commands(t) == []
  {
    if t != [] {
      LooksAreNoCommands(t[..|t| - 1]);
    }
  }

  lemma OneCommand(t: seq<Access>, cmd: nat, arg: Word, flags: bv32)
    requires Commanded(t, cmd, arg, flags)
    ensures Commands(t) == [Sent(cmd, arg, flags)]
  {
    var looks := t[1..];
    assert Blank(looks, 0x100) || Blank(looks[..|looks| - 1], 0x100);
    forall k | 0 <= k < |looks|
      ensures looks[k].Seen?
    {
      if Shows(looks, 0x100) && k < |looks| - 1 {
        assert looks[..|looks| - 1][k].Seen?;
      }
    }
    LooksAreNoCommands(looks);
    assert t == [t[0]] + looks;
    CommandsOfSum([t[0]], looks);
    assert Commands([t[0]]) == [t[0]] by { assert Commands([]) == []; }
  }

  /** Another command after what has been asked so far. */
  lemma CommandsGrow(from: seq<Access>, before: seq<Access>, after: seq<Access>)
    requires from <= before <= after
    ensures from <= after && Commands(Added(from, after)) == Commands(Added(from, before)) + Commands(Added(before, after))
  {
    AddedSum(from, before, after);
    CommandsOfSum(Added(from, before), Added(before, after));
  }

  /** CMD2, CMD3 and CMD7 come directly after a look that has shown the response to the command before. */
  ghost predicate Awaited(t: seq<Access>) {
    forall k :: 0 < k < |t| && t[k].Sent? && t[k].cmd in {2, 3, 7} ==> t[k - 1].Seen? && t[k - 1].ints & 0x100 != 0
  }

  /** None of these commands is among those of the trace. */
  ghost predicate Others(cs: seq<Access>) { forall c :: c in cs && c.Sent? ==> c.cmd !in {2, 3, 7} }

  lemma {:induction false} OthersAwaited(t: seq<Access>)
    requires Others(Commands(t))
    ensures Awaited(t) && Others(t) && forall k :: 0 <= k < |t| && t[k].Sent? ==> t[k].cmd !in {2, 3, 7}
  {
    if t != [] {
      var c := t[|t| - 1];
      assert Commands(t) == Commands(t[..|t| - 1]) + if c.Sent? then [c] else [];
      assert c.Sent? ==> c in Commands(t);
      OthersAwaited(t[..|t| - 1]);
      assert forall k :: 0 <= k < |t| - 1 ==> t[k] == t[..|t| - 1][k];
    }
  }

  lemma CommandAwaited(t: seq<Access>, cmd: nat, arg: Word, flags: bv32)
    requires Commanded(t, cmd, arg, flags)
    ensures Awaited(t)
  {
    OneCommand(t, cmd, arg, flags);
    var looks := t[1..];
    forall k | 0 < k < |t|
      ensures t[k].Seen?
    {
      assert t[k] == looks[k - 1];
      assert Shows(looks, 0x100) && k < |t| - 1 ==> looks[..|looks| - 1][k - 1] == looks[k - 1];
    }
  }

  lemma OnlyCommand(before: seq<Access>, after: seq<Access>, cmd: nat, arg: Word, flags: bv32)
    requires before <= after && Commanded(Added(before, after), cmd, arg, flags)
    ensures before < after && (cmd < 2 ==> Others(Added(before, after)))
  {
    var t := Added(before, after);
    OneCommand(t, cmd, arg, flags);
    if cmd < 2 {
      OthersAwaited(t);
    }
  }

  /** A further stretch of a trace: if the last look before it has shown a response, any command may come next. */
  lemma AwaitedGrows(from: seq<Access>, before: seq<Access>, after: seq<Access>)
    requires from <= before <= after
    requires Awaited(Added(from, before)) && Awaited(Added(before, after))
    requires Shows(Added(from, before), 0x100) || from == before || Others(Added(before, after))
    ensures Awaited(Added(from, after))
    ensures before < after ==> (Shows(Added(from, after), 0x100) <==> Shows(Added(before, after), 0x100))
  {
    AddedSum(from, before, after);
    AwaitedSum(Added(from, before), Added(before, after));
    hide Added, Awaited, Shows, Others;
  }

  lemma AddedSum(from: seq<Access>, before: seq<Access>, after: seq<Access>)
    requires from <= before <= after
    ensures from <= after && Added(from, after) == Added(from, before) + Added(before, after)
    ensures (from == before <==> Added(from, before) == []) && (before < after ==> Added(before, after) != [])
  {
    assert after[..|before|][..|from|] == after[..|from|];
  }

  lemma AwaitedSum(t: seq<Access>, u: seq<Access>)
    requires Awaited(t) && Awaited(u) && (Shows(t, 0x100) || t == [] || Others(u))
    ensures Awaited(t + u) && (u != [] ==> (Shows(t + u, 0x100) <==> Shows(u, 0x100)))
  {
    var w: seq<Access> := t + u;
    forall k | 0 < k < |w| && w[k].Sent? && w[k].cmd in {2, 3, 7}
      ensures w[k - 1].Seen? && w[k - 1].ints & 0x100 != 0
    {
      if k < |t| {
        assert w[k] == t[k] && w[k - 1] == t[k - 1];
      } else {
        assert w[k] == u[k - |t|] && u[k - |t|] in u;
        assert if k > |t| then w[k - 1] == u[k - |t| - 1] else w[k - 1] == t[|t| - 1];
      }
    }
  }

  /** The status polls. */
  ghost function Polls(n: nat): (s: seq<Access>)
    ensures |s| == n
  {
    seq(n, _ => Sent(13, 0x00010000, 0x80))
  }

  /** A status poll or more, and all thousand if the card does not become ready. */
  ghost predicate Polling(cs: seq<Access>, ready: bool) {
    cs == Polls(|cs|) && 0 < |cs| <= 1000 && (!ready ==> |cs| == 1000)
  }

  /** A command and, if it is answered, status polls. */
  ghost predicate Selecting(first: Access, cs: seq<Access>, ready: bool) {
    0 < |cs| <= 1001 && cs == [first] + Polls(|cs| - 1) && (ready ==> |cs| > 1)
  }

  ghost predicate Selects(first: Access, t: seq<Access>, ready: bool) { Selecting(first, Commands(t), ready) && Awaited(t) }

  lemma SelectSent(from: seq<Access>, after: seq<Access>, cmd: nat, arg: Word, flags: bv32)
    requires from <= after && Commanded(Added(from, after), cmd, arg, flags)
    ensures Selects(Sent(cmd, arg, flags), Added(from, after), false)
  {
    OneCommand(Added(from, after), cmd, arg, flags);
    CommandAwaited(Added(from, after), cmd, arg, flags);
    hide Added, Commanded, Commands, Awaited;
  }

  lemma SelectPolled(from: seq<Access>, sent: seq<Access>, after: seq<Access>, cmd: nat, arg: Word, flags: bv32, ready: bool)
    requires from <= sent <= after && Commanded(Added(from, sent), cmd, arg, flags)
    requires Polling(Commands(Added(sent, after)), ready)
    ensures from <= after && Selects(Sent(cmd, arg, flags), Added(from, after), ready)
  {
    hide Added, Commanded, Commands, Awaited, Others, Polling, Selecting;
    OneCommand(Added(from, sent), cmd, arg, flags);
    CommandAwaited(Added(from, sent), cmd, arg, flags);
    CommandsGrow(from, sent, after);
    PollsAreOthers(Commands(Added(sent, after)), ready);
    OthersAwaited(Added(sent, after));
    AwaitedGrows(from, sent, after);
    Selected(Sent(cmd, arg, flags), Commands(Added(sent, after)), ready);
  }

  lemma PollsAreOthers(cs: seq<Access>, ready: bool)
    requires Polling(cs, ready)
    ensures Others(cs)
  {}

  lemma Selected(first: Access, polls: seq<Access>, ready: bool)
    requires Polling(polls, ready)
    ensures Selecting(first, [first] + polls, ready)
  {}

  lemma NotPolledYet(from: seq<Access>)
    ensures Commands(Added(from, from)) == Polls(0)
  {}

  lemma PolledAgain(from: seq<Access>, done: seq<Access>, after: seq<Access>, n: nat)
    requires from <= done <= after && Commands(Added(from, done)) == Polls(n)
    requires Commanded(Added(done, after), 13, 0x00010000, 0x80)
    ensures from <= after && Commands(Added(from, after)) == Polls(n + 1)
  {
    OneCommand(Added(done, after), 13, 0x00010000, 0x80);
    CommandsGrow(from, done, after);
    MorePolls(n);
    hide Added, Commanded, Commands, Polls;
  }

  lemma EnoughPolls(cs: seq<Access>, n: nat, ready: bool)
    requires cs == Polls(n) && 0 < n <= 1000 && (!ready ==> n == 1000)
    ensures Polling(cs, ready)
  {}

  lemma MorePolls(n: nat)
    ensures Polls(0) == [] && Polls(n) + [Sent(13, 0x00010000, 0x80)] == Polls(n + 1)
  {}

  /** msdc_wait_cmd_ready, a spin that is taken to end. */
  method WaitCmdReady(hw: Controller)
    requires Ok(hw.s)
    modifies hw`s
    ensures Ok(hw.s) && Later(old(hw.s), hw.s)
    ensures hw.prompt ==> hw.s == Settle(old(hw.s))
    ensures hw.candid && hw.work == 0 ==> hw.s.state != PrgSwitch
    ensures hw.Accepting() ==> hw.s.rejected == old(hw.s.rejected)
  {
    hw.Tick();
  }

  /** msdc_wait_int for the command-ready bit. */
  method WaitCmdrdy(hw: Controller, timeout0: Word) returns (r: int)
    requires Ok(hw.s)
    modifies hw`s, hw`delay, hw`trace
    ensures Ok(hw.s) && Later(old(hw.s), hw.s) && hw.s.resp0 == old(hw.s.resp0) && hw.s.took == old(hw.s.took)
    ensures r in {0, -1} && (r == 0 ==> hw.s.took)
    ensures old(hw.trace) <= hw.trace && LooksFor(Added(old(hw.trace), hw.trace), 0x100, timeout0)
    ensures r == 0 <==> Shows(Added(old(hw.trace), hw.trace), 0x100)
    ensures hw.prompt && old(hw.s.took) && timeout0 > 0 ==> r == 0 && hw.s == Settle(old(hw.s))
    ensures hw.candid && old(hw.s.took) && old(hw.delay) < timeout0 ==> r == 0
    ensures hw.Accepting() ==> hw.s.rejected == old(hw.s.rejected)
  {
    LaterRefl(hw.s);
    ghost var s0 := hw.s;
    hide Later, Settle, PromptInts, Shows, Blank, Added;
    var timeout := timeout0;
    NothingAdded(hw.trace, 0x100);
    while true
      invariant old(hw.trace) <= hw.trace && Blank(Added(old(hw.trace), hw.trace), 0x100)
      invariant |Added(old(hw.trace), hw.trace)| + timeout == timeout0
      invariant Ok(hw.s) && Later(s0, hw.s) && hw.s.resp0 == s0.resp0 && hw.s.took == s0.took
      invariant timeout == timeout0 ==> hw.s == s0
      invariant hw.prompt && s0.took ==> timeout == timeout0
      invariant hw.candid && s0.took && old(hw.delay) < timeout0 ==> hw.delay < timeout
      invariant hw.Accepting() ==> hw.s.rejected == old(hw.s.rejected)
      decreases timeout
    {
      if timeout == 0 {
        BlankShowsNothing(Added(old(hw.trace), hw.trace), 0x100);
        return -1;
      }
      timeout := timeout - 1;
      ghost var before, done := hw.s, hw.trace;
      var v := hw.ReadInt();
      AddedLook(old(hw.trace), done, v, 0x100);
      LaterTrans(s0, before, hw.s);
      PromptIntsShow(hw.s);
      if v & INT_CMDRDY != 0 {
        return 0;
      }
    }
  }

  /** The interrupts of a prompt controller: command-ready for a command that was taken, completion for a
      card back in the transfer state, and no errors. */
  lemma PromptIntsShow(s: Hw)
    ensures PromptInts(s) & INT_CMDRDY != 0 <==> s.took
    ensures PromptInts(s) & INT_XFER_COMPL != 0 <==> s.state == Tran
    ensures PromptInts(s) & (INT_DATCRCERR | INT_DATTMO) == 0
  {}

  /** msdc_send_cmd. `pre` and `post` are the states just before and after the command was issued. */
  method SendCmd(hw: Controller, cmd: nat, arg: Word, flags: bv32) returns (r: int, ghost pre: Hw, ghost post: Hw)
    requires Ok(hw.s)
    modifies hw`s, hw`delay, hw`trace, hw`work, hw`switches, hw`refused
    ensures Ok(hw.s) && Ok(pre) && Ok(post)
    ensures Later(old(hw.s), pre) && Issues(pre, cmd, arg, flags, post) && Later(post, hw.s)
    ensures hw.s.resp0 == post.resp0 && hw.s.took == post.took
    ensures r in {0, -1} && (r == 0 ==> post.took)
    ensures old(hw.trace) <= hw.trace && Commanded(Added(old(hw.trace), hw.trace), cmd, arg, flags)
    ensures r == 0 <==> Shows(Added(old(hw.trace), hw.trace), 0x100)
    ensures hw.switches == old(hw.switches) + if Moves(cmd, arg, post) then 1 else 0
    ensures hw.refused == old(hw.refused) + if RefusesSwitch(cmd, arg, post) then 1 else 0
    ensures (hw.Obliging() ==> hw.refused == old(hw.refused)) && (hw.Accepting() ==> hw.s.rejected == old(hw.s.rejected))
    ensures if cmd in {6, 7} then hw.work < STATUS_POLLS
            else hw.work == if cmd == 13 && old(hw.work) > 0 then old(hw.work) - 1 else old(hw.work)
    ensures hw.candid && post.took ==> r == 0
    ensures hw.candid && cmd == 13 && old(hw.work) == 0 ==> pre.state != PrgSwitch && (pre.state == Tran ==> r == 0)
    ensures hw.prompt ==> pre == Settle(old(hw.s))
    ensures hw.prompt && Legal(pre.state, cmd) ==> r == 0 && Answered(pre, cmd, arg, flags, post) && hw.s == Settle(post)
  {
    hide Later, Issues, Legal, Settle, Answered, Shows, LooksFor, Added, Commanded;
    WaitCmdReady(hw);
    pre := hw.s;
    ghost var before := hw.trace;
    hw.Issue(cmd, arg, flags);
    post := hw.s;
    AnsweredIs(pre, cmd, arg, flags, post);
    ghost var sent := hw.trace;
    r := WaitCmdrdy(hw, RESPONSE_POLLS);
    CommandAdded(before, sent, hw.trace, cmd, arg, flags);
  }

  lemma CommandAdded(before: seq<Access>, sent: seq<Access>, after: seq<Access>, cmd: nat, arg: Word, flags: bv32)
    requires sent == before + [Sent(cmd, arg, flags)] && sent <= after && LooksFor(Added(sent, after), 0x100, 100000)
    ensures before <= after && Commanded(Added(before, after), cmd, arg, flags)
    ensures Shows(Added(before, after), 0x100) <==> Shows(Added(sent, after), 0x100)
  {
    var t := Added(before, after);
    assert after[..|sent|] == sent;
    assert t[0] == sent[|before|] && t[1..] == Added(sent, after);
    hide LooksFor;
  }

  /** What a prompt card makes of a legal command. */
  ghost predicate Answered(pre: Hw, cmd: nat, arg: Word, flags: bv32, post: Hw)
    requires Ok(pre)
  {
    post.took && exists junk: Block :: post == TakesAtOnce(pre, cmd, arg, flags, junk)
  }

  lemma AnsweredIs(pre: Hw, cmd: nat, arg: Word, flags: bv32, post: Hw)
    requires Ok(pre)
    ensures (exists junk: Block :: post == TakesAtOnce(pre, cmd, arg, flags, junk)) ==> Answered(pre, cmd, arg, flags, post)
  {
    hide TakesAtOnce;
    if junk: Block :| post == TakesAtOnce(pre, cmd, arg, flags, junk) {
      TookAtOnce(pre, cmd, arg, flags, junk);
    }
  }

  lemma TookAtOnce(pre: Hw, cmd: nat, arg: Word, flags: bv32, junk: Block)
    requires Ok(pre)
    ensures TakesAtOnce(pre, cmd, arg, flags, junk).took
  {
    hide WritesPartitionConfig, PartitionAccess, WritesOneBlock, Ok;
  }

  lemma StatusAnswered(pre: Hw, arg: Word, flags: bv32, post: Hw)
    requires Ok(pre) && pre.state == Tran && Answered(pre, 13, arg, flags, post)
    ensures StatusState(post.resp0) == 4
  {
    StatusField(Tran);
    assert StateCode(Tran) == 4;
  }

  /** From switching, time leads to the transfer state only; from there it leads nowhere. */
  lemma SwitchingLater(s: Hw, t: Hw)
    requires Ok(s) && Later(s, t)
    ensures s.state in {Tran, PrgSwitch} ==> t.state in {Tran, PrgSwitch}
  {}

  lemma PollChangesNothing(s: Hw, pre: Hw, post: Hw, t: Hw, arg: Word, flags: bv32)
    requires Ok(s) && Ok(pre) && Ok(post)
    requires Later(s, pre) && Issues(pre, 13, arg, flags, post) && Later(post, t)
    ensures Later(s, t)
    ensures post.took && StatusState(post.resp0) == 4 ==> t.state == Tran
    ensures post.took && pre.state == Tran ==> StatusState(post.resp0) == 4
  {
    hide StatusState, StateCode;
    PolledLater(pre, post, t, arg, flags);
    LaterTrans(s, pre, t);
    TranCode(pre.state);
  }

  lemma PolledLater(pre: Hw, post: Hw, t: Hw, arg: Word, flags: bv32)
    requires Ok(pre) && Ok(post) && Issues(pre, 13, arg, flags, post) && Later(post, t)
    ensures Later(pre, t) && (pre.state == Tran ==> t.state == Tran)
    ensures post.took ==> StatusState(post.resp0) == StateCode(pre.state)
  {
    hide StatusState, StateCode;
  }

  lemma TranCode(st: State)
    ensures StateCode(st) == 4 <==> st == Tran
  {}

  /** Other commands do not switch. */
  lemma NoSwitch(cmd: nat, arg: Word, t: Hw)
    ensures cmd !in {6, 7} ==> !Moves(cmd, arg, t) && !RefusesSwitch(cmd, arg, t)
    ensures cmd == 7 ==> !RefusesSwitch(cmd, arg, t)
  {}

  /** One status poll. */
  method PollStatus(hw: Controller) returns (ready: bool)
    requires Ok(hw.s)
    modifies hw`s, hw`delay, hw`trace, hw`work, hw`switches, hw`refused
    ensures Ok(hw.s) && Later(old(hw.s), hw.s) && (ready ==> hw.s.state == Tran)
    ensures old(hw.trace) <= hw.trace && Commanded(Added(old(hw.trace), hw.trace), 13, 0x00010000, 0x80)
    ensures ready <==> Shows(Added(old(hw.trace), hw.trace), 0x100) && (hw.s.resp0 >> 9) & 0xF == 4
    ensures hw.switches == old(hw.switches) && hw.refused == old(hw.refused)
    ensures old(hw.s.state) in {Tran, PrgSwitch} ==> hw.s.state in {Tran, PrgSwitch}
    ensures hw.work == if old(hw.work) > 0 then old(hw.work) - 1 else 0
    ensures hw.prompt && Settle(old(hw.s)).state == Tran ==> ready
    ensures hw.candid && old(hw.work) == 0 && old(hw.s.state) in {Tran, PrgSwitch} ==> ready
    ensures hw.Accepting() ==> hw.s.rejected == old(hw.s.rejected)
  {
    hide Later, Issues, Settle, Legal, Answered, Moves, RefusesSwitch, StatusState, Shows, Commanded, Added;
    ghost var before := hw.s;
    TranTakesStatus();
    var code, pre, post := SendCmd(hw, 13, 0x00010000, CMD_R1_RESP);
    NoSwitch(13, 0x00010000, post);
    PollChangesNothing(before, pre, post, hw.s, 0x00010000, CMD_R1_RESP);
    SwitchingLater(before, pre);
    SwitchingLater(before, hw.s);
    if hw.prompt && pre.state == Tran {
      StatusAnswered(pre, 0x00010000, CMD_R1_RESP, post);
    }
    StatusBits(hw.s.resp0);
    ready := code == 0 && StatusState(hw.s.resp0) == 4;
  }

  /** CURRENT_STATE is in bits 9 to 12 of a status word. */
  lemma StatusBits(resp: bv32)
    ensures StatusState(resp) == (resp >> 9) & 0xF
  {}

  /** msdc_wait_card_ready: poll the card's status until it reports the transfer state. */
  method WaitCardReady(hw: Controller) returns (r: int)
    requires Ok(hw.s)
    modifies hw`s, hw`delay, hw`trace, hw`work, hw`switches, hw`refused
    ensures Ok(hw.s) && Later(old(hw.s), hw.s)
    ensures r in {0, -1} && (r == 0 ==> hw.s.state == Tran)
    ensures old(hw.trace) <= hw.trace && Polling(Commands(Added(old(hw.trace), hw.trace)), r == 0)
    ensures hw.switches == old(hw.switches) && hw.refused == old(hw.refused)
    ensures hw.prompt && Settle(old(hw.s)).state == Tran ==> r == 0
    ensures hw.candid && old(hw.work) < STATUS_POLLS && old(hw.s.state) in {Tran, PrgSwitch} ==> r == 0
    ensures hw.Accepting() ==> hw.s.rejected == old(hw.s.rejected)
  {
    LaterRefl(hw.s);
    ghost var s0 := hw.s;
    hide Later, Settle, Added, Commands, Commanded, Polls, Polling, Shows;
    var i := 0;
    ghost var from := hw.trace;
    NotPolledYet(from);
    ghost var told := hw.candid && hw.work < STATUS_POLLS && hw.s.state in {Tran, PrgSwitch};
    while i < STATUS_POLLS
      invariant 0 <= i && Ok(hw.s) && Later(s0, hw.s) && hw.switches == old(hw.switches) && hw.refused == old(hw.refused)
      invariant i == 0 ==> hw.s == s0
      invariant i <= STATUS_POLLS && from <= hw.trace && Commands(Added(from, hw.trace)) == Polls(i)
      invariant hw.prompt && Settle(s0).state == Tran ==> i == 0
      invariant hw.Accepting() ==> hw.s.rejected == old(hw.s.rejected)
      invariant told ==> hw.s.state in {Tran, PrgSwitch} && hw.work + i < STATUS_POLLS
    {
      ghost var before, done := hw.s, hw.trace;
      var ready := PollStatus(hw);
      PolledAgain(from, done, hw.trace, i);
      LaterTrans(s0, before, hw.s);
      if ready {
        EnoughPolls(Commands(Added(from, hw.trace)), i + 1, true);
        return 0;
      }
      i := i + 1;
    }
    EnoughPolls(Commands(Added(from, hw.trace)), i, false);
    r := -1;
  }

  lemma TranTakesStatus()
    ensures Legal(Tran, 13)
  {}

  /** The state follows s0 but for the contents of the FIFOs, of which the transmit side is empty. */
  ghost predicate Cleared(s0: Hw, s: Hw) {
    Ok(s) && Ok(s0.(rx := s.rx, tx := [])) && Later(s0.(rx := s.rx, tx := []), s)
  }

  lemma ClearedLater(s0: Hw, s: Hw, t: Hw)
    requires s0.state != Data && Quiet(s0) && Cleared(s0, s) && Later(s, t)
    ensures Cleared(s0, t) && t.rx == s.rx && t.pending == []
  {
    LaterTrans(s0.(rx := s.rx, tx := []), s, t);
  }

  lemma ClearedPop(s0: Hw, s: Hw, t: Hw)
    requires s0.state != Data && Quiet(s0) && Cleared(s0, s) && s.rx != []
    requires Ok(s.(rx := s.rx[1..])) && Later(s.(rx := s.rx[1..]), t)
    ensures Cleared(s0, t) && |t.rx| < |s.rx|
  {
    var u := s.(rx := s.rx[1..]);
    assert Cleared(s0, u);
    ClearedLater(s0, u, t);
  }

  /** msdc_clear_fifo and its spin. */
  method ClearFifo(hw: Controller)
    requires Ok(hw.s) && hw.s.state != Data && Quiet(hw.s)
    modifies hw`s
    ensures Cleared(old(hw.s), hw.s)
  {
    ghost var s0 := hw.s;
    hw.ClearFifo();
    ghost var rx :| |rx| <= |s0.rx| && Later(s0.(rx := rx, tx := []), hw.s);
    assert hw.s.rx == rx;
  }

  /** msdc_drain_rxdata_fifo on a card that sends nothing: afterwards the receive FIFO is empty. */
  method DrainRx(hw: Controller)
    requires Ok(hw.s) && hw.s.state != Data && Quiet(hw.s)
    modifies hw`s
    ensures Cleared(old(hw.s), hw.s) && hw.s.rx == []
  {
    ghost var s0 := hw.s;
    ClearFifo(hw);
    ghost var before := hw.s;
    hide Later, Cleared;
    var count, tx := hw.ReadFifocs();
    ClearedLater(s0, before, hw.s);
    if count != 0 {
      while true
        invariant Ok(hw.s) && Cleared(s0, hw.s)
        decreases |hw.s.rx|
      {
        before := hw.s;
        count, tx := hw.ReadFifocs();
        ClearedLater(s0, before, hw.s);
        if count == 0 {
          break;
        }
        before := hw.s;
        var w := hw.PopRx();
        ClearedPop(s0, before, hw.s);
      }
    }
  }

  // ---- Reading a block ----

  /** The card is sending or has sent a block; nothing but the words on their way changes. */
  ghost predicate Reading(s0: Hw, s: Hw) {
    Ok(s) && (s.state == Data || s.state == Tran)
    && s.disk == s0.disk && s.part == s0.part && s.extCsd == s0.extCsd && s.stale == s0.stale && s.corrupt == s0.corrupt
  }

  /** The words still to come, first those in the FIFO. */
  ghost function Coming(s: Hw): seq<Word> { s.rx + s.pending }

  lemma ReadingLater(s0: Hw, s: Hw, t: Hw)
    requires Reading(s0, s) && Later(s, t)
    ensures Reading(s0, t) && Coming(t) == Coming(s)
  {}

  lemma ReadingPop(s0: Hw, s: Hw, t: Hw)
    requires Reading(s0, s) && s.rx != []
    requires Ok(s.(rx := s.rx[1..])) && Later(s.(rx := s.rx[1..]), t)
    ensures Reading(s0, t) && Coming(s) == [s.rx[0]] + Coming(t)
  {
    var u := s.(rx := s.rx[1..]);
    ReadingLater(s0, u, t);
    assert s.rx == [s.rx[0]] + u.rx;
  }

  /** The polling loop that waits for data to start arriving. */
  method AwaitData(hw: Controller, ghost s0: Hw)
    requires Reading(s0, hw.s)
    modifies hw`s, hw`delay, hw`trace
    ensures Reading(s0, hw.s) && Coming(hw.s) == Coming(old(hw.s))
    ensures old(hw.trace) <= hw.trace
    ensures var t := Added(old(hw.trace), hw.trace);
            LooksFor(t, 0x38, 100000) || (|t| < 100000 && Blank(t, 0x38) && Coming(hw.s) != [])
  {
    var timeout: Word := 100000;
    hide Later, Coming, Settle, PromptInts, Shows, Blank, Added;
    ghost var from := hw.trace;
    NothingAdded(from, 0x38);
    while timeout > 0
      invariant from <= hw.trace && Blank(Added(from, hw.trace), 0x38)
      invariant |Added(from, hw.trace)| + timeout == 100000 && !Shows(Added(from, hw.trace), 0x38)
      invariant Reading(s0, hw.s) && Ok(hw.s) && Coming(hw.s) == Coming(old(hw.s))
      decreases timeout
    {
      timeout := timeout - 1;
      ghost var before := hw.s;
      var count, tx := hw.ReadFifocs();
      ReadingLater(s0, before, hw.s);
      if count > 0 {
        SomethingComing(hw.s);
        break;
      }
      before := hw.s;
      ghost var done := hw.trace;
      var v := hw.ReadInt();
      AddedLook(from, done, v, 0x38);
      ReadingLater(s0, before, hw.s);
      if v & INT_DATA_BITS != 0 {
        break;
      }
    }
  }

  lemma SomethingComing(s: Hw)
    ensures s.rx != [] || s.pending != [] ==> Coming(s) != []
  {}

  /** The two nested polling loops of emmc_read_sector: the words read so far, those in the FIFO and
      those still with the card always make up the same sequence. */
  method CollectWords(hw: Controller, buffer: array<Word>, ghost s0: Hw) returns (n: nat)
    requires Reading(s0, hw.s) && buffer.Length == 128
    modifies hw`s, hw`delay, hw`trace, buffer
    ensures Reading(s0, hw.s) && n <= 128
    ensures old(hw.trace) <= hw.trace
    ensures var t := Added(old(hw.trace), hw.trace);
            if n < 128 then LooksFor(t, 0x8, 100000)
            else |t| <= 100000 && LooksBut(t, 0x8)
    ensures buffer[..n] + Coming(hw.s) == old(Coming(hw.s))
    ensures hw.prompt && |old(Coming(hw.s))| >= 128 ==> n == 128
  {
    n := 0;
    ghost var all := Coming(hw.s);
    var timeout: Word := 100000;
    assert buffer[..0] + Coming(hw.s) == all;
    hide Shows, Blank, Added;
    ghost var from := hw.trace;
    NothingAdded(from, 0x8);
    while timeout > 0 && n < 128
      invariant from <= hw.trace && |Added(from, hw.trace)| + timeout == 100000
      invariant Blank(Added(from, hw.trace), 0x8) && !Shows(Added(from, hw.trace), 0x8)
      invariant timeout < 100000 ==> LooksBut(Added(from, hw.trace), 0x8)
      invariant timeout == 100000 ==> n == 0
      invariant n <= 128 && Reading(s0, hw.s) && buffer[..n] + Coming(hw.s) == all
      invariant hw.prompt && timeout < 100000 ==> n == 128 || Coming(hw.s) == []
      decreases timeout
    {
      timeout := timeout - 1;
      n := CollectBurst(hw, buffer, n, s0);
      ghost var before, done := hw.s, hw.trace;
      var v := hw.ReadInt();
      AddedLook(from, done, v, 0x8);
      BlankButLast(Added(from, done), v, 0x8);
      ReadingLater(s0, before, hw.s);
      if v & INT_XFER_COMPL != 0 {
        break;
      }
    }
  }

  /** The inner loop: take words while a whole one is in the FIFO. */
  method CollectBurst(hw: Controller, buffer: array<Word>, n0: nat, ghost s0: Hw) returns (n: nat)
    requires Reading(s0, hw.s) && buffer.Length == 128 && n0 <= 128
    modifies hw`s, buffer
    ensures Reading(s0, hw.s) && n0 <= n <= 128
    ensures buffer[..n] + Coming(hw.s) == old(buffer[..n0] + Coming(hw.s))
    ensures hw.prompt ==> n == 128 || Coming(hw.s) == []
  {
    n := n0;
    ghost var all := buffer[..n0] + Coming(hw.s);
    ghost var before := hw.s;
    var count, tx := hw.ReadFifocs();
    ReadingLater(s0, before, hw.s);
    SettleLater(before);
    hide Later, Coming, Settle, Settled, Reading;
    while count >= 4 && n < 128
      invariant n0 <= n <= 128 && Ok(hw.s) && Reading(s0, hw.s)
      invariant count / 4 == |hw.s.rx|
      invariant buffer[..n] + Coming(hw.s) == all
      invariant hw.prompt ==> Settled(hw.s)
      decreases 128 - n
    {
      TakeWord(hw, buffer, n, s0);
      n := n + 1;
      before := hw.s;
      count, tx := hw.ReadFifocs();
      ReadingLater(s0, before, hw.s);
      SettleLater(before);
    }
    if hw.prompt && n < 128 {
      NothingComing(hw.s);
    }
  }

  /** One word from the FIFO to the buffer. */
  method TakeWord(hw: Controller, buffer: array<Word>, n: nat, ghost s0: Hw)
    requires Ok(hw.s) && Reading(s0, hw.s) && hw.s.rx != [] && n < buffer.Length
    modifies hw`s, buffer
    ensures Ok(hw.s) && Reading(s0, hw.s)
    ensures buffer[..n + 1] + Coming(hw.s) == old(buffer[..n] + Coming(hw.s))
  {
    hide Later, Coming, Settle, Reading;
    ghost var before, got := hw.s, buffer[..n];
    var w := hw.PopRx();
    ReadingPop(s0, before, hw.s);
    buffer[n] := w;
    assert buffer[..n + 1] == got + [w];
    assert got + ([w] + Coming(hw.s)) == got + [w] + Coming(hw.s);
  }

  /** A prompt card has refilled the FIFO, so an empty one means that nothing is left. */
  lemma NothingComing(s: Hw)
    requires Ok(s) && Settled(s) && s.rx == []
    ensures Coming(s) == []
  {}

  /** What a read command at rest is to deliver. */
  ghost function Wanted(s: Hw, cmd: nat, arg: Word): Block
    requires cmd == 8 || (cmd == 17 && Key(s.part, arg) in s.disk)
  {
    if cmd == 8 then s.extCsd else s.disk[Key(s.part, arg)]
  }

  const READ_FLAGS := CMD_R1_RESP | CMD_SINGLE_BLK | CMD_BLKLEN_512

  lemma ReadFlagsOk()
    ensures ReadsOneBlock(READ_FLAGS)
  {}

  /** What a read command that was taken delivers: at most the words of one block, none if it was refused.
      Unless they are damaged, they are a whole block, and unless the card is stale, the wanted one. */
  ghost predicate Delivers(s0: Hw, cmd: nat, arg: Word, post: Hw) {
    |Coming(post)| <= 128
    && (Coming(post) != [] ==> !post.stale && (cmd == 8 || (cmd == 17 && Key(s0.part, arg) in s0.disk)))
    && (Coming(post) != [] && !post.corrupt ==>
          |Coming(post)| == 128 && (!s0.stale ==> Coming(post) == Wanted(s0, cmd, arg)))
  }

  /** From a card at rest a read command delivers. */
  lemma ReadStarts(s0: Hw, cleared: Hw, pre: Hw, cmd: nat, arg: Word, post: Hw)
    requires s0.state != Data && Quiet(s0) && Cleared(s0, cleared) && cleared.rx == []
    requires Later(cleared, pre) && cmd in {8, 17} && Issues(pre, cmd, arg, READ_FLAGS, post) && post.took
    ensures Ok(post) && (s0.state == Tran || s0.state == PrgSwitch)
    ensures post.disk == s0.disk && post.part == s0.part && post.extCsd == s0.extCsd
    ensures post.state == Data || post.state == Tran
    ensures Delivers(s0, cmd, arg, post) && (!s0.stale ==> !post.stale) && pre.rx == [] && pre.pending == []
  {
    ReadFlagsOk();
    IssuesOk(pre, cmd, arg, READ_FLAGS, post);
    ClearedLater(s0, cleared, pre);
    assert pre.rx == [] && pre.pending == [];
    assert Coming(post) == post.pending;
  }

  /** A stale card may answer a read with anything: one attempt would not do. */
  lemma StaleReadsAnything(s: Hw, sector: Word, junk: Block)
    requires Ok(s) && s.state == Tran && s.stale && Key(s.part, sector) in s.disk
    ensures exists t :: Issues(s, 17, sector, READ_FLAGS, t) && t.took && t.pending == junk
  {
    var t := s.(state := Data, pending := junk, stale := false, took := true);
    assert Issues(s, 17, sector, READ_FLAGS, t);
  }

  /** What a read leaves alone, whether it succeeds or not. */
  ghost predicate Undisturbed(s: Hw, t: Hw) {
    Ok(t) && Quiet(t) && t.disk == s.disk && t.part == s.part && t.extCsd == s.extCsd && (!s.stale ==> !t.stale)
    && (if s.state == Tran || s.state == PrgSwitch
        then t.state in {Tran, Data} || (t.state == PrgSwitch && s.state == PrgSwitch)
        else t.state == s.state)
  }

  lemma NotTakenUndisturbed(s0: Hw, cleared: Hw, pre: Hw, cmd: nat, arg: Word, flags: bv32, post: Hw, s: Hw)
    requires Ok(s0) && s0.state != Data && Quiet(s0) && Cleared(s0, cleared)
    requires Later(cleared, pre) && Issues(pre, cmd, arg, flags, post) && Ok(post) && !post.took && Later(post, s)
    ensures Undisturbed(s0, s)
  {
    hide Issues;
    ClearedLater(s0, cleared, pre);
    NotTakenIs(pre, cmd, arg, flags, post);
  }

  lemma NotTakenIs(s: Hw, cmd: nat, arg: Word, flags: bv32, t: Hw)
    requires Ok(s) && Issues(s, cmd, arg, flags, t) && !t.took
    ensures t == s.(resp0 := t.resp0, took := false)
  {
    hide WritesPartitionConfig, PartitionAccess, WritesOneBlock, ReadsOneBlock, StateCode, StatusState, Ok;
  }

  /** A read command was taken in state s0 with the effect post, and its block is on the way. */
  ghost predicate Started(s0: Hw, cmd: nat, arg: Word, post: Hw, s: Hw) {
    && Reading(post, s) && (s0.state == Tran || s0.state == PrgSwitch)
    && post.disk == s0.disk && post.part == s0.part && post.extCsd == s0.extCsd && (!s0.stale ==> !post.stale)
    && Delivers(s0, cmd, arg, post)
  }

  /** Up to the read command. */
  method StartRead(hw: Controller, cmd: nat, arg: Word) returns (r: int, ghost post: Hw)
    requires Ok(hw.s) && hw.s.state != Data && Quiet(hw.s) && cmd in {8, 17}
    modifies hw`s, hw`delay, hw`trace, hw`work, hw`switches, hw`refused
    ensures Ok(post) && r in {0, -1}
    ensures old(hw.trace) <= hw.trace && Commanded(Added(old(hw.trace), hw.trace), cmd, arg, 0x02000880)
    ensures r == 0 <==> Shows(Added(old(hw.trace), hw.trace), 0x100)
    ensures r != 0 ==> Undisturbed(old(hw.s), hw.s)
    ensures r == 0 ==> Started(old(hw.s), cmd, arg, post, hw.s) && Coming(hw.s) == Coming(post)
                       && (hw.prompt && Coming(post) != [] ==> !post.corrupt)
    ensures hw.prompt && old(hw.s.state) == Tran && (cmd == 17 ==> Key(old(hw.s.part), arg) in old(hw.s.disk)) ==>
              r == 0 && |Coming(post)| == 128
    ensures hw.switches == old(hw.switches) && hw.refused == old(hw.refused)
  {
    ghost var s0 := hw.s;
    DrainRx(hw);
    ghost var cleared := hw.s;
    ReadTaken(s0, cleared);
    hide Later, Issues, Cleared, Coming, Wanted, Settle, Settled, Legal, Answered, Undisturbed, Started, Delivers;
    hide Shows, Commanded, Added;
    ghost var pre;
    r, pre, post := SendCmd(hw, cmd, arg, READ_FLAGS);
    if post.took {
      ReadStarts(s0, cleared, pre, cmd, arg, post);
      ReadingLater(post, post, hw.s);
      StartedUndisturbed(s0, cmd, arg, post, hw.s);
      if hw.prompt {
        PromptUndamaged(pre, cmd, arg, post);
      }
    } else {
      NotTakenUndisturbed(s0, cleared, pre, cmd, arg, READ_FLAGS, post, hw.s);
    }
    if hw.prompt && s0.state == Tran && (cmd == 17 ==> Key(s0.part, arg) in s0.disk) {
      ReadAnswered(s0, cleared, pre, cmd, arg, post);
    }
  }

  lemma PromptUndamaged(pre: Hw, cmd: nat, arg: Word, post: Hw)
    requires Ok(pre) && Issues(pre, cmd, arg, READ_FLAGS, post) && post.took && cmd in {8, 17}
    ensures Legal(pre.state, cmd)
    ensures Answered(pre, cmd, arg, READ_FLAGS, post) && Coming(post) != [] && pre.rx == [] && pre.pending == [] ==> !post.corrupt
  {}

  lemma StartedUndisturbed(s0: Hw, cmd: nat, arg: Word, post: Hw, s: Hw)
    requires Reading(post, s) && (s0.state == Tran || s0.state == PrgSwitch) && cmd in {8, 17}
    requires post.disk == s0.disk && post.part == s0.part && post.extCsd == s0.extCsd && (!s0.stale ==> !post.stale)
    ensures Undisturbed(s0, s)
    ensures Delivers(s0, cmd, arg, post) ==> Started(s0, cmd, arg, post, s)
  {
    hide Coming, Wanted, Delivers;
  }

  /** From the read command on. Success means that no error has shown since the whole block was there, and so
      that the block was not damaged. */
  method FinishRead(hw: Controller, buffer: array<Word>, ghost s0: Hw, ghost cmd: nat, ghost arg: Word, ghost post: Hw)
    returns (r: int)
    requires Started(s0, cmd, arg, post, hw.s) && Coming(hw.s) == Coming(post) && cmd in {8, 17} && buffer.Length == 128
    requires hw.prompt && Coming(post) != [] ==> !post.corrupt
    modifies hw`s, hw`delay, hw`trace, hw`work, hw`switches, hw`refused, buffer
    ensures Reading(post, hw.s) && r in {0, -1}
    ensures r == 0 ==> hw.s.state == Tran && Coming(post) != [] && buffer[..] == Coming(post) && !post.corrupt
    ensures hw.prompt && |Coming(post)| == 128 ==> r == 0
    ensures hw.switches == old(hw.switches) && hw.refused == old(hw.refused)
  {
    ghost var size := |Coming(post)|;
    assert size <= 128;
    hide Later, Coming, Wanted, Settle, Settled, PromptInts, Started;
    AwaitData(hw, post);
    var n := CollectWords(hw, buffer, post);
    ghost var before := hw.s;
    var v := hw.ReadInt();
    ReadingLater(post, before, hw.s);
    PromptIntsShow(hw.s);
    if v & (INT_DATCRCERR | INT_DATTMO) != 0 || n < 128 {
      return -1;
    }
    AllCollected(buffer[..n], hw.s, post);
    assert buffer[..n] == buffer[..];
    before := hw.s;
    NothingKeepsBusy(post, hw.s);
    NothingPending(hw.s);
    assert !hw.s.corrupt;
    r := WaitCardReady(hw);
    ReadingLater(post, before, hw.s);
  }

  /** One attempt of emmc_read_sector or emmc_read_ext_csd. After success the buffer holds exactly
      the block that the card sent for this command, and that is the wanted block unless the card
      was stale; in either case the card is not stale any more. */
  method ReadAttempt(hw: Controller, cmd: nat, arg: Word, buffer: array<Word>) returns (r: int)
    requires Ok(hw.s) && hw.s.state != Data && Quiet(hw.s) && cmd in {8, 17} && buffer.Length == 128
    modifies hw`s, hw`delay, hw`trace, hw`work, hw`switches, hw`refused, buffer
    ensures Undisturbed(old(hw.s), hw.s) && r in {0, -1}
    ensures r == 0 ==> hw.s.state == Tran && !hw.s.stale && (cmd == 17 ==> Key(old(hw.s).part, arg) in old(hw.s).disk)
    ensures r == 0 && !old(hw.s).stale ==> buffer[..] == Wanted(old(hw.s), cmd, arg)
    ensures hw.prompt && old(hw.s.state) == Tran && (cmd == 17 ==> Key(old(hw.s.part), arg) in old(hw.s.disk)) ==> r == 0
    ensures hw.switches == old(hw.switches) && hw.refused == old(hw.refused)
  {
    ghost var s0 := hw.s;
    hide Coming, Wanted, Undisturbed;
    ghost var post;
    r, post := StartRead(hw, cmd, arg);
    if r != 0 {
      return;
    }
    r := FinishRead(hw, buffer, s0, cmd, arg, post);
    StartedUndisturbed(s0, cmd, arg, post, hw.s);
  }

  lemma ReadTaken(s0: Hw, cleared: Hw)
    requires s0.state != Data && Quiet(s0) && Cleared(s0, cleared) && cleared.rx == []
    ensures s0.state == Tran ==> Ok(cleared) && Settle(cleared).state == Tran
    ensures Legal(Tran, 8) && Legal(Tran, 17) && Legal(Tran, 24)
  {}

  /** A prompt card in the transfer state starts to send a block. */
  lemma ReadAnswered(s0: Hw, cleared: Hw, pre: Hw, cmd: nat, arg: Word, post: Hw)
    requires Ok(s0) && s0.state == Tran && Cleared(s0, cleared) && cleared.rx == [] && pre == Settle(cleared)
    requires cmd in {8, 17} && (cmd == 17 ==> Key(s0.part, arg) in s0.disk) && Answered(pre, cmd, arg, READ_FLAGS, post)
    ensures |Coming(post)| == 128
  {}

  lemma NothingKeepsBusy(s0: Hw, s: Hw)
    requires Reading(s0, s) && Coming(s) == []
    ensures Settle(s).state == Tran
  {}

  lemma NothingPending(s: Hw)
    requires Coming(s) == []
    ensures s.pending == []
  {}

  lemma AllCollected(got: seq<Word>, s: Hw, post: Hw)
    requires |got| == 128 && got + Coming(s) == Coming(post) && |Coming(post)| <= 128
    ensures got == Coming(post) && Coming(post) != [] && Coming(s) == []
  {
    assert Coming(s) == [];
  }

  // ---- Writing a block ----

  const WRITE_FLAGS := CMD_R1_RESP | CMD_SINGLE_BLK | CMD_WRITE | CMD_BLKLEN_512

  /** How far the words of a write have got. */
  ghost predicate Given(disk: Disk, rejected: nat, key: Key, data: Block, n: nat, s: Hw)
    requires n <= 128
  {
    if n < 128 then Filling(disk, rejected, key, data[..n], s) else Committing(disk, rejected, key, data, s)
  }

  lemma GivenLater(disk: Disk, rejected: nat, key: Key, data: Block, n: nat, s: Hw, t: Hw)
    requires n <= 128 && Given(disk, rejected, key, data, n, s) && Later(s, t)
    ensures Given(disk, rejected, key, data, n, t)
  {
    hide Filling, Committing, Later;
    if n < 128 {
      FillingLater(disk, rejected, key, data[..n], s, t);
    } else {
      CommittingLater(disk, rejected, key, data, s, t);
    }
  }

  lemma GivenPush(disk: Disk, rejected: nat, key: Key, data: Block, n: nat, s: Hw, t: Hw)
    requires key in disk && n < 128 && Given(disk, rejected, key, data, n, s) && |s.tx| < FIFO_WORDS
    requires Ok(s.(tx := s.tx + [data[n]])) && Later(s.(tx := s.tx + [data[n]]), t)
    ensures Given(disk, rejected, key, data, n + 1, t)
  {
    var u := s.(tx := s.tx + [data[n]]);
    assert data[..n] + [data[n]] == data[..n + 1];
    assert s.received + (s.tx + [data[n]]) == s.received + s.tx + [data[n]];
    assert data[..128] == data;
    assert Filling(disk, rejected, key, data[..n + 1], u);
    hide Filling;
    GivenLater(disk, rejected, key, data, n + 1, u, t);
  }

  /** A write to the sector under key has begun, and with whatever words it is continued, no other
      sector changes. */
  ghost predicate Underway(disk: Disk, key: Key, s: Hw) {
    Confined(disk, key, s) && s.state in {Rcv, PrgWrite, Tran} && s.part == key.region && key in disk
  }

  lemma UnderwayLater(disk: Disk, key: Key, s: Hw, t: Hw)
    requires Underway(disk, key, s) && Later(s, t)
    ensures Underway(disk, key, t)
  {}

  lemma UnderwayPush(disk: Disk, key: Key, s: Hw, w: Word, t: Hw)
    requires Underway(disk, key, s) && |s.tx| < FIFO_WORDS && Later(s.(tx := s.tx + [w]), t)
    ensures Underway(disk, key, t)
  {
    UnderwayLater(disk, key, s.(tx := s.tx + [w]), t);
  }

  /** The FIFO loop of emmc_write_sector. The words are given in order, and none is lost if and only if no
      look at the byte count shows room for part of a word only; words that leave the FIFO whole cannot
      bring that about. */
  method PushWords(hw: Controller, buffer: array<Word>, ghost disk: Disk, ghost rejected: nat, ghost key: Key)
    returns (n: nat, ghost looks: seq<nat>)
    requires buffer.Length == 128 && key in disk && Given(disk, rejected, key, buffer[..], 0, hw.s)
    modifies hw`s, hw`overruns
    ensures n <= 128 && Underway(disk, key, hw.s) && hw.overruns >= old(hw.overruns)
    ensures hw.overruns == old(hw.overruns) ==> Given(disk, rejected, key, buffer[..], n, hw.s)
    ensures hw.overruns == old(hw.overruns) <==> NeverHalfRoom(looks)
    ensures |looks| <= 100000 && (n < 128 ==> |looks| == 100000)
    ensures hw.wholeWords ==> hw.overruns == old(hw.overruns)
    ensures hw.Accepting() ==> hw.s.rejected == old(hw.s.rejected)
    ensures hw.prompt && Settled(old(hw.s)) ==> n == 128 && hw.s.state == Tran && hw.overruns == old(hw.overruns)
  {
    n, looks := 0, [];
    assert NeverHalfRoom(looks);
    var timeout: Word := 100000;
    GivenConfined(disk, rejected, key, buffer[..], 0, hw.s);
    hide Settle, Later, Underway, Given, Settled, NeverHalfRoom;
    while timeout > 0 && n < 128
      invariant n <= 128 && Ok(hw.s) && Underway(disk, key, hw.s) && hw.overruns >= old(hw.overruns)
      invariant hw.overruns == old(hw.overruns) ==> Given(disk, rejected, key, buffer[..], n, hw.s)
      invariant hw.overruns == old(hw.overruns) <==> NeverHalfRoom(looks)
      invariant |looks| + timeout == 100000
      invariant hw.wholeWords ==> hw.overruns == old(hw.overruns)
      invariant hw.Accepting() ==> hw.s.rejected == old(hw.s.rejected)
      invariant hw.prompt && Settled(old(hw.s)) ==>
                  Settled(hw.s) && timeout + n == 100000 && hw.overruns == old(hw.overruns)
      decreases timeout
    {
      timeout := timeout - 1;
      ghost var before := hw.s;
      var rx, count := hw.ReadFifocs();
      UnderwayLater(disk, key, before, hw.s);
      if hw.overruns == old(hw.overruns) {
        GivenLater(disk, rejected, key, buffer[..], n, before, hw.s);
      }
      SettleLater(before);
      if hw.prompt && Settled(old(hw.s)) {
        EmptyWhenSettled(disk, rejected, key, buffer[..], n, hw.s);
      }
      RoomSeen(|hw.s.tx|, looks, count);
      looks := looks + [count];
      if count < 128 {
        n := PushOne(hw, buffer, disk, rejected, key, n, old(hw.overruns));
      }
    }
    if hw.prompt && Settled(old(hw.s)) {
      DoneWhenSettled(disk, rejected, key, buffer[..], hw.s);
    }
  }

  /** No count leaves room for less than a word. */
  ghost predicate NeverHalfRoom(looks: seq<nat>) {
    forall k :: 0 <= k < |looks| ==> !(124 < looks[k] < 128)
  }

  /** A FIFO that is full although its count is below the capacity has room for part of a word. */
  lemma RoomSeen(words: nat, looks: seq<nat>, count: nat)
    requires words <= FIFO_WORDS && 4 * words - 4 < count <= 4 * words
    ensures NeverHalfRoom([])
    ensures NeverHalfRoom(looks + [count]) <==> NeverHalfRoom(looks) && !(words == FIFO_WORDS && count < 128)
  {
    var all := looks + [count];
    assert forall k :: 0 <= k < |all| ==> all[k] == if k < |looks| then looks[k] else count;
    assert all[|looks|] == count;
    assert forall k :: 0 <= k < |looks| ==> looks[k] == all[k];
  }

  /** One turn with room. */
  method PushOne(hw: Controller, buffer: array<Word>, ghost disk: Disk, ghost rejected: nat, ghost key: Key, n0: nat, ghost overruns0: nat)
    returns (n: nat)
    requires buffer.Length == 128 && n0 < 128 && Underway(disk, key, hw.s) && hw.overruns >= overruns0
    requires hw.overruns == overruns0 ==> Given(disk, rejected, key, buffer[..], n0, hw.s)
    modifies hw`s, hw`overruns
    ensures n == n0 + 1 && Ok(hw.s) && Underway(disk, key, hw.s)
    ensures hw.Accepting() ==> hw.s.rejected == old(hw.s.rejected)
    ensures hw.overruns == old(hw.overruns) + if |old(hw.s.tx)| < FIFO_WORDS then 0 else 1
    ensures hw.overruns == overruns0 ==> Given(disk, rejected, key, buffer[..], n, hw.s)
    ensures hw.prompt && |old(hw.s.tx)| < FIFO_WORDS ==> Settled(hw.s)
  {
    hide Settle, Later, Given, Settled;
    ghost var before := hw.s;
    hw.PushTx(buffer[n0]);
    n := n0 + 1;
    if |before.tx| < FIFO_WORDS {
      UnderwayPush(disk, key, before, buffer[n0], hw.s);
      SettleLater(before.(tx := before.tx + [buffer[n0]]));
      if hw.overruns == overruns0 {
        GivenPush(disk, rejected, key, buffer[..], n0, before, hw.s);
      }
    } else {
      UnderwayLater(disk, key, before, hw.s);
    }
  }

  lemma EmptyWhenSettled(disk: Disk, rejected: nat, key: Key, data: Block, n: nat, s: Hw)
    requires n < 128 && Given(disk, rejected, key, data, n, s) && Settled(s)
    ensures s.tx == []
  {}

  lemma DoneWhenSettled(disk: Disk, rejected: nat, key: Key, data: Block, s: Hw)
    requires Given(disk, rejected, key, data, 128, s) && Settled(s)
    ensures s.state == Tran
  {}

  /** The XFER_COMPL wait of emmc_write_sector: it looks until completion or a data error shows, a million
      times at most. The post-decremented counter has wrapped when the looks run out, so that case passes for
      success; a completion seen by the very last look passes for a timeout. */
  method WaitTransfer(hw: Controller) returns (r: int)
    requires Ok(hw.s)
    modifies hw`s, hw`delay, hw`trace
    ensures Ok(hw.s) && Later(old(hw.s), hw.s) && old(hw.trace) <= hw.trace
    ensures var t := Added(old(hw.trace), hw.trace);
            r in {0, -1} && LooksFor(t, 0x38, 1000000)
            && (r == 0 <==> if Shows(t, 0x8) then |t| < 1000000 else !Shows(t, 0x30))
    ensures hw.Accepting() ==> hw.s.rejected == old(hw.s.rejected)
    ensures hw.prompt && old(hw.s.state) == Tran ==> r == 0
  {
    LaterRefl(hw.s);
    ghost var s0, from := hw.s, hw.trace;
    hide Later, Settle, PromptInts, Shows, Blank, Added;
    TranStays(s0);
    NothingAdded(from, 0x38);
    var timeout: Word := 1000000;
    while true
      invariant Ok(hw.s) && Later(s0, hw.s) && from <= hw.trace
      invariant Blank(Added(from, hw.trace), 0x38) && |Added(from, hw.trace)| + timeout == 1000000
      invariant hw.Accepting() ==> hw.s.rejected == old(hw.s.rejected)
      invariant timeout == 1000000 ==> hw.s == s0
      invariant hw.prompt && s0.state == Tran ==> timeout == 1000000
      decreases timeout
    {
      var more := timeout > 0;
      timeout := Decrement(timeout);
      if !more {
        BlankShowsNothing(Added(from, hw.trace), 0x38);
        DataBits(Added(from, hw.trace));
        break;
      }
      ghost var before, done := hw.s, hw.trace;
      var v := hw.ReadInt();
      LaterTrans(s0, before, hw.s);
      PromptIntsShow(hw.s);
      AddedLook(from, done, v, 0x38);
      LastShows(Added(from, done), v);
      DataBits(Added(from, hw.trace));
      if v & INT_XFER_COMPL != 0 {
        break;
      }
      if v & (INT_DATCRCERR | INT_DATTMO) != 0 {
        return -1;
      }
    }
    if timeout == 0 {
      return -1;
    }
    r := 0;
  }

  /** Completion and the two errors are the data bits. */
  lemma DataBits(t: seq<Access>)
    ensures Shows(t, 0x38) <==> Shows(t, 0x8) || Shows(t, 0x30)
  {}

  lemma LastShows(t: seq<Access>, v: bv32)
    ensures Shows(t + [Seen(v)], 0x8) <==> v & INT_XFER_COMPL != 0
    ensures Shows(t + [Seen(v)], 0x30) <==> v & (INT_DATCRCERR | INT_DATTMO) != 0
  {}

  lemma TranStays(s: Hw)
    requires Ok(s)
    ensures s.state == Tran ==> Settle(s).state == Tran
  {}

  /** At most one sector differs from `disk`, now and when a block under way is finished. */
  ghost predicate Confined(disk: Disk, key: Key, s: Hw) {
    Ok(s) && s.disk.Keys == disk.Keys && (forall k <- disk :: k != key ==> s.disk[k] == disk[k])
    && (!Quiet(s) ==> s.target == key)
  }

  lemma GivenConfined(disk: Disk, rejected: nat, key: Key, data: Block, n: nat, s: Hw)
    requires key in disk && n <= 128 && Given(disk, rejected, key, data, n, s)
    ensures Confined(disk, key, s) && s.state in {Rcv, PrgWrite, Tran} && s.part == key.region
    ensures n == 128 && s.state == Tran ==> s.disk == if s.rejected == rejected then disk[key := data] else disk
    ensures s.rejected in {rejected, rejected + 1}
  {}

  /** The response to CMD24 shows none of the errors that the driver looks for. */
  predicate CleanResponse(resp: bv32) { resp & 0xFDF90008 == 0 }

  lemma CleanIs(resp: bv32)
    ensures CleanResponse(resp) <==> resp & 0xFDF90008 == 0
  {}

  /** CMD24 and the look at its response. */
  method StartWrite(hw: Controller, sector: Word, ghost data: Block) returns (r: int)
    requires Ok(hw.s) && hw.s.state == Tran
    modifies hw`s, hw`delay, hw`trace, hw`work, hw`switches, hw`refused
    ensures r in {0, -1} && hw.s.part == old(hw.s.part) && (hw.s.state == Rcv || hw.s.state == Tran)
    ensures old(hw.trace) <= hw.trace && Commanded(Added(old(hw.trace), hw.trace), 24, sector, 0x02002880)
    ensures r == 0 <==> Shows(Added(old(hw.trace), hw.trace), 0x100) && hw.s.resp0 & 0xFDF90008 == 0
    ensures hw.s.rejected == old(hw.s.rejected)
    ensures Confined(old(hw.s.disk), Key(old(hw.s.part), sector), hw.s)
    ensures r == 0 ==> Key(old(hw.s.part), sector) in old(hw.s.disk)
                       && Given(old(hw.s.disk), old(hw.s.rejected), Key(old(hw.s.part), sector), data, 0, hw.s)
    ensures hw.prompt && Key(old(hw.s.part), sector) in old(hw.s.disk) ==> r == 0 && Settled(hw.s)
    ensures hw.switches == old(hw.switches) && hw.refused == old(hw.refused)
  {
    ghost var s0 := hw.s;
    hide Later, Issues, Given, Confined, Cleared, Settle, Legal, Answered, Settled, CleanResponse, Shows, Commanded, Added;
    ClearFifo(hw);
    ghost var cleared := hw.s;
    var code, pre, post := SendCmd(hw, 24, sector, WRITE_FLAGS);
    if hw.prompt && Key(s0.part, sector) in s0.disk {
      WriteAnswered(s0, cleared, pre, sector, post);
    }
    WriteStarts(s0, cleared, pre, sector, post, hw.s, data);
    if code != 0 {
      return -1;
    }
    CleanIs(hw.s.resp0);
    r := if CleanResponse(hw.s.resp0) then 0 else -1;
  }

  /** emmc_write_sector from the first word on. Whatever is lost, only this sector can change. If no word
      was lost, success means that the block has been written, unless the card has refused it. */
  method DeliverBlock(hw: Controller, buffer: array<Word>, ghost disk: Disk, ghost rejected: nat, ghost key: Key)
    returns (r: int, ghost looks: seq<Access>)
    requires buffer.Length == 128 && key in disk && Given(disk, rejected, key, buffer[..], 0, hw.s)
    modifies hw`s, hw`delay, hw`trace, hw`work, hw`switches, hw`refused, hw`overruns
    ensures r in {0, -1} && Underway(disk, key, hw.s) && hw.overruns >= old(hw.overruns) && hw.switches == old(hw.switches) && hw.refused == old(hw.refused)
    ensures r == 0 ==> hw.s.state == Tran
    ensures r == 0 && hw.overruns == old(hw.overruns) ==>
              hw.s.disk == if hw.s.rejected == rejected then disk[key := buffer[..]] else disk
    ensures r == 0 ==> old(hw.trace) + looks <= hw.trace && LooksFor(looks, 0x38, 1000000)
                       && if Shows(looks, 0x8) then |looks| < 1000000 else !Shows(looks, 0x30)
    ensures hw.wholeWords ==> hw.overruns == old(hw.overruns)
    ensures hw.Accepting() ==> hw.s.rejected == old(hw.s.rejected)
    ensures hw.prompt && Settled(old(hw.s)) ==> r == 0 && hw.overruns == old(hw.overruns)
  {
    hide Later, Given, Underway, Settle, Settled, LooksFor, Shows, Added, Polling, Commands;
    looks := [];
    var n;
    ghost var counts;
    n, counts := PushWords(hw, buffer, disk, rejected, key);
    if n < 128 {
      return -1, looks;
    }
    ghost var before, from := hw.s, hw.trace;
    UnderwayOk(disk, key, hw.s);
    r := WaitTransfer(hw);
    looks := Added(from, hw.trace);
    WhatWasAdded(from, hw.trace);
    UnderwayLater(disk, key, before, hw.s);
    if hw.overruns == old(hw.overruns) {
      GivenLater(disk, rejected, key, buffer[..], 128, before, hw.s);
    }
    if r != 0 {
      return -1, looks;
    }
    TranKept(before, hw.s);
    TranStays(hw.s);
    before := hw.s;
    r := WaitCardReady(hw);
    UnderwayLater(disk, key, before, hw.s);
    if hw.overruns == old(hw.overruns) {
      GivenLater(disk, rejected, key, buffer[..], 128, before, hw.s);
      GivenConfined(disk, rejected, key, buffer[..], 128, hw.s);
    }
  }

  lemma UnderwayOk(disk: Disk, key: Key, s: Hw)
    requires Underway(disk, key, s)
    ensures Ok(s)
  {}

  lemma TranKept(s: Hw, t: Hw)
    requires Ok(s) && Later(s, t)
    ensures s.state == Tran ==> t.state == Tran
  {}

  // ---- The driver with its cached partition ----

  /** Whenever the card can be addressed, or will be when a switch has ended, the cached partition is the
      card's. */
  ghost predicate Agree(s: Hw, cp: nat) {
    s.state in {PrgSwitch, Tran, Data, Rcv, PrgWrite} ==> s.part == cp
  }

  lemma AgreeLater(s: Hw, t: Hw, cp: nat)
    requires Ok(s) && Later(s, t) && Agree(s, cp)
    ensures Agree(t, cp)
  {}

  /** What a step that starts no transfer does to the flash: nothing, if none was under way. */
  ghost predicate Kept(s: Hw, t: Hw) {
    Ok(t) && (Quiet(s) ==> Quiet(t) && t.disk == s.disk && t.rejected == s.rejected) && t.extCsd == s.extCsd
    && (Quiet(s) && s.state != Data ==> t.state != Data)
  }

  lemma KeptTrans(s: Hw, t: Hw, u: Hw)
    requires Kept(s, t) && Kept(t, u)
    ensures Kept(s, u)
  {}

  lemma LaterKept(s: Hw, t: Hw)
    requires Ok(s) && Later(s, t)
    ensures Kept(s, t) && t.stale == s.stale && t.part == s.part
  {}

  lemma IssuesKept(s: Hw, cmd: nat, arg: Word, flags: bv32, t: Hw)
    requires Ok(s) && Issues(s, cmd, arg, flags, t) && cmd in {0, 1, 2, 3, 6, 7, 13}
    ensures Kept(s, t) && (cmd != 6 ==> t.stale == s.stale && (s.part == PART_USER ==> t.part == PART_USER))
  {
    IssuesOk(s, cmd, arg, flags, t);
  }

  lemma SentKept(s: Hw, pre: Hw, cmd: nat, arg: Word, flags: bv32, post: Hw, t: Hw)
    requires Ok(s) && Ok(pre) && Ok(post) && cmd in {0, 1, 2, 3, 6, 7, 13}
    requires Later(s, pre) && Issues(pre, cmd, arg, flags, post) && Later(post, t)
    ensures Kept(s, t) && (cmd != 6 ==> t.stale == s.stale && (s.part == PART_USER ==> t.part == PART_USER))
  {
    hide Later, Issues, Kept;
    LaterKept(s, pre);
    IssuesKept(pre, cmd, arg, flags, post);
    LaterKept(post, t);
    KeptTrans(s, pre, post);
    KeptTrans(s, post, t);
  }

  /** The commands that identify the card never break agreement: an addressable card that takes
      one at all takes CMD0, and leaves the transfer states. */
  lemma IdentificationAgrees(s: Hw, pre: Hw, cmd: nat, arg: Word, flags: bv32, post: Hw, t: Hw, cp: nat)
    requires Ok(s) && Ok(pre) && Ok(post) && cmd in {0, 1, 2, 3} && Agree(s, cp)
    requires Later(s, pre) && Issues(pre, cmd, arg, flags, post) && Later(post, t)
    ensures Agree(t, cp)
  {
    AgreeLater(s, pre, cp);
    assert Agree(post, cp);
    AgreeLater(post, t, cp);
  }

  /** CMD0 and so many CMD1. */
  ghost function CardInquiries(n: nat): seq<Access> { [Sent(0, 0, 0)] + seq(n, _ => Sent(1, 0x40FF8080, 0x180)) }

  /** The commands of emmc_init: CMD0, then CMD1 until the card has answered that it is ready, a hundred times at
      most, and from then on CMD2, CMD3, CMD7 and status polls as far as they are answered. */
  ghost predicate InitCommands(cs: seq<Access>, done: bool, ocr: bv32) {
    exists k: nat, next: nat, n: nat ::
      0 < k <= 100 && next <= 3 && cs == CardInquiries(k) + (Addressing(next) + Polls(n)) && InitNext(k, next, n, done, ocr)
  }

  ghost predicate InitNext(k: nat, next: nat, n: nat, done: bool, ocr: bv32) {
    && (if next == 0 then k == 100 else ocr & 0x80000000 != 0)
    && n <= 1000 && (n > 0 ==> next == 3) && (done ==> n > 0)
  }

  /** What has been asked up to the n-th CMD1. */
  ghost predicate Inquired(t: seq<Access>, n: nat) { Commands(t) == CardInquiries(n) && Awaited(t) }

  lemma FirstInquiry(from: seq<Access>, after: seq<Access>)
    requires from <= after && Commanded(Added(from, after), 0, 0, 0)
    ensures Inquired(Added(from, after), 0)
  {
    OneCommand(Added(from, after), 0, 0, 0);
    CommandAwaited(Added(from, after), 0, 0, 0);
    hide Added, Commanded, Commands, Awaited;
    assert CardInquiries(0) == [Sent(0, 0, 0)];
  }

  lemma NextInquiry(from: seq<Access>, asked: seq<Access>, after: seq<Access>, n: nat)
    requires from <= asked <= after && Inquired(Added(from, asked), n)
    requires Commanded(Added(asked, after), 1, 0x40FF8080, 0x180)
    ensures from <= after && Inquired(Added(from, after), n + 1)
    ensures Shows(Added(from, after), 0x100) <==> Shows(Added(asked, after), 0x100)
  {
    OneCommand(Added(asked, after), 1, 0x40FF8080, 0x180);
    CommandAwaited(Added(asked, after), 1, 0x40FF8080, 0x180);
    OnlyCommand(asked, after, 1, 0x40FF8080, 0x180);
    CommandsGrow(from, asked, after);
    AwaitedGrows(from, asked, after);
    hide Added, Commanded, Commands, Awaited, Others, Shows;
    assert CardInquiries(n) + [Sent(1, 0x40FF8080, 0x180)] == CardInquiries(n + 1);
  }

  /** The first commands of these: CMD2, CMD3 and CMD7. */
  ghost function Addressing(n: nat): (cs: seq<Access>)
    requires n <= 3
    ensures |cs| == n
  {
    [Sent(2, 0, 0x100), Sent(3, 0x00010000, 0x80), Sent(7, 0x00010000, 0x380)][..n]
  }

  /** CMD2, CMD3 and CMD7 as far as they are answered, and so many status polls. */
  ghost predicate Addressed(t: seq<Access>, next: nat, n: nat)
    requires next <= 3
  {
    Commands(t) == Addressing(next) + Polls(n) && Awaited(t)
  }

  lemma AddressedOne(from: seq<Access>, after: seq<Access>)
    requires from <= after && Commanded(Added(from, after), 2, 0, 0x100)
    ensures Addressed(Added(from, after), 1, 0)
  {
    OneCommand(Added(from, after), 2, 0, 0x100);
    CommandAwaited(Added(from, after), 2, 0, 0x100);
    AddressingMore(0);
    hide Added, Commanded, Commands, Awaited, Addressing, Polls;
  }

  lemma AddressedTwo(from: seq<Access>, asked: seq<Access>, after: seq<Access>)
    requires from <= asked <= after && Addressed(Added(from, asked), 1, 0) && Shows(Added(from, asked), 0x100)
    requires Commanded(Added(asked, after), 3, 0x00010000, 0x80)
    ensures from <= after && Addressed(Added(from, after), 2, 0)
    ensures Shows(Added(from, after), 0x100) <==> Shows(Added(asked, after), 0x100)
  {
    OneCommand(Added(asked, after), 3, 0x00010000, 0x80);
    CommandAwaited(Added(asked, after), 3, 0x00010000, 0x80);
    OnlyCommand(asked, after, 3, 0x00010000, 0x80);
    CommandsGrow(from, asked, after);
    AwaitedGrows(from, asked, after);
    AddressingMore(0);
    hide Added, Commanded, Commands, Awaited, Addressing, Polls, Shows;
  }

  lemma AddressedThree(from: seq<Access>, asked: seq<Access>, after: seq<Access>, ready: bool) returns (n: nat)
    requires from <= asked <= after && Addressed(Added(from, asked), 2, 0) && Shows(Added(from, asked), 0x100)
    requires Selects(Sent(7, 0x00010000, 0x380), Added(asked, after), ready)
    ensures from <= after && Addressed(Added(from, after), 3, n) && n <= 1000 && (ready ==> n > 0)
  {
    n := |Commands(Added(asked, after))| - 1;
    CommandsGrow(from, asked, after);
    AwaitedGrows(from, asked, after);
    AddressingMore(n);
    hide Added, Commands, Awaited, Addressing, Polls, Shows;
  }

  lemma AddressingMore(polls: nat)
    ensures Addressing(1) + Polls(0) == [Sent(2, 0, 0x100)]
    ensures Addressing(2) + Polls(0) == [Sent(2, 0, 0x100)] + [Sent(3, 0x00010000, 0x80)]
    ensures Addressing(3) + Polls(polls) == Addressing(2) + Polls(0) + ([Sent(7, 0x00010000, 0x380)] + Polls(polls))
  {}

  ghost predicate Initializes(t: seq<Access>, done: bool, ocr: bv32) { InitCommands(Commands(t), done, ocr) && Awaited(t) }

  lemma NeverReady(t: seq<Access>, ocr: bv32)
    requires Inquired(t, 100)
    ensures Initializes(t, false, ocr)
  {
    assert CardInquiries(100) == CardInquiries(100) + (Addressing(0) + Polls(0));
    assert InitNext(100, 0, 0, false, ocr);
    hide CardInquiries, InitNext, Polls, Addressing, Awaited;
  }

  lemma InitWith(from: seq<Access>, asked: seq<Access>, after: seq<Access>, k: nat, next: nat, n: nat, done: bool, ocr: bv32)
    requires 0 < k <= 100 && 0 < next <= 3 && InitNext(k, next, n, done, ocr) && from <= asked <= after
    requires Inquired(Added(from, asked), k) && Shows(Added(from, asked), 0x100) && Addressed(Added(asked, after), next, n)
    ensures from <= after && Initializes(Added(from, after), done, ocr)
  {
    CommandsGrow(from, asked, after);
    AwaitedGrows(from, asked, after);
    hide CardInquiries, InitNext, Polls, Addressing, Awaited, Commands, Added, Shows;
  }

  class Driver {
    const hw: Controller
    var currentPartition: nat

    ghost predicate Valid()
      reads this, hw
    {
      Ok(hw.s)
    }

    /** The cached partition is right. */
    ghost predicate Agreed()
      reads this, hw
    {
      Agree(hw.s, currentPartition)
    }

    /** A prompt controller, a card in the transfer state, and a sector that exists. */
    ghost predicate Reachable(partition: nat, sector: nat)
      reads this, hw
    {
      hw.prompt && hw.s.state == Tran && Agreed() && partition <= 2 && Key(partition, sector) in hw.s.disk
    }

    /** No count has gone down, and obliging hardware has refused nothing. */
    ghost predicate Counted(switches: nat, refused: nat)
      reads hw
    {
      hw.switches >= switches && hw.refused >= refused && (hw.Obliging() ==> hw.refused == refused)
    }

    /** Power-up: the driver has not chosen a partition, and the card cannot be addressed yet. */
    constructor (hw: Controller)
      requires Ok(hw.s) && hw.s.state in {Idle, Ready, Ident, Stby}
      ensures this.hw == hw && Valid() && Agreed() && currentPartition == NO_PART
    {
      this.hw := hw;
      currentPartition := NO_PART;
    }

    /** One identification command of emmc_init. */
    method Identify(cmd: nat, arg: Word, flags: bv32) returns (r: int)
      requires Valid() && cmd in {0, 1, 2, 3}
      modifies hw`s, hw`delay, hw`trace, hw`work, hw`switches, hw`refused
      ensures Valid() && Kept(old(hw.s), hw.s) && hw.s.stale == old(hw.s.stale) && r in {0, -1}
      ensures hw.switches == old(hw.switches) && hw.refused == old(hw.refused) && (old(Agreed()) ==> Agreed())
      ensures old(hw.trace) <= hw.trace && Commanded(Added(old(hw.trace), hw.trace), cmd, arg, flags)
      ensures r == 0 <==> Shows(Added(old(hw.trace), hw.trace), 0x100)
      ensures hw.prompt && (cmd == 0 || old(hw.s.state) == Before(cmd)) ==> r == 0 && hw.s.state == Following(cmd)
      ensures hw.prompt && cmd == 1 && old(hw.s.state) == Idle ==> hw.s.resp0 & 0x80000000 != 0
    {
      hide Later, Issues, Kept, Agree, Settle, Legal, Answered, Added, Commanded, Shows;
      ghost var s0 := hw.s;
      ghost var pre, post;
      r, pre, post := SendCmd(hw, cmd, arg, flags);
      SentKept(s0, pre, cmd, arg, flags, post, hw.s);
      if hw.prompt && (cmd == 0 || s0.state == Before(cmd)) {
        IdentificationAnswered(s0, pre, cmd, arg, flags, post);
      }
      if old(Agreed()) {
        IdentificationAgrees(s0, pre, cmd, arg, flags, post, hw.s, currentPartition);
      }
    }

    /** The CMD7 of emmc_init: `took` says whether the card has taken it, which the driver may not be told. */
    method SendSelect() returns (r: int, ghost took: bool)
      requires Valid()
      modifies hw`s, hw`delay, hw`trace, hw`work, hw`switches, hw`refused
      ensures Valid() && Kept(old(hw.s), hw.s) && hw.s.stale == old(hw.s.stale)
      ensures old(hw.trace) <= hw.trace && Commanded(Added(old(hw.trace), hw.trace), 7, 0x00010000, 0x380)
      ensures hw.switches == old(hw.switches) + (if took then 1 else 0) && hw.refused == old(hw.refused)
      ensures if took then hw.s.state == Tran && hw.s.part == PART_USER && (hw.candid ==> r == 0)
              else r != 0 && (old(Agreed()) ==> Agreed())
      ensures hw.candid ==> hw.work < STATUS_POLLS
      ensures hw.prompt && old(hw.s.state) == Stby ==> r == 0 && Settle(hw.s).state == Tran
    {
      ghost var s0 := hw.s;
      hide Later, Issues, Kept, Settle, Legal, Answered, Added, Commanded, Shows, RefusesSwitch;
      ghost var pre, post;
      r, pre, post := SendCmd(hw, 7, 0x00010000, CMD_R1B_RESP);
      took := post.took;
      NoSwitch(7, 0x00010000, post);
      if hw.prompt && s0.state == Stby {
        SelectAnswered(s0, pre, 0x00010000, CMD_R1B_RESP, post);
      }
      SentKept(s0, pre, 7, 0x00010000, CMD_R1B_RESP, post, hw.s);
      SelectEffect(s0, pre, post, hw.s, currentPartition);
    }

    /** CMD7 and the ready poll that follows it in emmc_init. Agreement is lost exactly if the card took
        CMD7, the driver does not know, and the cached partition is not the user area. */
    method SelectCard() returns (r: int)
      requires Valid()
      modifies this, hw`s, hw`delay, hw`trace, hw`work, hw`switches, hw`refused
      ensures Valid() && Kept(old(hw.s), hw.s) && hw.s.stale == old(hw.s.stale)
      ensures old(hw.trace) <= hw.trace
      ensures Selects(Sent(7, 0x00010000, 0x380), Added(old(hw.trace), hw.trace), r == 0)
      ensures hw.prompt && old(hw.s.state) == Stby ==> r == 0
      ensures r == 0 ==> Agreed() && hw.s.state == Tran && currentPartition == PART_USER
      ensures r != 0 ==> currentPartition == old(currentPartition)
      ensures hw.switches >= old(hw.switches) && hw.refused == old(hw.refused)
      ensures old(Agreed()) ==>
                (!Agreed() <==> r != 0 && hw.switches > old(hw.switches) && currentPartition != PART_USER)
      ensures hw.candid && old(Agreed()) ==> Agreed()
    {
      ghost var s0, from := hw.s, hw.trace;
      hide Later, Kept, Settle, Added, Commands, Commanded, Polling, Selects;
      var code;
      ghost var took;
      code, took := SendSelect();
      SelectSent(from, hw.trace, 7, 0x00010000, 0x380);
      if code != 0 {
        return -1;
      }
      ghost var before, sent := hw.s, hw.trace;
      r := WaitCardReady(hw);
      SelectPolled(from, sent, hw.trace, 7, 0x00010000, 0x380, r == 0);
      LaterKept(before, hw.s);
      KeptTrans(s0, before, hw.s);
      SelectedLater(before, hw.s);
      if r != 0 {
        return;
      }
      currentPartition := PART_USER;
    }

    /** The FIFO reset at the head of emmc_init, in whatever state the card is. */
    method ResetFifo()
      requires Valid()
      modifies hw`s
      ensures Valid() && Kept(old(hw.s), hw.s) && hw.s.stale == old(hw.s.stale)
      ensures old(Agreed()) ==> Agreed()
    {
      ghost var s0 := hw.s;
      hw.ClearFifo();
      ghost var rx :| |rx| <= |s0.rx| && Later(s0.(rx := rx, tx := []), hw.s);
      ghost var s1 := s0.(rx := rx, tx := []);
      LaterKept(s1, hw.s);
      AgreeKeeps(s1, hw.s, currentPartition);
    }

    /** Another CMD1. */
    method Inquire(ghost s0: Hw, ghost from: seq<Access>, ghost k: nat) returns (r: int)
      requires Valid() && Kept(s0, hw.s) && from <= hw.trace && Inquired(Added(from, hw.trace), k)
      modifies hw`s, hw`delay, hw`trace, hw`work, hw`switches, hw`refused
      ensures Valid() && Kept(s0, hw.s) && hw.s.stale == old(hw.s.stale)
      ensures hw.switches == old(hw.switches) && hw.refused == old(hw.refused) && (old(Agreed()) ==> Agreed())
      ensures hw.prompt && old(hw.s.state) == Idle ==> r == 0 && hw.s.state == Ready && hw.s.resp0 & 0x80000000 != 0
      ensures from <= hw.trace && Inquired(Added(from, hw.trace), k + 1)
      ensures r == 0 <==> Shows(Added(from, hw.trace), 0x100)
    {
      hide Later, Issues, Kept, Agree, Added, Commanded, Shows, Inquired;
      ghost var before, asked := hw.s, hw.trace;
      r := Identify(1, 0x40FF8080, CMD_R3_RESP);
      KeptTrans(s0, before, hw.s);
      NextInquiry(from, asked, hw.trace, k);
    }

    /** emmc_init up to the answer of the card that it is ready: k times CMD1, and the last response to it. */
    method Negotiate() returns (ready: bool, ghost k: nat, ghost ocr: bv32)
      requires Valid()
      modifies hw`s, hw`delay, hw`trace, hw`work, hw`switches, hw`refused
      ensures Valid() && Kept(old(hw.s), hw.s) && hw.s.stale == old(hw.s.stale)
      ensures hw.switches == old(hw.switches) && hw.refused == old(hw.refused) && (old(Agreed()) ==> Agreed())
      ensures hw.prompt ==> ready && hw.s.state == Ready
      ensures old(hw.trace) <= hw.trace && Inquired(Added(old(hw.trace), hw.trace), k) && 0 < k <= 100
      ensures if ready then ocr & 0x80000000 != 0 && Shows(Added(old(hw.trace), hw.trace), 0x100) else k == 100
    {
      ghost var s0, from := hw.s, hw.trace;
      hide Later, Issues, Kept, Agree, Added, Commanded, Shows, Inquired;
      ResetFifo();
      ghost var before := hw.s;
      var r := Identify(0, 0, 0);
      KeptTrans(s0, before, hw.s);
      FirstInquiry(from, hw.trace);
      k, ocr := 0, 0;
      var retry := 100;
      while retry > 0
        invariant Valid() && Kept(s0, hw.s) && hw.s.stale == s0.stale
        invariant hw.switches == old(hw.switches) && hw.refused == old(hw.refused) && (old(Agreed()) ==> Agreed())
        invariant hw.prompt ==> hw.s.state == Idle && retry == 100
        invariant k + retry == 100 && from <= hw.trace && Inquired(Added(from, hw.trace), k)
        decreases retry
      {
        r := Inquire(s0, from, k);
        k, ocr := k + 1, if r == 0 then hw.s.resp0 else 0;
        if r == 0 && hw.s.resp0 & 0x80000000 != 0 {
          break;
        }
        retry := retry - 1;
      }
      ready := retry != 0;
    }

    /** CMD2, CMD3 and SelectCard: the commands, and how many status polls follow them. */
    method Address() returns (r: int, ghost next: nat, ghost n: nat)
      requires Valid()
      modifies this, hw`s, hw`delay, hw`trace, hw`work, hw`switches, hw`refused
      ensures Valid() && Kept(old(hw.s), hw.s) && hw.s.stale == old(hw.s.stale)
      ensures hw.prompt && old(hw.s.state) == Ready ==> r == 0
      ensures r == 0 ==> Agreed() && hw.s.state == Tran && currentPartition == PART_USER
      ensures r != 0 ==> currentPartition == old(currentPartition)
      ensures hw.switches >= old(hw.switches) && hw.refused == old(hw.refused)
      ensures old(Agreed()) ==>
                (!Agreed() <==> r != 0 && hw.switches > old(hw.switches) && currentPartition != PART_USER)
      ensures hw.candid && old(Agreed()) ==> Agreed()
      ensures 0 < next <= 3 && n <= 1000 && (n > 0 ==> next == 3) && (r == 0 ==> n > 0)
      ensures old(hw.trace) <= hw.trace && Addressed(Added(old(hw.trace), hw.trace), next, n)
    {
      ghost var s0, from := hw.s, hw.trace;
      hide Later, Issues, Kept, Agree, Added, Commanded, Shows, Selects, Addressed;
      ghost var before, asked := hw.s, hw.trace;
      r := Identify(2, 0, CMD_R2_RESP);
      AddressedOne(from, hw.trace);
      next, n := 1, 0;
      if r != 0 {
        return;
      }
      before, asked := hw.s, hw.trace;
      r := Identify(3, 0x00010000, CMD_R1_RESP);
      KeptTrans(s0, before, hw.s);
      AddressedTwo(from, asked, hw.trace);
      next := 2;
      if r != 0 {
        return;
      }
      before, asked := hw.s, hw.trace;
      r := SelectCard();
      KeptTrans(s0, before, hw.s);
      n := AddressedThree(from, asked, hw.trace, r == 0);
      next := 3;
    }

    /** emmc_init without the configuration of pads and clocks. It issues one command that moves the card to
        a partition, the CMD7 of SelectCard, and loses agreement exactly as that does. */
    method Init() returns (ghost done: bool, ghost ocr: bv32)
      requires Valid()
      modifies this, hw`s, hw`delay, hw`trace, hw`work, hw`switches, hw`refused
      ensures Valid() && Kept(old(hw.s), hw.s) && hw.s.stale == old(hw.s.stale)
      ensures old(hw.trace) <= hw.trace && Initializes(Added(old(hw.trace), hw.trace), done, ocr)
      ensures hw.prompt ==> done
      ensures done ==> Agreed() && hw.s.state == Tran && currentPartition == PART_USER
      ensures !done ==> currentPartition == old(currentPartition)
      ensures hw.switches >= old(hw.switches) && hw.refused == old(hw.refused)
      ensures old(Agreed()) ==>
                (!Agreed() <==> !done && hw.switches > old(hw.switches) && currentPartition != PART_USER)
      ensures hw.candid && old(Agreed()) ==> Agreed()
    {
      ghost var s0, from := hw.s, hw.trace;
      hide Later, Issues, Kept, Agree, Added, Initializes, Inquired, Addressed, Shows;
      done := false;
      var ready;
      ghost var k;
      ready, k, ocr := Negotiate();
      if !ready {
        NeverReady(Added(from, hw.trace), ocr);
        return;
      }
      ghost var before, asked := hw.s, hw.trace;
      var r;
      ghost var next, n;
      r, next, n := Address();
      KeptTrans(s0, before, hw.s);
      done := r == 0;
      InitWith(from, asked, hw.trace, k, next, n, done, ocr);
      if r != 0 {
        return;
      }
      before := hw.s;
      FinishInit();
      KeptTrans(s0, before, hw.s);
    }

    /** emmc_switch_partition. Agreement is lost exactly when the card has switched but the driver reports a
        failure, because it was not told so in time, or when the driver reports success but the card has
        refused the switch: it looks at command-ready and at the state, and not at SWITCH_ERROR. */
    method SwitchPartition(partition: Word) returns (r: int)
      requires Valid()
      modifies this, hw`s, hw`delay, hw`trace, hw`work, hw`switches, hw`refused
      ensures Valid() && Kept(old(hw.s), hw.s) && r in {0, -1}
      ensures currentPartition == if r == 0 then partition else old(currentPartition)
      ensures Counted(old(hw.switches), old(hw.refused))
      ensures old(Agreed()) ==>
                (!Agreed() <==> if r == 0 then hw.refused > old(hw.refused) else hw.switches > old(hw.switches))
      ensures hw.candid && hw.refused == old(hw.refused) && old(Agreed()) ==> Agreed()
      ensures r == 0 && partition != old(currentPartition) ==>
                hw.s.state == Tran && (hw.s.part == partition <==> hw.refused == old(hw.refused))
      ensures partition == old(currentPartition) ==> hw.switches == old(hw.switches) && hw.refused == old(hw.refused)
      ensures partition == old(currentPartition) ==> r == 0 && hw.s == old(hw.s)
      ensures partition > 2 && partition != old(currentPartition) ==> r == -1 && hw.s == old(hw.s)
      ensures hw.prompt && partition <= 2 && old(hw.s.state) == Tran ==> r == 0
      ensures old(hw.trace) <= hw.trace
      ensures if partition <= 2 && partition != old(currentPartition)
              then Selects(Sent(6, 0x03B34800 + partition * 0x100, 0x380), Added(old(hw.trace), hw.trace), r == 0)
              else hw.trace == old(hw.trace)
    {
      if partition == currentPartition {
        return 0;
      }
      var partConfig: Word;
      if partition == PART_USER {
        partConfig := 0x48;
      } else if partition == PART_BOOT0 {
        partConfig := 0x49;
      } else if partition == PART_BOOT1 {
        partConfig := 0x4A;
      } else {
        return -1;
      }
      var arg: Word := 0x03B30000 + partConfig * 0x100;
      SwitchArgument(partition, arg);
      r := SendSwitch(partition, arg);
    }

    /** The command of emmc_switch_partition and the poll that confirms it. */
    method SendSwitch(partition: Word, arg: Word) returns (r: int)
      requires Valid() && partition != currentPartition
      requires WritesPartitionConfig(arg) && PartitionAccess(arg) == partition
      modifies this, hw`s, hw`delay, hw`trace, hw`work, hw`switches, hw`refused
      ensures Valid() && Kept(old(hw.s), hw.s) && r in {0, -1}
      ensures hw.prompt && old(hw.s.state) == Tran ==> r == 0
      ensures r == 0 ==> currentPartition == partition && hw.s.state == Tran
                         && (hw.s.part == partition <==> hw.refused == old(hw.refused))
      ensures r != 0 ==> currentPartition == old(currentPartition)
      ensures Counted(old(hw.switches), old(hw.refused))
      ensures old(Agreed()) ==>
                (!Agreed() <==> if r == 0 then hw.refused > old(hw.refused) else hw.switches > old(hw.switches))
      ensures hw.candid && hw.refused == old(hw.refused) && old(Agreed()) ==> Agreed()
      ensures old(hw.trace) <= hw.trace
      ensures Selects(Sent(6, arg, 0x380), Added(old(hw.trace), hw.trace), r == 0)
    {
      ghost var s0, from := hw.s, hw.trace;
      hide Later, Issues, Kept, WritesPartitionConfig, PartitionAccess, Settle, Legal, Answered;
      hide Added, Commands, Commanded, Shows, Polling, Selects;
      var code, pre, post := SendCmd(hw, 6, arg, CMD_R1B_RESP);
      SelectSent(from, hw.trace, 6, arg, 0x380);
      if hw.prompt && s0.state == Tran {
        SwitchAnswered(s0, pre, arg, CMD_R1B_RESP, post);
      }
      SentKept(s0, pre, 6, arg, CMD_R1B_RESP, post, hw.s);
      SwitchEffect(s0, pre, arg, post, hw.s, currentPartition);
      if code != 0 {
        return -1;
      }
      ghost var before, sent := hw.s, hw.trace;
      r := WaitCardReady(hw);
      SelectPolled(from, sent, hw.trace, 6, arg, 0x380, r == 0);
      LaterKept(before, hw.s);
      KeptTrans(s0, before, hw.s);
      SelectedLater(before, hw.s);
      if r != 0 {
        return;
      }
      currentPartition := partition;
    }

    /** emmc_read_sector: the switch, the ready poll, and two attempts of which the first is for
        nothing but to get over a stale read. What it returns is the sector in the card's partition,
        and that is the requested one exactly if a switch was made and not refused, or none was made and the
        cached partition was right. */
    method ReadSector(partition: Word, sector: Word, buffer: array<Word>) returns (r: int)
      requires Valid() && buffer.Length == 128
      modifies this, hw`s, hw`delay, hw`trace, hw`work, hw`switches, hw`refused, buffer
      ensures Valid() && r in {0, -1}
      ensures Quiet(old(hw.s)) ==> Quiet(hw.s) && hw.s.disk == old(hw.s.disk)
      ensures Counted(old(hw.switches), old(hw.refused))
      ensures partition == old(currentPartition) ==> hw.switches == old(hw.switches) && hw.refused == old(hw.refused)
      ensures old(Agreed()) ==>
                (!Agreed() <==> if currentPartition == partition then hw.refused > old(hw.refused)
                                else hw.switches > old(hw.switches))
      ensures (hw.candid || r == 0) && hw.refused == old(hw.refused) && old(Agreed()) ==> Agreed()
      ensures r == 0 ==> hw.s.state == Tran && !hw.s.stale && currentPartition == partition
                         && Key(hw.s.part, sector) in hw.s.disk && buffer[..] == hw.s.disk[Key(hw.s.part, sector)]
                         && (hw.s.part == partition <==> if partition != old(currentPartition) then hw.refused == old(hw.refused)
                                                      else old(hw.s.part) == partition)
      ensures r == 0 && old(Agreed()) ==> (hw.s.part == partition <==> hw.refused == old(hw.refused))
      ensures old(Reachable(partition, sector)) ==> r == 0
    {
      hide Later, Issues, Wanted, Settle;
      ghost var good := Reachable(partition, sector);
      var code := SwitchPartition(partition);
      if code != 0 {
        return -1;
      }
      ghost var before := hw.s;
      TranStays(hw.s);
      code := WaitCardReady(hw);
      LaterKept(before, hw.s);
      AgreeKeeps(before, hw.s, currentPartition);
      if code != 0 {
        return -1;
      }
      var attempt := 0;
      while attempt < 2
        invariant attempt <= 2 && Valid() && hw.s.state == Tran && currentPartition == partition
        invariant Quiet(old(hw.s)) ==> hw.s.disk == old(hw.s.disk)
        invariant Counted(old(hw.switches), old(hw.refused))
        invariant partition == old(currentPartition) ==> hw.switches == old(hw.switches) && hw.refused == old(hw.refused)
        invariant old(Agreed()) ==> (!Agreed() <==> hw.refused > old(hw.refused))
        invariant attempt > 0 ==> !hw.s.stale
        invariant hw.s.part == partition <==> if partition != old(currentPartition) then hw.refused == old(hw.refused)
                                               else old(hw.s.part) == partition
        invariant good ==> hw.s.part == partition && Key(partition, sector) in hw.s.disk
        invariant attempt > 1 ==> Key(hw.s.part, sector) in hw.s.disk && buffer[..] == hw.s.disk[Key(hw.s.part, sector)]
      {
        before := hw.s;
        code := ReadAttempt(hw, 17, sector, buffer);
        if code != 0 {
          return -1;
        }
        WantedKept(before, hw.s, sector);
        attempt := attempt + 1;
      }
      r := 0;
    }

    /** emmc_write_sector. As with reads, the write goes to the card's partition, which is the
        requested one exactly if a switch was made and not refused, or none was made and the cached partition
        was right. Whether cache and card agree or not, and whether the write succeeds or not, no other sector
        can change. Success means that the block is written, if no word was lost and the card did not refuse
        the block. */
    method WriteSector(partition: Word, sector: Word, buffer: array<Word>) returns (r: int)
      requires Valid() && buffer.Length == 128
      modifies this, hw
      ensures Valid() && r in {0, -1}
      ensures Counted(old(hw.switches), old(hw.refused))
      ensures partition == old(currentPartition) ==> hw.switches == old(hw.switches) && hw.refused == old(hw.refused)
      ensures old(Agreed()) ==>
                (!Agreed() <==> if currentPartition == partition then hw.refused > old(hw.refused)
                                else hw.switches > old(hw.switches))
      ensures (hw.candid || r == 0) && hw.refused == old(hw.refused) && old(Agreed()) ==> Agreed()
      ensures Quiet(old(hw.s)) ==> Confined(old(hw.s.disk), Key(hw.s.part, sector), hw.s)
      ensures old(Agreed()) && Quiet(old(hw.s)) && (Agreed() || currentPartition != partition) ==>
                Confined(old(hw.s.disk), Key(partition, sector), hw.s)
      ensures hw.overruns >= old(hw.overruns) && (hw.wholeWords ==> hw.overruns == old(hw.overruns))
      ensures r == 0 ==> hw.s.state == Tran && currentPartition == partition
                         && (hw.s.part == partition <==> if partition != old(currentPartition) then hw.refused == old(hw.refused)
                                                      else old(hw.s.part) == partition)
      ensures r == 0 && Quiet(old(hw.s)) && hw.overruns == old(hw.overruns) ==>
                Key(hw.s.part, sector) in old(hw.s.disk)
                && hw.s.disk == if hw.s.rejected == old(hw.s.rejected)
                                then old(hw.s.disk)[Key(hw.s.part, sector) := buffer[..]] else old(hw.s.disk)
      ensures Quiet(old(hw.s)) && hw.Accepting() ==> hw.s.rejected == old(hw.s.rejected)
      ensures r == 0 && old(Agreed()) ==> (hw.s.part == partition <==> hw.refused == old(hw.refused))
      ensures old(Reachable(partition, sector)) ==> r == 0 && hw.overruns == old(hw.overruns)
    {
      hide Later, Issues, Settle;
      var code := SwitchPartition(partition);
      if code != 0 {
        return -1;
      }
      ghost var before := hw.s;
      TranStays(hw.s);
      code := WaitCardReady(hw);
      LaterKept(before, hw.s);
      AgreeKeeps(before, hw.s, currentPartition);
      if code != 0 {
        return -1;
      }
      r := TransferOut(sector, buffer);
    }

    /** emmc_write_sector once the card is ready. Success means that the block is written, if no word was
        lost and the card did not refuse it. */
    method TransferOut(sector: Word, buffer: array<Word>) returns (r: int)
      requires Valid() && buffer.Length == 128 && hw.s.state == Tran
      modifies hw`s, hw`delay, hw`trace, hw`work, hw`switches, hw`refused, hw`overruns
      ensures Valid() && r in {0, -1} && hw.s.part == old(hw.s.part) && hw.s.state in {Rcv, PrgWrite, Tran}
      ensures Confined(old(hw.s.disk), Key(old(hw.s.part), sector), hw.s)
      ensures r == 0 ==> hw.s.state == Tran && Key(hw.s.part, sector) in old(hw.s.disk)
      ensures r == 0 && hw.overruns == old(hw.overruns) ==>
                hw.s.disk == if hw.s.rejected == old(hw.s.rejected) then old(hw.s.disk)[Key(hw.s.part, sector) := buffer[..]]
                             else old(hw.s.disk)
      ensures hw.Accepting() ==> hw.s.rejected == old(hw.s.rejected)
      ensures hw.overruns >= old(hw.overruns) && (hw.wholeWords ==> hw.overruns == old(hw.overruns))
      ensures hw.switches == old(hw.switches) && hw.refused == old(hw.refused)
      ensures hw.prompt && Key(old(hw.s.part), sector) in old(hw.s.disk) ==> r == 0 && hw.overruns == old(hw.overruns)
    {
      ghost var s0 := hw.s;
      hide Given, Confined, Settled;
      r := StartWrite(hw, sector, buffer[..]);
      if r != 0 {
        return;
      }
      ghost var looks;
      r, looks := DeliverBlock(hw, buffer, s0.disk, s0.rejected, Key(s0.part, sector));
    }

    /** emmc_read_ext_csd: two attempts like those of emmc_read_sector, and a full emmc_init after
        each, whose outcome nobody looks at. Agreement survives if the cached partition is the user area,
        or with candid hardware; LostBehindTheBack has what can happen otherwise. */
    method ReadExtCsd(buffer: array<Word>) returns (r: int)
      requires Valid() && buffer.Length == 128
      modifies this, hw`s, hw`delay, hw`trace, hw`work, hw`switches, hw`refused, buffer
      ensures Valid() && r in {0, -1}
      ensures Quiet(old(hw.s)) ==> Quiet(hw.s) && hw.s.disk == old(hw.s.disk)
      ensures r == 0 ==> buffer[..] == hw.s.extCsd
      ensures hw.s.extCsd == old(hw.s.extCsd)
      ensures currentPartition in {PART_USER, old(currentPartition)} && hw.switches >= old(hw.switches)
              && hw.refused == old(hw.refused)
      ensures old(Agreed()) && (hw.candid || old(currentPartition) == PART_USER) ==> Agreed()
      ensures old(Agreed()) && !Agreed() ==> hw.switches > old(hw.switches) && currentPartition == old(currentPartition)
      ensures hw.prompt && old(hw.s.state) == Tran ==> r == 0 && hw.s.state == Tran && Agreed()
    {
      hide Later, Issues, Wanted, Settle, Polling, Initializes, Added, Commands;
      ghost var good := hw.prompt && hw.s.state == Tran;
      TranStays(hw.s);
      var code := WaitCardReady(hw);
      LaterKept(old(hw.s), hw.s);
      AgreeKeeps(old(hw.s), hw.s, currentPartition);
      if code != 0 {
        return -1;
      }
      var attempt := 0;
      while attempt < 2
        invariant attempt <= 2 && Valid() && Quiet(hw.s) && hw.s.state != Data && hw.s.extCsd == old(hw.s.extCsd)
        invariant Quiet(old(hw.s)) ==> hw.s.disk == old(hw.s.disk)
        invariant attempt > 0 ==> !hw.s.stale
        invariant attempt > 1 ==> buffer[..] == hw.s.extCsd
        invariant currentPartition in {PART_USER, old(currentPartition)} && hw.switches >= old(hw.switches)
                  && hw.refused == old(hw.refused)
        invariant old(Agreed()) && (hw.candid || old(currentPartition) == PART_USER) ==> Agreed()
        invariant old(Agreed()) && !Agreed() ==> hw.switches > old(hw.switches) && currentPartition == old(currentPartition)
        invariant good ==> hw.s.state == Tran && (attempt > 0 ==> Agreed())
      {
        ghost var before := hw.s;
        code := ReadAttempt(hw, 8, 0, buffer);
        if code != 0 {
          return -1;
        }
        WantedExtCsd(before);
        ghost var done, ocr := Init();
        attempt := attempt + 1;
      }
      r := 0;
    }

    /** The closing drain of emmc_init. */
    method FinishInit()
      requires Valid() && Agreed() && hw.s.state == Tran
      modifies hw`s
      ensures Valid() && Agreed() && Kept(old(hw.s), hw.s) && hw.s.state == Tran
      ensures hw.s.stale == old(hw.s.stale)
    {
      DrainRx(hw);
    }
  }

  /** CMD7 is taken by a card in the stand-by state only, whose partition access is the user area. */
  lemma SelectEffect(s: Hw, pre: Hw, post: Hw, t: Hw, cp: nat)
    requires Ok(s) && Ok(pre) && Ok(post)
    requires Later(s, pre) && Issues(pre, 7, 0x00010000, CMD_R1B_RESP, post) && Later(post, t)
    ensures post.took ==> t.state == Tran && t.part == PART_USER && Moves(7, 0x00010000, post)
    ensures !post.took ==> !Moves(7, 0x00010000, post)
    ensures !post.took && Agree(s, cp) ==> Agree(t, cp)
  {
    if Agree(s, cp) {
      AgreeLater(s, pre, cp);
      if !post.took {
        AgreeLater(post, t, cp);
      }
    }
  }

  // Commands as a prompt card answers them.

  /** The state that an identification command needs, and the one that it leads to. */
  function Before(cmd: nat): State { if cmd == 2 then Ready else if cmd == 3 then Ident else Idle }

  function Following(cmd: nat): State {
    if cmd == 0 then Idle else if cmd == 1 then Ready else if cmd == 2 then Ident else Stby
  }

  lemma IdentificationAnswered(s: Hw, pre: Hw, cmd: nat, arg: Word, flags: bv32, post: Hw)
    requires Ok(s) && Ok(pre) && pre == Settle(s) && cmd in {0, 1, 2, 3} && (cmd == 0 || s.state == Before(cmd))
    ensures Legal(pre.state, cmd)
    ensures Answered(pre, cmd, arg, flags, post) ==>
              Ok(post) && Settle(post) == post && post.state == Following(cmd) && (cmd == 1 ==> post.resp0 & 0x80000000 != 0)
  {}

  lemma SelectAnswered(s: Hw, pre: Hw, arg: Word, flags: bv32, post: Hw)
    requires Ok(s) && Ok(pre) && pre == Settle(s) && s.state == Stby
    ensures Legal(pre.state, 7)
    ensures Answered(pre, 7, arg, flags, post) ==> Ok(post) && Settle(Settle(post)).state == Tran
  {}

  lemma SwitchAnswered(s: Hw, pre: Hw, arg: Word, flags: bv32, post: Hw)
    requires Ok(s) && Ok(pre) && pre == Settle(s) && s.state == Tran && WritesPartitionConfig(arg)
    ensures Legal(pre.state, 6)
    ensures Answered(pre, 6, arg, flags, post) ==> Ok(post) && Settle(Settle(post)).state == Tran
  {}

  lemma WriteAnswered(s0: Hw, cleared: Hw, pre: Hw, sector: Word, post: Hw)
    requires Ok(s0) && s0.state == Tran && Cleared(s0, cleared) && Ok(pre) && pre == Settle(cleared)
    requires Key(s0.part, sector) in s0.disk
    ensures Legal(pre.state, 24)
    ensures Answered(pre, 24, sector, WRITE_FLAGS, post) ==> Ok(post) && CleanResponse(post.resp0) && Settled(Settle(post))
  {
    WriteFlagsOk();
  }

  lemma WriteFlagsOk()
    ensures WritesOneBlock(WRITE_FLAGS)
  {}

  lemma SelectedLater(s: Hw, t: Hw)
    requires Ok(s) && Later(s, t)
    ensures s.state == Tran ==> t.state == Tran
    ensures s.state == PrgSwitch ==> t.state in {PrgSwitch, Tran}
    ensures t.part == s.part
  {}

  /** The argument assembled by emmc_switch_partition writes PARTITION_CONFIG and selects the partition. */
  lemma SwitchArgument(partition: Word, arg: Word)
    requires partition <= 2 && arg == 0x03B30000 + (0x48 + partition) * 0x100
    ensures WritesPartitionConfig(arg) && PartitionAccess(arg) == partition
  {}

  /** CMD6 with such an argument is taken in the transfer state only, and moves the card over or leaves it
      where it is. */
  lemma SwitchEffect(s: Hw, pre: Hw, arg: Word, post: Hw, t: Hw, cp: nat)
    requires Ok(s) && Ok(pre) && Ok(post) && WritesPartitionConfig(arg)
    requires Later(s, pre) && Issues(pre, 6, arg, CMD_R1B_RESP, post) && Later(post, t)
    ensures post.took ==> t.part == post.part && t.state in {PrgSwitch, Tran}
    ensures Moves(6, arg, post) <==> post.took && post.part == PartitionAccess(arg)
    ensures RefusesSwitch(6, arg, post) <==> post.took && post.part != PartitionAccess(arg)
    ensures !Moves(6, arg, post) && Agree(s, cp) ==> Agree(t, cp)
  {
    if Agree(s, cp) && !Moves(6, arg, post) {
      AgreeLater(s, pre, cp);
      AgreeLater(post, t, cp);
    }
  }

  lemma AgreeKeeps(s: Hw, t: Hw, cp: nat)
    requires Ok(s) && Later(s, t)
    ensures Agree(s, cp) ==> Agree(t, cp)
    ensures s.state == Tran ==> t.state == Tran && (Agree(s, cp) <==> Agree(t, cp))
  {}

  lemma WantedKept(s: Hw, t: Hw, sector: Word)
    requires Undisturbed(s, t) && Key(s.part, sector) in s.disk
    ensures Wanted(s, 17, sector) == t.disk[Key(t.part, sector)]
  {}

  lemma WantedExtCsd(s: Hw)
    ensures Wanted(s, 8, 0) == s.extCsd
  {}

  /** After CMD24: the card is either waiting for the words of exactly this block, and is so for
      certain if its response is clean, or it is in the transfer state as before. */
  lemma WriteStarts(s0: Hw, cleared: Hw, pre: Hw, sector: Word, post: Hw, s: Hw, data: Block)
    requires Ok(s0) && s0.state == Tran && Cleared(s0, cleared) && Ok(pre) && Ok(post)
    requires Later(cleared, pre) && Issues(pre, 24, sector, WRITE_FLAGS, post) && Later(post, s)
    ensures Ok(s) && s.part == s0.part && (s.state == Rcv || s.state == Tran) && s.rejected == s0.rejected
    ensures Confined(s0.disk, Key(s0.part, sector), s)
    ensures post.took && CleanResponse(post.resp0) ==>
              Key(s0.part, sector) in s0.disk && Given(s0.disk, s0.rejected, Key(s0.part, sector), data, 0, s)
  {
    hide Later, Issues, Confined, Given;
    ClearedReady(s0, cleared, pre);
    WriteTaken(pre, sector, post, s, data);
  }

  lemma ClearedReady(s0: Hw, cleared: Hw, pre: Hw)
    requires Ok(s0) && s0.state == Tran && Cleared(s0, cleared) && Ok(pre) && Later(cleared, pre)
    ensures pre.state == Tran && pre.tx == [] && pre.disk == s0.disk && pre.part == s0.part && pre.rejected == s0.rejected
  {
    ClearedLater(s0, cleared, pre);
  }

  lemma WriteTaken(pre: Hw, sector: Word, post: Hw, s: Hw, data: Block)
    requires Ok(pre) && pre.state == Tran && pre.tx == [] && Ok(post)
    requires Issues(pre, 24, sector, WRITE_FLAGS, post) && Later(post, s)
    ensures Ok(s) && s.part == pre.part && (s.state == Rcv || s.state == Tran) && s.rejected == pre.rejected
    ensures Confined(pre.disk, Key(pre.part, sector), s)
    ensures post.took && CleanResponse(post.resp0) ==>
              Key(pre.part, sector) in pre.disk && Given(pre.disk, pre.rejected, Key(pre.part, sector), data, 0, s)
  {
    var key := Key(pre.part, sector);
    if post.state == Rcv {
      assert Filling(pre.disk, pre.rejected, key, [], post);
      FillingLater(pre.disk, pre.rejected, key, [], post, s);
      assert data[..0] == [];
    }
  }

  // ---- What emmc_read_ext_csd can do behind the driver's back ----

  /** A command of emmc_init is issued and taken, whatever the driver is told about it. */
  ghost predicate Identified(s: Hw, cmd: nat, arg: Word, flags: bv32, t: Hw) {
    Ok(s) && Issues(s, cmd, arg, flags, t) && t.took && Ok(t)
  }

  /** So are all five. */
  ghost predicate Reinitialized(s: Hw, t: Hw) {
    exists a, b, c, d ::
      Identified(s, 0, 0, 0, a) && Identified(a, 1, 0x40FF8080, CMD_R3_RESP, b) && Identified(b, 2, 0, CMD_R2_RESP, c)
      && Identified(c, 3, 0x00010000, CMD_R1_RESP, d) && Identified(d, 7, 0x00010000, CMD_R1B_RESP, t)
  }

  lemma ReinitializedToUser(s: Hw, t: Hw)
    requires Reinitialized(s, t)
    ensures t.state == Tran && t.part == PART_USER
  {
    hide Identified;
    var a, b, c, d :|
      Identified(s, 0, 0, 0, a) && Identified(a, 1, 0x40FF8080, CMD_R3_RESP, b) && Identified(b, 2, 0, CMD_R2_RESP, c)
      && Identified(c, 3, 0x00010000, CMD_R1_RESP, d) && Identified(d, 7, 0x00010000, CMD_R1B_RESP, t);
    IdentifiedPart(s, 0, 0, 0, a);
    IdentifiedPart(a, 1, 0x40FF8080, CMD_R3_RESP, b);
    IdentifiedPart(b, 2, 0, CMD_R2_RESP, c);
    IdentifiedPart(c, 3, 0x00010000, CMD_R1_RESP, d);
    IdentifiedPart(d, 7, 0x00010000, CMD_R1B_RESP, t);
  }

  /** CMD0 selects the user area; the other identification commands leave the selection. */
  lemma IdentifiedPart(s: Hw, cmd: nat, arg: Word, flags: bv32, t: Hw)
    requires Identified(s, cmd, arg, flags, t) && cmd in {0, 1, 2, 3, 7}
    ensures t.part == (if cmd == 0 then PART_USER else s.part) && (cmd == 7 ==> t.state == Tran)
  {}

  /** From every card in the transfer state that agrees with the cache, a complete initialization of which
      the driver does not learn leaves the cache right if and only if it says user area. */
  lemma LostBehindTheBack(s: Hw, cp: nat)
    requires Ok(s) && s.state == Tran && Agree(s, cp)
    ensures (forall t :: Reinitialized(s, t) ==> Agree(t, cp)) <==> cp == PART_USER
  {
    hide Identified, Reinitialized;
    forall t | Reinitialized(s, t)
      ensures t.state == Tran && t.part == PART_USER
    {
      ReinitializedToUser(s, t);
    }
    if cp != PART_USER {
      var t := Reinitialize(s);
      ReinitializedToUser(s, t);
      assert !Agree(t, cp);
    }
  }

  lemma Reinitialize(s: Hw) returns (t: Hw)
    requires Ok(s)
    ensures Reinitialized(s, t)
  {
    hide Identified, Ok;
    var a := Identify(s, 0, 0, 0);
    var b := Identify(a, 1, 0x40FF8080, CMD_R3_RESP);
    var c := Identify(b, 2, 0, CMD_R2_RESP);
    var d := Identify(c, 3, 0x00010000, CMD_R1_RESP);
    t := Identify(d, 7, 0x00010000, CMD_R1B_RESP);
  }

  /** A legal identification command can be taken. */
  lemma Identify(s: Hw, cmd: nat, arg: Word, flags: bv32) returns (t: Hw)
    requires Ok(s) && Legal(s.state, cmd) && cmd in {0, 1, 2, 3, 7}
    ensures Ok(t) && Identified(s, cmd, arg, flags, t)
    ensures t.state == (if cmd == 7 then Tran else Following(cmd))
  {
    var junk: Block := seq(128, _ => 0);
    TakesAtOnceTakes(s, cmd, arg, flags, junk);
    t := TakesAtOnce(s, cmd, arg, flags, junk);
    IssuesOk(s, cmd, arg, flags, t);
  }

  // ---- What emmc_switch_partition does not look at ----

  /** A switch command is taken, and the card is back in the transfer state: all that the driver can see. */
  ghost predicate Switched(s: Hw, arg: Word, t: Hw) {
    Ok(s) && t.state == Tran
    && exists mid :: Ok(mid) && Issues(s, 6, arg, CMD_R1B_RESP, mid) && mid.took && Later(mid, t)
  }

  /** From every card in the transfer state, what the driver can see of a switch means that the card is in the
      partition asked for if and only if it was there before. */
  lemma RefusedUnseen(s: Hw, partition: nat, arg: Word)
    requires Ok(s) && s.state == Tran && WritesPartitionConfig(arg) && PartitionAccess(arg) == partition
    ensures (forall t :: Switched(s, arg, t) ==> t.part == partition) <==> s.part == partition
  {
    hide Switched, WritesPartitionConfig, PartitionAccess;
    if s.part == partition {
      forall t | Switched(s, arg, t)
        ensures t.part == partition
      {
        SwitchedPart(s, arg, t);
      }
    } else {
      var t := Refuse(s, arg);
      assert t.part != partition;
    }
  }

  lemma SwitchedPart(s: Hw, arg: Word, t: Hw)
    requires Switched(s, arg, t) && s.state == Tran && WritesPartitionConfig(arg)
    ensures t.part in {s.part, PartitionAccess(arg)}
  {
    hide WritesPartitionConfig, PartitionAccess;
  }

  lemma Refuse(s: Hw, arg: Word) returns (t: Hw)
    requires Ok(s) && s.state == Tran && WritesPartitionConfig(arg)
    ensures Ok(t) && Switched(s, arg, t) && t == s.(stale := true, took := true)
  {
    hide WritesPartitionConfig, PartitionAccess;
    var mid := s.(state := PrgSwitch, stale := true, took := true);
    t := s.(stale := true, took := true);
    assert Issues(s, 6, arg, CMD_R1B_RESP, mid);
    assert Later(mid, t);
  }

  /** The write that follows a refused switch is taken, with a clean response, for the sector of that number
      in the partition that the card has not left. */
  lemma MisdirectedWrite(s: Hw, partition: nat, arg: Word, sector: Word) returns (t: Hw, u: Hw)
    requires Ok(s) && s.state == Tran && WritesPartitionConfig(arg) && PartitionAccess(arg) == partition != s.part
    requires Key(s.part, sector) in s.disk
    ensures Ok(t) && Switched(s, arg, t) && Issues(t, 24, sector, WRITE_FLAGS, u)
    ensures u.took && CleanResponse(u.resp0) && u.state == Rcv && u.target == Key(s.part, sector) != Key(partition, sector)
  {
    hide WritesPartitionConfig, PartitionAccess, Switched;
    t := Refuse(s, arg);
    WriteFlagsOk();
    u := t.(state := Rcv, target := Key(s.part, sector), received := [], corrupt := false, resp0 := 0);
    ZeroIsClean();
  }

  lemma ZeroIsClean()
    ensures CleanResponse(0)
  {}

  // ---- Runs of the driver ----

  datatype DriverCall =
    | DoInit
    | DoSwitch(partition: Word)
    | DoRead(partition: Word, sector: Word)
    | DoWrite(partition: Word, sector: Word, data: Block)
    | DoExtCsd

  /** What there is to know of the driver between calls: whether the cached partition is the card's, what it
      is, and the commands counted so far that moved the card, or failed to. */
  datatype Standing = Standing(agreed: bool, cached: nat, switches: nat, refused: nat)

  ghost function Stands(driver: Driver): Standing
    reads driver, driver.hw
  {
    Standing(driver.Agreed(), driver.currentPartition, driver.hw.switches, driver.hw.refused)
  }

  /** A call after which the cached partition is wrong: the driver has cached a partition to which the card
      refused to switch, or has not cached one to which the card moved. */
  predicate Misled(c: DriverCall, a: Standing, b: Standing) {
    match c
    case DoInit => b.switches > a.switches && b.cached != PART_USER
    case DoExtCsd => b.switches > a.switches && b.cached == a.cached != PART_USER
    case DoSwitch(partition) => if b.cached == partition then b.refused > a.refused else b.switches > a.switches
    case DoRead(partition, _) => if b.cached == partition then b.refused > a.refused else b.switches > a.switches
    case DoWrite(partition, _, _) => if b.cached == partition then b.refused > a.refused else b.switches > a.switches
  }

  /** What one call does to a driver whose cached partition is right. */
  predicate Steps(candid: bool, c: DriverCall, a: Standing, b: Standing) {
    && (b.agreed || Misled(c, a, b)) && (b.agreed && Misled(c, a, b) ==> c.DoExtCsd?)
    && (candid && b.refused == a.refused ==> b.agreed) && b.refused >= a.refused
  }

  /** Any calls in any order, successful or not; `run` has what the driver is like before the first call and
      after each. As long as the cached partition is right, a call makes it wrong if and only if it misleads
      the driver, except that a second initialization may put right what the first one of an EXT_CSD dump
      has lost. With candid hardware that refuses no switch it is always right. */
  method RunDriver(driver: Driver, calls: seq<DriverCall>) returns (codes: seq<int>, ghost run: seq<Standing>)
    requires driver.Valid() && driver.Agreed()
    modifies driver, driver.hw
    ensures driver.Valid() && |codes| == |calls| && |run| == |calls| + 1
    ensures run[0] == old(Stands(driver)) && run[|calls|] == Stands(driver)
    ensures forall i :: 0 <= i < |calls| && run[i].agreed ==> Steps(driver.hw.candid, calls[i], run[i], run[i + 1])
    ensures driver.hw.candid && driver.hw.refused == old(driver.hw.refused) ==> forall i :: 0 <= i <= |calls| ==> run[i].agreed
    ensures driver.hw.Obliging() ==> driver.hw.refused == old(driver.hw.refused)
  {
    codes, run := [], [Stands(driver)];
    while |codes| < |calls|
      invariant |codes| <= |calls| && |run| == |codes| + 1 && driver.Valid()
      invariant run[0] == old(Stands(driver)) && run[|codes|] == Stands(driver)
      invariant driver.hw.refused >= old(driver.hw.refused)
      invariant forall i :: 0 <= i < |codes| && run[i].agreed ==> Steps(driver.hw.candid, calls[i], run[i], run[i + 1])
      invariant driver.hw.candid && driver.hw.refused == old(driver.hw.refused) ==>
                  forall i :: 0 <= i <= |codes| ==> run[i].agreed
      invariant driver.hw.Obliging() ==> driver.hw.refused == old(driver.hw.refused)
      decreases |calls| - |codes|
    {
      var code := Call(driver, calls[|codes|]);
      codes := codes + [code];
      run := run + [Stands(driver)];
    }
  }

  method Call(driver: Driver, c: DriverCall) returns (code: int)
    requires driver.Valid()
    modifies driver, driver.hw
    ensures driver.Valid() && driver.Counted(old(driver.hw.switches), old(driver.hw.refused))
    ensures old(driver.Agreed()) ==> Steps(driver.hw.candid, c, old(Stands(driver)), Stands(driver))
  {
    code := 0;
    hide Agree, Later, Quiet, Confined;
    match c {
      case DoInit =>
        ghost var done, ocr := driver.Init();
      case DoSwitch(partition) =>
        code := driver.SwitchPartition(partition);
      case DoRead(partition, sector) =>
        var buffer := new Word[128](_ => 0);
        code := driver.ReadSector(partition, sector, buffer);
      case DoWrite(partition, sector, data) =>
        var buffer := new Word[128](i requires 0 <= i < 128 => data[i]);
        code := driver.WriteSector(partition, sector, buffer);
      case DoExtCsd =>
        var buffer := new Word[128](_ => 0);
        code := driver.ReadExtCsd(buffer);
    }
  }
}
