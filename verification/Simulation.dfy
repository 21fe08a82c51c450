/** The device of Stage2 is one that Lockstep describes: the turns of its command loop are Serve steps, and
    the other steps of the device only move bytes between the queues that it sees as one. */
module Simulation {
  import opened Card
  import opened Bytes
  import opened Protocol
  import opened Stage2
  import Host
  import Lockstep

  /** The device is where the state machine has it. What the machine's device has taken, or not yet sent,
      are the ends of the queues. */
  ghost predicate Represents(dev: Device, s: Lockstep.State)
    reads dev, dev.link, dev.driver, dev.driver.hw
  {
    && dev.Valid() && s.views != [] && dev.Now() == s.views[|s.views| - 1]
    && dev.driver.hw.Manners() == s.m && dev.alive == s.alive
    && dev.link.h2d == s.got + s.h2d && dev.link.d2h == s.d2h + s.out
  }

  /** Between turns the device does nothing that could be seen. */
  lemma BytesMove(dev: Device, s: Lockstep.State, step: Lockstep.Step)
    requires Represents(dev, s) && Lockstep.Enabled(s, step) && (step.Take? || step.Put?)
    ensures Represents(dev, Lockstep.After(s, step))
  {
    match step
    case Take(k) => Lockstep.Shifted(s.got, s.h2d, k);
    case Put(k) => Lockstep.Shifted(s.d2h, s.out, k);
  }

  /** Whenever the state machine, in a state that it can reach, waits for the device to serve a command, a
      turn of the command loop is one of the Serve steps that are possible. */
  method TakeTurn(dev: Device, ghost s: Lockstep.State, ghost v: View) returns (ghost step: Lockstep.Step)
    requires Represents(dev, s) && Lockstep.Inv(s, v)
    requires s.alive && s.out == [] && Deliverable(s.got)
    modifies dev, dev.link, dev.buf, dev.driver, dev.driver.hw
    ensures step.Serve? && Lockstep.Enabled(s, step) && Represents(dev, Lockstep.After(s, step))
    ensures dev.served == old(dev.served) + [Parse(s.got)]
  {
    Lockstep.ServedCommand(s, v);
    ghost var c := Parse(s.got);
    Complete(s.got, c, s.h2d);
    hide Lockstep.Inv, Wire, Parse, Deliverable, StartsWithMagic, Turn, Contained, Lockstep.Stop;
    ghost var reply := dev.ServeOne();
    step := Lockstep.Serve(dev.Now(), reply);
  }

  /** A command that has been taken as a whole is served as that command, whatever has arrived after it. */
  lemma Complete(got: seq<Byte>, c: Command, rest: seq<Byte>)
    requires got == Wire(c)
    ensures Deliverable(got + rest) && StartsWithMagic(got + rest) && Parse(got + rest) == c && |got + rest| >= 4
    ensures (got + rest)[|Wire(c)|..] == rest && Lockstep.Stop(got) == |got|
  {
    ParseWire(c, rest);
    Lockstep.StopInside(got, c);
  }

  /** It starts there. */
  lemma Starts(dev: Device)
    requires dev.Valid() && dev.alive && dev.link.h2d == [] && dev.link.d2h == []
    ensures Represents(dev, Lockstep.Initial(dev.driver.hw.Manners(), dev.Now()))
  {}

  // ---- The calls of the host ----

  /** Host and device are where the state machine has them, between calls. */
  ghost predicate Mirrors(usb: Host.MT8113USB, s: Lockstep.State)
    reads usb.Footprint()
  {
    Represents(usb.dev, s) && usb.InStep() && Lockstep.Idle(s, |s.h2d| / 8) && s.h2d == usb.dev.link.h2d
  }

  lemma StartsMirrored(usb: Host.MT8113USB)
    requires usb.InStep() && usb.dev.link.h2d == []
    ensures Mirrors(usb, Lockstep.Initial(usb.dev.driver.hw.Manners(), usb.dev.Now()))
  {
    hide Wires;
    Starts(usb.dev);
    Lockstep.NoKicksLeft([]);
  }

  /** What the host has read in a call that has returned. */
  ghost function Received(c: Host.Call, answer: seq<Byte>): seq<Byte> {
    if c.WriteCall? then BigEndian(ACK_WRITE) else answer
  }

  /** A call of Host.Run that returns is a path of the state machine from the beginning of the call to its
      return. */
  method Perform(usb: Host.MT8113USB, c: Host.Call, ghost s: Lockstep.State)
    returns (r: Host.Result<seq<Byte>>, ghost t: Lockstep.State)
    requires Mirrors(usb, s)
    modifies usb.Footprint()
    ensures r.Ok? ==> Mirrors(usb, t) && Lockstep.Reaches(s, t) && t.m == s.m
    ensures r.Ok? ==> Sendable(c) && t.calls == s.calls + [Sends(c)] && t.answers == s.answers + [Received(c, r.value)]
  {
    hide Turn, Lockstep.Reaches, Wires, ToBytes, ToWords, Quiet, Host.ServedFrom, BigEndian;
    t := s;
    ghost var n := |s.h2d| / 8;
    SameKicks(usb.dev.link.h2d);
    ghost var w: View, reply := usb.dev.Now(), [];
    match c {
      case ReadCall(region, sector) =>
        r := usb.ReadSector(region, sector);
        reply := if r.Ok? then r.value else [];
      case WriteCall(region, sector, data) =>
        var done := usb.WriteSector(region, sector, data);
        r := if done.Ok? then Host.Ok([]) else Host.Raised;
        AckSize();
        reply := BigEndian(ACK_WRITE);
      case ExtCsdCall =>
        r := usb.GetExtCsd();
        reply := if r.Ok? then r.value else [];
      case KickCall =>
        ghost var sent, served := usb.Sent(), usb.dev.served;
        usb.KickWatchdog();
        r := Host.Ok([]);
        SameKicks(usb.dev.link.h2d);
        KicksLeft(served, usb.dev.served, n, |usb.dev.link.h2d| / 8);
        t := Lockstep.KickRuns(s, n, n + 1 - |usb.dev.link.h2d| / 8);
        KicksTaken(t, n + 1 - (n + 1 - |usb.dev.link.h2d| / 8), usb.dev.link.h2d);
    }
    if r.Ok? && !c.KickCall? {
      t := Lockstep.CallRuns(s, n, Sends(c), usb.dev.Now(), reply);
      SameKicks([]);
    }
  }

  lemma SameKicks(h2d: seq<Byte>)
    ensures Host.OnlyKicks(h2d) <==> h2d == Wires(Kicks(|h2d| / 8))
    ensures Host.OnlyKicks([])
  {
    assert Kicks(0) == [];
  }

  /** All kicks sent are served or on the wire. */
  lemma KicksLeft(served: seq<Command>, after: seq<Command>, n: nat, left: nat)
    requires after + Kicks(left) == served + Kicks(n) + [Kick] && served <= after
    ensures left <= n + 1
  {
    assert |after + Kicks(left)| == |served + Kicks(n) + [Kick]|;
  }

  lemma KicksTaken(t: Lockstep.State, left: nat, h2d: seq<Byte>)
    requires Lockstep.Idle(t, left) && left == |h2d| / 8 && h2d == Wires(Kicks(left))
    ensures t.h2d == h2d
  {}

  /** A whole session, from empty queues on: the calls that return are a run of the state machine with the
      commands of these calls, in which each has received what the call has returned. So what Lockstep proves
      of all runs holds of every session of the host. */
  method Session(usb: Host.MT8113USB, calls: seq<Host.Call>) returns (answers: seq<seq<Byte>>, ghost t: Lockstep.State)
    requires usb.InStep() && usb.dev.link.h2d == []
    modifies usb.Footprint()
    ensures |answers| <= |calls|
    ensures Lockstep.Reaches(Lockstep.Initial(usb.dev.driver.hw.Manners(), old(usb.dev.Now())), t)
    ensures |t.calls| == |t.answers| == |answers|
    ensures forall i :: 0 <= i < |answers| ==>
              Sendable(calls[i]) && t.calls[i] == Sends(calls[i]) && t.answers[i] == Received(calls[i], answers[i])
    ensures |answers| == |calls| ==> Mirrors(usb, t)
  {
    hide Lockstep.Reaches, Wires, BigEndian, Sendable, Sends, Received, Mirrors, Represents;
    ghost var s := Lockstep.Initial(usb.dev.driver.hw.Manners(), usb.dev.Now());
    StartsMirrored(usb);
    Lockstep.ReachesItself(s);
    answers, t := [], s;
    while |answers| < |calls|
      invariant |answers| <= |calls| && Mirrors(usb, t) && Lockstep.Reaches(s, t)
      invariant |t.calls| == |t.answers| == |answers|
      invariant forall i :: 0 <= i < |answers| ==>
                  Sendable(calls[i]) && t.calls[i] == Sends(calls[i]) && t.answers[i] == Received(calls[i], answers[i])
      decreases |calls| - |answers|
    {
      ghost var u;
      var answer;
      answer, u := Perform(usb, calls[|answers|], t);
      if answer.Raised? {
        return;
      }
      Lockstep.ReachesFurther(s, t, u);
      answers, t := answers + [answer.value], u;
    }
  }

  // ---- The two plain maps ----

  /** The commands that calls send, if all their arguments fit the protocol. */
  ghost function Commands(calls: seq<Host.Call>): seq<Command>
    requires forall i :: 0 <= i < |calls| ==> Sendable(calls[i])
  {
    seq(|calls|, i requires 0 <= i < |calls| => Sends(calls[i]))
  }

  predicate Sendable(c: Host.Call) {
    match c
    case ReadCall(region, sector) => Host.IsWord(region) && Host.IsWord(sector)
    case WriteCall(region, sector, data) => Host.IsWord(region) && Host.IsWord(sector) && |data| == 512
    case _ => true
  }

  function Sends(c: Host.Call): Command
    requires Sendable(c)
  {
    match c
    case ReadCall(region, sector) => Read(region, sector)
    case WriteCall(region, sector, data) => Write(region, sector, data)
    case ExtCsdCall => ExtCsd
    case KickCall => Kick
  }

  /** The map that Host.Run behaves like is the one that Lockstep.RefinesPlainMap speaks of, and the two
      have the same calls after which it may be lost. */
  lemma {:induction false} SamePlainMap(d: Disk, calls: seq<Host.Call>, m: Temper, start: int, n: nat)
    requires n <= |calls| && forall i :: 0 <= i < |calls| ==> Sendable(calls[i])
    ensures Lockstep.PlainMap(d, Commands(calls)[..n]) == Host.Replay(d, calls[..n])
    ensures Lockstep.Believed(Commands(calls)[..n], start) == Host.Believed(calls[..n], start)
    ensures Lockstep.MayLose(m, Commands(calls), start, n) <==> Host.MayLose(m, calls, start, n)
  {
    hide ToWords;
    if n > 0 {
      SamePlainMap(d, calls, m, start, n - 1);
      assert Commands(calls)[..n][..n - 1] == Commands(calls)[..n - 1] && calls[..n][..n - 1] == calls[..n - 1];
      assert Commands(calls)[..n][n - 1] == Sends(calls[n - 1]) && calls[..n][n - 1] == calls[n - 1];
    }
  }
}
