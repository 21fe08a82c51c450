/** Host and device as two processes that share two byte queues, under every interleaving: the host
    puts the bytes of a command on the wire a few at a time, the device takes them one get at a time,
    and the reply travels back in pieces. */
module Lockstep {
  import opened Card
  import opened Bytes
  import opened Protocol
  import opened Words

  /** `calls`, `views`, `replies` and `answers` record what has happened: the calls the host has made, what
      the device was like before and after each command served, the replies given to these, and what the
      calls that have returned have received. */
  datatype State = State(
    // the host: inside a call, the bytes not yet written, the bytes read so far
    busy: bool, toSend: seq<Byte>, received: seq<Byte>,
    // the wire
    h2d: seq<Byte>, d2h: seq<Byte>,
    // the device: its hardware, the bytes of this turn of the loop, the rest of a reply
    m: Temper, alive: bool, got: seq<Byte>, out: seq<Byte>,
    calls: seq<Command>, views: seq<View>, replies: seq<seq<Byte>>, answers: seq<seq<Byte>>)

  function Initial(m: Temper, v: View): State {
    State(false, [], [], [], [], m, true, [], [], [], [v], [], [])
  }

  /** How far the device's present recv_dword or usbdl_get_data goes; no further than it has got if
      it is not waiting for bytes. */
  function Stop(got: seq<Byte>): nat {
    if |got| < 4 then 4
    else if !StartsWithMagic(got) then |got|
    else if |got| < 8 then 8
    else
      var end := 8 + ArgumentSize(WordAt(got, 4));
      if |got| >= end then |got| else if |got| < 12 then 12 else if |got| < 16 then 16 else end
  }

  datatype Step =
    | Begin(c: Command) | Send(k: nat) | Receive(k: nat) | Return
    | Take(k: nat) | Serve(w: View, reply: seq<Byte>) | Put(k: nat) | Quit

  predicate Enabled(s: State, step: Step) {
    (s.busy ==> s.calls != []) && s.views != []
    && match step
    case Begin(_) => !s.busy
    case Send(k) => 0 < k <= |s.toSend|
    case Receive(k) =>
      s.busy && s.toSend == [] && 0 < k <= |s.d2h| && |s.received| + k <= ReplySize(s.calls[|s.calls| - 1])
    case Return => s.busy && s.toSend == [] && |s.received| == ReplySize(s.calls[|s.calls| - 1])
    case Take(k) => s.alive && s.out == [] && 0 < k <= |s.h2d| && |s.got| + k <= Stop(s.got)
    case Serve(w, reply) =>
      s.alive && s.out == [] && Deliverable(s.got) && Stop(s.got) == |s.got|
      && Turn(s.m, s.views[|s.views| - 1], Parse(s.got), w, reply)
    case Put(k) => s.alive && 0 < k <= |s.out|
    case Quit => s.alive && |s.got| == 4 && !StartsWithMagic(s.got)
  }

  function After(s: State, step: Step): State
    requires Enabled(s, step)
  {
    match step
    case Begin(c) => s.(busy := true, toSend := Wire(c), received := [], calls := s.calls + [c])
    case Send(k) => s.(toSend := s.toSend[k..], h2d := s.h2d + s.toSend[..k])
    case Receive(k) => s.(d2h := s.d2h[k..], received := s.received + s.d2h[..k])
    case Return => s.(busy := false, answers := s.answers + [s.received])
    case Take(k) => s.(h2d := s.h2d[k..], got := s.got + s.h2d[..k])
    case Serve(w, reply) => s.(got := [], out := reply, views := s.views + [w], replies := s.replies + [reply])
    case Put(k) => s.(out := s.out[k..], d2h := s.d2h + s.out[..k])
    case Quit => s.(alive := false)
  }

  // ---- The invariant ----

  lemma {:induction false} WiresAppend(cs: seq<Command>, c: Command)
    ensures Wires(cs + [c]) == Wires(cs) + Wire(c)
  {
    hide Wire;
    if cs == [] {
      assert (cs + [c])[1..] == [];
      assert Wires([]) == [];
    } else {
      WiresAppend(cs[1..], c);
      assert (cs + [c])[1..] == cs[1..] + [c];
    }
  }

  function Served(s: State): nat { |s.replies| }

  /** The bytes taken and those to come are together the commands not served yet, and the device is
      inside the first of them. */
  predicate Stream(got: seq<Byte>, coming: seq<Byte>, backlog: seq<Command>) {
    got + coming == Wires(backlog) && (if backlog == [] then got == [] else got <= Wire(backlog[0]))
  }

  lemma StreamAppend(got: seq<Byte>, coming: seq<Byte>, backlog: seq<Command>, c: Command)
    requires Stream(got, coming, backlog)
    ensures Stream(got, coming + Wire(c), backlog + [c])
  {
    WiresAppend(backlog, c);
    hide Wires, Wire;
    assert got + (coming + Wire(c)) == got + coming + Wire(c);
  }

  lemma StreamAdvance(got: seq<Byte>, coming: seq<Byte>, backlog: seq<Command>, k: nat)
    requires Stream(got, coming, backlog) && k <= |coming| && |got| + k <= Stop(got)
    ensures Stream(got + coming[..k], coming[k..], backlog)
  {
    assert got + coming[..k] + coming[k..] == got + coming;
    if backlog != [] {
      StopInside(got, backlog[0]);
      hide Wire, Stop;
      var w := Wire(backlog[0]);
      assert got + coming == w + Wires(backlog[1..]);
      assert got + coming[..k] == (got + coming)[..|got| + k] == w[..|got| + k];
    }
  }

  lemma StreamPop(got: seq<Byte>, coming: seq<Byte>, backlog: seq<Command>)
    requires Stream(got, coming, backlog) && backlog != [] && got == Wire(backlog[0])
    ensures Stream([], coming, backlog[1..])
  {
    hide Wire;
    var w, rest := Wire(backlog[0]), Wires(backlog[1..]);
    assert w + coming == w + rest;
    assert (w + coming)[|w|..] == coming && (w + rest)[|w|..] == rest;
    assert [] + coming == coming;
    assert backlog[1..] != [] ==> [] <= Wire(backlog[1]);
  }

  /** What the device has taken, what is on the wire and what the host has still to write are together
      the commands that are not served yet. */
  predicate StreamInv(s: State) {
    s.alive && Served(s) <= |s.calls| && Stream(s.got, s.h2d + s.toSend, s.calls[Served(s)..])
  }

  /** The host is ahead of the device by commands without a reply at most, and what is on its way back
      is the reply to its present call. */
  predicate ReplyInv(s: State) {
    && Served(s) <= |s.calls|
    && (s.busy ==> s.calls != []) && |s.answers| == |s.calls| - (if s.busy then 1 else 0)
    && (!s.busy ==> s.toSend == [] && s.d2h == [] && s.out == [])
    && (s.busy ==> s.received + s.d2h + s.out == (if Served(s) == |s.calls| then s.replies[Served(s) - 1] else []))
    && (forall i :: Served(s) <= i < |s.answers| ==> ReplySize(s.calls[i]) == 0 && s.answers[i] == [])
  }

  /** Every command has been served as it should be. */
  predicate ServedInv(m: Temper, views: seq<View>, calls: seq<Command>, replies: seq<seq<Byte>>, v: View) {
    && |views| == |replies| + 1 && views[0] == v && |replies| <= |calls|
    && forall i :: 0 <= i < |replies| ==> Turn(m, views[i], calls[i], views[i + 1], replies[i])
  }

  /** Every call has received the reply that was given to it, and the whole of it. */
  predicate AnswersInv(calls: seq<Command>, replies: seq<seq<Byte>>, answers: seq<seq<Byte>>) {
    && |replies| <= |calls|
    && forall i :: 0 <= i < |replies| && i < |answers| ==> answers[i] == replies[i] && |answers[i]| == ReplySize(calls[i])
  }

  predicate HistoryInv(s: State, v: View) {
    ServedInv(s.m, s.views, s.calls, s.replies, v) && AnswersInv(s.calls, s.replies, s.answers)
  }

  predicate Inv(s: State, v: View) { StreamInv(s) && ReplyInv(s) && HistoryInv(s, v) }

  /** A device inside a command knows no more and no less than that it is. */
  lemma StopInside(got: seq<Byte>, c: Command)
    requires got <= Wire(c)
    ensures |got| <= Stop(got) <= |Wire(c)|
    ensures Stop(got) == |got| <==> got == Wire(c)
    ensures |got| >= 4 ==> StartsWithMagic(got)
    ensures got == Wire(c) ==> Deliverable(got) && Parse(got) == c
    ensures Deliverable(got) ==> got == Wire(c)
  {
    ParseWire(c, []);
    var w := Wire(c);
    assert w + [] == w;
    assert |got| >= 4 ==> got[0..4] == w[0..4];
    assert |got| >= 8 ==> got[4..8] == w[4..8];
    assert WordAt(w, 4) == Code(c) by {
      HeaderPlaced(Code(c), Arguments(c), w);
    }
  }

  lemma InvInitial(m: Temper, v: View)
    ensures Inv(Initial(m, v), v)
  {}

  lemma Moved(a: seq<Byte>, b: seq<Byte>, c: seq<Byte>, k: nat)
    requires k <= |b|
    ensures (a + b[..k]) + b[k..] + c == a + b + c
  {
    assert b[..k] + b[k..] == b;
  }

  lemma StreamStep(s: State, v: View, step: Step)
    requires Inv(s, v) && Enabled(s, step)
    ensures StreamInv(After(s, step))
  {
    hide Stream, Stop, Wire, Deliverable, StartsWithMagic, Parse, Turn, ReplySize, HistoryInv;
    match step
    case Begin(c) => StreamBegin(s, c);
    case Send(k) => Shifted(s.h2d, s.toSend, k);
    case Take(k) => StreamTake(s, k);
    case Serve(w, reply) => StreamServe(s, v, w, reply);
    case Quit => MagicSeen(s.got, s.h2d + s.toSend, s.calls[Served(s)..]);
    case _ =>
  }

  lemma Shifted(a: seq<Byte>, b: seq<Byte>, k: nat)
    requires k <= |b|
    ensures a + b[..k] + b[k..] == a + b
  {
    assert b[..k] + b[k..] == b;
  }

  lemma StreamTake(s: State, k: nat)
    requires StreamInv(s) && Enabled(s, Take(k))
    ensures StreamInv(After(s, Take(k)))
  {
    hide Stream, Stop, Wire, Deliverable, StartsWithMagic, Parse, Turn, ReplySize;
    var coming := s.h2d + s.toSend;
    StreamAdvance(s.got, coming, s.calls[Served(s)..], k);
    assert coming[..k] == s.h2d[..k] && coming[k..] == s.h2d[k..] + s.toSend;
  }

  lemma StreamBegin(s: State, c: Command)
    requires StreamInv(s) && Enabled(s, Begin(c)) && s.toSend == []
    ensures StreamInv(After(s, Begin(c)))
  {
    hide Stream, Wire, Turn, Deliverable, Parse, Stop, StartsWithMagic, ReplySize;
    var i := Served(s);
    StreamAppend(s.got, s.h2d + s.toSend, s.calls[i..], c);
    TailAppend(s.calls, i, c);
    assert s.h2d + [] == s.h2d;
  }

  lemma TailAppend(calls: seq<Command>, i: nat, c: Command)
    requires i <= |calls|
    ensures (calls + [c])[i..] == calls[i..] + [c]
  {}

  lemma StreamServe(s: State, v: View, w: View, reply: seq<Byte>)
    requires Inv(s, v) && Enabled(s, Serve(w, reply))
    ensures StreamInv(After(s, Serve(w, reply)))
  {
    var i := Served(s);
    ServedCommand(s, v);
    hide Stream, Stop, Wire, Deliverable, Parse, Turn, ReplySize, HistoryInv, ReplyInv;
    StreamPop(s.got, s.h2d + s.toSend, s.calls[i..]);
    assert s.calls[i + 1..] == s.calls[i..][1..];
  }

  lemma MagicSeen(got: seq<Byte>, coming: seq<Byte>, backlog: seq<Command>)
    requires Stream(got, coming, backlog)
    ensures |got| >= 4 ==> StartsWithMagic(got)
  {
    if backlog != [] {
      StopInside(got, backlog[0]);
    }
  }

  lemma NotDeliverable()
    ensures !Deliverable([])
  {}

  lemma ReplyServe(s: State, v: View, w: View, reply: seq<Byte>)
    requires Inv(s, v) && Enabled(s, Serve(w, reply))
    ensures ReplyInv(After(s, Serve(w, reply)))
  {
    var i := Served(s);
    ServedCommand(s, v);
    TurnReplySize(s.m, s.views[i], s.calls[i], w, reply);
    hide Wire, Wires, Deliverable, Parse, Turn, Stop, StreamInv;
    assert s.out == [];
  }

  /** A call that has read its whole reply has left none of it behind. */
  lemma AllReceived(received: seq<Byte>, onTheWay: seq<Byte>, reply: seq<Byte>, size: nat)
    requires received + onTheWay == reply && |received| == size && (reply == [] || |reply| == size)
    ensures received == reply && onTheWay == []
  {
    assert |reply| == |received| + |onTheWay|;
    assert received == (received + onTheWay)[..size];
  }

  lemma ReplyReturn(s: State, v: View)
    requires ReplyInv(s) && HistoryInv(s, v) && Enabled(s, Return)
    ensures ReplyInv(After(s, Return)) && HistoryInv(After(s, Return), v)
  {
    hide Turn, ReplySize, StreamInv, Wire, Wires;
    var i, n := Served(s), |s.calls|;
    var size := ReplySize(s.calls[n - 1]);
    assert s.received + s.d2h + s.out == s.received + (s.d2h + s.out);
    if i == n {
      TurnReplySize(s.m, s.views[i - 1], s.calls[i - 1], s.views[i], s.replies[i - 1]);
      AllReceived(s.received, s.d2h + s.out, s.replies[i - 1], size);
    } else {
      AllReceived(s.received, s.d2h + s.out, [], size);
    }
  }

  lemma ReplyStep(s: State, v: View, step: Step)
    requires Inv(s, v) && Enabled(s, step)
    ensures ReplyInv(After(s, step))
  {
    hide Wire, Wires, Turn, StreamInv, HistoryInv, Deliverable, Parse, Stop, ReplySize, StartsWithMagic;
    match step
    case Receive(k) => Moved(s.received, s.d2h, s.out, k);
    case Put(k) =>
      Moved(s.received + s.d2h, s.out, [], k);
      assert s.received + (s.d2h + s.out[..k]) == s.received + s.d2h + s.out[..k];
    case Serve(w, reply) => ReplyServe(s, v, w, reply);
    case Return => ReplyReturn(s, v);
    case _ =>
  }

  /** A command that is complete is the first that has not been served. */
  lemma ServedCommand(s: State, v: View)
    requires Inv(s, v) && Deliverable(s.got)
    ensures Served(s) < |s.calls| && s.got == Wire(s.calls[Served(s)]) && Parse(s.got) == s.calls[Served(s)]
  {
    if Served(s) == |s.calls| {
      NotDeliverable();
    } else {
      StopInside(s.got, s.calls[Served(s)]);
    }
  }

  lemma HistoryServe(s: State, v: View, w: View, reply: seq<Byte>)
    requires Inv(s, v) && Enabled(s, Serve(w, reply))
    ensures HistoryInv(After(s, Serve(w, reply)), v)
  {
    var i := Served(s);
    ServedCommand(s, v);
    TurnReplySize(s.m, s.views[i], s.calls[i], w, reply);
    assert i < |s.answers| ==> s.answers[i] == reply && |reply| == ReplySize(s.calls[i]);
    ServedMore(s.m, s.views, s.calls, s.replies, v, w, reply);
    AnsweredMore(s.calls, s.replies, s.answers, reply);
    hide Wire, Wires, Deliverable, Parse, Turn, Stop, StreamInv, ReplyInv, ReplySize, ServedInv, AnswersInv;
  }

  lemma ServedMore(m: Temper, views: seq<View>, calls: seq<Command>, replies: seq<seq<Byte>>, v: View, w: View, reply: seq<Byte>)
    requires ServedInv(m, views, calls, replies, v) && |replies| < |calls|
    requires Turn(m, views[|replies|], calls[|replies|], w, reply)
    ensures ServedInv(m, views + [w], calls, replies + [reply], v)
  {
    hide Turn;
  }

  lemma AnsweredMore(calls: seq<Command>, replies: seq<seq<Byte>>, answers: seq<seq<Byte>>, reply: seq<Byte>)
    requires AnswersInv(calls, replies, answers) && |replies| < |calls|
    requires |replies| < |answers| ==> answers[|replies|] == reply && |reply| == ReplySize(calls[|replies|])
    ensures AnswersInv(calls, replies + [reply], answers)
  {
    hide ReplySize;
  }

  lemma HistoryStep(s: State, v: View, step: Step)
    requires Inv(s, v) && Enabled(s, step)
    ensures HistoryInv(After(s, step), v)
  {
    match step
    case Return => ReplyReturn(s, v);
    case Serve(w, reply) => HistoryServe(s, v, w, reply);
    case _ =>
      hide Wire, Wires, Turn, StreamInv, Deliverable, Parse, Stop;
  }

  // ---- Runs ----

  predicate Follows(s: State, step: Step, t: State) { Enabled(s, step) && t == After(s, step) }

  /** The states that one step after the other leads through. */
  ghost predicate IsPath(run: seq<State>, steps: seq<Step>) {
    |run| == |steps| + 1 && forall i :: 0 <= i < |steps| ==> Follows(run[i], steps[i], run[i + 1])
  }

  ghost predicate Reaches(s: State, t: State) {
    exists run, steps :: IsPath(run, steps) && run[0] == s && run[|steps|] == t
  }

  lemma ReachesItself(s: State)
    ensures Reaches(s, s)
  {
    assert IsPath([s], []);
  }

  /** One more step at the end of a path. */
  lemma ReachesNext(s: State, t: State, step: Step)
    requires Reaches(s, t) && Enabled(t, step)
    ensures Reaches(s, After(t, step))
  {
    hide Enabled, After;
    var run, steps :| IsPath(run, steps) && run[0] == s && run[|steps|] == t;
    var u := After(t, step);
    var more, all := run + [u], steps + [step];
    assert Follows(t, step, u);
    forall i | 0 <= i < |all|
      ensures Follows(more[i], all[i], more[i + 1])
    {
      if i < |steps| {
        assert Follows(run[i], steps[i], run[i + 1]);
      }
    }
    assert IsPath(more, all) && more[0] == s && more[|all|] == u;
  }

  lemma {:induction false} ReachesFurther(s: State, t: State, u: State)
    requires Reaches(s, t) && Reaches(t, u)
    ensures Reaches(s, u)
  {
    hide Follows;
    var run, steps :| IsPath(run, steps) && run[0] == t && run[|steps|] == u;
    ReachesAlong(s, run, steps, |steps|);
  }

  lemma {:induction false} ReachesAlong(s: State, run: seq<State>, steps: seq<Step>, n: nat)
    requires IsPath(run, steps) && Reaches(s, run[0]) && n <= |steps|
    ensures Reaches(s, run[n])
  {
    hide Reaches, Enabled, After;
    if n > 0 {
      ReachesAlong(s, run, steps, n - 1);
      assert Follows(run[n - 1], steps[n - 1], run[n]);
      ReachesNext(s, run[n - 1], steps[n - 1]);
    }
  }

  ghost predicate IsRun(m: Temper, v: View, run: seq<State>, steps: seq<Step>) {
    IsPath(run, steps) && run[0] == Initial(m, v)
  }

  lemma {:induction false} PathInv(v: View, run: seq<State>, steps: seq<Step>, n: nat)
    requires IsPath(run, steps) && Inv(run[0], v) && n <= |steps|
    ensures Inv(run[n], v) && run[n].m == run[0].m
  {
    hide Inv, After, Enabled;
    if n > 0 {
      PathInv(v, run, steps, n - 1);
      assert Follows(run[n - 1], steps[n - 1], run[n]);
      StepInv(run[n - 1], v, steps[n - 1]);
    }
  }

  /** The invariant holds in every state of every run. */
  lemma RunInv(m: Temper, v: View, run: seq<State>, steps: seq<Step>, n: nat)
    requires IsRun(m, v, run, steps) && n <= |steps|
    ensures Inv(run[n], v) && run[n].m == m
  {
    hide Inv;
    InvInitial(m, v);
    PathInv(v, run, steps, n);
  }

  lemma StepInv(s: State, v: View, step: Step)
    requires Inv(s, v) && Enabled(s, step)
    ensures Inv(After(s, step), v) && After(s, step).m == s.m
  {
    hide StreamInv, ReplyInv, HistoryInv;
    SameHardware(s, step);
    hide After, Enabled;
    StreamStep(s, v, step);
    ReplyStep(s, v, step);
    HistoryStep(s, v, step);
  }

  lemma SameHardware(s: State, step: Step)
    requires Enabled(s, step)
    ensures After(s, step).m == s.m
  {}

  // ---- What the invariant means ----

  /** The plain map that the commands are to behave like. */
  ghost function PlainMap(d: Disk, calls: seq<Command>): Disk {
    if calls == [] then d else Written(PlainMap(d, calls[..|calls| - 1]), calls[|calls| - 1])
  }

  ghost function Written(d: Disk, c: Command): Disk {
    if c.Write? then d[Key(c.region, c.sector) := ToWords(c.data)] else d
  }

  /** All that was ever sent has been taken and all that was sent back has been read; the device is at
      its loop head. */
  predicate AtRest(s: State) {
    !s.busy && s.alive && s.toSend == [] && s.h2d == [] && s.d2h == [] && s.got == [] && s.out == [] && Served(s) == |s.calls|
  }

  /** No call is under way and the last had a reply: host and device are at rest. */
  lemma RepliedAtRest(s: State, v: View)
    requires Inv(s, v) && !s.busy && (s.calls != [] ==> ReplySize(s.calls[|s.calls| - 1]) > 0)
    ensures AtRest(s)
  {
    var i := Served(s);
    if i < |s.calls| {
      assert false;
    } else {
      Empty(s.got, s.h2d + s.toSend, s.calls[i..]);
    }
  }

  lemma Empty(got: seq<Byte>, coming: seq<Byte>, backlog: seq<Command>)
    requires Stream(got, coming, backlog) && backlog == []
    ensures got == [] && coming == []
  {}

  /** Between calls the bytes that are still on the wire, if any, are those of calls without a reply. */
  lemma OnlyUnrepliedPending(s: State, v: View)
    requires Inv(s, v) && !s.busy
    ensures s.got + s.h2d == Wires(s.calls[Served(s)..]) && s.d2h == [] && s.out == []
    ensures forall i :: Served(s) <= i < |s.calls| ==> s.calls[i].Kick? || s.calls[i].Invalid?
  {
    assert s.h2d + [] == s.h2d;
    assert forall i :: Served(s) <= i < |s.calls| ==> ReplySize(s.calls[i]) == 0;
  }

  /** From every state at rest a call without a reply may return before the device has seen it: its bytes
      are all on the wire then. */
  lemma RunsAhead(s: State, v: View, c: Command) returns (run: seq<State>, steps: seq<Step>)
    requires Inv(s, v) && AtRest(s) && ReplySize(c) == 0
    ensures IsPath(run, steps) && run[0] == s
    ensures var t := run[|steps|]; !t.busy && t.calls == s.calls + [c] && t.h2d == Wire(c) && t.h2d != []
  {
    var w := Wire(c);
    ParseWire(c, []);
    hide Wire;
    assert |w| == 8 && w[..8] == w && w[8..] == [] && [] + w == w;
    var s1 := After(s, Begin(c));
    var s2 := After(s1, Send(8));
    var s3 := After(s2, Return);
    run, steps := [s, s1, s2, s3], [Begin(c), Send(8), Return];
  }

  /** A path from s that makes one call, c, and ends after it has returned. */
  ghost predicate OneCall(s: State, c: Command, run: seq<State>, steps: seq<Step>) {
    IsPath(run, steps) && run[0] == s && !run[|steps|].busy && run[|steps|].calls == s.calls + [c]
  }

  /** A call from rest ends at rest on every schedule if and only if it has a reply. */
  lemma RestIffReplied(s: State, v: View, c: Command)
    requires Inv(s, v) && AtRest(s)
    ensures (forall run, steps :: OneCall(s, c, run, steps) ==> AtRest(run[|steps|])) <==> ReplySize(c) > 0
  {
    hide Inv, ReplySize;
    if ReplySize(c) > 0 {
      forall run, steps | OneCall(s, c, run, steps)
        ensures AtRest(run[|steps|])
      {
        PathInv(v, run, steps, |steps|);
        RepliedAtRest(run[|steps|], v);
      }
    } else {
      var run, steps := RunsAhead(s, v, c);
      assert OneCall(s, c, run, steps);
    }
  }

  /** The driver has known the card's partition before each of the first n commands. */
  ghost predicate Known(s: State, n: nat) {
    n <= |s.views| && forall i :: 0 <= i < n ==> s.views[i].known
  }

  /** The first n calls on the flash: what each has left behind is what a plain map would hold. */
  lemma {:induction false} FlashIsPlainMap(s: State, v: View, n: nat)
    requires Inv(s, v) && n <= Served(s) && n <= |s.answers| && Known(s, n + 1)
    ensures s.views[n].flash == PlainMap(v.flash, s.calls[..n])
  {
    if n > 0 {
      FlashIsPlainMap(s, v, n - 1);
      assert s.calls[..n][..n - 1] == s.calls[..n - 1];
      assert Turn(s.m, s.views[n - 1], s.calls[n - 1], s.views[n], s.replies[n - 1]);
      assert s.views[n - 1].known && s.views[n].known && |s.replies[n - 1]| == ReplySize(s.calls[n - 1]);
    }
  }

  /** Calls without a reply do not write. */
  lemma {:induction false} UnrepliedWriteNothing(d: Disk, calls: seq<Command>, n: nat)
    requires n <= |calls| && forall i :: n <= i < |calls| ==> calls[i].Kick? || calls[i].Invalid?
    ensures PlainMap(d, calls) == PlainMap(d, calls[..n])
  {
    if n < |calls| {
      var before := calls[..|calls| - 1];
      assert forall i :: n <= i < |before| ==> before[i] == calls[i];
      assert before[..n] == calls[..n];
      UnrepliedWriteNothing(d, before, n);
    } else {
      assert calls[..n] == calls;
    }
  }

  /** The refinement, under every interleaving: between calls, every read up to and after which the driver
      has known the card's partition has returned what the plain map of the calls before it holds, and if it
      has known the partition all the time, the flash is the plain map of all calls. */
  lemma RefinesPlainMap(m: Temper, v: View, run: seq<State>, steps: seq<Step>, n: nat)
    requires IsRun(m, v, run, steps) && n <= |steps| && !run[n].busy
    ensures var s := run[n];
            && |s.answers| == |s.calls| && |s.views| == Served(s) + 1
            && (Known(s, Served(s) + 1) ==> s.views[Served(s)].flash == PlainMap(v.flash, s.calls))
            && forall i :: 0 <= i < |s.calls| && s.calls[i].Read? && Known(s, i + 2) ==>
                 var key := Key(s.calls[i].region, s.calls[i].sector);
                 var d := PlainMap(v.flash, s.calls[..i]);
                 key in d && s.answers[i] == ToBytes(d[key])
  {
    var s := run[n];
    RunInv(m, v, run, steps, n);
    var k := Served(s);
    OnlyUnrepliedPending(s, v);
    if Known(s, k + 1) {
      FlashIsPlainMap(s, v, k);
      UnrepliedWriteNothing(v.flash, s.calls, k);
    }
    forall i | 0 <= i < |s.calls| && s.calls[i].Read? && Known(s, i + 2)
      ensures var key := Key(s.calls[i].region, s.calls[i].sector);
              var d := PlainMap(v.flash, s.calls[..i]);
              key in d && s.answers[i] == ToBytes(d[key])
    {
      assert s.views[i].known && s.views[i + 1].known;
      FlashIsPlainMap(s, v, i);
      ReadAnswered(s, v, i);
    }
  }

  lemma ReadAnswered(s: State, v: View, i: nat)
    requires Inv(s, v) && i < Served(s) && i < |s.answers| && s.calls[i].Read?
    requires s.views[i].known && s.views[i + 1].known
    ensures var key := Key(s.calls[i].region, s.calls[i].sector);
            var d := s.views[i].flash;
            key in d && s.answers[i] == ToBytes(d[key])
  {
    assert Turn(s.m, s.views[i], s.calls[i], s.views[i + 1], s.replies[i]);
    assert |s.answers[i]| == 512;
  }

  // ---- When the driver is certain to know the partition ----

  /** The partitions that the driver may believe in after some commands. */
  ghost function Believed(calls: seq<Command>, start: int): set<int> {
    if calls == [] then {start}
    else
      var c, before := calls[|calls| - 1], Believed(calls[..|calls| - 1], start);
      if c.Read? || c.Write? then {c.region as int} else if c.Init? || c.ExtCsd? then before + {PART_USER as int} else before
  }

  /** Command n may make the driver wrong about the card's partition: it initializes the card when the driver
      may believe in a boot partition, and the hardware is not candid; or it accesses a region that the driver
      may not believe in, and the card may refuse a switch. */
  ghost predicate MayLose(m: Temper, calls: seq<Command>, start: int, n: nat) {
    n < |calls|
    && var c, before := calls[n], Believed(calls[..n], start);
       if c.Read? || c.Write? then !m.obliging && before != {c.region as int}
       else (c.Init? || c.ExtCsd?) && !m.candid && before != {PART_USER as int}
  }

  /** Whatever the schedule: unless one of the calls may lose the partition, the driver knows it throughout,
      so that RefinesPlainMap holds of all of them. */
  lemma KnownUnlessLost(m: Temper, v: View, run: seq<State>, steps: seq<Step>, n: nat)
    requires IsRun(m, v, run, steps) && n <= |steps| && !run[n].busy && v.known
    requires forall i :: 0 <= i < |run[n].calls| ==> !MayLose(m, run[n].calls, v.cached, i)
    ensures Known(run[n], Served(run[n]) + 1)
  {
    var s := run[n];
    RunInv(m, v, run, steps, n);
    hide Inv, MayLose;
    forall i | 0 <= i <= Served(s)
      ensures i < |s.views| && s.views[i].known
    {
      KnownSoFar(s, v, i);
    }
  }

  lemma {:induction false} KnownSoFar(s: State, v: View, n: nat)
    requires Inv(s, v) && n <= Served(s) && n <= |s.answers| && v.known
    requires forall i :: 0 <= i < |s.calls| ==> !MayLose(s.m, s.calls, v.cached, i)
    ensures s.views[n].known && s.views[n].cached in Believed(s.calls[..n], v.cached)
  {
    if n > 0 {
      KnownSoFar(s, v, n - 1);
      assert s.calls[..n][..n - 1] == s.calls[..n - 1];
      assert !MayLose(s.m, s.calls, v.cached, n - 1);
      assert Turn(s.m, s.views[n - 1], s.calls[n - 1], s.views[n], s.replies[n - 1]);
      assert |s.replies[n - 1]| == ReplySize(s.calls[n - 1]);
    }
  }

  // ---- Calls, one after the other ----

  /** A device that has bytes of a command at hand can take them all. */
  lemma {:induction false} TakesAll(s0: State, s: State, c: Command, rest: seq<Byte>) returns (t: State)
    requires Reaches(s0, s) && s.alive && s.out == [] && s.views != [] && (s.busy ==> s.calls != [])
    requires s.got <= Wire(c) && s.got + s.h2d == Wire(c) + rest
    ensures Reaches(s0, t) && t == s.(got := Wire(c), h2d := rest)
    decreases |Wire(c)| - |s.got|
  {
    hide Reaches, Stop, Wire, Deliverable, Parse, StartsWithMagic, Turn, Serves, ReplySize;
    StopInside(s.got, c);
    if s.got == Wire(c) {
      t := s;
      Whole(Wire(c), s.h2d, rest);
    } else {
      var k := Stop(s.got) - |s.got|;
      MoreOf(s.got, s.h2d, Wire(c), rest, k);
      ReachesNext(s0, s, Take(k));
      t := TakesAll(s0, s.(h2d := s.h2d[k..], got := s.got + s.h2d[..k]), c, rest);
    }
  }

  lemma Whole(w: seq<Byte>, h2d: seq<Byte>, rest: seq<Byte>)
    requires w + h2d == w + rest
    ensures h2d == rest
  {
    assert (w + h2d)[|w|..] == h2d && (w + rest)[|w|..] == rest;
  }

  lemma MoreOf(got: seq<Byte>, h2d: seq<Byte>, w: seq<Byte>, rest: seq<Byte>, k: nat)
    requires got <= w && got + h2d == w + rest && |got| + k <= |w|
    ensures k <= |h2d| && got + h2d[..k] <= w && got + h2d[..k] + h2d[k..] == w + rest
  {
    Shifted(got, h2d, k);
    assert |got| + |h2d| == |w| + |rest|;
    assert got + h2d[..k] == (got + h2d)[..|got| + k] == (w + rest)[..|got| + k] == w[..|got| + k];
  }

  /** So it can serve a command in every way that a turn allows. */
  lemma ServesOne(s0: State, s: State, c: Command, rest: seq<Byte>, w: View, reply: seq<Byte>) returns (t: State)
    requires Reaches(s0, s) && s.alive && s.out == [] && s.got == [] && s.views != [] && (s.busy ==> s.calls != [])
    requires s.h2d == Wire(c) + rest && Turn(s.m, s.views[|s.views| - 1], c, w, reply)
    ensures Reaches(s0, t)
    ensures t == s.(h2d := rest, out := reply, views := s.views + [w], replies := s.replies + [reply])
  {
    hide Reaches, Stop, Wire, Deliverable, Parse, StartsWithMagic, Turn;
    assert [] + s.h2d == s.h2d;
    var u := TakesAll(s0, s, c, rest);
    StopInside(u.got, c);
    ReachesNext(s0, u, Serve(w, reply));
    t := After(u, Serve(w, reply));
  }

  /** Watchdog kicks are served without anything else happening. */
  lemma {:induction false} ServesKicks(s0: State, s: State, k: nat, n: nat, rest: seq<Byte>) returns (t: State)
    requires Reaches(s0, s) && s.alive && s.out == [] && s.got == [] && s.views != [] && (s.busy ==> s.calls != [])
    requires k <= n && s.h2d == Wires(Kicks(n)) + rest
    ensures Reaches(s0, t) && |t.views| == |s.views| + k && t.views[|t.views| - 1] == s.views[|s.views| - 1]
    ensures t == s.(h2d := Wires(Kicks(n - k)) + rest, views := t.views, replies := t.replies)
    decreases k
  {
    hide Reaches, Wire;
    if k == 0 {
      t := s;
    } else {
      var v := s.views[|s.views| - 1];
      assert Kicks(n)[0] == Kick && Kicks(n)[1..] == Kicks(n - 1);
      var after := Wires(Kicks(n - 1)) + rest;
      assert Wires(Kicks(n)) + rest == Wire(Kick) + after;
      var u := ServesOne(s0, s, Kick, after, v, []);
      t := ServesKicks(s0, u, k - 1, n - 1, rest);
    }
  }

  /** A host between calls whose commands have been served but for n watchdog kicks. */
  predicate Idle(s: State, n: nat) {
    !s.busy && s.alive && s.toSend == [] && s.got == [] && s.d2h == [] && s.out == [] && s.views != []
    && s.h2d == Wires(Kicks(n))
  }

  /** A call begins, and all its bytes are on the wire. */
  lemma Sends(s: State, n: nat, c: Command) returns (t: State)
    requires Idle(s, n)
    ensures Reaches(s, t) && t == s.(busy := true, received := [], calls := s.calls + [c], h2d := Wires(Kicks(n)) + Wire(c))
  {
    hide Reaches, Wire, Wires;
    var bytes := Wire(c);
    WireNotEmpty(c);
    ReachesItself(s);
    ReachesNext(s, s, Begin(c));
    ReachesNext(s, After(s, Begin(c)), Send(|bytes|));
    assert bytes[..|bytes|] == bytes && bytes[|bytes|..] == [];
    t := After(After(s, Begin(c)), Send(|bytes|));
  }

  /** A reply that the device has ready travels to the host, and the call returns. */
  lemma Returns(s0: State, s: State, reply: seq<Byte>) returns (t: State)
    requires Reaches(s0, s) && s.alive && s.busy && s.toSend == [] && s.received == [] && s.d2h == [] && s.out == reply
    requires s.calls != [] && s.views != [] && |reply| == ReplySize(s.calls[|s.calls| - 1]) > 0
    ensures Reaches(s0, t) && t == s.(out := [], received := reply, busy := false, answers := s.answers + [reply])
  {
    hide Reaches, ReplySize;
    ReachesNext(s0, s, Put(|reply|));
    var s1 := After(s, Put(|reply|));
    assert [] + reply[..|reply|] == reply && reply[|reply|..] == [];
    ReachesNext(s0, s1, Receive(|reply|));
    var s2 := After(s1, Receive(|reply|));
    ReachesNext(s0, s2, Return);
    t := After(s2, Return);
  }

  /** From between calls a call with a reply can run to its return, with every turn that the device may take. */
  lemma CallRuns(s: State, n: nat, c: Command, w: View, reply: seq<Byte>) returns (t: State)
    requires Idle(s, n) && |reply| == ReplySize(c) > 0 && Turn(s.m, s.views[|s.views| - 1], c, w, reply)
    ensures Reaches(s, t) && Idle(t, 0) && t.h2d == [] && t.views[|t.views| - 1] == w
    ensures t.m == s.m && t.calls == s.calls + [c] && t.answers == s.answers + [reply]
  {
    hide Reaches, Wire, Turn, ReplySize, Wires, After, Enabled;
    var s1 := Sends(s, n, c);
    var s2 := ServesKicks(s, s1, n, n, Wire(c));
    NoKicksLeft(Wire(c));
    assert Wire(c) + [] == Wire(c);
    var s3 := ServesOne(s, s2, c, [], w, reply);
    t := Returns(s, s3, reply);
    NoKicksLeft([]);
  }

  /** And a watchdog kick, after which some of the kicks may have been served. */
  lemma KickRuns(s: State, n: nat, k: nat) returns (t: State)
    requires Idle(s, n) && k <= n + 1
    ensures Reaches(s, t) && Idle(t, n + 1 - k) && t.views[|t.views| - 1] == s.views[|s.views| - 1]
    ensures t.m == s.m && t.calls == s.calls + [Kick] && t.answers == s.answers + [[]]
  {
    hide Reaches, Wire, Wires;
    var s1 := Sends(s, n, Kick);
    assert Kicks(n + 1) == Kicks(n) + [Kick];
    WiresAppend(Kicks(n), Kick);
    assert s1.h2d == Wires(Kicks(n + 1)) + [];
    var s2 := ServesKicks(s, s1, k, n + 1, []);
    assert s2.h2d == Wires(Kicks(n + 1 - k));
    ReachesNext(s, s2, Return);
    t := After(s2, Return);
  }

  lemma WireNotEmpty(c: Command)
    ensures |Wire(c)| > 0
  {}

  lemma NoKicksLeft(rest: seq<Byte>)
    ensures Kicks(0) == [] && Wires(Kicks(0)) + rest == rest && Wires(Kicks(0)) == []
  {}

  /** A call that waits for ever, with no step left to take, waits for an operation that failed. */
  lemma StuckOnlyOnFailure(s: State, v: View)
    requires Inv(s, v) && s.busy && forall step :: !Enabled(s, step)
    ensures Served(s) == |s.calls| && s.replies[Served(s) - 1] == []
    ensures s.calls[|s.calls| - 1].Read? || s.calls[|s.calls| - 1].Write?
  {
    assert !Enabled(s, Send(|s.toSend|)) && !Enabled(s, Put(|s.out|)) && !Enabled(s, Return);
    assert s.toSend == [] && s.out == [];
    if Served(s) < |s.calls| {
      NotStuckInside(s, v);
    } else {
      var i := Served(s) - 1;
      TurnReplySize(s.m, s.views[i], s.calls[i], s.views[i + 1], s.replies[i]);
      assert s.received + s.d2h + [] == s.replies[i];
      assert !Enabled(s, Receive(|s.d2h|));
    }
  }

  /** A device that has a command to serve can take bytes or serve it. */
  lemma NotStuckInside(s: State, v: View)
    requires Inv(s, v) && s.toSend == [] && s.out == [] && Served(s) < |s.calls|
    ensures exists step :: Enabled(s, step)
  {
    var i := Served(s);
    var c := s.calls[i];
    StopInside(s.got, c);
    if s.got == Wire(c) {
      var reply := Service(s.m, s.views[i], c);
      assert Enabled(s, Serve(s.views[i], reply));
    } else {
      assert s.h2d + [] == s.h2d;
      assert s.got + s.h2d == Wires(s.calls[i..]) == Wire(c) + Wires(s.calls[i..][1..]);
      assert |s.got| + |s.h2d| >= |Wire(c)|;
      var k := if Stop(s.got) - |s.got| <= |s.h2d| then Stop(s.got) - |s.got| else |s.h2d|;
      assert Enabled(s, Take(k));
    }
  }

  /** Every command can be served in some way. */
  lemma Service(m: Temper, v: View, c: Command) returns (reply: seq<Byte>)
    ensures Turn(m, v, c, v, reply)
  {
    reply := match c case Init => BigEndian(ACK_INIT) case ExtCsd => seq(512, _ => 0) case _ => [];
  }
}
