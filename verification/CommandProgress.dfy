/** The command list drains: every event of the host and the firmware uses up work, and none is left only when the list
    is empty. */
module CommandProgress {
  import opened Common
  import opened CommandQueue
  import opened CommandSystem
  import opened CommandInvariant

  /** How many internal events the state can still take at most. */
  function Work(s: System): nat {
    CmdWork(s.m.cmds) + |s.sending| + 5 * s.checking + 5 * s.waking + (if s.queued then 4 else 0) +
    match s.worker
    case Idle => 0
    case Reading => 3
    case Taken(_) => 2
    case Cleared(_) => 2
    case Waiting(_) => 1
  }

  function CmdWork(cmds: seq<Cmd>): nat {
    if cmds == [] then 0
    else (if cmds[0].waitPush then 20 else if cmds[0].waitCfm then 10 else 9) + CmdWork(cmds[1..])
  }

  lemma CmdWorkSplit(a: seq<Cmd>, b: seq<Cmd>)
    ensures CmdWork(a + b) == CmdWork(a) + CmdWork(b)
  {
    if a == [] {
      assert a + b == b;
    } else {
      assert (a + b)[1..] == a[1..] + b;
      CmdWorkSplit(a[1..], b);
    }
  }

  lemma CmdWorkAt(cmds: seq<Cmd>, k: nat)
    requires k < |cmds|
    ensures CmdWork(cmds) == CmdWork(cmds[..k]) + CmdWork([cmds[k]]) + CmdWork(cmds[k + 1..])
    ensures CmdWork(cmds[..k] + cmds[k + 1..]) == CmdWork(cmds) - CmdWork([cmds[k]])
    ensures forall x :: CmdWork(cmds[k := x]) == CmdWork(cmds) - CmdWork([cmds[k]]) + CmdWork([x])
  {
    assert cmds == cmds[..k] + ([cmds[k]] + cmds[k + 1..]);
    CmdWorkSplit(cmds[..k], [cmds[k]] + cmds[k + 1..]);
    CmdWorkSplit([cmds[k]], cmds[k + 1..]);
    CmdWorkSplit(cmds[..k], cmds[k + 1..]);
    forall x ensures CmdWork(cmds[k := x]) == CmdWork(cmds) - CmdWork([cmds[k]]) + CmdWork([x]) {
      assert cmds[k := x] == cmds[..k] + ([x] + cmds[k + 1..]);
      CmdWorkSplit(cmds[..k], [x] + cmds[k + 1..]);
      CmdWorkSplit([x], cmds[k + 1..]);
    }
  }

  lemma CmdWorkOne(c: Cmd)
    ensures CmdWork([c]) == if c.waitPush then 20 else if c.waitCfm then 10 else 9
  {
  }

  lemma TransmitWorks(s: System, k: nat, s': System)
    requires Transmitted(s, k, s') && (s.worker == Cleared(s.m.cmds[k].serial) ==> s.m.cmds[k].serial !in s.sending)
    ensures Work(s') < Work(s)
  {
  }

  lemma LeaveWorks(s: System, e: Event)
    requires Inv(s) && (e.DirectDone? || e.WorkDone?) && Enabled(s, e)
    ensures Work(Apply(s, e)) < Work(s)
  {
    hide IndexOf, Listed;
    var k := Position(s.m.cmds, if e.WorkDone? then s.worker.serial else e.c);
    CmdWorkAt(s.m.cmds, k);
    CmdWorkOne(s.m.cmds[k]);
    hide CmdWork;
  }

  lemma PushWorks(s: System)
    requires Inv(s) && s.worker.Taken?
    ensures Work(Apply(s, WorkClear)) < Work(s)
  {
    hide IndexOf, Listed;
    var k := Position(s.m.cmds, s.worker.serial);
    CmdWorkAt(s.m.cmds, k);
    CmdWorkOne(s.m.cmds[k]);
    CmdWorkOne(s.m.cmds[k].(waitPush := false));
    hide CmdWork;
  }

  lemma ConfirmWorks(s: System, c: nat)
    requires Inv(s) && c in s.unconfirmed
    ensures Work(Apply(s, Confirm(c))) < Work(s)
  {
    ConfirmMatches(s, c);
    hide IndexOf, FirstMatch, Listed;
    var k := Position(s.m.cmds, c);
    CmdWorkAt(s.m.cmds, k);
    CmdWorkOne(s.m.cmds[k]);
    CmdWorkOne(s.m.cmds[k].(waitCfm := false, done := true));
    hide CmdWork;
  }

  /** Every event of the host or the firmware uses up work. */
  lemma EventWorks(s: System, e: Event)
    requires Inv(s) && s.up && Internal(e) && Enabled(s, e)
    ensures Work(Apply(s, e)) < Work(s)
  {
    match e
    case DirectSend(_) => var k := SendTransmits(s, e); TransmitWorks(s, k, Apply(s, e));
    case WorkSend => var k := SendTransmits(s, e); TransmitWorks(s, k, Apply(s, e));
    case DirectDone(_) => LeaveWorks(s, e);
    case WorkDone => LeaveWorks(s, e);
    case WorkClear => PushWorks(s);
    case Confirm(c) => ConfirmWorks(s, c);
    case _ =>
  }

  /** While commands are listed, the bus is up and no wait has run out, somebody can go on. */
  lemma SomebodyCanGoOn(s: System) returns (e: Event)
    requires Inv(s) && s.up && !s.m.crashed && s.m.cmds != []
    ensures Internal(e) && Enabled(s, e)
  {
    hide IndexOf;
    var head := s.m.cmds[0];
    if head.waitPush {
      WorkerNotBehind(s);
      e := if s.checking > 0 then DirectCheck else if s.waking > 0 then Wake
           else if s.worker.Taken? then WorkClear else if s.worker.Reading? then WorkRead else WorkStart;
    } else if head.waitCfm {
      e := if head.serial in s.sending then DirectSend(head.serial)
           else if s.worker == Cleared(head.serial) then WorkSend else Confirm(head.serial);
    } else {
      e := if head.serial in s.waiting then DirectDone(head.serial) else WorkDone;
    }
  }

  lemma WorkersPosition(s: System) returns (i: nat)
    requires WorkerInv(s) && (s.worker.Cleared? || s.worker.Waiting?)
    ensures i < |s.m.cmds| && !s.m.cmds[i].waitPush
  {
    i := Position(s.m.cmds, s.worker.serial);
  }

  /** Behind a head that waits to be pushed, the worker cannot be busy with another command. */
  lemma WorkerNotBehind(s: System)
    requires Inv(s) && NextToPush(s.m.cmds).Some?
    ensures !s.worker.Cleared? && !s.worker.Waiting?
  {
    hide IndexOf;
    if s.worker.Cleared? || s.worker.Waiting? {
      var i := WorkersPosition(s);
    }
  }

  /** A run of the host and the firmware alone, no new submits. */
  ghost predicate InternalRun(s: System, es: seq<Event>, t: System)
    decreases |es|
  {
    if es == [] then s == t
    else Internal(es[0]) && Enabled(s, es[0]) && InternalRun(Apply(s, es[0]), es[1..], t)
  }

  lemma {:induction false} InternalRunKeeps(s: System, es: seq<Event>, t: System)
    requires Inv(s) && s.up && !s.m.crashed && InternalRun(s, es, t)
    ensures Inv(t) && t.up && !t.m.crashed && |es| + Work(t) <= Work(s)
    decreases |es|
  {
    if es != [] {
      EventKeeps(s, es[0]);
      EventWorks(s, es[0]);
      InternalStaysUp(s, es[0]);
      InternalRunKeeps(Apply(s, es[0]), es[1..], t);
    }
  }

  lemma InternalStaysUp(s: System, e: Event)
    requires Enabled(s, e) && Internal(e)
    ensures Apply(s, e).up == s.up && Apply(s, e).m.crashed == s.m.crashed
  {
  }

  /** The list drains: from every reachable state, whatever the order in which the host and the firmware go on, they
      stop after at most Work(s) events, and when they cannot go on every accepted command has been sent, confirmed
      and taken off the list. */
  lemma CommandsDrain(before: seq<Event>, s: System, es: seq<Event>, t: System)
    requires Run(InitialSystem, before, s) && s.up && !s.m.crashed && InternalRun(s, es, t)
    ensures |es| <= Work(s)
    ensures (forall e :: Internal(e) ==> !Enabled(t, e)) ==>
              t.m.cmds == [] && t.unconfirmed == map[] && t.sent == seq(s.m.accepted, i => i)
  {
    RunKeeps(InitialSystem, before, s);
    InternalRunKeeps(s, es, t);
    InternalAccepts(s, es, t);
    if forall e :: Internal(e) ==> !Enabled(t, e) {
      StoppedIsEmpty(t);
    }
  }

  lemma StoppedIsEmpty(t: System)
    requires Inv(t) && t.up && !t.m.crashed && forall e :: Internal(e) ==> !Enabled(t, e)
    ensures t.m.cmds == [] && t.unconfirmed == map[] && t.sent == seq(t.m.accepted, i => i)
  {
    hide ListInv, ThreadInv, WorkerInv, OwnerInv, FirmwareInv, WakeInv;
    if t.m.cmds != [] {
      var e := SomebodyCanGoOn(t);
    }
    forall c ensures c !in t.unconfirmed {
      assert c in t.unconfirmed ==> Internal(Confirm(c)) && Enabled(t, Confirm(c));
    }
  }

  lemma {:induction false} InternalAccepts(s: System, es: seq<Event>, t: System)
    requires InternalRun(s, es, t)
    ensures t.m.accepted == s.m.accepted
    decreases |es|
  {
    if es != [] {
      assert Apply(s, es[0]).m.accepted == s.m.accepted;
      InternalAccepts(Apply(s, es[0]), es[1..], t);
    }
  }
}
