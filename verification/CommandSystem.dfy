/** All interleavings of the command manager: callers that submit and wait, the worker of the command work queue,
    the firmware and its confirmations (rwnx_cmds.c).

    Every event is what one thread does between two points where another thread may run: one critical section of
    the manager's lock, or one access outside of it (clearing WAIT_PUSH, transmitting, queueing the work item). A caller
    is named by the acceptance number of its command; any number of callers run at the same time. */
module CommandSystem {
  import opened Common
  import opened CommandQueue

  datatype Worker =
    | Idle
    | Reading                 // about to look at the head of the list
    | Taken(serial: nat)      // has read the head outside the lock, WAIT_PUSH not cleared yet
    | Cleared(serial: nat)    // WAIT_PUSH cleared, not transmitted yet
    | Waiting(serial: nat)    // transmitted, waits for the completion

  datatype System = System(
    m: Manager,
    sending: set<nat>,           // callers about to transmit their own command
    waiting: set<nat>,           // callers waiting for the completion of their own command
    checking: nat,               // callers that removed their command and are about to look whether to wake the worker
    waking: nat,                 // callers that left their command to the worker and are about to wake it
    worker: Worker,
    queued: bool,                // the work item is queued
    up: bool,                    // the bus has been up all the time
    unconfirmed: map<nat, nat>,  // commands the firmware got and has not confirmed, with the confirmation they ask for
    sent: seq<nat>)              // every command the firmware got, in order

  const InitialSystem := System(InitialManager, {}, {}, 0, 0, Idle, false, true, map[], [])

  datatype Event =
    | Submit(reqid: nat, hasReply: bool, forced: bool)
    | SubmitDefer(reqid: nat)
    | DirectSend(c: nat)
    | DirectDone(c: nat)
    | DirectCheck
    | Wake
    | WorkStart
    | WorkRead
    | WorkClear
    | WorkSend
    | WorkDone
    | Confirm(c: nat)
    | DirectTimeOut(c: nat)
    | WorkTimeOut
    | Kill(c: nat)             // a fatal signal ends the caller's wait, which the source takes for a completion
    | BusDown

  predicate Internal(e: Event) {
    !(e.Submit? || e.SubmitDefer? || e.DirectTimeOut? || e.WorkTimeOut? || e.Kill? || e.BusDown?)
  }

  predicate Completed(m: Manager, c: nat) {
    exists i :: 0 <= i < |m.cmds| && m.cmds[i].serial == c && m.cmds[i].Finished()
  }

  predicate Enabled(s: System, e: Event) {
    match e
    case Submit(_, _, _) => true
    case SubmitDefer(_) => true
    case DirectSend(c) => c in s.sending
    case DirectDone(c) => c in s.waiting && Completed(s.m, c)
    case DirectCheck => s.checking > 0
    case Wake => s.waking > 0
    case WorkStart => s.queued && s.worker.Idle?
    case WorkRead => s.worker.Reading?
    case WorkClear => s.worker.Taken?
    case WorkSend => s.worker.Cleared?
    case WorkDone => s.worker.Waiting? && Completed(s.m, s.worker.serial)
    case Confirm(c) => c in s.unconfirmed
    case DirectTimeOut(c) => c in s.waiting
    case WorkTimeOut => s.worker.Waiting?
    case Kill(c) => c in s.waiting
    case BusDown => true
  }

  /** The effect of a submit on the calling thread. */
  function AfterSubmit(s: System, r: (Manager, Outcome)): System {
    match r.1
    case Direct(c) => s.(m := r.0, sending := s.sending + {c})
    case Deferred(_, wake) => s.(m := r.0, waking := s.waking + if wake then 1 else 0)
    case _ => s.(m := r.0)
  }

  /** aicwf_set_cmd_tx: with the bus down nothing leaves the host. */
  function Transmit(s: System, c: nat): System {
    var i := IndexOf(s.m.cmds, c);
    if s.up && i < |s.m.cmds| then s.(unconfirmed := s.unconfirmed[c := s.m.cmds[i].reqid], sent := s.sent + [c]) else s
  }

  function Apply(s: System, e: Event): System
    requires Enabled(s, e)
  {
    match e
    case Submit(reqid, hasReply, forced) => AfterSubmit(s, CommandQueue.Submit(s.m, reqid, hasReply, forced))
    case SubmitDefer(reqid) => AfterSubmit(s, SubmitDeferred(s.m, reqid))
    case DirectSend(c) => Transmit(s, c).(sending := s.sending - {c}, waiting := s.waiting + {c})
    case DirectDone(c) => s.(m := Remove(s.m, c), waiting := s.waiting - {c}, checking := s.checking + 1)
    case DirectCheck => s.(checking := s.checking - 1, queued := s.queued || (s.m.cmds != [] && s.up))
    case Wake => s.(waking := s.waking - 1, queued := true)
    case WorkStart => s.(queued := false, worker := Reading)
    case WorkRead =>
      (match NextToPush(s.m.cmds)
       case Some(c) => s.(worker := Taken(c))
       case None => s.(worker := Idle))
    case WorkClear => s.(m := ClearPush(s.m, s.worker.serial), worker := Cleared(s.worker.serial))
    case WorkSend => Transmit(s, s.worker.serial).(worker := Waiting(s.worker.serial))
    case WorkDone => s.(m := Remove(s.m, s.worker.serial), worker := Reading)
    case Confirm(c) => s.(m := MsgInd(s.m, s.unconfirmed[c]), unconfirmed := s.unconfirmed - {c})
    case DirectTimeOut(c) => s.(m := TimedOut(s.m, c), waiting := s.waiting - {c})
    case WorkTimeOut => s.(m := TimedOut(s.m, s.worker.serial), worker := Reading)
    case Kill(c) => s.(m := Remove(s.m, c), waiting := s.waiting - {c}, checking := s.checking + 1)
    case BusDown => s.(up := false)
  }

  // ---------------------------------------------------------------------------------------------------------
  // The invariant
  // ---------------------------------------------------------------------------------------------------------

  /** Finished commands, then at most one outstanding command, then only commands waiting to be pushed. */
  ghost predicate Shape(cmds: seq<Cmd>) {
    && (forall i :: 0 <= i < |cmds| && cmds[i].waitPush ==> cmds[i].waitCfm)
    && (forall i, j :: 0 <= i < j < |cmds| ==> cmds[i].Finished() || cmds[j].waitPush)
  }

  /** Acceptance numbers grow along the list; from the first unfinished command on they are the latest ones, without
      a gap. */
  ghost predicate Ordered(m: Manager) {
    && (forall i, j :: 0 <= i < j < |m.cmds| ==> m.cmds[i].serial < m.cmds[j].serial)
    && (forall i :: 0 <= i < |m.cmds| ==> m.cmds[i].serial < m.accepted)
    && (forall i :: 0 <= i < |m.cmds| && !m.cmds[i].Finished() ==> m.cmds[i].serial == m.accepted - |m.cmds| + i)
  }

  ghost predicate Counted(m: Manager) {
    m.queueSz == |m.cmds| <= RWNX_CMD_MAX_QUEUED && m.wakeHeld == (m.cmds != [])
  }

  ghost predicate ListInv(m: Manager) {
    Shape(m.cmds) && Ordered(m) && Counted(m)
  }

  ghost predicate AboutToSend(s: System, c: nat) {
    c in s.sending || s.worker == Cleared(c)
  }

  /** Which commands the threads stand for. */
  ghost predicate ThreadInv(s: System) {
    && (forall c <- s.sending :: c !in s.waiting)
    && (forall c <- s.sending :: Listed(s.m.cmds, c)) && (forall c <- s.waiting :: Listed(s.m.cmds, c))
    && (forall i :: 0 <= i < |s.m.cmds| && s.m.cmds[i].serial in s.sending ==> s.m.cmds[i].Outstanding())
    && (forall i :: 0 <= i < |s.m.cmds| && s.m.cmds[i].serial in s.waiting ==> !s.m.cmds[i].waitPush)
  }

  ghost predicate WorkerInv(s: System) {
    match s.worker
    case Taken(c) => NextToPush(s.m.cmds) == Some(c)
    case Cleared(c) =>
      && c !in s.sending && c !in s.waiting && Listed(s.m.cmds, c)
      && forall i :: 0 <= i < |s.m.cmds| && s.m.cmds[i].serial == c ==> s.m.cmds[i].Outstanding()
    case Waiting(c) =>
      && c !in s.sending && c !in s.waiting && Listed(s.m.cmds, c)
      && forall i :: 0 <= i < |s.m.cmds| && s.m.cmds[i].serial == c ==> !s.m.cmds[i].waitPush
    case _ => true
  }

  ghost predicate OwnedBy(s: System, c: nat) {
    c in s.sending || c in s.waiting || s.worker == Cleared(c) || s.worker == Waiting(c)
  }

  /** Until a wait has run out, every command in flight has a thread that will take it off the list. */
  ghost predicate OwnerInv(s: System) {
    !s.m.crashed ==> forall i :: 0 <= i < |s.m.cmds| && !s.m.cmds[i].waitPush ==> OwnedBy(s, s.m.cmds[i].serial)
  }

  /** What the firmware holds is outstanding in the list; with the bus up the converse holds too. */
  ghost predicate FirmwareInv(s: System) {
    && (forall c <- s.unconfirmed :: Listed(s.m.cmds, c) && !AboutToSend(s, c))
    && (forall i :: 0 <= i < |s.m.cmds| && s.m.cmds[i].serial in s.unconfirmed ==>
          s.m.cmds[i].Outstanding() && s.m.cmds[i].reqid == s.unconfirmed[s.m.cmds[i].serial])
    && (s.up ==> forall i :: 0 <= i < |s.m.cmds| && s.m.cmds[i].Outstanding() ==>
          s.m.cmds[i].serial in s.unconfirmed || AboutToSend(s, s.m.cmds[i].serial))
  }

  ghost predicate Pending(s: System, cmd: Cmd) {
    cmd.waitPush || AboutToSend(s, cmd.serial)
  }

  /** The firmware got 0, 1, 2, ..., and only the last of them can be unconfirmed; with the bus up the commands it
      has not got yet are exactly the last of the list. */
  ghost predicate SentInv(s: System) {
    && (forall i :: 0 <= i < |s.sent| ==> s.sent[i] == i)
    && (forall c <- s.unconfirmed :: c == |s.sent| - 1)
    && (s.up ==>
          && 0 <= s.m.accepted - |s.sent| <= |s.m.cmds|
          && forall i :: 0 <= i < |s.m.cmds| ==>
               (Pending(s, s.m.cmds[i]) <==> i >= |s.m.cmds| - (s.m.accepted - |s.sent|)))
  }

  /** No lost wake-up. */
  ghost predicate WakeInv(s: System) {
    s.up && NextToPush(s.m.cmds).Some? ==>
      s.queued || s.worker.Reading? || s.worker.Taken? || s.checking > 0 || s.waking > 0
  }

  ghost predicate HostInv(s: System) {
    ListInv(s.m) && ThreadInv(s) && WorkerInv(s) && OwnerInv(s)
  }

  ghost predicate Inv(s: System) {
    HostInv(s) && FirmwareInv(s) && SentInv(s) && WakeInv(s)
  }
}
