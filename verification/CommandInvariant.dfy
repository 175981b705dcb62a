/** Every event of the command manager keeps the invariant of CommandSystem, and what that means for whole runs. */
module CommandInvariant {
  import opened Common
  import opened CommandQueue
  import opened CommandSystem

  // ---------------------------------------------------------------------------------------------------------
  // Positions
  // ---------------------------------------------------------------------------------------------------------

  ghost predicate Growing(cmds: seq<Cmd>) {
    forall i, j :: 0 <= i < j < |cmds| ==> cmds[i].serial < cmds[j].serial
  }

  /** The position of a listed command. */
  lemma Position(cmds: seq<Cmd>, c: nat) returns (k: nat)
    requires Listed(cmds, c)
    ensures k == IndexOf(cmds, c) < |cmds| && cmds[k].serial == c
  {
    k := IndexOf(cmds, c);
  }

  // ---------------------------------------------------------------------------------------------------------
  // The three changes of the list, position by position
  // ---------------------------------------------------------------------------------------------------------

  ghost predicate Grown(a: seq<Cmd>, b: seq<Cmd>) {
    && |b| == |a| + 1 && (forall i :: 0 <= i < |a| ==> b[i] == a[i])
    && (forall c: nat :: Listed(a, c) ==> Listed(b, c)) && Listed(b, b[|a|].serial)
  }

  ghost predicate Replaced(a: seq<Cmd>, b: seq<Cmd>, k: nat) {
    && |b| == |a| && k < |a| && (forall i :: 0 <= i < |a| && i != k ==> b[i] == a[i])
    && b[k].serial == a[k].serial && b[k].reqid == a[k].reqid
    && (forall c: nat :: Listed(a, c) ==> Listed(b, c))
  }

  ghost predicate Shrunk(a: seq<Cmd>, b: seq<Cmd>, k: nat) {
    && k < |a| && |b| == |a| - 1 && (forall i :: 0 <= i < |b| ==> b[i] == a[if i < k then i else i + 1])
    && (forall c: nat :: Listed(a, c) && c != a[k].serial ==> Listed(b, c))
  }

  lemma AppendGrows(a: seq<Cmd>, x: Cmd)
    ensures Grown(a, a + [x])
  {
    var b := a + [x];
    assert b[|a|] == x;
    assert forall i :: 0 <= i < |a| ==> b[i] == a[i];
  }

  lemma UpdateReplaces(a: seq<Cmd>, k: nat, x: Cmd)
    requires k < |a| && x.serial == a[k].serial && x.reqid == a[k].reqid
    ensures Replaced(a, a[k := x], k)
  {
    assert forall i :: 0 <= i < |a| ==> a[k := x][i].serial == a[i].serial;
  }

  lemma DeleteShrinks(a: seq<Cmd>, k: nat)
    requires k < |a|
    ensures Shrunk(a, a[..k] + a[k + 1..], k)
  {
    var b := a[..k] + a[k + 1..];
    forall c: nat | Listed(a, c) && c != a[k].serial ensures Listed(b, c) {
      var i :| 0 <= i < |a| && a[i].serial == c;
      assert b[if i < k then i else i - 1].serial == c;
    }
  }

  /** Every listed acceptance number has been given out. */
  ghost predicate GivenOut(m: Manager) {
    && (forall c: nat :: Listed(m.cmds, c) ==> c < m.accepted)
    && (forall i :: 0 <= i < |m.cmds| ==> m.cmds[i].serial < m.accepted)
    && (forall i :: 0 <= i < |m.cmds| ==> Listed(m.cmds, m.cmds[i].serial))
  }

  lemma OrderedGivenOut(m: Manager)
    requires Ordered(m)
    ensures GivenOut(m)
  {
  }

  // ---------------------------------------------------------------------------------------------------------
  // Accepting a command
  // ---------------------------------------------------------------------------------------------------------

  /** The caller's side of an accepted submit. */
  ghost predicate Accepted(s: System, reqid: nat, push: bool, s': System) {
    && (LastIsWaiting(s.m.cmds) ==> push) && !s.m.crashed && |s.m.cmds| < RWNX_CMD_MAX_QUEUED
    && Grown(s.m.cmds, s'.m.cmds)
    && s'.m.cmds[|s.m.cmds|] == Cmd(s.m.accepted, s.m.accepted % TWO_32, reqid, push, true, false)
    && s'.m == s.m.(cmds := s'.m.cmds, accepted := s.m.accepted + 1, wakeHeld := true, queueSz := s.m.queueSz + 1)
    && s' == s.(m := s'.m, sending := s'.sending, waking := s'.waking)
    && s'.sending == (if push then s.sending else s.sending + {s.m.accepted})
    && s'.waking >= s.waking && (push && s.m.cmds == [] ==> s'.waking > 0)
  }

  lemma AcceptKeepsList(s: System, reqid: nat, push: bool, s': System)
    requires ListInv(s.m) && Accepted(s, reqid, push, s')
    ensures ListInv(s'.m)
  {
    hide Listed;
  }

  lemma AcceptKeepsThreads(s: System, reqid: nat, push: bool, s': System)
    requires ThreadInv(s) && WorkerInv(s) && GivenOut(s.m) && Accepted(s, reqid, push, s')
    ensures ThreadInv(s') && WorkerInv(s')
  {
    hide Listed, LastIsWaiting;
  }

  lemma AcceptKeepsOwner(s: System, reqid: nat, push: bool, s': System)
    requires OwnerInv(s) && Accepted(s, reqid, push, s')
    ensures OwnerInv(s')
  {
    hide Listed, LastIsWaiting;
  }

  lemma AcceptKeepsFirmware(s: System, reqid: nat, push: bool, s': System)
    requires FirmwareInv(s) && GivenOut(s.m) && Accepted(s, reqid, push, s')
    ensures FirmwareInv(s')
  {
    hide Listed, LastIsWaiting;
  }

  lemma AcceptKeepsSent(s: System, reqid: nat, push: bool, s': System)
    requires ListInv(s.m) && SentInv(s) && WorkerInv(s) && GivenOut(s.m) && Accepted(s, reqid, push, s')
    ensures SentInv(s')
  {
    hide Listed;
  }

  lemma AcceptKeepsWake(s: System, reqid: nat, push: bool, s': System)
    requires WakeInv(s) && Accepted(s, reqid, push, s')
    ensures WakeInv(s')
  {
    hide Listed, LastIsWaiting;
  }

  lemma AcceptKeeps(s: System, reqid: nat, push: bool, s': System)
    requires Inv(s) && Accepted(s, reqid, push, s')
    ensures Inv(s')
  {
    OrderedGivenOut(s.m);
    hide *;
    hide Listed;
    AcceptKeepsList(s, reqid, push, s');
    AcceptKeepsThreads(s, reqid, push, s');
    AcceptKeepsOwner(s, reqid, push, s');
    AcceptKeepsFirmware(s, reqid, push, s');
    AcceptKeepsSent(s, reqid, push, s');
    AcceptKeepsWake(s, reqid, push, s');
  }

  lemma SubmitAccepts(s: System, e: Event)
    requires Counted(s.m) && (e.Submit? || e.SubmitDefer?)
    ensures Apply(s, e) == s || (|Apply(s, e).m.cmds| == |s.m.cmds| + 1 &&
              Accepted(s, e.reqid, Apply(s, e).m.cmds[|s.m.cmds|].waitPush, Apply(s, e)))
  {
    var s' := Apply(s, e);
    if |s'.m.cmds| == |s.m.cmds| + 1 {
      AppendGrows(s.m.cmds, s'.m.cmds[|s.m.cmds|]);
    }
    hide Listed;
  }

  // ---------------------------------------------------------------------------------------------------------
  // Transmitting
  // ---------------------------------------------------------------------------------------------------------

  /** The command about to be sent is the first of the list that the firmware has not got. */
  lemma FirstPending(s: System, k: nat)
    requires ListInv(s.m) && ThreadInv(s) && WorkerInv(s) && SentInv(s) && s.up
    requires k < |s.m.cmds| && AboutToSend(s, s.m.cmds[k].serial)
    ensures s.m.cmds[k].serial == |s.sent|
    ensures forall i :: 0 <= i < |s.m.cmds| ==> (Pending(s, s.m.cmds[i]) <==> i >= k)
    ensures forall i :: k < i < |s.m.cmds| ==> s.m.cmds[i].waitPush
  {
    hide Listed;
    SendingOutstanding(s, k);
    assert s.m.cmds[k].Outstanding();
    forall i | 0 <= i < |s.m.cmds| ensures Pending(s, s.m.cmds[i]) <==> i >= k {
      assert i < k ==> s.m.cmds[i].Finished();
    }
    var first := |s.m.cmds| - (s.m.accepted - |s.sent|);
    assert Pending(s, s.m.cmds[k]);
    assert first < |s.m.cmds| && Pending(s, s.m.cmds[first]);
  }

  /** A thread has transmitted its command, the bus being up. */
  ghost predicate Transmitted(s: System, k: nat, s': System) {
    && s.up && k < |s.m.cmds| && AboutToSend(s, s.m.cmds[k].serial)
    && var c := s.m.cmds[k].serial;
    && s'.worker == (if s.worker == Cleared(c) then Waiting(c) else s.worker)
    && s' == s.(sending := s.sending - {c}, waiting := s'.waiting, worker := s'.worker,
                unconfirmed := s.unconfirmed[c := s.m.cmds[k].reqid], sent := s.sent + [c])
    && s'.waiting == (if c in s.sending then s.waiting + {c} else s.waiting)
  }

  lemma TransmitKeepsHost(s: System, k: nat, s': System)
    requires ThreadInv(s) && WorkerInv(s) && OwnerInv(s) && GivenOut(s.m) && Transmitted(s, k, s')
    ensures ThreadInv(s') && WorkerInv(s') && OwnerInv(s')
  {
    hide Listed;
  }

  lemma TransmitKeepsFirmware(s: System, k: nat, s': System)
    requires ThreadInv(s) && WorkerInv(s) && FirmwareInv(s) && GivenOut(s.m) && Ordered(s.m) && Transmitted(s, k, s')
    ensures FirmwareInv(s')
  {
    hide Listed;
  }

  lemma HeldOutstanding(s: System, c: nat) returns (i: nat)
    requires ListInv(s.m) && FirmwareInv(s) && c in s.unconfirmed
    ensures i < |s.m.cmds| && s.m.cmds[i].Outstanding() && !AboutToSend(s, s.m.cmds[i].serial)
  {
    i := Position(s.m.cmds, c);
  }

  /** A command about to be sent is the only outstanding one. */
  lemma SendingOutstanding(s: System, k: nat)
    requires ListInv(s.m) && ThreadInv(s) && WorkerInv(s)
    requires k < |s.m.cmds| && AboutToSend(s, s.m.cmds[k].serial)
    ensures forall i :: 0 <= i < |s.m.cmds| && s.m.cmds[i].Outstanding() ==> i == k
  {
    assert s.m.cmds[k].Outstanding();
  }

  /** The firmware holds nothing when a command is about to be sent. */
  lemma NothingUnconfirmed(s: System, k: nat)
    requires ListInv(s.m) && ThreadInv(s) && WorkerInv(s) && FirmwareInv(s)
    requires k < |s.m.cmds| && AboutToSend(s, s.m.cmds[k].serial)
    ensures s.unconfirmed == map[]
  {
    SendingOutstanding(s, k);
    forall c ensures c !in s.unconfirmed {
      if c in s.unconfirmed {
        var i := HeldOutstanding(s, c);
      }
    }
  }

  lemma TransmitKeepsSent(s: System, k: nat, s': System)
    requires ListInv(s.m) && ThreadInv(s) && WorkerInv(s) && FirmwareInv(s) && SentInv(s) && Transmitted(s, k, s')
    ensures SentInv(s')
  {
    FirstPending(s, k);
    NothingUnconfirmed(s, k);
    hide Listed;
  }

  lemma TransmitKeepsWake(s: System, k: nat, s': System)
    requires WakeInv(s) && Transmitted(s, k, s')
    ensures WakeInv(s')
  {
    hide Listed;
  }

  lemma TransmitKeeps(s: System, k: nat, s': System)
    requires Inv(s) && Transmitted(s, k, s')
    ensures Inv(s')
  {
    OrderedGivenOut(s.m);
    hide *;
    TransmitKeepsHost(s, k, s');
    TransmitKeepsFirmware(s, k, s');
    TransmitKeepsSent(s, k, s');
    TransmitKeepsWake(s, k, s');
  }

  /** With the bus down the thread goes on waiting all the same. */
  ghost predicate NotTransmitted(s: System, k: nat, s': System) {
    && !s.up && k < |s.m.cmds| && AboutToSend(s, s.m.cmds[k].serial)
    && var c := s.m.cmds[k].serial;
    && s'.worker == (if s.worker == Cleared(c) then Waiting(c) else s.worker)
    && s' == s.(sending := s.sending - {c}, waiting := s'.waiting, worker := s'.worker)
    && s'.waiting == (if c in s.sending then s.waiting + {c} else s.waiting)
  }

  lemma NotTransmitKeepsHost(s: System, k: nat, s': System)
    requires ThreadInv(s) && WorkerInv(s) && OwnerInv(s) && GivenOut(s.m) && NotTransmitted(s, k, s')
    ensures ThreadInv(s') && WorkerInv(s') && OwnerInv(s')
  {
    hide Listed;
  }

  lemma NotTransmitKeeps(s: System, k: nat, s': System)
    requires Inv(s) && NotTransmitted(s, k, s')
    ensures Inv(s')
  {
    OrderedGivenOut(s.m);
    NotTransmitKeepsHost(s, k, s');
    hide Listed, ThreadInv, WorkerInv, OwnerInv, Shape, Ordered, Counted;
  }

  lemma SendTransmits(s: System, e: Event) returns (k: nat)
    requires ThreadInv(s) && WorkerInv(s) && (e.DirectSend? || e.WorkSend?) && Enabled(s, e)
    ensures if s.up then Transmitted(s, k, Apply(s, e)) else NotTransmitted(s, k, Apply(s, e))
  {
    hide IndexOf;
    k := Position(s.m.cmds, if e.WorkSend? then s.worker.serial else e.c);
    hide Listed;
  }

  // ---------------------------------------------------------------------------------------------------------
  // Taking a command off the list
  // ---------------------------------------------------------------------------------------------------------

  /** A thread takes its command off the list. */
  ghost predicate Left(s: System, k: nat, s': System) {
    && Shrunk(s.m.cmds, s'.m.cmds, k)
    && var c := s.m.cmds[k].serial;
    && (c in s.waiting || s.worker == Waiting(c))
    && s'.m == s.m.(cmds := s'.m.cmds, queueSz := s.m.queueSz - 1, wakeHeld := s.m.wakeHeld && s.m.queueSz - 1 != 0)
    && s'.worker == (if s.worker == Waiting(c) then Reading else s.worker)
    && s' == s.(m := s'.m, waiting := s.waiting - {c}, checking := s'.checking, worker := s'.worker)
    && (s'.checking > s.checking || (s'.checking == s.checking && s.worker == Waiting(c)))
  }

  lemma LeaveKeepsList(s: System, k: nat, s': System)
    requires ListInv(s.m) && Left(s, k, s') && !s.m.cmds[k].waitPush
    ensures ListInv(s'.m)
  {
    hide Listed;
  }

  lemma LeaveKeepsThreads(s: System, k: nat, s': System)
    requires ThreadInv(s) && WorkerInv(s) && Growing(s.m.cmds) && Left(s, k, s') && !s.m.cmds[k].waitPush
    ensures ThreadInv(s') && WorkerInv(s')
  {
    hide Listed;
  }

  lemma LeaveKeepsOwner(s: System, k: nat, s': System)
    requires OwnerInv(s) && Growing(s.m.cmds) && Left(s, k, s')
    ensures OwnerInv(s')
  {
    hide Listed;
  }

  lemma LeaveKeepsFirmware(s: System, k: nat, s': System)
    requires FirmwareInv(s) && Left(s, k, s') && s.m.cmds[k].serial !in s.unconfirmed
    ensures FirmwareInv(s')
  {
    hide Listed;
  }

  lemma LeaveKeepsSent(s: System, k: nat, s': System)
    requires SentInv(s) && Left(s, k, s') && !Pending(s, s.m.cmds[k])
    ensures SentInv(s')
  {
    hide Listed;
  }

  lemma LeaveKeepsWake(s: System, k: nat, s': System)
    requires WakeInv(s) && Left(s, k, s')
    ensures WakeInv(s')
  {
    hide Listed;
  }

  lemma LeaverNotPending(s: System, k: nat, s': System)
    requires ThreadInv(s) && WorkerInv(s) && Left(s, k, s')
    ensures !s.m.cmds[k].waitPush && !Pending(s, s.m.cmds[k])
  {
    hide Listed;
  }

  lemma LeaveKeeps(s: System, k: nat, s': System)
    requires Inv(s) && Left(s, k, s') && s.m.cmds[k].serial !in s.unconfirmed
    ensures Inv(s')
  {
    assert Growing(s.m.cmds);
    LeaverNotPending(s, k, s');
    hide *;
    LeaveKeepsList(s, k, s');
    LeaveKeepsThreads(s, k, s');
    LeaveKeepsOwner(s, k, s');
    LeaveKeepsFirmware(s, k, s');
    LeaveKeepsSent(s, k, s');
    LeaveKeepsWake(s, k, s');
  }

  lemma RemoveLeaves(s: System, e: Event) returns (k: nat)
    requires ThreadInv(s) && WorkerInv(s) && (e.DirectDone? || e.WorkDone? || e.Kill?) && Enabled(s, e)
    ensures k < |s.m.cmds| && s.m.cmds[k].serial == (if e.WorkDone? then s.worker.serial else e.c)
    ensures Left(s, k, Apply(s, e))
  {
    hide IndexOf;
    k := Position(s.m.cmds, if e.WorkDone? then s.worker.serial else e.c);
    DeleteShrinks(s.m.cmds, k);
    hide Listed, Shrunk;
  }

  /** A finished command is not at the firmware any more. */
  lemma CompletedNotUnconfirmed(s: System, c: nat)
    requires FirmwareInv(s) && Completed(s.m, c)
    ensures c !in s.unconfirmed
  {
    hide Listed;
  }

  // ---------------------------------------------------------------------------------------------------------
  // Changing flags in place
  // ---------------------------------------------------------------------------------------------------------

  /** An outstanding command is finished, or a command changes nothing but its DONE flag. */
  lemma ReplaceKeepsList(m: Manager, b: seq<Cmd>, k: nat)
    requires ListInv(m) && Replaced(m.cmds, b, k)
    requires (m.cmds[k].Outstanding() && b[k].Finished())
             || (b[k].waitPush == m.cmds[k].waitPush && b[k].waitCfm == m.cmds[k].waitCfm)
    ensures ListInv(m.(cmds := b)) && ListInv(m.(cmds := b, crashed := true))
  {
    hide Listed;
  }

  /** The worker clears WAIT_PUSH of the head of the list. */
  ghost predicate Pushed(s: System, s': System) {
    && NextToPush(s.m.cmds).Some? && s.worker == Taken(s.m.cmds[0].serial)
    && Replaced(s.m.cmds, s'.m.cmds, 0) && s'.m.cmds[0] == s.m.cmds[0].(waitPush := false)
    && s' == s.(m := s.m.(cmds := s'.m.cmds), worker := Cleared(s.worker.serial))
  }

  lemma PushKeepsList(s: System, s': System)
    requires ListInv(s.m) && Pushed(s, s')
    ensures ListInv(s'.m)
  {
    hide Listed;
  }

  lemma PushKeepsThreads(s: System, s': System)
    requires ThreadInv(s) && WorkerInv(s) && OwnerInv(s) && Shape(s.m.cmds) && Growing(s.m.cmds)
    requires GivenOut(s.m) && Pushed(s, s')
    ensures ThreadInv(s') && WorkerInv(s') && OwnerInv(s')
  {
    hide Listed;
  }

  lemma PushKeepsFirmware(s: System, s': System)
    requires FirmwareInv(s) && Shape(s.m.cmds) && GivenOut(s.m) && Pushed(s, s')
    ensures FirmwareInv(s')
  {
    hide Listed;
  }

  lemma PushKeepsSent(s: System, s': System)
    requires SentInv(s) && WakeInv(s) && Shape(s.m.cmds) && Growing(s.m.cmds) && Pushed(s, s')
    ensures SentInv(s') && WakeInv(s')
  {
    hide Listed;
  }

  lemma PushKeeps(s: System, s': System)
    requires Inv(s) && Pushed(s, s')
    ensures Inv(s')
  {
    assert Growing(s.m.cmds);
    OrderedGivenOut(s.m);
    hide *;
    PushKeepsList(s, s');
    PushKeepsThreads(s, s');
    PushKeepsFirmware(s, s');
    PushKeepsSent(s, s');
  }

  lemma ClearPushes(s: System)
    requires WorkerInv(s) && s.worker.Taken?
    ensures Pushed(s, Apply(s, WorkClear))
  {
    hide IndexOf;
    var k := Position(s.m.cmds, s.worker.serial);
    assert k == 0;
    UpdateReplaces(s.m.cmds, 0, s.m.cmds[0].(waitPush := false));
    hide Listed;
  }

  /** The firmware's confirmation of the command at position k. */
  ghost predicate Confirmed(s: System, k: nat, s': System) {
    && Replaced(s.m.cmds, s'.m.cmds, k) && s.m.cmds[k].serial in s.unconfirmed
    && s'.m.cmds[k] == s.m.cmds[k].(waitCfm := false, done := true)
    && s' == s.(m := s.m.(cmds := s'.m.cmds), unconfirmed := s.unconfirmed - {s.m.cmds[k].serial})
  }

  lemma ConfirmKeepsThreads(s: System, k: nat, s': System)
    requires ThreadInv(s) && WorkerInv(s) && OwnerInv(s) && FirmwareInv(s)
    requires GivenOut(s.m) && Growing(s.m.cmds) && Confirmed(s, k, s')
    ensures ThreadInv(s') && WorkerInv(s') && OwnerInv(s')
  {
    hide Listed;
  }

  lemma ConfirmKeepsFirmware(s: System, k: nat, s': System)
    requires FirmwareInv(s) && SentInv(s) && WakeInv(s) && Growing(s.m.cmds) && Confirmed(s, k, s')
    ensures FirmwareInv(s') && SentInv(s') && WakeInv(s')
  {
    hide Listed;
  }

  lemma ConfirmKeeps(s: System, k: nat, s': System)
    requires Inv(s) && Confirmed(s, k, s')
    ensures Inv(s')
  {
    assert Growing(s.m.cmds);
    OrderedGivenOut(s.m);
    ReplaceKeepsList(s.m, s'.m.cmds, k);
    hide Listed, ThreadInv, WorkerInv, OwnerInv, FirmwareInv, SentInv, WakeInv, Shape, Ordered, Counted;
    ConfirmKeepsThreads(s, k, s');
    ConfirmKeepsFirmware(s, k, s');
  }

  /** The confirmation reaches the command the firmware was given, whatever the other commands ask for. */
  lemma ConfirmMatches(s: System, c: nat)
    requires Inv(s) && c in s.unconfirmed
    ensures FirstMatch(s.m.cmds, s.unconfirmed[c]) == IndexOf(s.m.cmds, c) < |s.m.cmds|
  {
    hide IndexOf, FirstMatch;
    var k := Position(s.m.cmds, c);
    hide Listed;
  }

  lemma ConfirmConfirms(s: System, c: nat) returns (k: nat)
    requires Inv(s) && c in s.unconfirmed
    ensures Confirmed(s, k, Apply(s, Confirm(c)))
  {
    ConfirmMatches(s, c);
    hide IndexOf, FirstMatch;
    k := Position(s.m.cmds, c);
    UpdateReplaces(s.m.cmds, k, s.m.cmds[k].(waitCfm := false, done := true));
    hide Listed, Replaced, ThreadInv, WorkerInv, OwnerInv, SentInv, Shape, Ordered;
  }

  /** A thread has given up waiting; only its command's DONE flag changes in the list. */
  ghost predicate GaveUp(s: System, k: nat, s': System) {
    && Replaced(s.m.cmds, s'.m.cmds, k) && s'.m.cmds[k] == s.m.cmds[k].(done := true)
    && var c := s.m.cmds[k].serial;
    && s'.worker == (if s.worker == Waiting(c) then Reading else s.worker)
    && s' == s.(m := s.m.(cmds := s'.m.cmds, crashed := true), waiting := s.waiting - {c}, worker := s'.worker)
  }

  lemma GiveUpKeepsThreads(s: System, k: nat, s': System)
    requires ThreadInv(s) && WorkerInv(s) && GaveUp(s, k, s') && !s.m.cmds[k].waitPush
    ensures ThreadInv(s') && WorkerInv(s') && OwnerInv(s')
  {
    hide Listed;
  }

  lemma GiveUpKeepsFirmware(s: System, k: nat, s': System)
    requires FirmwareInv(s) && SentInv(s) && WakeInv(s) && GaveUp(s, k, s')
    ensures FirmwareInv(s') && SentInv(s') && WakeInv(s')
  {
    hide Listed;
  }

  lemma GiveUpKeeps(s: System, k: nat, s': System)
    requires Inv(s) && GaveUp(s, k, s') && !s.m.cmds[k].waitPush
    ensures Inv(s')
  {
    ReplaceKeepsList(s.m, s'.m.cmds, k);
    hide Listed, ThreadInv, WorkerInv, OwnerInv, FirmwareInv, SentInv, WakeInv, Shape, Ordered, Counted;
    GiveUpKeepsThreads(s, k, s');
    GiveUpKeepsFirmware(s, k, s');
  }

  lemma TimeOutGivesUp(s: System, e: Event) returns (k: nat)
    requires ThreadInv(s) && WorkerInv(s) && (e.DirectTimeOut? || e.WorkTimeOut?) && Enabled(s, e)
    ensures GaveUp(s, k, Apply(s, e)) && !s.m.cmds[k].waitPush
  {
    hide IndexOf;
    k := Position(s.m.cmds, if e.WorkTimeOut? then s.worker.serial else e.c);
    UpdateReplaces(s.m.cmds, k, s.m.cmds[k].(done := true));
    hide Listed;
  }

  // ---------------------------------------------------------------------------------------------------------
  // Every event keeps the invariant
  // ---------------------------------------------------------------------------------------------------------

  /** The events that leave the list alone: waking and starting the worker, the bus going down. */
  lemma QuietKeeps(s: System, e: Event)
    requires Inv(s) && Enabled(s, e) && (e.DirectCheck? || e.Wake? || e.WorkStart? || e.BusDown?)
    ensures Inv(Apply(s, e))
  {
    hide Listed, ListInv;
  }

  lemma ReadKeeps(s: System)
    requires Inv(s) && s.worker.Reading?
    ensures Inv(Apply(s, WorkRead))
  {
    hide Listed, ListInv;
  }

  /** A fatal signal must not end the wait for a command the firmware still holds. */
  predicate Allowed(s: System, e: Event) {
    Enabled(s, e) && (e.Kill? ==> e.c !in s.unconfirmed)
  }

  lemma EventKeeps(s: System, e: Event)
    requires Inv(s) && Allowed(s, e)
    ensures Inv(Apply(s, e))
  {
    match e
    case Submit(_, _, _) => SubmitKeeps(s, e);
    case SubmitDefer(_) => SubmitKeeps(s, e);
    case DirectSend(_) => SendKeeps(s, e);
    case WorkSend => SendKeeps(s, e);
    case DirectDone(_) => RemoveKeeps(s, e);
    case WorkDone => RemoveKeeps(s, e);
    case Kill(_) => RemoveKeeps(s, e);
    case WorkClear => ClearPushes(s); PushKeeps(s, Apply(s, e));
    case Confirm(c) => var k := ConfirmConfirms(s, c); ConfirmKeeps(s, k, Apply(s, e));
    case DirectTimeOut(_) => var k := TimeOutGivesUp(s, e); GiveUpKeeps(s, k, Apply(s, e));
    case WorkTimeOut => var k := TimeOutGivesUp(s, e); GiveUpKeeps(s, k, Apply(s, e));
    case WorkRead => ReadKeeps(s);
    case _ => QuietKeeps(s, e);
  }

  lemma SubmitKeeps(s: System, e: Event)
    requires Inv(s) && (e.Submit? || e.SubmitDefer?)
    ensures Inv(Apply(s, e))
  {
    SubmitAccepts(s, e);
    hide *;
    if Apply(s, e) != s {
      AcceptKeeps(s, e.reqid, Apply(s, e).m.cmds[|s.m.cmds|].waitPush, Apply(s, e));
    }
  }

  lemma SendKeeps(s: System, e: Event)
    requires Inv(s) && (e.DirectSend? || e.WorkSend?) && Enabled(s, e)
    ensures Inv(Apply(s, e))
  {
    var k := SendTransmits(s, e);
    hide *;
    if s.up {
      TransmitKeeps(s, k, Apply(s, e));
    } else {
      NotTransmitKeeps(s, k, Apply(s, e));
    }
  }

  lemma RemoveKeeps(s: System, e: Event)
    requires Inv(s) && (e.DirectDone? || e.WorkDone? || e.Kill?) && Allowed(s, e)
    ensures Inv(Apply(s, e))
  {
    var k := RemoveLeaves(s, e);
    hide Listed, ThreadInv, WorkerInv, OwnerInv, FirmwareInv, SentInv, WakeInv, Shape, Ordered, Left;
    if !e.Kill? {
      CompletedNotUnconfirmed(s, s.m.cmds[k].serial);
    }
    LeaveKeeps(s, k, Apply(s, e));
  }

  // ---------------------------------------------------------------------------------------------------------
  // Whole runs
  // ---------------------------------------------------------------------------------------------------------

  /** The state after a run, as long as every event of it is allowed. */
  ghost predicate Run(s: System, es: seq<Event>, t: System)
    decreases |es|
  {
    if es == [] then s == t
    else Allowed(s, es[0]) && Run(Apply(s, es[0]), es[1..], t)
  }

  lemma {:induction false} RunKeeps(s: System, es: seq<Event>, t: System)
    requires Inv(s) && Run(s, es, t)
    ensures Inv(t)
    decreases |es|
  {
    if es != [] {
      EventKeeps(s, es[0]);
      RunKeeps(Apply(s, es[0]), es[1..], t);
    }
  }

  /** In every interleaving the list is k finished commands, at most one outstanding one, then commands waiting to be
      pushed; the count is its length and within the limit; the wake lock is held exactly while it is not empty. */
  lemma ListShape(es: seq<Event>, t: System) returns (k: nat)
    requires Run(InitialSystem, es, t)
    ensures k <= |t.m.cmds| && (forall i :: 0 <= i < k ==> t.m.cmds[i].Finished())
    ensures k < |t.m.cmds| ==> !t.m.cmds[k].Finished()
    ensures forall i :: k < i < |t.m.cmds| ==> t.m.cmds[i].waitPush
    ensures t.m.queueSz == |t.m.cmds| <= RWNX_CMD_MAX_QUEUED && t.m.wakeHeld == (t.m.cmds != [])
  {
    RunKeeps(InitialSystem, es, t);
    k := 0;
    while k < |t.m.cmds| && t.m.cmds[k].Finished()
      invariant k <= |t.m.cmds| && forall i :: 0 <= i < k ==> t.m.cmds[i].Finished()
    {
      k := k + 1;
    }
  }

  /** The firmware gets the commands in the order of their acceptance, none skipped, and holds at most one unconfirmed:
      the last it got. */
  lemma OneAtATimeInOrder(es: seq<Event>, t: System)
    requires Run(InitialSystem, es, t)
    ensures t.sent == seq(|t.sent|, i => i)
    ensures t.unconfirmed == map[] || (t.sent != [] && t.unconfirmed.Keys == {|t.sent| - 1})
  {
    hide Run, HostInv, FirmwareInv, SentInv, WakeInv;
    StartIsOk();
    RunKeeps(InitialSystem, es, t);
    SentInOrder(t);
  }

  lemma StartIsOk()
    ensures Inv(InitialSystem)
  {
  }

  lemma SentInOrder(t: System)
    requires SentInv(t)
    ensures t.sent == seq(|t.sent|, i => i)
    ensures t.unconfirmed == map[] || (t.sent != [] && t.unconfirmed.Keys == {|t.sent| - 1})
  {
    if t.unconfirmed != map[] {
      var c :| c in t.unconfirmed;
      assert c == |t.sent| - 1;
    }
  }

  /** The confirmation of the command the firmware holds always finds that command, even when commands behind it ask for
      the same confirmation. */
  lemma ConfirmationFindsItsCommand(es: seq<Event>, t: System, c: nat)
    requires Run(InitialSystem, es, t) && c in t.unconfirmed
    ensures var i := FirstMatch(t.m.cmds, t.unconfirmed[c]); i < |t.m.cmds| && t.m.cmds[i].serial == c
  {
    RunKeeps(InitialSystem, es, t);
    ConfirmMatches(t, c);
  }

  /** No lost wake-up: as long as the bus stays up, a head that waits to be pushed has somebody on the way to push
      it. */
  lemma NoLostWakeUp(es: seq<Event>, t: System)
    requires Run(InitialSystem, es, t) && t.up && NextToPush(t.m.cmds).Some?
    ensures t.queued || t.worker.Reading? || t.worker == Taken(t.m.cmds[0].serial) || t.checking > 0 || t.waking > 0
  {
    RunKeeps(InitialSystem, es, t);
  }
}
