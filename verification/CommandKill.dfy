/** What a fatal signal to a waiting caller does.  wait_for_completion_killable_timeout answers the signal with a
    negative number, which the source takes for a completion: it removes the command, whether the firmware holds it
    or not. */
module CommandKill {
  import opened Common
  import opened CommandQueue
  import opened CommandSystem
  import opened CommandInvariant

  /** wait_for_completion_killable_timeout answers a fatal signal with a negative number, which the source takes for
      a completion and removes the command.  The invariant survives exactly when the firmware does not hold the
      command. */
  lemma KillKeepsExactlyWhenConfirmed(s: System, c: nat)
    requires Inv(s) && Enabled(s, Kill(c))
    ensures Inv(Apply(s, Kill(c))) <==> c !in s.unconfirmed
  {
    if c !in s.unconfirmed {
      EventKeeps(s, Kill(c));
    } else {
      var k := RemoveLeaves(s, Kill(c));
      GrowingOnce(s.m.cmds, k);
    }
  }

  lemma GrowingOnce(a: seq<Cmd>, k: nat)
    requires Growing(a) && k < |a|
    ensures !Listed(a[..k] + a[k + 1..], a[k].serial)
  {
    var b := a[..k] + a[k + 1..];
    forall i | 0 <= i < |b| ensures b[i].serial != a[k].serial {
      assert b[i] == a[if i < k then i else i + 1];
    }
  }

  /** In every such state the next command finds no outstanding one, and the firmware ends up with two. */
  lemma KilledCallerLetsTwoCommandsIn(s: System, c: nat, reqid: nat)
    requires Inv(s) && s.up && !s.m.crashed && c in s.waiting && c in s.unconfirmed
    requires s.m.cmds[|s.m.cmds| - 1].serial == c
    ensures var s1 := Apply(s, Kill(c));
            var s2 := Apply(s1, Event.Submit(reqid, false, false));
            Enabled(s2, DirectSend(s.m.accepted)) &&
            Apply(s2, DirectSend(s.m.accepted)).unconfirmed.Keys == {c, s.m.accepted} && c != s.m.accepted
  {
    var cmds := s.m.cmds[..|s.m.cmds| - 1];
    var s1 := Apply(s, Kill(c));
    LastRemoved(s, c);
    assert s.unconfirmed.Keys == {c} by {
      assert forall d <- s.unconfirmed :: d == |s.sent| - 1;
    }
    hide ThreadInv, WorkerInv, OwnerInv, FirmwareInv, SentInv, WakeInv;
    var s2 := Apply(s1, Event.Submit(reqid, false, false));
    var added := Cmd(s.m.accepted, s.m.accepted % TWO_32, reqid, false, true, false);
    assert s2.m.cmds == cmds + [added];
    LastIndex(cmds, added);
  }

  lemma LastRemoved(s: System, c: nat)
    requires Inv(s) && Enabled(s, Kill(c)) && s.m.cmds != [] && s.m.cmds[|s.m.cmds| - 1].serial == c
    requires s.m.cmds[|s.m.cmds| - 1].Outstanding()
    ensures Apply(s, Kill(c)).m.cmds == s.m.cmds[..|s.m.cmds| - 1]
    ensures !LastIsWaiting(Apply(s, Kill(c)).m.cmds)
  {
    hide IndexOf, Listed;
    var n := |s.m.cmds| - 1;
    assert IndexOf(s.m.cmds, c) == n by {
      var k := IndexOf(s.m.cmds, c);
    }
    assert s.m.cmds[..n] + s.m.cmds[n + 1..] == s.m.cmds[..n];
  }

  lemma LastIndex(cmds: seq<Cmd>, added: Cmd)
    requires forall i :: 0 <= i < |cmds| ==> cmds[i].serial < added.serial
    ensures IndexOf(cmds + [added], added.serial) == |cmds|
  {
    var b := cmds + [added];
    assert b[|cmds|] == added;
    assert forall i :: 0 <= i < |cmds| ==> b[i] == cmds[i];
    hide IndexOf;
    var k := IndexOf(b, added.serial);
  }

  // ---------------------------------------------------------------------------------------------------------
  // When the firmware can end up with two commands
  // ---------------------------------------------------------------------------------------------------------

  /** The caller can tell from its command's flags whether the firmware still holds it. */
  lemma HeldIsNotCompleted(s: System, c: nat)
    requires Inv(s) && s.up && c in s.waiting
    ensures c in s.unconfirmed <==> !Completed(s.m, c)
  {
    hide IndexOf, OwnerInv, SentInv, WakeInv;
    var k := Position(s.m.cmds, c);
    GrowingAt(s.m.cmds, k);
  }

  lemma GrowingAt(cmds: seq<Cmd>, k: nat)
    requires Growing(cmds) && k < |cmds|
    ensures forall i :: 0 <= i < |cmds| && cmds[i].serial == cmds[k].serial ==> i == k
  {
    forall i | 0 <= i < |cmds| && cmds[i].serial == cmds[k].serial ensures i == k {
      if i < k { } else if k < i { }
    }
  }

  /** Commands behind c wait to be pushed, and each one before it has a thread that will take it off the list. */
  ghost predicate WorkerGetsPast(s: System, c: nat) {
    var k := IndexOf(s.m.cmds, c);
    k < |s.m.cmds| - 1 && forall i :: 0 <= i < k ==> OwnedBy(s, s.m.cmds[i].serial)
  }

  /** The bus is up, the firmware holds c, and the next command can come either from a new caller, as long as no wait
      has run out, or from the list. */
  ghost predicate Exposed(s: System, c: nat) {
    s.up && c in s.unconfirmed && (!s.m.crashed || WorkerGetsPast(s, c))
  }

  /** A finished command with a thread that will take it off the list. */
  ghost predicate Manned(s: System, cmd: Cmd) {
    cmd.Finished() && (cmd.serial in s.waiting || s.worker == Waiting(cmd.serial))
  }

  /** The worker is not on its way to the firmware, and waits at most for one of the first k commands. */
  ghost predicate WorkerFree(s: System, k: nat) {
    && !s.worker.Taken? && !s.worker.Cleared?
    && (s.worker.Waiting? ==>
          && s.worker.serial !in s.waiting
          && exists i :: 0 <= i < k && i < |s.m.cmds| && s.m.cmds[i].serial == s.worker.serial)
  }

  /** After c was removed: k finished commands with their threads, then those that wait to be pushed. */
  ghost predicate Draining(s: System, c: nat, k: nat) {
    && s.up && s.checking > 0 && s.unconfirmed.Keys == {c} && k < |s.m.cmds|
    && Growing(s.m.cmds) && !Listed(s.m.cmds, c)
    && (forall i :: 0 <= i < k ==> Manned(s, s.m.cmds[i]))
    && s.m.cmds[k].waitPush && WorkerFree(s, k)
  }

  /** The worker gets to the first waiting command and hands it to the firmware. */
  lemma {:induction false} DrainingReaches(s: System, c: nat, k: nat) returns (es: seq<Event>, t: System)
    requires Draining(s, c, k)
    ensures Run(s, es, t) && |t.unconfirmed| >= 2
    decreases k
  {
    if k == 0 {
      es, t := PushingReaches(s, c);
    } else {
      var e, s' := DrainOne(s, c, k);
      es, t := DrainingReaches(s', c, k - 1);
      es := [e] + es;
    }
  }

  lemma DrainOne(s: System, c: nat, k: nat) returns (e: Event, s': System)
    requires Draining(s, c, k) && k > 0
    ensures Allowed(s, e) && s' == Apply(s, e) && Draining(s', c, k - 1)
  {
    hide IndexOf, Listed, Growing, WorkerFree, Remove;
    var head := s.m.cmds[0].serial;
    assert Manned(s, s.m.cmds[0]) && Completed(s.m, head);
    HeadRemoved(s.m);
    var m := Remove(s.m, head);
    if head in s.waiting {
      e, s' := DirectDone(head), s.(m := m, waiting := s.waiting - {head}, checking := s.checking + 1);
    } else {
      e, s' := WorkDone, s.(m := m, worker := Reading);
    }
    FirstGone(s, s', c, k);
  }

  lemma HeadRemoved(m: Manager)
    requires m.cmds != []
    ensures Remove(m, m.cmds[0].serial).cmds == m.cmds[1..]
  {
    HeadIsFirst(m.cmds);
  }

  lemma FirstGone(s: System, s': System, c: nat, k: nat)
    requires Draining(s, c, k) && k > 0
    requires s'.up && s'.checking > 0 && s'.unconfirmed == s.unconfirmed && s'.m.cmds == s.m.cmds[1..]
    requires s.waiting - {s.m.cmds[0].serial} <= s'.waiting
    requires s'.waiting <= s.waiting
    requires if s.m.cmds[0].serial in s.waiting then s'.worker == s.worker else s'.worker.Reading?
    ensures Draining(s', c, k - 1)
  {
    var cmds := s.m.cmds;
    GrowingAt(cmds, 0);
    NotListedInTail(cmds, c);
    GrowingTail(cmds);
    hide Listed, Growing;
    forall i | 0 <= i < k - 1 ensures Manned(s', s'.m.cmds[i]) {
      assert Manned(s, cmds[0]) && Manned(s, cmds[i + 1]) && cmds[i + 1].serial != cmds[0].serial;
    }
    if s'.worker.Waiting? {
      var i :| 0 <= i < k && cmds[i].serial == s.worker.serial;
      assert s'.m.cmds[i - 1].serial == s'.worker.serial;
    }
  }

  lemma GrowingTail(cmds: seq<Cmd>)
    requires cmds != [] && Growing(cmds)
    ensures Growing(cmds[1..])
  {
  }

  lemma NotListedInTail(cmds: seq<Cmd>, c: nat)
    requires cmds != [] && !Listed(cmds, c)
    ensures !Listed(cmds[1..], c)
  {
    forall i | 0 <= i < |cmds[1..]| ensures cmds[1..][i].serial != c {
      assert cmds[1..][i] == cmds[i + 1];
    }
  }

  lemma HeadIsFirst(cmds: seq<Cmd>)
    requires cmds != []
    ensures IndexOf(cmds, cmds[0].serial) == 0 && cmds[..0] + cmds[1..] == cmds[1..]
  {
  }

  lemma PushingReaches(s: System, c: nat) returns (es: seq<Event>, t: System)
    requires Draining(s, c, 0)
    ensures Run(s, es, t) && |t.unconfirmed| >= 2
  {
    hide IndexOf;
    var head := s.m.cmds[0].serial;
    var r, before := ReadingReached(s, c);
    hide Draining, WorkerFree, Listed;
    var t1 := Apply(r, WorkRead);
    HeadIsFirst(t1.m.cmds);
    var t2 := Apply(t1, WorkClear);
    HeadIsFirst(t2.m.cmds);
    t := Apply(t2, WorkSend);
    TwoKeys(t.unconfirmed, c, head);
    es := before + [WorkRead, WorkClear, WorkSend];
    OneEvent(t2, WorkSend);
    assert Run(t1, [WorkClear] + [WorkSend], t);
    assert Run(r, [WorkRead] + ([WorkClear] + [WorkSend]), t);
    assert [WorkRead] + ([WorkClear] + [WorkSend]) == [WorkRead, WorkClear, WorkSend];
    RunJoined(s, before, r, [WorkRead, WorkClear, WorkSend], t);
  }

  lemma OneEvent(s: System, e: Event)
    requires Allowed(s, e)
    ensures Run(s, [e], Apply(s, e))
  {
  }

  lemma TwoKeys(m: map<nat, nat>, a: nat, b: nat)
    requires a in m && b in m && a != b
    ensures |m| >= 2
  {
    assert |m.Keys - {a}| >= |{b}| by {
      assert b in m.Keys - {a};
    }
    assert |m.Keys| == |m|;
  }

  /** The worker comes to look at the list. */
  lemma ReadingReached(s: System, c: nat) returns (r: System, es: seq<Event>)
    requires Draining(s, c, 0)
    ensures Run(s, es, r) && r.worker.Reading? && r.m == s.m && r.up && r.unconfirmed == s.unconfirmed
    ensures NextToPush(s.m.cmds) == Some(s.m.cmds[0].serial) && s.m.cmds[0].serial != c && c in s.unconfirmed
  {
    assert s.m.cmds[0].serial != c;
    if s.worker.Reading? {
      return s, [];
    }
    var s1 := Apply(s, DirectCheck);
    r := Apply(s1, WorkStart);
    es := [DirectCheck, WorkStart];
    assert Run(s1, [WorkStart], r);
  }

  lemma {:induction false} RunJoined(s: System, es: seq<Event>, r: System, more: seq<Event>, t: System)
    requires Run(s, es, r) && Run(r, more, t)
    ensures Run(s, es + more, t)
    decreases |es|
  {
    if es == [] {
      assert es + more == more;
    } else {
      RunJoined(Apply(s, es[0]), es[1..], r, more, t);
      assert (es + more)[1..] == es[1..] + more;
    }
  }

  /** With commands waiting behind c, its removal leaves the list to the worker. */
  lemma KillDrains(s: System, c: nat)
    requires Inv(s) && Enabled(s, Kill(c)) && s.up && c in s.unconfirmed && WorkerGetsPast(s, c)
    ensures Draining(Apply(s, Kill(c)), c, IndexOf(s.m.cmds, c))
  {
    hide IndexOf, Inv;
    var t := Apply(s, Kill(c));
    var k := HeldPosition(s, c);
    FinishedBefore(s, k);
    WorkerBehindKill(s, c, k);
    GrowingOnce(s.m.cmds, k);
    GrowingWithout(s.m.cmds, k);
    hide Listed, Growing, WorkerFree;
    assert t.m.cmds == s.m.cmds[..k] + s.m.cmds[k + 1..];
    assert forall i :: 0 <= i < k ==> t.m.cmds[i] == s.m.cmds[i];
    assert t.m.cmds[k] == s.m.cmds[k + 1];
    StillFree(s, t, k);
  }

  lemma StillFree(s: System, t: System, k: nat)
    requires WorkerFree(s, k) && t.worker == s.worker && t.waiting <= s.waiting && k < |t.m.cmds|
    requires k <= |s.m.cmds| && forall i :: 0 <= i < k ==> t.m.cmds[i] == s.m.cmds[i]
    ensures WorkerFree(t, k)
  {
    if t.worker.Waiting? {
      var i :| 0 <= i < k && s.m.cmds[i].serial == s.worker.serial;
      assert t.m.cmds[i].serial == t.worker.serial;
    }
  }

  lemma GrowingWithout(cmds: seq<Cmd>, k: nat)
    requires Growing(cmds) && k < |cmds|
    ensures Growing(cmds[..k] + cmds[k + 1..])
  {
  }

  lemma HeldPosition(s: System, c: nat) returns (k: nat)
    requires Inv(s) && c in s.unconfirmed
    ensures k == IndexOf(s.m.cmds, c) < |s.m.cmds| && s.m.cmds[k].serial == c && s.m.cmds[k].Outstanding()
    ensures s.unconfirmed.Keys == {c} && Growing(s.m.cmds)
    ensures forall i :: k < i < |s.m.cmds| ==> s.m.cmds[i].waitPush
  {
    k := Position(s.m.cmds, c);
    assert forall d <- s.unconfirmed :: d == c;
  }

  /** The commands before an outstanding one are finished, and only a waiting thread can stand for them. */
  lemma FinishedBefore(s: System, k: nat)
    requires Inv(s) && k < |s.m.cmds| && s.m.cmds[k].Outstanding()
    ensures forall i :: 0 <= i < k ==> s.m.cmds[i].Finished()
    ensures forall i :: 0 <= i < k && OwnedBy(s, s.m.cmds[i].serial) ==>
              s.m.cmds[i].serial in s.waiting || s.worker == Waiting(s.m.cmds[i].serial)
  {
    hide Listed;
  }

  /** While a caller waits for an outstanding command, the worker is not on its way to the firmware. */
  lemma WorkerBehindKill(s: System, c: nat, k: nat)
    requires Inv(s) && c in s.waiting && k < |s.m.cmds| && s.m.cmds[k].serial == c && s.m.cmds[k].Outstanding()
    ensures s.sending == {} && WorkerFree(s, k)
  {
    hide IndexOf;
    GrowingAt(s.m.cmds, k);
    forall d ensures d !in s.sending {
      if d in s.sending { var i := ListedAt(s, d); }
    }
    if s.worker.Waiting? || s.worker.Cleared? {
      var i := ListedAt(s, s.worker.serial);
    }
  }

  lemma ListedAt(s: System, d: nat) returns (i: nat)
    requires Inv(s) && (d in s.sending || s.worker == Waiting(d) || s.worker == Cleared(d))
    ensures i < |s.m.cmds| && s.m.cmds[i].serial == d && d !in s.waiting
    ensures d in s.sending || s.worker == Cleared(d) ==> s.m.cmds[i].Outstanding()
    ensures s.worker == Waiting(d) ==> !s.m.cmds[i].waitPush
  {
    i := Position(s.m.cmds, d);
  }

  // ---------------------------------------------------------------------------------------------------------
  // When it cannot
  // ---------------------------------------------------------------------------------------------------------

  /** A command that nobody will take off the list stands before all that wait to be pushed. */
  ghost predicate StuckAt(s: System, k: nat) {
    && k < |s.m.cmds| && !OwnedBy(s, s.m.cmds[k].serial)
    && forall i :: 0 <= i <= k ==> !s.m.cmds[i].waitPush
  }

  ghost predicate NobodySends(s: System) {
    s.m.crashed && s.sending == {} && !s.worker.Taken? && !s.worker.Cleared?
  }

  ghost predicate NothingToPush(s: System) {
    (forall cmd <- s.m.cmds :: !cmd.waitPush) || exists k :: StuckAt(s, k)
  }

  /** No thread is on its way to the firmware, and none will be. */
  ghost predicate Closed(s: System) {
    !s.up || (NobodySends(s) && NothingToPush(s))
  }

  lemma NobodyStartsSending(s: System, e: Event)
    requires NobodySends(s) && NothingToPush(s) && Enabled(s, e)
    ensures NobodySends(Apply(s, e)) && Apply(s, e).unconfirmed.Keys <= s.unconfirmed.Keys
  {
    hide IndexOf, FirstMatch;
  }

  predicate Removes(e: Event) {
    e.DirectDone? || e.Kill? || e.WorkDone?
  }

  predicate SameMarks(a: seq<Cmd>, b: seq<Cmd>) {
    |a| == |b| && forall i :: 0 <= i < |a| ==> a[i].serial == b[i].serial && a[i].waitPush == b[i].waitPush
  }

  lemma MarksStay(s: System, e: Event)
    requires NobodySends(s) && Enabled(s, e) && !Removes(e)
    ensures SameMarks(s.m.cmds, Apply(s, e).m.cmds)
    ensures forall d :: OwnedBy(Apply(s, e), d) ==> OwnedBy(s, d)
  {
    hide IndexOf, FirstMatch;
  }

  lemma NothingComesToPush(s: System, e: Event)
    requires NobodySends(s) && NothingToPush(s) && Enabled(s, e)
    ensures NothingToPush(Apply(s, e))
  {
    if Removes(e) {
      RemovalLeavesNothing(s, e);
    } else {
      MarksStay(s, e);
      hide Apply, OwnedBy;
      if !(forall cmd <- s.m.cmds :: !cmd.waitPush) {
        var k: nat :| StuckAt(s, k);
        assert StuckAt(Apply(s, e), k);
      }
    }
  }

  lemma RemovalLeavesNothing(s: System, e: Event)
    requires NobodySends(s) && NothingToPush(s) && Enabled(s, e) && Removes(e)
    ensures NothingToPush(Apply(s, e))
  {
    hide IndexOf;
    if !(forall cmd <- s.m.cmds :: !cmd.waitPush) {
      var k: nat :| StuckAt(s, k);
      k := StillStuck(s, if e.WorkDone? then s.worker.serial else e.c, k);
      assert StuckAt(Apply(s, e), k);
    }
  }

  lemma EventStaysClosed(s: System, e: Event)
    requires Closed(s) && Enabled(s, e)
    ensures Closed(Apply(s, e)) && Apply(s, e).unconfirmed.Keys <= s.unconfirmed.Keys
  {
    hide IndexOf, FirstMatch, NobodySends, NothingToPush;
    if s.up {
      NobodyStartsSending(s, e);
      NothingComesToPush(s, e);
      hide Apply, Enabled;
    }
  }

  /** Taking another command off the list leaves the stuck one before the others. */
  lemma StillStuck(s: System, d: nat, k: nat) returns (l: nat)
    requires StuckAt(s, k) && OwnedBy(s, d)
    ensures var cmds := Remove(s.m, d).cmds;
            l < |cmds| && cmds[l].serial == s.m.cmds[k].serial && forall i :: 0 <= i <= l ==> !cmds[i].waitPush
  {
    var i := IndexOf(s.m.cmds, d);
    l := if i < k then k - 1 else k;
  }

  lemma {:induction false} StaysClosed(s: System, es: seq<Event>, t: System)
    requires Closed(s) && Run(s, es, t)
    ensures t.unconfirmed.Keys <= s.unconfirmed.Keys
    decreases |es|
  {
    hide Closed;
    if es != [] {
      EventStaysClosed(s, es[0]);
      StaysClosed(Apply(s, es[0]), es[1..], t);
    }
  }

  lemma KillCloses(s: System, c: nat)
    requires Inv(s) && Enabled(s, Kill(c)) && c in s.unconfirmed && !Exposed(s, c)
    ensures Closed(Apply(s, Kill(c)))
  {
    hide IndexOf, Inv;
    if s.up {
      var k := HeldPosition(s, c);
      WorkerBehindKill(s, c, k);
      FinishedBefore(s, k);
      var t := Apply(s, Kill(c));
      assert forall i :: 0 <= i < |t.m.cmds| ==> t.m.cmds[i] == s.m.cmds[if i < k then i else i + 1];
      if k < |s.m.cmds| - 1 {
        var i :| 0 <= i < k && !OwnedBy(s, s.m.cmds[i].serial);
        assert StuckAt(t, i);
      }
    }
  }

  /** A new caller finds nothing outstanding and transmits at once. */
  lemma NewCallerReaches(s: System, c: nat) returns (es: seq<Event>, t: System)
    requires Inv(s) && Enabled(s, Kill(c)) && s.up && !s.m.crashed && c in s.unconfirmed
    requires IndexOf(s.m.cmds, c) == |s.m.cmds| - 1
    ensures Run(Apply(s, Kill(c)), es, t) && |t.unconfirmed| >= 2
  {
    hide IndexOf, Inv;
    var k := HeldPosition(s, c);
    KilledCallerLetsTwoCommandsIn(s, c, 0);
    var s1 := Apply(s, Kill(c));
    var submit := Event.Submit(0, false, false);
    var s2 := Apply(s1, submit);
    t := Apply(s2, DirectSend(s.m.accepted));
    OneEvent(s2, DirectSend(s.m.accepted));
    es := [submit] + [DirectSend(s.m.accepted)];
    assert Run(s1, es, t);
    TwoKeys(t.unconfirmed, c, s.m.accepted);
  }

  lemma AllOwned(s: System, c: nat)
    requires Inv(s) && !s.m.crashed && c in s.unconfirmed && IndexOf(s.m.cmds, c) < |s.m.cmds| - 1
    ensures WorkerGetsPast(s, c)
  {
    hide IndexOf;
    var k := HeldPosition(s, c);
    FinishedBefore(s, k);
  }

  /** The removal of c can lead to two commands at the firmware, by events that may always happen and without a
      second signal of this kind, exactly when c is exposed: with the bus down, with c confirmed, or after a wait has
      run out with nothing behind c that the worker can get to, it cannot. */
  lemma KillLetsTwoInExactlyWhenExposed(s: System, c: nat)
    requires Inv(s) && Enabled(s, Kill(c))
    ensures (exists es, t :: Run(Apply(s, Kill(c)), es, t) && |t.unconfirmed| >= 2) <==> Exposed(s, c)
  {
    hide IndexOf, Inv, Exposed, Apply, Run;
    if Exposed(s, c) {
      var es, t := ExposedReaches(s, c);
    } else {
      forall es, t | Run(Apply(s, Kill(c)), es, t) ensures |t.unconfirmed| <= 1 {
        AtMostOne(s, c, es, t);
      }
    }
  }

  lemma ExposedReaches(s: System, c: nat) returns (es: seq<Event>, t: System)
    requires Inv(s) && Enabled(s, Kill(c)) && Exposed(s, c)
    ensures Run(Apply(s, Kill(c)), es, t) && |t.unconfirmed| >= 2
  {
    hide IndexOf, Inv, Closed, WorkerGetsPast, Run;
    var k := HeldPosition(s, c);
    if k == |s.m.cmds| - 1 {
      NotPast(s, c);
      es, t := NewCallerReaches(s, c);
    } else {
      if !s.m.crashed { AllOwned(s, c); }
      KillDrains(s, c);
      es, t := DrainingReaches(Apply(s, Kill(c)), c, k);
    }
  }

  /** Such a command is there after the first one was handed to the firmware. */
  lemma ExposedIsReached(reqid: nat) returns (es: seq<Event>, s: System)
    ensures Run(InitialSystem, es, s) && Enabled(s, Kill(0)) && Exposed(s, 0)
    ensures exists more, t :: Run(Apply(s, Kill(0)), more, t) && |t.unconfirmed| >= 2
  {
    es := [Submit(reqid, true, false), DirectSend(0)];
    var s1 := FirstAccepted(reqid);
    s := FirstHanded(s1, reqid);
    assert es[1..] == [es[1]] && [es[1]][1..] == [];
    hide Inv, Apply, Exposed, Enabled, WorkerGetsPast;
    assert Run(s1, [es[1]], s);
    assert Run(InitialSystem, es, s);
    StartIsOk();
    RunKeeps(InitialSystem, es, s);
    KillLetsTwoInExactlyWhenExposed(s, 0);
  }

  lemma FirstAccepted(reqid: nat) returns (s: System)
    ensures Allowed(InitialSystem, Submit(reqid, true, false)) && s == Apply(InitialSystem, Submit(reqid, true, false))
    ensures s == InitialSystem.(m := Manager(false, 1, 1, true, [Cmd(0, 0, reqid, false, true, false)]), sending := {0})
  {
    s := Apply(InitialSystem, Submit(reqid, true, false));
  }

  lemma FirstHanded(s1: System, reqid: nat) returns (s: System)
    requires s1 == InitialSystem.(
               m := Manager(false, 1, 1, true, [Cmd(0, 0, reqid, false, true, false)]), sending := {0})
    ensures Allowed(s1, DirectSend(0)) && s == Apply(s1, DirectSend(0))
    ensures Enabled(s, Kill(0)) && Exposed(s, 0)
  {
    s := Apply(s1, DirectSend(0));
    assert IndexOf(s1.m.cmds, 0) == 0;
    hide WorkerGetsPast;
  }

  lemma NotPast(s: System, c: nat)
    requires IndexOf(s.m.cmds, c) == |s.m.cmds| - 1
    ensures !WorkerGetsPast(s, c)
  {
  }

  lemma AtMostOne(s: System, c: nat, es: seq<Event>, t: System)
    requires Inv(s) && Enabled(s, Kill(c)) && !Exposed(s, c) && Run(Apply(s, Kill(c)), es, t)
    ensures |t.unconfirmed| <= 1
  {
    hide IndexOf, Closed, Exposed, Inv;
    if c in s.unconfirmed {
      KillCloses(s, c);
      StaysClosed(Apply(s, Kill(c)), es, t);
      var k := HeldPosition(s, c);
      SmallKeys(t.unconfirmed, {c});
    } else {
      EventKeeps(s, Kill(c));
      RunKeeps(Apply(s, Kill(c)), es, t);
      OnlyLast(t);
      hide Inv;
      SmallKeys(t.unconfirmed, {|t.sent| - 1});
    }
  }

  lemma OnlyLast(t: System)
    requires Inv(t)
    ensures forall d <- t.unconfirmed :: d == |t.sent| - 1
  {
  }

  lemma SmallKeys(m: map<nat, nat>, keys: set<int>)
    requires |keys| <= 1 && forall k <- m :: k in keys
    ensures |m| <= 1
  {
    assert |m.Keys| == |m|;
    if |m.Keys| >= 2 {
      var a :| a in m.Keys;
      assert |m.Keys - {a}| >= 1;
      var b :| b in m.Keys - {a};
      assert {a as int, b as int} <= keys;
      assert |keys - {a as int}| >= 1 by { assert b as int in keys - {a as int}; }
    }
  }
}
