/** What a submit decides, over all runs of the command manager (cmd_mgr_queue and cmd_mgr_queue_force_defer of
    rwnx_cmds.c): who is refused, who transmits at once, and who leaves the command to the worker. */
module CommandDecision {
  import opened CommandQueue
  import opened CommandSystem
  import opened CommandInvariant

  /** The list holds what it held, and one new command at its end that nobody has transmitted or confirmed. */
  ghost predicate JoinedBy(s: System, t: System, reqid: nat) {
    && |t.m.cmds| == |s.m.cmds| + 1 && t.m.cmds[..|s.m.cmds|] == s.m.cmds
    && var cmd := t.m.cmds[|s.m.cmds|];
    && cmd.serial == s.m.accepted && cmd.reqid == reqid && cmd.waitCfm && !cmd.done
  }

  ghost predicate AllFinished(s: System) {
    forall cmd <- s.m.cmds :: cmd.Finished()
  }

  /** In which states a submit is refused. */
  ghost predicate Refuses(s: System, hasReply: bool) {
    s.m.crashed || |s.m.cmds| == RWNX_CMD_MAX_QUEUED || (hasReply && s.m.cmds != [])
  }

  lemma FinishedToTheLast(s: System)
    requires Inv(s)
    ensures LastIsWaiting(s.m.cmds) <==> !AllFinished(s)
  {
    var cmds := s.m.cmds;
    if cmds != [] {
      assert forall i :: 0 <= i < |cmds| - 1 ==> cmds[i].Finished() || cmds[|cmds| - 1].waitPush;
      assert cmds[|cmds| - 1] in cmds;
    }
  }

  /** In every state that a run reaches: a submit is refused, and then changes nothing, exactly in the states above.
      Otherwise the command joins the list at its end; its caller transmits it exactly when it need not be left to the
      worker and all commands before it are finished; and the worker is woken up for it exactly when it is left to the
      worker and alone. */
  lemma SubmitDecides(es: seq<Event>, s: System, reqid: nat, hasReply: bool, forced: bool)
    requires Run(InitialSystem, es, s)
    ensures var t := Apply(s, Event.Submit(reqid, hasReply, forced));
            if Refuses(s, hasReply) then t == s
            else
              var direct := !forced && AllFinished(s);
              && JoinedBy(s, t, reqid) && t.m.cmds[|s.m.cmds|].waitPush == !direct
              && t.sending == (if direct then s.sending + {s.m.accepted} else s.sending) && s.m.accepted !in s.sending
              && t.waking == s.waking + (if forced && s.m.cmds == [] then 1 else 0)
              && (t.waiting, t.checking, t.worker, t.queued, t.unconfirmed, t.sent)
                 == (s.waiting, s.checking, s.worker, s.queued, s.unconfirmed, s.sent)
  {
    hide *;
    StartIsOk();
    RunKeeps(InitialSystem, es, s);
    FinishedToTheLast(s);
    NotSendingNew(s);
    CountIsLength(s);
    Decides(s, reqid, hasReply, forced);
  }

  lemma Decides(s: System, reqid: nat, hasReply: bool, forced: bool)
    requires s.m.queueSz == |s.m.cmds| <= RWNX_CMD_MAX_QUEUED && (LastIsWaiting(s.m.cmds) <==> !AllFinished(s))
    ensures var t := Apply(s, Event.Submit(reqid, hasReply, forced));
            if Refuses(s, hasReply) then t == s
            else
              var direct := !forced && AllFinished(s);
              && JoinedBy(s, t, reqid) && t.m.cmds[|s.m.cmds|].waitPush == !direct
              && t.sending == (if direct then s.sending + {s.m.accepted} else s.sending)
              && t.waking == s.waking + (if forced && s.m.cmds == [] then 1 else 0)
              && (t.waiting, t.checking, t.worker, t.queued, t.unconfirmed, t.sent)
                 == (s.waiting, s.checking, s.worker, s.queued, s.unconfirmed, s.sent)
  {
    if s.m.cmds == [] {
      assert AllFinished(s);
    }
    hide AllFinished;
  }

  lemma NotSendingNew(s: System)
    requires Inv(s)
    ensures s.m.accepted !in s.sending
  {
    assert s.m.accepted in s.sending ==> Listed(s.m.cmds, s.m.accepted);
  }

  lemma CountIsLength(s: System)
    requires Inv(s)
    ensures s.m.queueSz == |s.m.cmds| <= RWNX_CMD_MAX_QUEUED
  {
  }

  /** A caller that waits for a reply changes nothing, or its command is the only one of the list and it transmits it
      itself, unless the message must be left to the worker. */
  lemma ReplyCallerIsAlone(es: seq<Event>, s: System, reqid: nat)
    requires Run(InitialSystem, es, s)
    ensures var t := Apply(s, Event.Submit(reqid, true, false));
            t == s || (|t.m.cmds| == 1 && t.m.cmds[0].serial == s.m.accepted && s.m.accepted in t.sending)
  {
    SubmitDecides(es, s, reqid, true, false);
    hide Inv, Run;
  }

  /** A message that must be left to the worker is never transmitted by its caller. */
  lemma ForcedIsLeftToTheWorker(es: seq<Event>, s: System, reqid: nat, hasReply: bool)
    requires Run(InitialSystem, es, s)
    ensures var t := Apply(s, Event.Submit(reqid, hasReply, true));
            t.sending == s.sending && (t != s ==> t.m.cmds[|t.m.cmds| - 1].waitPush)
  {
    SubmitDecides(es, s, reqid, hasReply, true);
    hide Inv, Run;
  }

  /** Why a submit is refused, as its caller learns it. */
  lemma RefusedBecause(es: seq<Event>, s: System, reqid: nat, hasReply: bool, forced: bool)
    requires Run(InitialSystem, es, s)
    ensures var r := CommandQueue.Submit(s.m, reqid, hasReply, forced).1;
            && (r == Crashed <==> s.m.crashed)
            && (r == Retry <==> !s.m.crashed && hasReply && s.m.cmds != [])
            && (r == TooMany <==> !s.m.crashed && !hasReply && |s.m.cmds| == RWNX_CMD_MAX_QUEUED)
            && (r.Direct? || r.Deferred? ==> r.serial == s.m.accepted)
  {
    hide Inv, Run;
    StartIsOk();
    RunKeeps(InitialSystem, es, s);
    CountIsLength(s);
  }

  /** A submit that always leaves its command to the worker is refused only by a crashed manager or a full list, and
      always wakes the worker. */
  lemma DeferDecides(es: seq<Event>, s: System, reqid: nat)
    requires Run(InitialSystem, es, s)
    ensures var t := Apply(s, SubmitDefer(reqid));
            if Refuses(s, false) then t == s
            else
              && JoinedBy(s, t, reqid) && t.m.cmds[|s.m.cmds|].waitPush
              && t.sending == s.sending && t.waking == s.waking + 1
  {
    hide *;
    StartIsOk();
    RunKeeps(InitialSystem, es, s);
    CountIsLength(s);
    Defers(s, reqid);
  }

  lemma Defers(s: System, reqid: nat)
    requires s.m.queueSz == |s.m.cmds| <= RWNX_CMD_MAX_QUEUED
    ensures var t := Apply(s, SubmitDefer(reqid));
            if Refuses(s, false) then t == s
            else
              && JoinedBy(s, t, reqid) && t.m.cmds[|s.m.cmds|].waitPush
              && t.sending == s.sending && t.waking == s.waking + 1
  {
  }

  /** Once a wait has run out, the manager accepts nothing any more. */
  lemma {:induction false} CrashedForGood(s: System, es: seq<Event>, t: System)
    requires Run(s, es, t) && s.m.crashed
    ensures t.m.crashed && t.m.accepted == s.m.accepted
    decreases |es|
  {
    if es != [] {
      CrashedForGood(Apply(s, es[0]), es[1..], t);
    }
  }

  /** And this is what a wait that runs out does. */
  lemma TimeOutCrashes(s: System, e: Event)
    requires Enabled(s, e)
    ensures !s.m.crashed ==> (Apply(s, e).m.crashed <==> e.DirectTimeOut? || e.WorkTimeOut?)
    ensures e.DirectTimeOut? ==> |Apply(s, e).m.cmds| == |s.m.cmds| && e.c !in Apply(s, e).waiting
  {
  }

  /** Who wakes the worker: a caller that left its command to it, or one whose own command is done while others are
      listed and the bus is up. */
  lemma WokenExactlyBy(s: System, e: Event)
    requires Enabled(s, e) && !s.queued
    ensures Apply(s, e).queued <==> e.Wake? || (e.DirectCheck? && s.m.cmds != [] && s.up)
  {
  }
}
