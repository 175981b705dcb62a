/** Which ACKs of a flow are transmitted at once (tcp_ack_handle_new of aicwf_tcp_ack.c): the one that answers a segment
    with PSH, and one in so many of the others. */
module TcpAckDecision {
  import opened Common
  import opened TcpAckFlow
  import opened TcpAckFilter

  /** The new ACK acknowledges at least what was acknowledged already. */
  predicate Forward(f: Flow, ev: Event) {
    ev.New? && Offset(f.e.ackSeq, ev.ack) >= 0
  }

  /** The number lies beyond p. */
  predicate Past(p: U32, ack: U32) {
    Offset(ack, p) < 0
  }

  /** A new ACK is handed for transmission exactly when it goes forward and either goes past a noted PSH, or nothing of
      the flow is in transmission and enough have been held. */
  lemma HandedExactlyWhen(f: Flow, ev: Event)
    requires FlowInv(f) && Enabled(f, ev) && ev.New?
    ensures ev.msg in Step(f, ev).handed
            <==> && Forward(f, ev)
                 && ((f.e.pshFlag && Past(f.e.pshSeq, ev.ack)) || (f.e.inSend == None && f.e.dropCnt + 1 >= ev.maxDrop))
    ensures ev.msg in Step(f, ev).freed <==> !Forward(f, ev)
  {
    BeforeIsForward(f.e.ackSeq, ev.ack);
    BeforeIsForward(ev.ack, f.e.pshSeq);
    hide Before, Offset;
  }

  /** Nothing in the run notes another PSH or goes past p. */
  predicate LeavesPush(evs: seq<Event>, p: U32) {
    forall ev <- evs :: !ev.Push? && (ev.New? ==> !Past(p, ev.ack))
  }

  lemma {:induction false} PushStays(f: Flow, p: U32, evs: seq<Event>, g: Flow)
    requires f.e.pshFlag && f.e.pshSeq == p && LeavesPush(evs, p) && Run(f, evs, g)
    ensures g.e.pshFlag && g.e.pshSeq == p
    decreases |evs|
  {
    if evs != [] {
      if evs[0].New? {
        BeforeIsForward(evs[0].ack, p);
      }
      assert evs[0] in evs && forall ev <- evs[1..] :: ev in evs;
      hide Before, Offset;
      PushStays(Step(f, evs[0]), p, evs[1..], g);
    }
  }

  /** When a segment with PSH was received, the first ACK past its number is handed at once, whatever happens before
      that, what is in transmission and how many were held.  It is answered once. */
  lemma PushIsAnswered(f: Flow, p: U32, evs: seq<Event>, g: Flow, msg: Msg, ack: U32, maxDrop: int, now: nat)
    requires LeavesPush(evs, p) && Run(Step(f, Push(p)), evs, g)
    requires Offset(g.e.ackSeq, ack) >= 0 && Past(p, ack)
    ensures var h := Step(g, New(msg, ack, maxDrop, now));
            msg in h.handed && h.e.inSend == Some(msg) && h.e.dropCnt == 0 && !h.e.pshFlag
  {
    PushStays(Step(f, Push(p)), p, evs, g);
    BeforeIsForward(g.e.ackSeq, ack);
    BeforeIsForward(ack, p);
    hide Before, Offset, Run, LeavesPush;
  }

  predicate OnlyNew(evs: seq<Event>) {
    forall i :: 0 <= i < |evs| ==> evs[i].New?
  }

  /** A row of new ACKs that all go forward, under the same limit. */
  predicate AllForward(f: Flow, evs: seq<Event>, maxDrop: int)
    decreases |evs|
  {
    evs == [] || (Forward(f, evs[0]) && evs[0].maxDrop == maxDrop && AllForward(Step(f, evs[0]), evs[1..], maxDrop))
  }

  /** No PSH is noted and nothing of the flow is in transmission. */
  predicate AtRest(f: Flow) {
    !f.e.pshFlag && f.e.inSend == None
  }

  /** At rest, newer ACKs are held as long as the limit is not reached, each in the place of the one before. */
  lemma {:induction false} HeldBelowLimit(f: Flow, evs: seq<Event>, g: Flow, maxDrop: int)
    requires Run(f, evs, g) && OnlyNew(evs) && AllForward(f, evs, maxDrop) && AtRest(f) && f.e.dropCnt + |evs| < maxDrop
    ensures AtRest(g) && g.handed == f.handed && g.e.dropCnt == f.e.dropCnt + |evs|
    ensures g.e.msgbuf == if evs == [] then f.e.msgbuf else Some(evs[|evs| - 1].msg)
    decreases |evs|
  {
    if evs != [] {
      BeforeIsForward(f.e.ackSeq, evs[0].ack);
      hide Before, Offset;
      HeldBelowLimit(Step(f, evs[0]), evs[1..], g, maxDrop);
    }
  }

  /** And the one that reaches the limit is handed. */
  lemma HandedAtLimit(f: Flow, ev: Event)
    requires Forward(f, ev) && AtRest(f) && f.e.dropCnt + 1 >= ev.maxDrop
    ensures var g := Step(f, ev);
            g.handed == f.handed + {ev.msg} && g.e.inSend == Some(ev.msg) && g.e.dropCnt == 0 && g.e.msgbuf == None
  {
    BeforeIsForward(f.e.ackSeq, ev.ack);
    hide Before, Offset;
  }

  /** While one is in transmission and no PSH is noted, newer ones are held, however many. */
  lemma {:induction false} HeldDuringTransmission(f: Flow, evs: seq<Event>, g: Flow, maxDrop: int)
    requires Run(f, evs, g) && OnlyNew(evs) && AllForward(f, evs, maxDrop) && !f.e.pshFlag && f.e.inSend.Some?
    ensures g.handed == f.handed && g.e.inSend == f.e.inSend && !g.e.pshFlag
    ensures g.e.msgbuf == if evs == [] then f.e.msgbuf else Some(evs[|evs| - 1].msg)
    decreases |evs|
  {
    if evs != [] {
      BeforeIsForward(f.e.ackSeq, evs[0].ack);
      hide Before, Offset;
      HeldDuringTransmission(Step(f, evs[0]), evs[1..], g, maxDrop);
    }
  }

  /** Once an ACK was handed by a count or a PSH, or by the timer, and its transmission reported, one ACK in
      `maxDrop` is handed: of the newer ones that follow, maxDrop - 1 are held and the next is handed. */
  lemma OneInSoMany(f: Flow, evs: seq<Event>, g: Flow, maxDrop: int)
    requires Run(f, evs, g) && OnlyNew(evs) && AllForward(f, evs, maxDrop)
    requires AtRest(f) && f.e.dropCnt == 0 && 1 <= |evs| <= maxDrop
    ensures if |evs| < maxDrop then g.handed == f.handed else g.handed == f.handed + {evs[|evs| - 1].msg}
  {
    if |evs| < maxDrop {
      HeldBelowLimit(f, evs, g, maxDrop);
    } else {
      var h := AllButLast(f, evs, g, maxDrop);
      HeldBelowLimit(f, evs[..|evs| - 1], h, maxDrop);
      HandedAtLimit(h, evs[|evs| - 1]);
    }
  }

  lemma {:induction false} AllButLast(f: Flow, evs: seq<Event>, g: Flow, maxDrop: int) returns (h: Flow)
    requires Run(f, evs, g) && OnlyNew(evs) && AllForward(f, evs, maxDrop) && evs != []
    ensures Run(f, evs[..|evs| - 1], h) && AllForward(f, evs[..|evs| - 1], maxDrop)
    ensures Forward(h, evs[|evs| - 1]) && evs[|evs| - 1].maxDrop == maxDrop && g == Step(h, evs[|evs| - 1])
    decreases |evs|
  {
    hide Step, Offset;
    if |evs| == 1 {
      h := f;
      assert evs[1..] == [];
    } else {
      h := AllButLast(Step(f, evs[0]), evs[1..], g, maxDrop);
      assert evs[1..][..|evs| - 2] == evs[..|evs| - 1][1..];
    }
  }

  /** The timer hands out the held ACK when nothing of the flow is in transmission; when that is reported, counting
      begins anew. */
  lemma TimerBeginsAnew(f: Flow, held: Msg)
    requires f.e.busy && f.e.msgbuf == Some(held) && AtRest(f)
    ensures var g := Step(f, Fire);
            && g.handed == f.handed + {held} && g.e.msgbuf == None && g.e.inSend == Some(held)
            && AtRest(Step(g, Report(held))) && Step(g, Report(held)).e.dropCnt == 0
  {
  }

  /** A report of another message changes nothing, and the timer nothing while one is in transmission. */
  lemma OthersChangeNothing(f: Flow, msg: Msg)
    ensures f.e.inSend != Some(msg) ==> Step(f, Report(msg)) == f
    ensures f.e.inSend.Some? || f.e.msgbuf == None ==> Step(f, Fire) == f
  {
  }

  /** An entry that goes to a new flow forgets the PSH of the one before.  The first ACK of the flow is transmitted;
      so is the second, if nothing of the entry is in transmission. */
  lemma SecondAckIsHanded(e: Entry, key: Key, first: U32, winScale: nat, maxDrop: int, now: nat, msg: Msg, ack: U32,
                          later: nat)
    requires e.inSend == None && Offset(first, ack) >= 0
    ensures var e1 := Occupy(e, key, first, winScale, maxDrop, now);
            && e1.busy && e1.key == key && e1.ackSeq == first && !e1.pshFlag && e1.lastTime == now
            && Handle(e1, msg, ack, maxDrop, later).1 == Send
            && Handle(e1, msg, ack, maxDrop, later).0.inSend == Some(msg)
  {
    BeforeIsForward(first, ack);
    hide Before, Offset;
  }

  /** An entry goes by the last window scale that its flow gave, and by 1 when it gave none. */
  function LastScale(scales: seq<nat>): nat {
    if scales == [] then 1
    else if scales[|scales| - 1] != 0 then scales[|scales| - 1]
    else LastScale(scales[..|scales| - 1])
  }

  function AfterScales(e: Entry, scales: seq<nat>): Entry {
    if scales == [] then e else Scaled(AfterScales(e, scales[..|scales| - 1]), scales[|scales| - 1])
  }

  lemma {:induction false} ScaleIsLastGiven(e: Entry, key: Key, first: nat, scales: seq<nat>, ack: U32,
                                           maxDrop: int, now: nat)
    ensures AfterScales(Occupy(e, key, ack, first, maxDrop, now), scales).winScale == LastScale([first] + scales)
    decreases |scales|
  {
    var n := |scales| - 1;
    if n >= 0 {
      ScaleIsLastGiven(e, key, first, scales[..n], ack, maxDrop, now);
      assert ([first] + scales)[..n + 1] == [first] + scales[..n];
    } else {
      assert [first] + scales == [first] && [first][..0] == [];
    }
  }
}
