/** What becomes of an ACK that is held back when its flow expires (tcp_ack_update and filter_send_tcp_ack of
    aicwf_tcp_ack.c): the entry keeps the message, and its next flows decide about it. */
module TcpAckExpiry {
  import opened Common
  import opened TcpAckFlow

  /** What can happen to an entry after its flow expired: it is given to another flow, with whose ACKs the events of a
      flow go on, and so on. */
  datatype Later = Of(ev: Event) | Expire | Reuse(key: Key, msg: Msg, ack: U32, winScale: nat, maxDrop: int, now: nat)

  /** An entry, all messages that it has met, and what was handed for transmission and freed since the expiry. */
  datatype Life = Life(e: Entry, known: set<Msg>, handed: set<Msg>, freed: set<Msg>)

  predicate CanHappen(l: Life, ev: Later) {
    match ev
    case Of(New(msg, _, _, _)) => l.e.busy && msg !in l.known
    case Of(Push(_)) => l.e.busy
    case Of(_) => true
    case Expire => l.e.busy
    case Reuse(_, msg, _, _, _, _) => !l.e.busy && msg !in l.known
  }

  function Bag(m: Option<Msg>): set<Msg> {
    if m.Some? then {m.value} else {}
  }

  function LaterStep(l: Life, ev: Later): Life {
    match ev
    case Of(New(msg, ack, maxDrop, now)) =>
      var (e, verdict, freed) := Handle(l.e, msg, ack, maxDrop, now);
      Life(e, l.known + {msg}, l.handed + (if verdict.Send? then {msg} else {}), l.freed + Bag(freed))
    case Of(Push(ack)) => l.(e := l.e.(pshFlag := true, pshSeq := ack))
    case Of(Fire) => l.(e := TimeOut(l.e).0, handed := l.handed + Bag(TimeOut(l.e).1))
    case Of(Report(msg)) => l.(e := Reported(l.e, msg))
    case Expire => l.(e := l.e.(busy := false))
    case Reuse(key, msg, ack, winScale, maxDrop, now) =>
      l.(e := Occupy(l.e, key, ack, winScale, maxDrop, now), known := l.known + {msg}, handed := l.handed + {msg})
  }

  ghost predicate LaterRun(l: Life, evs: seq<Later>, k: Life)
    decreases |evs|
  {
    if evs == [] then l == k
    else CanHappen(l, evs[0]) && LaterRun(LaterStep(l, evs[0]), evs[1..], k)
  }

  datatype Fate = StillHeld | HandedOn | Dropped

  /** The timer hands the message on if it runs before a newer ACK of whatever flow has the entry then, and while no
      other ACK is in transmission; such a newer ACK drops it. */
  function FateOfHeld(l: Life, evs: seq<Later>): Fate
    decreases |evs|
  {
    if evs == [] then StillHeld
    else if evs[0] == Of(Fire) && l.e.busy && l.e.inSend == None then HandedOn
    else if evs[0].Of? && evs[0].ev.New? && Before(l.e.ackSeq, evs[0].ev.ack) then Dropped
    else FateOfHeld(LaterStep(l, evs[0]), evs[1..])
  }

  lemma {:induction false} GoneStaysGone(l: Life, evs: seq<Later>, k: Life, h: Msg)
    requires LaterRun(l, evs, k) && h in l.known && l.e.msgbuf != Some(h)
    ensures (h in k.handed <==> h in l.handed) && (h in k.freed <==> h in l.freed) && k.e.msgbuf != Some(h)
    decreases |evs|
  {
    if evs != [] {
      hide Before;
      GoneStaysGone(LaterStep(l, evs[0]), evs[1..], k, h);
    }
  }

  /** Over any later life of the entry, the held message ends as its fate says, and in no other way. */
  lemma {:induction false} HeldEndsByFate(l: Life, evs: seq<Later>, k: Life, h: Msg)
    requires LaterRun(l, evs, k) && l.e.msgbuf == Some(h) && h in l.known && h !in l.handed && h !in l.freed
    ensures match FateOfHeld(l, evs)
            case StillHeld => k.e.msgbuf == Some(h) && h !in k.handed && h !in k.freed
            case HandedOn => h in k.handed && h !in k.freed && k.e.msgbuf != Some(h)
            case Dropped => h in k.freed && h !in k.handed && k.e.msgbuf != Some(h)
    decreases |evs|
  {
    if evs != [] {
      hide Before;
      var next := LaterStep(l, evs[0]);
      if next.e.msgbuf == Some(h) {
        HeldEndsByFate(next, evs[1..], k, h);
      } else {
        GoneStaysGone(next, evs[1..], k, h);
      }
    }
  }

  lemma {:induction false} OthersAreNew(l: Life, evs: seq<Later>, k: Life, m: Msg)
    requires LaterRun(l, evs, k) && m in l.known && l.e.msgbuf != Some(m) && m !in l.handed
    ensures m !in k.handed
  {
    GoneStaysGone(l, evs, k, m);
  }

  /** An ACK with the latest number of the flow was handed for transmission. */
  ghost predicate LatestHanded(g: Flow, handed: set<Msg>) {
    exists m :: m in g.position && g.position[m] == g.top && m in handed
  }

  /** The entry when its flow has just expired. */
  function Expired(g: Flow): Life {
    Life(g.e.(busy := false), g.position.Keys, {}, {})
  }

  /** When a flow expires, the latest number of the flow has been or will be handed for transmission exactly when no
      ACK is held, or the held one repeats a number that was handed already, or the timer gets to the held one before
      the next flows of the entry drop it.  Otherwise nothing that was handed says what the held one said. */
  lemma LatestArrivesExactlyWhen(f: Flow, first: Msg, evs: seq<Event>, g: Flow, later: seq<Later>, k: Life)
    requires Started(f, first) && Run(f, evs, g) && LaterRun(Expired(g), later, k)
    ensures LatestHanded(g, g.handed + k.handed)
            <==> g.e.msgbuf == None || LatestHanded(g, g.handed) || FateOfHeld(Expired(g), later) == HandedOn
    ensures g.e.msgbuf.Some? ==> g.e.msgbuf.value in g.position && g.position[g.e.msgbuf.value] == g.top
    ensures forall m <- g.position :: g.position[m] <= g.top
  {
    StartedIsOk(f, first);
    RunKeeps(f, evs, g);
    hide FateOfHeld, LaterRun;
    forall m | m in g.position && g.e.msgbuf != Some(m) ensures m !in k.handed {
      OthersAreNew(Expired(g), later, k, m);
    }
    if g.e.msgbuf.Some? {
      var h := g.e.msgbuf.value;
      HeldEndsByFate(Expired(g), later, k, h);
      if h in k.handed {
        assert LatestHanded(g, g.handed + k.handed);
      }
    } else {
      var m :| m in g.position && g.position[m] >= g.top && m in g.handed;
      assert LatestHanded(g, g.handed + k.handed);
    }
    if LatestHanded(g, g.handed) {
      var m :| m in g.position && g.position[m] == g.top && m in g.handed;
      assert m in g.handed + k.handed;
    }
  }

  lemma StartedIsOk(f: Flow, first: Msg)
    requires Started(f, first)
    ensures FlowInv(f)
  {
    assert first in f.position;
  }

  /** With a timer that may run at any time both ends are possible, whatever the entry was: the timer may run first,
      or a newer ACK of the next flow may come. */
  lemma HeldMayEndEitherWay(l: Life, h: Msg, key: Key, first: Msg, next: Msg, ack: U32, maxDrop: int, now: nat)
    requires !l.e.busy && l.e.msgbuf == Some(h) && l.e.inSend == None
    ensures var reuse := Reuse(key, first, ack, 0, maxDrop, now);
            && FateOfHeld(l, [reuse, Of(Fire)]) == HandedOn
            && FateOfHeld(l, [reuse, Of(New(next, ack, maxDrop, now))]) == Dropped
  {
    var reuse := Reuse(key, first, ack, 0, maxDrop, now);
    assert [reuse, Of(Fire)][1..] == [Of(Fire)];
    assert [reuse, Of(New(next, ack, maxDrop, now))][1..] == [Of(New(next, ack, maxDrop, now))];
  }

  // ---------------------------------------------------------------------------------------------------------
  // The timer of the entry
  // ---------------------------------------------------------------------------------------------------------

  /** What happens to an entry, and when. */
  datatype Moment = Moment(ev: Later, at: nat)

  /** How long a timer is set for, how much later than that it may run, and the age at which an entry expires. */
  datatype Clock = Clock(hold: nat, late: nat, timeout: nat)

  function EntryAfter(e: Entry, ev: Later): Entry {
    match ev
    case Of(New(msg, ack, maxDrop, now)) => Handle(e, msg, ack, maxDrop, now).0
    case Of(Push(ack)) => e.(pshFlag := true, pshSeq := ack)
    case Of(Fire) => TimeOut(e).0
    case Of(Report(msg)) => Reported(e, msg)
    case Expire => e.(busy := false)
    case Reuse(key, _, ack, winScale, maxDrop, now) => Occupy(e, key, ack, winScale, maxDrop, now)
  }

  /** When the timer of the entry is to run, if it is pending: holding an ACK back sets it unless it is pending, and
      transmitting a new ACK deletes it. */
  function TimerAfter(c: Clock, e: Entry, timer: Option<nat>, m: Moment): Option<nat> {
    match m.ev
    case Of(New(msg, ack, maxDrop, now)) =>
      (match Handle(e, msg, ack, maxDrop, now).1
       case Send => None
       case Hold => if timer.Some? then timer else Some(m.at + c.hold)
       case Stale => timer)
    case Of(Fire) => None
    case _ => timer
  }

  /** Nothing happens before what the entry remembers; a timer runs only when it is pending, and before anything else
      that comes when it is late; an entry expires only by its age. */
  predicate InTime(c: Clock, e: Entry, timer: Option<nat>, m: Moment) {
    && e.lastTime <= m.at
    && (timer.Some? ==> m.at <= timer.value + c.late)
    && match m.ev
       case Of(New(_, _, _, now)) => now == m.at
       case Of(Fire) => timer.Some?
       case Expire => e.lastTime + c.timeout < m.at
       case Reuse(_, _, _, _, _, now) => now == m.at
       case _ => true
  }

  predicate OnTime(c: Clock, e: Entry, timer: Option<nat>, ms: seq<Moment>)
    decreases |ms|
  {
    ms == [] || (InTime(c, e, timer, ms[0])
                 && OnTime(c, EntryAfter(e, ms[0].ev), TimerAfter(c, e, timer, ms[0]), ms[1..]))
  }

  function TimerAt(c: Clock, e: Entry, timer: Option<nat>, ms: seq<Moment>): Option<nat>
    decreases |ms|
  {
    if ms == [] then timer else TimerAt(c, EntryAfter(e, ms[0].ev), TimerAfter(c, e, timer, ms[0]), ms[1..])
  }

  function EventsOf(ms: seq<Moment>): seq<Later> {
    seq(|ms|, i requires 0 <= i < |ms| => ms[i].ev)
  }

  function MomentsOf(evs: seq<Event>, times: seq<nat>): seq<Moment>
    requires |times| == |evs|
  {
    seq(|evs|, i requires 0 <= i < |evs| => Moment(Of(evs[i]), times[i]))
  }

  /** The timer is to run soon after the last ACK. */
  predicate Soon(c: Clock, e: Entry, timer: Option<nat>) {
    timer.Some? ==> timer.value <= e.lastTime + c.hold
  }

  lemma SoonKept(c: Clock, e: Entry, timer: Option<nat>, m: Moment)
    requires Soon(c, e, timer) && InTime(c, e, timer, m)
    ensures Soon(c, EntryAfter(e, m.ev), TimerAfter(c, e, timer, m))
  {
    hide Before;
  }

  /** No timer is pending when an entry expires, if timers are not as late as an entry is old. */
  lemma ExpiryFindsNoTimer(c: Clock, e: Entry, timer: Option<nat>, at: nat)
    requires Soon(c, e, timer) && InTime(c, e, timer, Moment(Expire, at)) && c.hold + c.late <= c.timeout
    ensures timer == None
  {
  }

  lemma {:induction false} SoonOverRun(c: Clock, f: Flow, timer: Option<nat>, evs: seq<Event>, times: seq<nat>, g: Flow)
    requires |times| == |evs| && Run(f, evs, g)
    requires Soon(c, f.e, timer) && OnTime(c, f.e, timer, MomentsOf(evs, times))
    ensures Soon(c, g.e, TimerAt(c, f.e, timer, MomentsOf(evs, times)))
    decreases |evs|
  {
    if evs != [] {
      var ms := MomentsOf(evs, times);
      SoonKept(c, f.e, timer, ms[0]);
      assert ms[1..] == MomentsOf(evs[1..], times[1..]);
      hide InTime, Soon, TimerAfter, Handle;
      assert EntryAfter(f.e, ms[0].ev) == Step(f, evs[0]).e;
      SoonOverRun(c, Step(f, evs[0]), TimerAfter(c, f.e, timer, ms[0]), evs[1..], times[1..], g);
    }
  }

  /** An ACK that is held without a timer is never handed on: the ACK that would set the timer takes its place. */
  lemma {:induction false} NotHandedWithoutTimer(c: Clock, l: Life, ms: seq<Moment>)
    requires OnTime(c, l.e, None, ms)
    ensures FateOfHeld(l, EventsOf(ms)) != HandedOn
    decreases |ms|
  {
    if ms != [] {
      var evs := EventsOf(ms);
      assert evs[1..] == EventsOf(ms[1..]);
      hide Before;
      if !(evs[0].Of? && evs[0].ev.New? && Before(l.e.ackSeq, evs[0].ev.ack)) {
        NotHandedWithoutTimer(c, LaterStep(l, evs[0]), ms[1..]);
      }
    }
  }

  /** With timers that run in time, nothing brings the latest number of a flow once it has expired: it arrives
      exactly when no ACK is held, or the held one repeats a number that was handed already. */
  lemma LatestArrivesInTimeExactlyWhen(c: Clock, f: Flow, first: Msg, timer: Option<nat>, evs: seq<Event>,
                                       times: seq<nat>, g: Flow, at: nat, later: seq<Moment>, k: Life)
    requires Started(f, first) && |times| == |evs| && Run(f, evs, g) && LaterRun(Expired(g), EventsOf(later), k)
    requires c.hold + c.late <= c.timeout && Soon(c, f.e, timer) && OnTime(c, f.e, timer, MomentsOf(evs, times))
    requires OnTime(c, g.e, TimerAt(c, f.e, timer, MomentsOf(evs, times)), [Moment(Expire, at)] + later)
    ensures LatestHanded(g, g.handed + k.handed) <==> g.e.msgbuf == None || LatestHanded(g, g.handed)
  {
    var timer' := TimerAt(c, f.e, timer, MomentsOf(evs, times));
    SoonOverRun(c, f, timer, evs, times, g);
    ExpiryFindsNoTimer(c, g.e, timer', at);
    assert ([Moment(Expire, at)] + later)[1..] == later;
    assert OnTime(c, Expired(g).e, None, later);
    NotHandedWithoutTimer(c, Expired(g), later);
    LatestArrivesExactlyWhen(f, first, evs, g, EventsOf(later), k);
  }

  /** A flow in time whose latest number does not arrive: its second ACK is transmitted, the third is held back, the
      timer finds the second still in transmission, and the flow falls silent. */
  lemma SilentFlowLosesItsLatest(f: Flow) returns (g: Flow, evs: seq<Event>, times: seq<nat>)
    requires Started(f, 0) && f.e.inSend == None && f.e.dropCnt == 10 && !f.e.pshFlag
    requires f.e.lastTime == 0 && f.e.ackSeq == 0
    ensures |times| == |evs| && Run(f, evs, g)
    ensures var c := Clock(5, 10, 4000);
            && OnTime(c, f.e, None, MomentsOf(evs, times))
            && OnTime(c, g.e, TimerAt(c, f.e, None, MomentsOf(evs, times)), [Moment(Expire, 4003)])
    ensures g.e.msgbuf == Some(2) && !LatestHanded(g, g.handed)
  {
    var second, third := New(1, 1000, 10, 1), New(2, 2000, 10, 2);
    evs, times := [second, third, Fire], [1, 2, 7];
    g := SilentSteps(f, second, third);
    SilentTimes(f.e, g.e, second, third);
    assert MomentsOf(evs, times) == [Moment(Of(second), 1), Moment(Of(third), 2), Moment(Of(Fire), 7)];
  }

  lemma SilentSteps(f: Flow, second: Event, third: Event) returns (g: Flow)
    requires Started(f, 0) && f.e.inSend == None && f.e.dropCnt == 10 && !f.e.pshFlag && f.e.ackSeq == 0
    requires second == New(1, 1000, 10, 1) && third == New(2, 2000, 10, 2)
    ensures Run(f, [second, third, Fire], g)
    ensures g.e == Handle(Handle(f.e, 1, 1000, 10, 1).0, 2, 2000, 10, 2).0
    ensures g.e.msgbuf == Some(2) && g.e.lastTime == 2 && !LatestHanded(g, g.handed)
  {
    var f1 := Step(f, second);
    var f2 := Step(f1, third);
    g := Step(f2, Fire);
    assert g.position == map[0 := f.top, 1 := f.top + 1000, 2 := f.top + 2000] && g.handed == {0, 1};
    assert g.e == f2.e && f2.e == Handle(f1.e, 2, 2000, 10, 2).0;
    assert Enabled(f, second) && Enabled(f1, third) && Enabled(f2, Fire);
    hide Handle, Step, Enabled, Offset, TimeOut;
    RunOfThree(f, second, third, Fire);
  }

  lemma RunOfThree(f: Flow, a: Event, b: Event, c: Event)
    requires Enabled(f, a) && Enabled(Step(f, a), b) && Enabled(Step(Step(f, a), b), c)
    ensures Run(f, [a, b, c], Step(Step(Step(f, a), b), c))
  {
    hide Step, Enabled;
    assert [a, b, c][1..] == [b, c] && [b, c][1..] == [c] && [c][1..] == [];
    assert Run(Step(Step(f, a), b), [c], Step(Step(Step(f, a), b), c));
  }

  lemma SilentTimes(e: Entry, e2: Entry, second: Event, third: Event)
    requires e.busy && e.inSend == None && e.dropCnt == 10 && !e.pshFlag && e.lastTime == 0 && e.ackSeq == 0
    requires second == New(1, 1000, 10, 1) && third == New(2, 2000, 10, 2)
    requires e2 == Handle(Handle(e, 1, 1000, 10, 1).0, 2, 2000, 10, 2).0 && e2.lastTime == 2
    ensures var c, ms := Clock(5, 10, 4000), [Moment(Of(second), 1), Moment(Of(third), 2), Moment(Of(Fire), 7)];
            OnTime(c, e, None, ms) && OnTime(c, e2, TimerAt(c, e, None, ms), [Moment(Expire, 4003)])
  {
    var c, a, b, d := Clock(5, 10, 4000), Moment(Of(second), 1), Moment(Of(third), 2), Moment(Of(Fire), 7);
    var e1 := EntryAfter(e, a.ev);
    assert e1.inSend == Some(1) && e1.lastTime == 1 && EntryAfter(e1, b.ev) == e2;
    assert TimerAfter(c, e, None, a) == None && TimerAfter(c, e1, None, b) == Some(7);
    hide Handle, TimeOut;
    assert [a, b, d][1..] == [b, d] && [b, d][1..] == [d] && [d][1..] == [] && [Moment(Expire, 4003)][1..] == [];
    assert OnTime(c, e2, Some(7), [d]) && TimerAt(c, e2, Some(7), [d]) == None;
    assert OnTime(c, e1, None, [b, d]) && TimerAt(c, e1, None, [b, d]) == None;
  }
}
