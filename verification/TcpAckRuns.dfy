/** The filter over whole runs: what happens to its 32 entries is what happens to the flows that occupy them, so that
    the acknowledgement of no flow is lost. */
module TcpAckRuns {
  import opened Common
  import opened TcpAckFlow
  import opened TcpAckFilter

  /** What the handlers of the filter do to its table.  A sent ACK is an ageing and then one of the two that follow. */
  datatype Operation =
    | Age(due: bool, now: nat, timeout: nat)
    | Decide(i: nat, a: Ack, enabled: bool, maxDrop: int, now: nat)
    | Admit(i: nat, a: Ack, maxDrop: int, now: nat)
    | NotePush(i: nat, number: U32)
    | Fire(i: nat)
    | Report(msg: Msg)

  function Applied(es: seq<Entry>, op: Operation): seq<Entry>
    requires op.Age? || op.Report? || op.i < |es|
  {
    match op
    case Age(due, now, timeout) =>
      seq(|es|, j requires 0 <= j < |es| => if due then Expire(es[j], now, timeout) else es[j])
    case Decide(i, a, enabled, maxDrop, now) =>
      var e := Scaled(es[i], a.winScale);
      es[i := if enabled then Handle(e, a.msg, a.ack, maxDrop, now).0 else e]
    case Admit(i, a, maxDrop, now) => es[i := Occupy(es[i], a.key, a.ack, a.winScale, maxDrop, now)]
    case NotePush(i, number) => es[i := es[i].(pshFlag := true, pshSeq := number)]
    case Fire(i) => es[i := TimeOut(es[i]).0]
    case Report(msg) => seq(|es|, j requires 0 <= j < |es| => Reported(es[j], msg))
  }

  /** The contracts of the filter's methods say that these are its steps.  Whether an ageing is due goes by the time
      of the last one; the runs below leave it open. */
  lemma MethodsAreOperations(before: seq<Entry>, after: seq<Entry>, i: int, a: Ack, enabled: bool, maxDrop: int,
                             now: nat, due: bool, timeout: nat, filtered: bool, key: Key, number: U32, msg: Msg)
    ensures Aged(before, after, due, now, timeout) ==> after == Applied(before, Age(due, now, timeout))
    ensures Decided(before, after, i, a, enabled, maxDrop, now, filtered) ==>
              && 0 <= i < |before| && before[i].busy && before[i].key == a.key
              && after == Applied(before, Decide(i, a, enabled, maxDrop, now))
    ensures Admitted(before, after, i, a, maxDrop, now, filtered) ==>
              || after == before
              || (0 <= i < |before| && !before[i].busy && after == Applied(before, Admit(i, a, maxDrop, now)))
    ensures Noted(before, after, i, key, number) ==>
              && 0 <= i < |before| && before[i].busy && before[i].key == key
              && after == Applied(before, NotePush(i, number))
    ensures Fired(before, after, i) ==> 0 <= i < |before| && after == Applied(before, Operation.Fire(i))
    ensures Told(before, after, enabled, msg) ==>
              after == if enabled then Applied(before, Operation.Report(msg)) else before
  {
    hide Handle, Occupy, Expire, CountBusy, TimeOut, Reported;
    if Aged(before, after, due, now, timeout) {
      assert after == Applied(before, Age(due, now, timeout));
    }
    if Told(before, after, enabled, msg) {
      assert after == if enabled then Applied(before, Operation.Report(msg)) else before;
    }
  }

  /** The table, the flow that each entry has or had last, the flows that have expired, and all messages met so far. */
  datatype World = World(table: seq<Entry>, flows: seq<Flow>, expired: seq<Flow>, met: set<Msg>)

  /** A message is new to the filter; an entry that expires holds none. */
  predicate Possible(w: World, op: Operation) {
    match op
    case Age(due, now, timeout) =>
      forall j :: 0 <= j < |w.table| && due && Old(w.table[j], now, timeout) ==> w.table[j].msgbuf == None
    case Decide(i, a, _, _, _) => i < |w.table| && w.table[i].busy && a.msg !in w.met
    case Admit(i, a, _, _) => i < |w.table| && !w.table[i].busy && a.msg !in w.met
    case NotePush(i, _) => i < |w.table| && w.table[i].busy
    case Fire(i) => i < |w.table|
    case Report(_) => true
  }

  /** The flow that goes on with the ACK of an entry. */
  function Admission(e: Entry, a: Ack, maxDrop: int, now: nat): Flow {
    Flow(Occupy(e, a.key, a.ack, a.winScale, maxDrop, now), a.ack, map[a.msg := a.ack], {a.msg}, {})
  }

  function Expiring(w: World, op: Operation, n: nat): seq<Flow>
    requires op.Age? && n <= |w.table| == |w.flows|
  {
    if n == 0 then []
    else Expiring(w, op, n - 1)
         + if op.due && Old(w.table[n - 1], op.now, op.timeout) then [w.flows[n - 1]] else []
  }

  function Stepped(w: World, op: Operation): World
    requires Possible(w, op) && |w.flows| == |w.table|
  {
    var table := Applied(w.table, op);
    match op
    case Age(_, _, _) => w.(table := table, expired := w.expired + Expiring(w, op, |w.table|))
    case Decide(i, a, enabled, maxDrop, now) =>
      var f := w.flows[i].(e := Scaled(w.table[i], a.winScale));
      w.(table := table, met := w.met + {a.msg},
         flows := w.flows[i := if enabled then Step(f, New(a.msg, a.ack, maxDrop, now)) else f])
    case Admit(i, a, maxDrop, now) =>
      w.(table := table, met := w.met + {a.msg}, flows := w.flows[i := Admission(w.table[i], a, maxDrop, now)])
    case NotePush(i, number) => w.(table := table, flows := w.flows[i := Step(w.flows[i], Push(number))])
    case Fire(i) =>
      w.(table := table, flows := w.flows[i := if w.table[i].busy then Step(w.flows[i], Event.Fire) else w.flows[i]])
    case Report(msg) =>
      w.(table := table,
         flows := seq(|w.flows|, j requires 0 <= j < |w.flows| =>
                    if w.table[j].busy then Step(w.flows[j], Event.Report(msg)) else w.flows[j]))
  }

  ghost predicate RunOf(w: World, ops: seq<Operation>, v: World)
    decreases |ops|
  {
    if ops == [] then w == v
    else |w.flows| == |w.table| && Possible(w, ops[0]) && RunOf(Stepped(w, ops[0]), ops[1..], v)
  }

  /** All entries are free, as tcp_ack_init leaves them. */
  predicate Fresh(w: World) {
    |w.flows| == |w.table| && w.expired == [] && forall e <- w.table :: !e.busy && e.msgbuf == None
  }

  /** A busy entry is the entry of its flow; a free one holds nothing. */
  ghost predicate EntryOk(e: Entry, f: Flow, met: set<Msg>) {
    if e.busy then f.e == e && FlowInv(f) && f.position.Keys <= met else e.msgbuf == None
  }

  /** A flow that is over: the latest number was handed for transmission, and all its ACKs were handed or are freed. */
  ghost predicate Settled(f: Flow) {
    FlowInv(f) && f.e.msgbuf == None
  }

  ghost predicate WorldOk(w: World) {
    && |w.flows| == |w.table|
    && (forall i :: 0 <= i < |w.table| ==> EntryOk(w.table[i], w.flows[i], w.met))
    && forall f <- w.expired :: Settled(f)
  }

  lemma EntryKept(e: Entry, f: Flow, met: set<Msg>, more: set<Msg>)
    requires EntryOk(e, f, met)
    ensures EntryOk(e, f, met + more)
  {
  }

  lemma DecideKeeps(e: Entry, f: Flow, met: set<Msg>, a: Ack, enabled: bool, maxDrop: int, now: nat)
    requires EntryOk(e, f, met) && e.busy && a.msg !in met
    ensures var s := Scaled(e, a.winScale); var g := f.(e := s);
            EntryOk(if enabled then Handle(s, a.msg, a.ack, maxDrop, now).0 else s,
                    if enabled then Step(g, New(a.msg, a.ack, maxDrop, now)) else g, met + {a.msg})
  {
    var s := Scaled(e, a.winScale);
    var g := f.(e := s);
    assert FlowInv(g) by {
      assert Covered(f, f.top);
      var m :| m in f.position && f.position[m] >= f.top && (m in f.handed || f.e.msgbuf == Some(m));
      assert Covered(g, g.top);
    }
    hide FlowInv;
    MsgIsMet(g, met);
    if enabled {
      StepKeeps(g, New(a.msg, a.ack, maxDrop, now));
      StaysBusy(g, New(a.msg, a.ack, maxDrop, now));
    }
  }

  lemma MsgIsMet(f: Flow, met: set<Msg>)
    requires FlowInv(f) && f.position.Keys <= met
    ensures f.e.msgbuf.Some? ==> f.e.msgbuf.value in met
  {
  }

  lemma StaysBusy(f: Flow, ev: Event)
    requires f.e.busy && Enabled(f, ev)
    ensures Step(f, ev).e.busy
    ensures Step(f, ev).position.Keys == f.position.Keys + (if ev.New? then {ev.msg} else {})
  {
    hide Offset, Before;
  }

  lemma EventKeepsEntry(e: Entry, f: Flow, met: set<Msg>, ev: Event)
    requires EntryOk(e, f, met) && e.busy && !ev.New?
    ensures EntryOk(Step(f, ev).e, Step(f, ev), met)
  {
    hide FlowInv;
    StepKeeps(f, ev);
    StaysBusy(f, ev);
  }

  lemma AdmitKeeps(e: Entry, a: Ack, maxDrop: int, now: nat, met: set<Msg>)
    requires !e.busy && e.msgbuf == None
    ensures var f := Admission(e, a, maxDrop, now); EntryOk(f.e, f, met + {a.msg})
  {
    var f := Admission(e, a, maxDrop, now);
    assert Covered(f, f.top) by {
      assert a.msg in f.position && f.position[a.msg] >= f.top && a.msg in f.handed;
    }
  }

  lemma {:induction false} ExpiringSettle(w: World, op: Operation, n: nat)
    requires WorldOk(w) && op.Age? && Possible(w, op) && n <= |w.table|
    ensures forall f <- Expiring(w, op, n) :: Settled(f)
    decreases n
  {
    if n > 0 {
      ExpiringSettle(w, op, n - 1);
      assert EntryOk(w.table[n - 1], w.flows[n - 1], w.met);
    }
  }

  lemma OperationKeeps(w: World, op: Operation)
    requires WorldOk(w) && Possible(w, op)
    ensures WorldOk(Stepped(w, op))
  {
    var v := Stepped(w, op);
    match op
    case Age(_, _, _) =>
      ExpiringSettle(w, op, |w.table|);
      AgeKeeps(w, op);
    case _ =>
      forall i | 0 <= i < |w.table| ensures EntryOk(v.table[i], v.flows[i], v.met) {
        EntryStepKept(w, op, i);
      }
  }

  lemma AgeKeeps(w: World, op: Operation)
    requires WorldOk(w) && op.Age? && Possible(w, op)
    ensures forall i :: 0 <= i < |w.table| ==> EntryOk(Applied(w.table, op)[i], w.flows[i], w.met)
  {
    hide FlowInv;
    forall i | 0 <= i < |w.table| ensures EntryOk(Applied(w.table, op)[i], w.flows[i], w.met) {
      assert EntryOk(w.table[i], w.flows[i], w.met);
    }
  }

  lemma EntryStepKept(w: World, op: Operation, i: nat)
    requires WorldOk(w) && Possible(w, op) && !op.Age? && i < |w.table|
    ensures var v := Stepped(w, op); EntryOk(v.table[i], v.flows[i], v.met)
  {
    hide EntryOk, Handle, Occupy;
    var e, f := w.table[i], w.flows[i];
    assert EntryOk(e, f, w.met);
    FlowOfEntry(e, f, w.met);
    match op
    case Decide(j, a, enabled, maxDrop, now) =>
      if i == j { DecideKeeps(e, f, w.met, a, enabled, maxDrop, now); } else { EntryKept(e, f, w.met, {a.msg}); }
    case Admit(j, a, maxDrop, now) =>
      if i == j { AdmitKeeps(e, a, maxDrop, now, w.met); } else { EntryKept(e, f, w.met, {a.msg}); }
    case NotePush(j, number) => if i == j { EventKeepsEntry(e, f, w.met, Push(number)); }
    case Fire(j) => if i == j && e.busy { EventKeepsEntry(e, f, w.met, Event.Fire); }
    case Report(msg) => if e.busy { EventKeepsEntry(e, f, w.met, Event.Report(msg)); }
  }

  lemma FlowOfEntry(e: Entry, f: Flow, met: set<Msg>)
    requires EntryOk(e, f, met)
    ensures e.busy ==> f.e == e
    ensures !e.busy ==> e.msgbuf == None
  {
  }

  lemma {:induction false} RunKeepsWorld(w: World, ops: seq<Operation>, v: World)
    requires WorldOk(w) && RunOf(w, ops, v)
    ensures WorldOk(v)
    decreases |ops|
  {
    if ops != [] {
      hide Stepped, Possible, WorldOk;
      StillWorld(w, ops);
      OperationKeeps(w, ops[0]);
      RunKeepsWorld(Stepped(w, ops[0]), ops[1..], v);
    }
  }

  lemma StillWorld(w: World, ops: seq<Operation>)
    requires WorldOk(w)
    ensures |w.flows| == |w.table|
  {
  }

  /** Over every run of the filter from its start in which entries expire holding nothing: of every flow, on the
      table or over, each ACK that was freed is covered by an equal or later ACK of that flow, which is held or was
      handed for transmission, and for a flow that is over was handed for transmission. */
  lemma FreedAcksAreCovered(w: World, ops: seq<Operation>, v: World)
    requires Fresh(w) && RunOf(w, ops, v)
    ensures |v.flows| == |v.table|
    ensures forall i :: 0 <= i < |v.table| && v.table[i].busy ==> v.flows[i].e == v.table[i] && FreedCovered(v.flows[i])
    ensures forall f <- v.expired :: FreedCovered(f) && f.e.msgbuf == None
  {
    RunKeepsWorld(w, ops, v);
    forall i | 0 <= i < |v.table| && v.table[i].busy ensures v.flows[i].e == v.table[i] && FreedCovered(v.flows[i]) {
      assert EntryOk(v.table[i], v.flows[i], v.met);
      AllCovered(v.flows[i]);
    }
    forall f | f in v.expired ensures FreedCovered(f) && f.e.msgbuf == None {
      assert Settled(f);
      AllCovered(f);
    }
  }

  ghost predicate FreedCovered(f: Flow) {
    forall m <- f.freed :: m in f.position && Covered(f, f.position[m])
  }

  lemma AllCovered(f: Flow)
    requires FlowInv(f)
    ensures FreedCovered(f)
  {
    var t :| t in f.position && f.position[t] >= f.top && (t in f.handed || f.e.msgbuf == Some(t));
  }
}
