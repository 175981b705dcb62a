/** One entry of the TCP ACK filter (aicwf_tcp_ack.c): what happens to the acknowledgements of one TCP flow while its
    entry stays busy.

    A cumulative acknowledgement makes every earlier one of its flow superfluous (section 3.4 of RFC 9293), so the
    filter may free an ACK when an equal or later one takes its place.  Sequence numbers are compared modulo 2^32. */
module TcpAckFlow {
  import opened Common

  const TWO_31 := 0x8000_0000

  /** A message buffer, named by its address. */
  type Msg = nat

  type U32 = x: nat | x < TWO_32

  datatype Key = Key(source: nat, dest: nat, saddr: int, daddr: int)

  datatype Entry = Entry(
    busy: bool,
    dropCnt: int,
    pshFlag: bool,
    pshSeq: U32,
    winScale: nat,
    lastTime: nat,
    msgbuf: Option<Msg>,      // the ACK held back
    inSend: Option<Msg>,      // the ACK handed for transmission and not reported back
    key: Key,
    ackSeq: U32)              // the latest acknowledgement number recorded

  /** U32_BEFORE: the signed 32-bit difference is not positive. */
  predicate Before(a: U32, b: U32) {
    var d := (a - b) % TWO_32;
    d == 0 || d >= TWO_31
  }

  /** What becomes of a new ACK: transmitted by the caller, held back, or dropped because it is older. */
  datatype Verdict = Send | Hold | Stale

  /** tcp_ack_handle_new; the last result is the message it frees. */
  function Handle(e: Entry, msg: Msg, ack: U32, maxDrop: int, now: nat): (Entry, Verdict, Option<Msg>) {
    if !Before(e.ackSeq, ack) then (e.(lastTime := now), Stale, Some(msg))
    else
      var quick := e.pshFlag && !Before(ack, e.pshSeq);
      var dropCnt := if quick then e.dropCnt else e.dropCnt + 1;
      var e1 := e.(lastTime := now, ackSeq := ack, pshFlag := e.pshFlag && !quick, msgbuf := None);
      if quick || (e.inSend == None && dropCnt >= maxDrop) then
        (e1.(dropCnt := 0, inSend := Some(msg)), Send, e.msgbuf)
      else
        (e1.(dropCnt := dropCnt, msgbuf := Some(msg)), Hold, e.msgbuf)
  }

  /** The timer transmits the held ACK unless another one is in transmission; the result is what it transmits. */
  function TimeOut(e: Entry): (Entry, Option<Msg>) {
    if e.busy && e.msgbuf.Some? && e.inSend == None then
      (e.(msgbuf := None, dropCnt := 0, inSend := e.msgbuf), e.msgbuf)
    else (e, None)
  }

  /** The part of filter_send_tcp_ack that gives a free entry to a new flow; its first ACK is transmitted at once. */
  function Occupy(e: Entry, key: Key, ack: U32, winScale: nat, maxDrop: int, now: nat): Entry {
    e.(busy := true, pshFlag := false, lastTime := now, dropCnt := maxDrop,
       winScale := if winScale != 0 then winScale else 1, key := key, ackSeq := ack)
  }

  function Reported(e: Entry, msg: Msg): Entry {
    if e.busy && e.inSend == Some(msg) then e.(inSend := None) else e
  }

  // ---------------------------------------------------------------------------------------------------------
  // A flow over time
  // ---------------------------------------------------------------------------------------------------------

  datatype Event =
    | New(msg: Msg, ack: U32, maxDrop: int, now: nat)   // the host sends an ACK
    | Push(ack: U32)                                    // a segment with PSH arrives from the peer
    | Fire                                              // the timer runs
    | Report(msg: Msg)                                  // a transmission is reported back

  /** A flow with its history.  Every ACK of the flow has a position: the acknowledgement number without the wrap at
      2^32, counted along the recorded numbers, of which `top` is the latest. */
  datatype Flow = Flow(e: Entry, top: int, position: map<Msg, int>, handed: set<Msg>, freed: set<Msg>)

  /** How far a new number lies from the recorded one: ahead by up to 2^31, or behind by less than that. */
  function Offset(recorded: U32, ack: U32): int {
    var d := (ack - recorded) % TWO_32;
    if d <= TWO_31 then d else d - TWO_32
  }

  predicate Enabled(f: Flow, ev: Event) {
    ev.New? ==> ev.msg !in f.position && f.e.msgbuf != Some(ev.msg)
  }

  function Step(f: Flow, ev: Event): Flow {
    match ev
    case New(msg, ack, maxDrop, now) =>
      var (e, verdict, freed) := Handle(f.e, msg, ack, maxDrop, now);
      var p := f.top + Offset(f.e.ackSeq, ack);
      Flow(e, if verdict.Stale? then f.top else p, f.position[msg := p],
           if verdict.Send? then f.handed + {msg} else f.handed,
           if freed.Some? then f.freed + {freed.value} else f.freed)
    case Push(ack) => f.(e := f.e.(pshFlag := true, pshSeq := ack))
    case Fire =>
      var (e, sent) := TimeOut(f.e);
      f.(e := e, handed := if sent.Some? then f.handed + {sent.value} else f.handed)
    case Report(msg) => f.(e := Reported(f.e, msg))
  }

  /** The flow right after its entry was occupied by its first ACK, which was handed for transmission. */
  ghost predicate Started(f: Flow, first: Msg) {
    && f.e.busy && f.e.msgbuf == None && f.e.ackSeq == f.top % TWO_32
    && f.position == map[first := f.top] && f.handed == {first} && f.freed == {}
  }

  ghost predicate Run(f: Flow, evs: seq<Event>, g: Flow)
    decreases |evs|
  {
    if evs == [] then f == g
    else Enabled(f, evs[0]) && Run(Step(f, evs[0]), evs[1..], g)
  }

  /** An ACK at position `p` or later is held or was handed for transmission. */
  ghost predicate Covered(f: Flow, p: int) {
    exists m :: m in f.position && f.position[m] >= p && (m in f.handed || f.e.msgbuf == Some(m))
  }

  ghost predicate FlowInv(f: Flow) {
    && f.e.busy && f.e.ackSeq == f.top % TWO_32
    && (forall m <- f.position :: f.position[m] <= f.top)
    && Covered(f, f.top)
    && (f.e.msgbuf.Some? ==> f.e.msgbuf.value in f.position && f.position[f.e.msgbuf.value] == f.top
                             && f.e.msgbuf.value !in f.handed && f.e.msgbuf.value !in f.freed)
    && (forall m <- f.handed :: m in f.position && m !in f.freed)
    && (forall m <- f.freed :: m in f.position)
    && (forall m <- f.position :: m in f.handed || m in f.freed || f.e.msgbuf == Some(m))
  }

  /** The comparison of the code is the sign of the offset, and the offset is the distance modulo 2^32. */
  lemma BeforeIsForward(a: U32, b: U32)
    ensures Before(a, b) <==> Offset(a, b) >= 0
    ensures -TWO_31 < Offset(a, b) <= TWO_31
    ensures (a + Offset(a, b)) % TWO_32 == b
  {
    var d := (b - a) % TWO_32;
    if a <= b {
      assert d == b - a;
    } else {
      assert d == b - a + TWO_32;
    }
    if b <= a {
      assert (a - b) % TWO_32 == a - b;
    } else {
      assert (a - b) % TWO_32 == a - b + TWO_32;
    }
  }

  lemma OffsetFromTop(top: int, a: U32, b: U32)
    requires a == top % TWO_32
    ensures (top + Offset(a, b)) % TWO_32 == b
  {
    BeforeIsForward(a, b);
    var q := top / TWO_32;
    assert top == q * TWO_32 + a;
    Shifted(q, a + Offset(a, b));
  }

  lemma Shifted(q: int, x: int)
    ensures (q * TWO_32 + x) % TWO_32 == x % TWO_32
  {
    var k := q + x / TWO_32;
    assert q * TWO_32 + x == k * TWO_32 + x % TWO_32;
  }

  lemma StepKeeps(f: Flow, ev: Event)
    requires FlowInv(f) && Enabled(f, ev)
    ensures FlowInv(Step(f, ev)) && Step(f, ev).top >= f.top
    ensures Before(f.e.ackSeq, Step(f, ev).e.ackSeq)
  {
    var g := Step(f, ev);
    match ev
    case New(msg, ack, _, _) =>
      OffsetFromTop(f.top, f.e.ackSeq, ack);
      BeforeIsForward(f.e.ackSeq, ack);
      hide Offset;
      if Before(f.e.ackSeq, ack) {
        assert g.position[msg] == g.top;
        assert Covered(g, g.top);
      } else {
        var m :| m in f.position && f.position[m] >= f.top && (m in f.handed || f.e.msgbuf == Some(m));
        assert m in g.position && g.position[m] >= g.top;
      }
    case Push(_) =>
      var m :| m in f.position && f.position[m] >= f.top && (m in f.handed || f.e.msgbuf == Some(m));
      assert m in g.position;
    case Fire =>
      var m :| m in f.position && f.position[m] >= f.top && (m in f.handed || f.e.msgbuf == Some(m));
      assert m in g.position;
    case Report(_) =>
      var m :| m in f.position && f.position[m] >= f.top && (m in f.handed || f.e.msgbuf == Some(m));
      assert m in g.position;
  }

  lemma {:induction false} RunKeeps(f: Flow, evs: seq<Event>, g: Flow)
    requires FlowInv(f) && Run(f, evs, g)
    ensures FlowInv(g) && g.top >= f.top
    decreases |evs|
  {
    if evs != [] {
      StepKeeps(f, evs[0]);
      RunKeeps(Step(f, evs[0]), evs[1..], g);
    }
  }

  /** Whatever arrives, in whatever order: the recorded number is the latest of all, and every ACK of the flow is either
      handed for transmission, or held, or freed and then covered by one at the same position or later that is. */
  lemma NothingIsLost(f: Flow, first: Msg, evs: seq<Event>, g: Flow)
    requires Started(f, first) && Run(f, evs, g)
    ensures g.e.ackSeq == g.top % TWO_32 && forall m <- g.position :: g.position[m] <= g.top
    ensures Covered(g, g.top)
    ensures forall m <- g.position :: Covered(g, g.position[m])
    ensures forall m <- g.freed :: m !in g.handed && g.e.msgbuf != Some(m)
  {
    assert first in f.position;
    RunKeeps(f, evs, g);
    var t :| t in g.position && g.position[t] >= g.top && (t in g.handed || g.e.msgbuf == Some(t));
  }

  /** Expiring the entry loses nothing when no ACK is held: the latest one has been handed for transmission. */
  lemma ExpiryIsSafeWhenNothingIsHeld(f: Flow, first: Msg, evs: seq<Event>, g: Flow)
    requires Started(f, first) && Run(f, evs, g) && g.e.msgbuf == None
    ensures exists m :: m in g.handed && m in g.position && g.position[m] == g.top
  {
    NothingIsLost(f, first, evs, g);
    var m :| m in g.position && g.position[m] >= g.top && (m in g.handed || g.e.msgbuf == Some(m));
    assert m in g.handed && g.position[m] == g.top;
  }

  /** tcp_ack_update expires an entry without looking at the ACK it holds.  Whoever occupies the entry next frees that
      ACK with the next newer number of the other flow, although it was never handed for transmission. */
  lemma ExpiryWhileHoldingLosesTheAck(e: Entry, held: Msg, key: Key, ack: U32, next: U32, msg: Msg, maxDrop: int,
                                      now: nat)
    requires e.busy && e.msgbuf == Some(held) && Before(ack, next)
    ensures var e1 := Occupy(e.(busy := false), key, ack, 0, maxDrop, now);
            Handle(e1, msg, next, maxDrop, now).2 == Some(held) && Handle(e1, msg, next, maxDrop, now).1 != Stale
  {
  }
}
