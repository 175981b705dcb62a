/** All calls on the USB transmit pool at the same time: transmissions, the submitting thread and completions, one
    lock-held section at a time.

    A call under way is known by the buffer it holds.  One that has let go of its buffer but has yet to look at the
    number of free buffers is only counted, since it does not matter which call it is. */
module UsbTxSystem {
  import opened Common
  import opened UsbTxPool

  /** Who is inside tx_flow_lock to compare tx_free_count, and what the comparison said. */
  datatype Check = Nobody | SawLow(low: bool) | SawHigh(high: bool)

  /** `taken`: a transmission has the buffer; `counted`: and has counted the frame.  `submitting`, `failed`,
      `givingBack`: the submitting thread has it, its submission failed, its frame is no longer counted.  `flying`:
      the USB core has it. `done`, `returning`: its completion runs, its frame is no longer counted.  `toCheckLow`,
      `toCheckHigh`: how many calls are about to compare the number of free buffers.  `unchecked` says how many
      buffers came back through failed submissions since the last time that a completion compared. */
  datatype System = System(
    sh: Shared, frame: map<Buffer, Frame>,
    taken: set<Buffer>, counted: set<Buffer>,
    submitting: set<Buffer>, failed: set<Buffer>, givingBack: set<Buffer>,
    flying: set<Buffer>, done: set<Buffer>, returning: set<Buffer>,
    toCheckLow: nat, toCheckHigh: nat, check: Check, unchecked: nat)

  datatype Event =
    | Take(f: Frame) | Count(b: Buffer) | Post(b: Buffer) | LookLow | SetBusy
    | Dequeue | Submit(b: Buffer, ok: bool) | Uncount(b: Buffer) | GiveBack(b: Buffer)
    | Complete(b: Buffer) | UncountDone(b: Buffer) | Return(b: Buffer) | LookHigh | ClearBusy

  /** The flow lock is taken only for a frame that counts for a station. */
  predicate MayCount(s: System, f: Frame) {
    s.check.Nobody? || f.sta == None || !CountsFor(s.sh.stas, f, f.sta.value)
  }

  predicate Enabled(s: System, e: Event) {
    match e
    case Take(_) => true
    case Count(b) => b in s.taken && b in s.frame && MayCount(s, s.frame[b])
    case Post(b) => b in s.counted
    case LookLow => s.toCheckLow > 0 && s.check.Nobody?
    case SetBusy => s.check.SawLow?
    case Dequeue => s.sh.post != []
    case Submit(b, _) => b in s.submitting
    case Uncount(b) => b in s.failed && b in s.frame && MayCount(s, s.frame[b])
    case GiveBack(b) => b in s.givingBack
    case Complete(b) => b in s.flying
    case UncountDone(b) => b in s.done && b in s.frame && MayCount(s, s.frame[b])
    case Return(b) => b in s.returning
    case LookHigh => s.toCheckHigh > 0 && s.check.Nobody?
    case ClearBusy => s.check.SawHigh?
  }

  function Apply(s: System, e: Event): System
    requires Enabled(s, e)
  {
    match e
    case Take(f) =>
      if s.sh.free == [] then s.(toCheckLow := s.toCheckLow + 1)
      else s.(sh := FreeTaken(s.sh), taken := s.taken + {s.sh.free[0]}, frame := s.frame[s.sh.free[0] := f])
    case Count(b) =>
      s.(sh := s.sh.(stas := Counted(s.sh.stas, s.frame[b])), taken := s.taken - {b}, counted := s.counted + {b})
    case Post(b) =>
      s.(sh := PostAdded(s.sh, b), counted := s.counted - {b}, toCheckLow := s.toCheckLow + 1)
    case LookLow =>
      s.(toCheckLow := s.toCheckLow - 1, check := SawLow(s.sh.txFreeCount < AICWF_USB_TX_LOW_WATER))
    case SetBusy =>
      s.(sh := s.sh.(tbusy := s.sh.tbusy || s.check.low), check := Nobody)
    case Dequeue =>
      s.(sh := PostTaken(s.sh), submitting := s.submitting + {s.sh.post[0]})
    case Submit(b, ok) =>
      if ok then s.(submitting := s.submitting - {b}, flying := s.flying + {b})
      else s.(submitting := s.submitting - {b}, failed := s.failed + {b})
    case Uncount(b) =>
      s.(sh := s.sh.(stas := Uncounted(s.sh.stas, s.frame[b])), failed := s.failed - {b},
         givingBack := s.givingBack + {b})
    case GiveBack(b) =>
      s.(sh := FreeAdded(s.sh, b), givingBack := s.givingBack - {b}, unchecked := s.unchecked + 1)
    case Complete(b) =>
      s.(flying := s.flying - {b}, done := s.done + {b})
    case UncountDone(b) =>
      s.(sh := s.sh.(stas := Uncounted(s.sh.stas, s.frame[b])), done := s.done - {b}, returning := s.returning + {b})
    case Return(b) =>
      s.(sh := FreeAdded(s.sh, b), returning := s.returning - {b}, toCheckHigh := s.toCheckHigh + 1)
    case LookHigh =>
      s.(toCheckHigh := s.toCheckHigh - 1, check := SawHigh(s.sh.txFreeCount > AICWF_USB_TX_HIGH_WATER), unchecked := 0)
    case ClearBusy =>
      s.(sh := s.sh.(tbusy := s.sh.tbusy && !s.check.high), check := Nobody)
  }

  function Start(stas: map<Station, bool>): System {
    System(Initial(stas), map[], {}, {}, {}, {}, {}, {}, {}, {}, 0, 0, Nobody, 0)
  }

  predicate CanRun(s: System, es: seq<Event>)
    decreases |es|, 0
  {
    es == [] || (CanRun(s, es[..|es| - 1]) && Enabled(Run(s, es[..|es| - 1]), es[|es| - 1]))
  }

  function Run(s: System, es: seq<Event>): System
    requires CanRun(s, es)
    decreases |es|, 1
  {
    if es == [] then s else Apply(Run(s, es[..|es| - 1]), es[|es| - 1])
  }

  function One(p: bool): nat {
    if p then 1 else 0
  }

  /** In how many places a buffer is: how often in the lists, and in how many hands. */
  function Hands(s: System, b: Buffer): nat {
    One(b in s.taken) + One(b in s.counted) + One(b in s.submitting) + One(b in s.failed) + One(b in s.givingBack)
    + One(b in s.done) + One(b in s.returning)
  }

  function Places(s: System, b: Buffer): nat {
    multiset(s.sh.free)[b] + multiset(s.sh.post)[b] + One(b in s.flying) + Hands(s, b)
  }

  /** Each buffer is in exactly one place, and the counters tell the lengths of the lists. */
  ghost predicate PlacesOk(s: System) {
    && (forall b: Buffer :: Places(s, b) == One(b < AICWF_USB_TX_URBS))
    && s.sh.txFreeCount == |s.sh.free| && s.sh.txPostCount == |s.sh.post|
  }

  lemma FirstOut(q: seq<Buffer>, b: Buffer)
    requires q != []
    ensures multiset(q)[b] == One(b == q[0]) + multiset(q[1..])[b]
  {
    assert q == [q[0]] + q[1..];
  }

  lemma LastIn(q: seq<Buffer>, c: Buffer, b: Buffer)
    ensures multiset(q + [c])[b] == multiset(q)[b] + One(b == c)
  {
  }

  predicate MovesList(e: Event) {
    e.Take? || e.Dequeue? || e.Post? || e.GiveBack? || e.Return?
  }

  lemma ListPlaceKept(s: System, e: Event, b: Buffer)
    requires Enabled(s, e) && Places(s, b) <= 1 && MovesList(e)
    ensures Places(Apply(s, e), b) == Places(s, b)
  {
    if e.Take? || e.Dequeue? { OutPlaceKept(s, e, b); } else { InPlaceKept(s, e, b); }
  }

  lemma OutPlaceKept(s: System, e: Event, b: Buffer)
    requires Enabled(s, e) && Places(s, b) <= 1 && (e.Take? || e.Dequeue?)
    ensures Places(Apply(s, e), b) == Places(s, b)
  {
    if s.sh.free != [] { FirstOut(s.sh.free, b); }
    if s.sh.post != [] { FirstOut(s.sh.post, b); }
  }

  lemma InPlaceKept(s: System, e: Event, b: Buffer)
    requires Enabled(s, e) && Places(s, b) <= 1 && (e.Post? || e.GiveBack? || e.Return?)
    ensures Places(Apply(s, e), b) == Places(s, b)
  {
    match e {
      case Post(c) => LastIn(s.sh.post, c, b);
      case GiveBack(c) => LastIn(s.sh.free, c, b);
      case Return(c) => LastIn(s.sh.free, c, b);
    }
  }

  lemma HandPlaceKept(s: System, e: Event, b: Buffer)
    requires Enabled(s, e) && Places(s, b) <= 1 && !MovesList(e)
    ensures Places(Apply(s, e), b) == Places(s, b)
  {
    hide Counted, Uncounted;
  }

  lemma PlacesKept(s: System, e: Event)
    requires PlacesOk(s) && Enabled(s, e)
    ensures PlacesOk(Apply(s, e))
  {
    hide Places, Counted, Uncounted;
    forall b: Buffer ensures Places(Apply(s, e), b) == One(b < AICWF_USB_TX_URBS) {
      assert Places(s, b) == One(b < AICWF_USB_TX_URBS);
      if MovesList(e) { ListPlaceKept(s, e, b); } else { HandPlaceKept(s, e, b); }
    }
  }

  /** The free buffers, and those that transmissions took and have not answered for yet by comparing. */
  function FreeOrJustTaken(s: System): nat {
    |s.sh.free| + |s.taken| + |s.counted| + s.toCheckLow
  }

  /** While the queues are open there are enough free buffers, but for those of calls that will still compare. */
  predicate LowOk(s: System) {
    && (!s.sh.tbusy ==> FreeOrJustTaken(s) + One(s.check.SawLow?) >= AICWF_USB_TX_LOW_WATER)
    && (s.check == SawLow(false) || s.check == SawHigh(true) ==> FreeOrJustTaken(s) >= AICWF_USB_TX_LOW_WATER)
  }

  lemma LowKept(s: System, e: Event)
    requires LowOk(s) && PlacesOk(s) && Enabled(s, e)
    ensures LowOk(Apply(s, e))
  {
    hide Counted, Uncounted;
    match e {
      case Take(_) =>
        if s.sh.free != [] {
          FirstOut(s.sh.free, s.sh.free[0]);
          assert Places(s, s.sh.free[0]) <= 1;
        }
      case Count(b) =>
        assert Places(s, b) <= 1;
      case _ =>
    }
  }

  /** When more than the high-water mark are free and the queues are still closed, then some completion is about to open
      them; the marks may be missed only by buffers that came back through failed submissions. */
  predicate WakeOk(s: System) {
    s.sh.tbusy || s.check == SawLow(true) || s.check == SawHigh(false) ==>
      s.toCheckHigh > 0 || s.check == SawHigh(true) || |s.sh.free| <= AICWF_USB_TX_HIGH_WATER + s.unchecked
  }

  lemma WakeKept(s: System, e: Event)
    requires WakeOk(s) && PlacesOk(s) && Enabled(s, e)
    ensures WakeOk(Apply(s, e))
  {
    hide Counted, Uncounted, Places;
  }

  /** The frame of this buffer is counted for its station. */
  predicate Accounted(s: System, b: Buffer) {
    b in s.sh.post || b in s.counted || b in s.submitting || b in s.failed || b in s.flying || b in s.done
  }

  function Waiting(s: System, sta: Station): set<Buffer> {
    set b | b in s.frame && Accounted(s, b) && s.frame[b].sta == Some(sta) && !s.frame[b].mgmt
  }

  predicate FramesOk(s: System) {
    (s.taken <= s.frame.Keys) && (forall b <- s.sh.post :: b in s.frame) && s.counted <= s.frame.Keys
    && s.submitting <= s.frame.Keys && s.failed <= s.frame.Keys && s.flying <= s.frame.Keys && s.done <= s.frame.Keys
  }

  /** The pending count of each station is the number of its frames under way, and stations are held back
      accordingly. */
  predicate PendingOk(s: System) {
    forall sta <- s.sh.stas :: s.sh.stas[sta].txPendingCnt == |Waiting(s, sta)| && Hysteresis(s.sh.stas[sta])
  }

  lemma FramesKept(s: System, e: Event)
    requires FramesOk(s) && Enabled(s, e)
    ensures FramesOk(Apply(s, e))
  {
    hide Counted, Uncounted;
  }

  lemma NobodyElse(s: System, b: Buffer)
    requires PlacesOk(s)
    ensures b in s.taken ==> !Accounted(s, b)
    ensures b in s.failed ==> b !in s.sh.post && b !in s.counted && b !in s.submitting && b !in s.flying && b !in s.done
    ensures b in s.done ==> b !in s.sh.post && b !in s.counted && b !in s.submitting && b !in s.flying && b !in s.failed
    ensures b in s.sh.free ==> !Accounted(s, b)
  {
    assert Places(s, b) <= 1;
  }

  /** How an event changes which frames are under way to a station. */
  lemma WaitingAfter(s: System, e: Event, sta: Station)
    requires PlacesOk(s) && Enabled(s, e) && sta in s.sh.stas
    ensures var t := Apply(s, e);
            match e
            case Count(b) => b !in Waiting(s, sta) &&
              Waiting(t, sta) ==
              if CountsFor(s.sh.stas, s.frame[b], sta) then Waiting(s, sta) + {b} else Waiting(s, sta)
            case Uncount(b) =>
              Waiting(t, sta) ==
              if CountsFor(s.sh.stas, s.frame[b], sta) then Waiting(s, sta) - {b} else Waiting(s, sta)
            case UncountDone(b) =>
              Waiting(t, sta) ==
              if CountsFor(s.sh.stas, s.frame[b], sta) then Waiting(s, sta) - {b} else Waiting(s, sta)
            case _ => Waiting(t, sta) == Waiting(s, sta)
  {
    hide PlacesOk, Counted, Uncounted;
    match e {
      case Count(b) => NobodyElse(s, b);
      case Uncount(b) => NobodyElse(s, b);
      case UncountDone(b) => NobodyElse(s, b);
      case Take(_) => if s.sh.free != [] { NobodyElse(s, s.sh.free[0]); }
      case _ =>
    }
  }

  /** A counted frame is under way to its station. */
  lemma CountedWaits(s: System, e: Event, b: Buffer, sta: Station)
    requires Enabled(s, e) && (e == Uncount(b) || e == UncountDone(b)) && CountsFor(s.sh.stas, s.frame[b], sta)
    ensures b in Waiting(s, sta)
  {
  }

  lemma PendingKept(s: System, e: Event)
    requires PendingOk(s) && PlacesOk(s) && Enabled(s, e)
    ensures PendingOk(Apply(s, e))
  {
    hide PlacesOk, Hysteresis, Waiting, OneMore, OneLess;
    var t := Apply(s, e);
    forall sta | sta in t.sh.stas
      ensures t.sh.stas[sta].txPendingCnt == |Waiting(t, sta)| && Hysteresis(t.sh.stas[sta])
    {
      var v := s.sh.stas[sta];
      WaitingAfter(s, e, sta);
      HysteresisKept(v);
      OneCounts(v);
      match e {
        case Uncount(b) => if CountsFor(s.sh.stas, s.frame[b], sta) { CountedWaits(s, e, b, sta); }
        case UncountDone(b) => if CountsFor(s.sh.stas, s.frame[b], sta) { CountedWaits(s, e, b, sta); }
        case _ =>
      }
    }
  }

  lemma OneCounts(v: StaFlow)
    ensures OneMore(v).txPendingCnt == v.txPendingCnt + 1 && OneLess(v).txPendingCnt == v.txPendingCnt - 1
  {
  }

  ghost predicate Inv(s: System) {
    PlacesOk(s) && LowOk(s) && WakeOk(s) && FramesOk(s) && PendingOk(s)
  }

  lemma EventKeeps(s: System, e: Event)
    requires Inv(s) && Enabled(s, e)
    ensures Inv(Apply(s, e))
  {
    hide PlacesOk, LowOk, WakeOk, FramesOk, PendingOk, Apply, Enabled;
    PlacesKept(s, e);
    LowKept(s, e);
    WakeKept(s, e);
    FramesKept(s, e);
    PendingKept(s, e);
  }

  lemma {:induction false} Counting(n: nat, b: Buffer)
    ensures multiset(seq(n, i => i))[b] == One(b < n)
  {
    var q := seq(n, i => i);
    if n > 0 {
      Counting(n - 1, b);
      assert q == seq(n - 1, i => i) + [n - 1];
    }
  }

  lemma StartIsOk(stas: map<Station, bool>)
    ensures Inv(Start(stas))
  {
    var s := Start(stas);
    forall b: Buffer ensures Places(s, b) == One(b < AICWF_USB_TX_URBS) {
      Counting(AICWF_USB_TX_URBS, b);
      assert s.sh.free == seq(AICWF_USB_TX_URBS, i => i);
    }
    forall sta | sta in s.sh.stas ensures Waiting(s, sta) == {} {
    }
  }

  /** All interleavings keep the buffers, the counters, the pending counts and the marks in order. */
  lemma {:induction false} RunKeeps(stas: map<Station, bool>, es: seq<Event>)
    requires CanRun(Start(stas), es)
    ensures Inv(Run(Start(stas), es))
  {
    hide Inv, Apply, Enabled, Start;
    if es == [] {
      StartIsOk(stas);
    } else {
      RunKeeps(stas, es[..|es| - 1]);
      EventKeeps(Run(Start(stas), es[..|es| - 1]), es[|es| - 1]);
    }
  }

  /** With the queues open, and no transmission between taking a buffer and comparing, a quarter of the buffers is
      free. */
  lemma OpenMeansFree(stas: map<Station, bool>, es: seq<Event>)
    requires CanRun(Start(stas), es)
    ensures var s := Run(Start(stas), es);
            !s.sh.tbusy && s.taken == s.counted == {} && s.toCheckLow == 0 && !s.check.SawLow? ==>
              s.sh.txFreeCount >= AICWF_USB_TX_LOW_WATER
  {
    RunKeeps(stas, es);
  }

  /** Nothing is under way. */
  predicate Quiet(s: System) {
    s.taken == s.counted == s.submitting == s.failed == s.givingBack == s.flying == s.done == s.returning == {}
    && s.sh.post == [] && s.toCheckLow == s.toCheckHigh == 0 && s.check.Nobody?
  }

  /** In the end all buffers are free again, no station has frames pending or is held back, and the queues are open,
      unless at least 50 buffers came back through failed submissions since a completion last compared. */
  lemma QuietMeansOpen(stas: map<Station, bool>, es: seq<Event>)
    requires CanRun(Start(stas), es) && Quiet(Run(Start(stas), es))
    ensures var s := Run(Start(stas), es);
            && s.sh.txFreeCount == AICWF_USB_TX_URBS
            && (forall sta <- s.sh.stas ::
                  s.sh.stas[sta].txPendingCnt == 0 && !s.sh.stas[sta].flowctrl)
            && (s.sh.tbusy ==> s.unchecked >= AICWF_USB_TX_URBS - AICWF_USB_TX_HIGH_WATER)
  {
    RunKeeps(stas, es);
    var s := Run(Start(stas), es);
    hide Inv, Run, CanRun, Start;
    AllFree(s);
    forall sta | sta in s.sh.stas
      ensures s.sh.stas[sta].txPendingCnt == 0 && !s.sh.stas[sta].flowctrl
    {
      assert Waiting(s, sta) == {};
    }
  }

  lemma AllFree(s: System)
    requires Inv(s) && Quiet(s)
    ensures |s.sh.free| == s.sh.txFreeCount == AICWF_USB_TX_URBS && s.sh.txPostCount == 0
    ensures PendingOk(s) && WakeOk(s)
  {
    var all := seq(AICWF_USB_TX_URBS, i => i);
    forall b: Buffer ensures multiset(s.sh.free)[b] == multiset(all)[b] {
      assert Places(s, b) == One(b < AICWF_USB_TX_URBS);
      Counting(AICWF_USB_TX_URBS, b);
    }
    assert multiset(s.sh.free) == multiset(all);
    assert |multiset(s.sh.free)| == |s.sh.free| && |multiset(all)| == |all|;
  }
}
