/** Queues that stay closed: a failed submission gives its buffer back without comparing the number of free buffers, so
    that after 50 of them all calls may be over and the queues closed, until some completion compares again. */
module UsbTxStuck {
  import opened Common
  import opened UsbTxPool
  import opened UsbTxSystem

  ghost predicate Reached(stas: map<Station, bool>, s: System) {
    exists es :: CanRun(Start(stas), es) && Run(Start(stas), es) == s
  }

  lemma ReachNext(stas: map<Station, bool>, s: System, e: Event)
    requires Reached(stas, s) && Enabled(s, e)
    ensures Reached(stas, Apply(s, e))
  {
    hide Enabled, Apply, Start;
    var es :| CanRun(Start(stas), es) && Run(Start(stas), es) == s;
    var more := es + [e];
    assert more[..|more| - 1] == es;
    assert CanRun(Start(stas), more) && Run(Start(stas), more) == Apply(s, e);
  }

  /** No call is under way; all posted frames are management frames. */
  predicate ListsOnly(s: System) {
    && s.taken == s.counted == s.submitting == s.failed == s.givingBack == s.flying == s.done == s.returning == {}
    && s.toCheckLow == s.toCheckHigh == 0 && s.check.Nobody?
    && s.sh.txFreeCount == |s.sh.free| && s.sh.txPostCount == |s.sh.post|
    && forall b <- s.sh.post :: b in s.frame && s.frame[b] == Frame(None, true)
  }

  lemma Sent(stas: map<Station, bool>, s: System) returns (t: System)
    requires Reached(stas, s) && ListsOnly(s) && s.sh.free != []
    ensures Reached(stas, t) && ListsOnly(t)
    ensures |t.sh.post| == |s.sh.post| + 1 && |t.sh.free| == |s.sh.free| - 1
    ensures t.sh.tbusy == (s.sh.tbusy || |t.sh.free| < AICWF_USB_TX_LOW_WATER) && t.unchecked == s.unchecked
  {
    hide Reached;
    var b := s.sh.free[0];
    t := Does(stas, s, Take(Frame(None, true)));
    t := Does(stas, t, Count(b));
    t := Does(stas, t, Post(b));
    t := Does(stas, t, LookLow);
    t := Does(stas, t, SetBusy);
  }

  lemma Does(stas: map<Station, bool>, s: System, e: Event) returns (t: System)
    requires Reached(stas, s) && Enabled(s, e)
    ensures Reached(stas, t) && t == Apply(s, e)
  {
    hide Reached, Enabled, Apply;
    ReachNext(stas, s, e);
    t := Apply(s, e);
  }

  lemma Flown(stas: map<Station, bool>, s: System) returns (t: System)
    requires Reached(stas, s) && ListsOnly(s) && s.sh.post != []
    ensures Reached(stas, t) && t == s.(sh := PostTaken(s.sh), returning := {s.sh.post[0]})
  {
    hide Reached;
    var b := s.sh.post[0];
    t := Does(stas, s, Dequeue);
    t := Does(stas, t, Submit(b, true));
    t := Does(stas, t, Complete(b));
    t := Does(stas, t, UncountDone(b));
  }

  lemma Completed(stas: map<Station, bool>, s: System) returns (t: System)
    requires Reached(stas, s) && ListsOnly(s) && s.sh.post != []
    ensures Reached(stas, t) && ListsOnly(t)
    ensures |t.sh.post| == |s.sh.post| - 1 && |t.sh.free| == |s.sh.free| + 1
    ensures t.sh.tbusy == (s.sh.tbusy && |t.sh.free| <= AICWF_USB_TX_HIGH_WATER) && t.unchecked == 0
  {
    hide Reached;
    var b := s.sh.post[0];
    t := Flown(stas, s);
    t := Does(stas, t, Return(b));
    t := Does(stas, t, LookHigh);
    t := Does(stas, t, ClearBusy);
  }

  lemma Failed(stas: map<Station, bool>, s: System) returns (t: System)
    requires Reached(stas, s) && ListsOnly(s) && s.sh.post != []
    ensures Reached(stas, t) && ListsOnly(t)
    ensures |t.sh.post| == |s.sh.post| - 1 && |t.sh.free| == |s.sh.free| + 1
    ensures t.sh.tbusy == s.sh.tbusy && t.unchecked == s.unchecked + 1
  {
    hide Reached;
    var b := s.sh.post[0];
    t := Does(stas, s, Dequeue);
    t := Does(stas, t, Submit(b, false));
    t := Does(stas, t, Uncount(b));
    t := Does(stas, t, GiveBack(b));
  }

  /** 151 frames are sent, 101 of them complete, and the submission of the other 50 fails: nothing is under way and all
      buffers are free, but the queues stay closed. */
  lemma FiftyFailuresCloseTheQueues(stas: map<Station, bool>) returns (s: System)
    ensures Reached(stas, s) && ListsOnly(s) && Quiet(s)
    ensures s.sh.txFreeCount == AICWF_USB_TX_URBS && s.sh.tbusy
    ensures s.unchecked == AICWF_USB_TX_URBS - AICWF_USB_TX_HIGH_WATER
  {
    hide Reached;
    s := Start(stas);
    StartIsReached(stas);
    var i := 0;
    while i < 151
      invariant i <= 151 && Reached(stas, s) && ListsOnly(s) && |s.sh.post| == i && |s.sh.free| == AICWF_USB_TX_URBS - i
      invariant s.sh.tbusy == (i == 151)
    {
      s := Sent(stas, s);
      i := i + 1;
    }
    while i > 50
      invariant 50 <= i <= 151 && Reached(stas, s) && ListsOnly(s)
      invariant |s.sh.post| == i && |s.sh.free| == AICWF_USB_TX_URBS - i
      invariant s.sh.tbusy && (i < 151 ==> s.unchecked == 0)
    {
      s := Completed(stas, s);
      i := i - 1;
    }
    while i > 0
      invariant 0 <= i <= 50 && Reached(stas, s) && ListsOnly(s)
      invariant |s.sh.post| == i && |s.sh.free| == AICWF_USB_TX_URBS - i
      invariant s.sh.tbusy && s.unchecked == 50 - i
    {
      s := Failed(stas, s);
      i := i - 1;
    }
  }

  /** And every further failure leaves them closed. */
  lemma {:induction false} MoreFailuresKeepThemClosed(stas: map<Station, bool>, n: nat) returns (s: System)
    requires n >= 50
    ensures Reached(stas, s) && ListsOnly(s) && Quiet(s)
    ensures s.sh.txFreeCount == AICWF_USB_TX_URBS && s.sh.tbusy && s.unchecked == n
  {
    if n == 50 {
      s := FiftyFailuresCloseTheQueues(stas);
    } else {
      s := MoreFailuresKeepThemClosed(stas, n - 1);
      s := Sent(stas, s);
      s := Failed(stas, s);
    }
  }

  /** How many submissions failed since a completion last compared the number of free buffers. */
  function FailuresSinceLook(es: seq<Event>): nat {
    if es == [] then 0
    else match es[|es| - 1]
      case GiveBack(_) => FailuresSinceLook(es[..|es| - 1]) + 1
      case LookHigh => 0
      case _ => FailuresSinceLook(es[..|es| - 1])
  }

  lemma {:induction false} UncheckedIs(stas: map<Station, bool>, es: seq<Event>)
    requires CanRun(Start(stas), es)
    ensures Run(Start(stas), es).unchecked == FailuresSinceLook(es)
  {
    if es != [] {
      UncheckedIs(stas, es[..|es| - 1]);
    }
  }

  /** A run that ends quietly with the queues closed, after n failures since a completion last compared. */
  ghost predicate EndsClosed(stas: map<Station, bool>, es: seq<Event>, n: nat) {
    && CanRun(Start(stas), es) && Quiet(Run(Start(stas), es)) && Run(Start(stas), es).sh.tbusy
    && FailuresSinceLook(es) == n
  }

  /** For a number of failures there is a run that ends quietly with the queues closed exactly when it is at least 50.
      Other runs with as many failures end open. */
  lemma ClosedExactlyFromFifty(stas: map<Station, bool>, n: nat)
    ensures (exists es :: EndsClosed(stas, es, n)) <==> n >= AICWF_USB_TX_URBS - AICWF_USB_TX_HIGH_WATER
  {
    hide CanRun, Run, Start, Quiet, ListsOnly, FailuresSinceLook;
    if n >= 50 {
      var s := MoreFailuresKeepThemClosed(stas, n);
      var es :| CanRun(Start(stas), es) && Run(Start(stas), es) == s;
      UncheckedIs(stas, es);
      assert EndsClosed(stas, es, n);
    } else {
      forall es ensures !EndsClosed(stas, es, n) {
        if EndsClosed(stas, es, n) { ClosedNeedsFifty(stas, es, n); }
      }
    }
  }

  lemma ClosedNeedsFifty(stas: map<Station, bool>, es: seq<Event>, n: nat)
    requires EndsClosed(stas, es, n)
    ensures n >= AICWF_USB_TX_URBS - AICWF_USB_TX_HIGH_WATER
  {
    hide CanRun, Run, Start, Quiet, FailuresSinceLook;
    UncheckedIs(stas, es);
    QuietMeansOpen(stas, es);
  }

  /** Once closed, the queues stay closed as long as no completion compares, whatever else happens. */
  lemma {:induction false} ClosedUntilACompletionCompares(s: System, es: seq<Event>)
    requires CanRun(s, es) && s.sh.tbusy && !s.check.SawHigh? && LookHigh !in es
    ensures Run(s, es).sh.tbusy && !Run(s, es).check.SawHigh?
  {
    if es != [] {
      ClosedUntilACompletionCompares(s, es[..|es| - 1]);
      assert es[|es| - 1] in es;
      hide Counted, Uncounted;
    }
  }

  /** The course of one management frame that is alone, in the buffer b: its transmission, and its completion. */
  function Sending(b: Buffer): seq<Event> {
    [Take(Frame(None, true)), Count(b), Post(b), LookLow, SetBusy]
  }

  function Completing(b: Buffer): seq<Event> {
    [Dequeue, Submit(b, true), Complete(b), UncountDone(b), Return(b), LookHigh, ClearBusy]
  }

  /** One such frame opens them again: its completion finds more buffers free than the high-water mark. */
  lemma OneFrameOpensThem(s: System)
    requires Inv(s) && Quiet(s)
    ensures s.sh.free != [] && CanRun(s, Sending(s.sh.free[0]) + Completing(s.sh.free[0]))
    ensures var t := Run(s, Sending(s.sh.free[0]) + Completing(s.sh.free[0])); Quiet(t) && !t.sh.tbusy
  {
    AllFree(s);
    hide Inv, CanRun, Run;
    var b := s.sh.free[0];
    var t := Transmitted(s);
    var u := Returned(s, Sending(b), t);
  }

  lemma Transmitted(s: System) returns (t: System)
    requires ListsOnly(s) && s.sh.post == [] && |s.sh.free| == AICWF_USB_TX_URBS
    ensures CanRun(s, Sending(s.sh.free[0])) && t == Run(s, Sending(s.sh.free[0]))
    ensures Alone(t, s.sh.free[0])
  {
    var b := s.sh.free[0];
    assert CanRun(s, []) && Run(s, []) == s;
    hide CanRun, Run, ListsOnly, Enabled, Apply;
    var es: seq<Event>;
    TakenAlone(s, b);
    es, t := More(s, [], s, Take(Frame(None, true)));
    CountedAlone(t, b);
    es, t := More(s, es, t, Count(b));
    PostedAlone(t, b);
    es, t := More(s, es, t, Post(b));
    t := Looked(s, es, t, b);
    assert es + [LookLow, SetBusy] == Sending(b);
  }

  /** Nothing is under way but the management frame in the buffer b, which a transmission has. */
  predicate InHand(s: System, b: Buffer) {
    && b !in s.sh.post && (b in s.taken || b in s.counted) && b in s.frame && s.frame[b] == Frame(None, true)
    && s.taken <= {b} && s.counted <= {b} && !(b in s.taken && b in s.counted)
    && ListsOnly(s.(taken := {}, counted := {})) && s.sh.post == [] && |s.sh.free| == AICWF_USB_TX_URBS - 1
  }

  lemma TakenAlone(s: System, b: Buffer)
    requires ListsOnly(s) && s.sh.post == [] && |s.sh.free| == AICWF_USB_TX_URBS && b == s.sh.free[0]
    ensures Enabled(s, Take(Frame(None, true)))
    ensures var t := Apply(s, Take(Frame(None, true))); InHand(t, b) && b in t.taken
  {
  }

  lemma CountedAlone(s: System, b: Buffer)
    requires InHand(s, b) && b in s.taken
    ensures Enabled(s, Count(b)) && InHand(Apply(s, Count(b)), b) && b in Apply(s, Count(b)).counted
  {
    hide Counted;
  }

  lemma PostedAlone(s: System, b: Buffer)
    requires InHand(s, b) && b in s.counted
    ensures Enabled(s, Post(b))
    ensures var t := Apply(s, Post(b)); t.toCheckLow == 1 && Alone(t.(toCheckLow := 0), b)
  {
    var t := Apply(s, Post(b));
    assert t.taken == {} && t.counted == {};
  }

  lemma Looked(s: System, es: seq<Event>, t: System, b: Buffer) returns (u: System)
    requires CanRun(s, es) && t == Run(s, es) && t.toCheckLow == 1 && Alone(t.(toCheckLow := 0), b)
    ensures CanRun(s, es + [LookLow, SetBusy]) && u == Run(s, es + [LookLow, SetBusy]) && Alone(u, b)
  {
    hide CanRun, Run;
    var more;
    more, u := More(s, es, t, LookLow);
    more, u := More(s, more, u, SetBusy);
    assert more == es + [LookLow, SetBusy];
  }

  /** Nothing is under way but the posted management frame in the buffer b. */
  predicate Alone(s: System, b: Buffer) {
    ListsOnly(s) && s.sh.post == [b] && |s.sh.free| == AICWF_USB_TX_URBS - 1
  }

  lemma Returned(s: System, es: seq<Event>, t: System) returns (u: System)
    requires CanRun(s, es) && t == Run(s, es) && t.sh.post != [] && Alone(t, t.sh.post[0])
    ensures CanRun(s, es + Completing(t.sh.post[0])) && u == Run(s, es + Completing(t.sh.post[0]))
    ensures Quiet(u) && !u.sh.tbusy
  {
    hide CanRun, Run;
    var b, more := t.sh.post[0], es;
    more, u := More(s, more, t, Dequeue);
    more, u := More(s, more, u, Submit(b, true));
    more, u := More(s, more, u, Complete(b));
    more, u := More(s, more, u, UncountDone(b));
    more, u := More(s, more, u, Return(b));
    more, u := More(s, more, u, LookHigh);
    more, u := More(s, more, u, ClearBusy);
    assert more == es + Completing(b);
  }

  lemma More(s: System, es: seq<Event>, t: System, e: Event) returns (more: seq<Event>, u: System)
    requires CanRun(s, es) && t == Run(s, es) && Enabled(t, e)
    ensures more == es + [e] && CanRun(s, more) && u == Run(s, more) == Apply(t, e)
  {
    hide Enabled, Apply;
    more := es + [e];
    assert more[..|more| - 1] == es;
    u := Apply(t, e);
  }

  lemma StartIsReached(stas: map<Station, bool>)
    ensures Reached(stas, Start(stas))
  {
    var none: seq<Event> := [];
    assert CanRun(Start(stas), none) && Run(Start(stas), none) == Start(stas);
  }
}
