/** In which order frames reach the device, and buffers are used again, over all interleavings of the transmit pool. */
module UsbTxOrder {
  import opened UsbTxPool
  import opened UsbTxSystem

  /** The buffers that transmissions posted, in order. */
  function Posted(es: seq<Event>): seq<Buffer> {
    if es == [] then []
    else Posted(es[..|es| - 1]) + match es[|es| - 1] case Post(b) => [b] case _ => []
  }

  /** The buffers that the submitting thread took off the list, in order. */
  function Dequeued(stas: map<Station, bool>, es: seq<Event>): seq<Buffer>
    requires CanRun(Start(stas), es)
  {
    if es == [] then []
    else
      var us := es[..|es| - 1];
      Dequeued(stas, us)
      + if es[|es| - 1].Dequeue? then [Run(Start(stas), us).sh.post[0]] else []
  }

  /** The lists change at one end each: what comes in goes to the end, and what goes out is the first. */
  lemma ListsAfter(s: System, e: Event)
    requires Enabled(s, e)
    ensures Apply(s, e).sh.post ==
            match e case Post(b) => s.sh.post + [b] case Dequeue => s.sh.post[1..] case _ => s.sh.post
    ensures Apply(s, e).sh.free ==
            match e
            case Return(b) => s.sh.free + [b]
            case GiveBack(b) => s.sh.free + [b]
            case Take(_) => if s.sh.free == [] then [] else s.sh.free[1..]
            case _ => s.sh.free
    ensures e.Dequeue? ==> s.sh.post != []
  {
    hide Counted, Uncounted;
  }

  /** How the last event of a run adds to it. */
  lemma LastEvent(stas: map<Station, bool>, es: seq<Event>)
    requires CanRun(Start(stas), es) && es != []
    ensures var us, e := es[..|es| - 1], es[|es| - 1];
            && CanRun(Start(stas), us) && Enabled(Run(Start(stas), us), e)
            && Run(Start(stas), es) == Apply(Run(Start(stas), us), e)
  {
    hide Start, Enabled, Apply;
  }

  /** What is added behind a list that is split in two. */
  lemma Behind(whole: seq<Buffer>, gone: seq<Buffer>, left: seq<Buffer>, more: seq<Buffer>)
    requires whole == gone + left
    ensures whole + more == gone + (left + more)
    ensures left != [] ==> whole == (gone + [left[0]]) + left[1..]
  {
    assert left != [] ==> left == [left[0]] + left[1..];
  }

  /** Frames leave the list in the order in which they were posted, none skipped; those that are left wait in it. */
  lemma {:induction false} DequeuedInOrder(stas: map<Station, bool>, es: seq<Event>)
    requires CanRun(Start(stas), es)
    ensures Posted(es) == Dequeued(stas, es) + Run(Start(stas), es).sh.post
  {
    hide CanRun, Run, Start, Enabled, Apply;
    if es == [] {
      AtStart(stas);
    } else {
      LastEvent(stas, es);
      var us, e := es[..|es| - 1], es[|es| - 1];
      DequeuedInOrder(stas, us);
      var s := Run(Start(stas), us);
      ListsAfter(s, e);
      Behind(Posted(us), Dequeued(stas, us), s.sh.post, if e.Post? then [e.b] else []);
    }
  }

  lemma AtStart(stas: map<Station, bool>)
    ensures CanRun(Start(stas), []) && Run(Start(stas), []) == Start(stas) && Start(stas).sh.post == []
  {
  }

  /** The buffers that were submitted to the USB core, whether that failed or not, in order. */
  function SubmittedOf(es: seq<Event>): seq<Buffer> {
    if es == [] then []
    else SubmittedOf(es[..|es| - 1]) + match es[|es| - 1] case Submit(b, _) => [b] case _ => []
  }

  /** One thread submits: it takes the next buffer when it is through with the one before. */
  predicate OneThread(stas: map<Station, bool>, es: seq<Event>)
    requires CanRun(Start(stas), es)
  {
    es == []
    || (OneThread(stas, es[..|es| - 1])
        && (es[|es| - 1].Dequeue? ==> Run(Start(stas), es[..|es| - 1]).submitting == {}))
  }

  /** What a thread with at most one buffer has. */
  ghost predicate Has(s: System, bs: seq<Buffer>) {
    |bs| <= 1 && s.submitting == if bs == [] then {} else {bs[0]}
  }

  lemma SubmittingAfter(s: System, e: Event, bs: seq<Buffer>)
    requires Enabled(s, e) && Has(s, bs) && (e.Dequeue? ==> s.submitting == {})
    ensures match e
            case Dequeue => bs == [] && s.sh.post != [] && Has(Apply(s, e), [s.sh.post[0]])
            case Submit(b, _) => bs == [b] && Has(Apply(s, e), [])
            case _ => Has(Apply(s, e), bs)
  {
    hide Counted, Uncounted;
  }

  /** Frames are submitted in the order in which they were posted, none skipped: all that were posted are submitted,
      or the one that the thread has, or wait in the list. */
  lemma {:induction false} SubmittedInOrder(stas: map<Station, bool>, es: seq<Event>) returns (bs: seq<Buffer>)
    requires CanRun(Start(stas), es) && OneThread(stas, es)
    ensures Has(Run(Start(stas), es), bs) && Dequeued(stas, es) == SubmittedOf(es) + bs
    ensures Posted(es) == SubmittedOf(es) + bs + Run(Start(stas), es).sh.post
  {
    DequeuedInOrder(stas, es);
    if es == [] {
      bs := [];
    } else {
      hide Start, Enabled, Apply, Posted, Has;
      var us, e := es[..|es| - 1], es[|es| - 1];
      bs := SubmittedInOrder(stas, us);
      SubmittingAfter(Run(Start(stas), us), e, bs);
      if e.Dequeue? {
        bs := [Run(Start(stas), us).sh.post[0]];
      } else if e.Submit? {
        bs := [];
      }
    }
  }

  /** The buffers that came back to the free list, in order, and those that transmissions got from it. */
  function GivenBack(es: seq<Event>): seq<Buffer> {
    if es == [] then []
    else
      GivenBack(es[..|es| - 1])
      + match es[|es| - 1] case Return(b) => [b] case GiveBack(b) => [b] case _ => []
  }

  function Got(stas: map<Station, bool>, es: seq<Event>): seq<Buffer>
    requires CanRun(Start(stas), es)
  {
    if es == [] then []
    else
      var s := Run(Start(stas), es[..|es| - 1]);
      Got(stas, es[..|es| - 1]) + if es[|es| - 1].Take? && s.sh.free != [] then [s.sh.free[0]] else []
  }

  /** Buffers are used in turn: the one that has been free longest is taken next. */
  lemma {:induction false} UsedInTurn(stas: map<Station, bool>, es: seq<Event>)
    requires CanRun(Start(stas), es)
    ensures Start(stas).sh.free + GivenBack(es) == Got(stas, es) + Run(Start(stas), es).sh.free
  {
    hide CanRun, Run, Start, Enabled, Apply;
    if es == [] {
      AtStart(stas);
    } else {
      LastEvent(stas, es);
      var us, e := es[..|es| - 1], es[|es| - 1];
      UsedInTurn(stas, us);
      var free, s := Start(stas).sh.free, Run(Start(stas), us);
      ListsAfter(s, e);
      var more := if e.Return? || e.GiveBack? then [e.b] else [];
      assert free + (GivenBack(us) + more) == free + GivenBack(us) + more;
      Behind(free + GivenBack(us), Got(stas, us), s.sh.free, more);
    }
  }
}
