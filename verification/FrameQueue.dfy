/** The bounded priority queue of frames (aicwf_txrxif.c): up to eight classes, each a FIFO list, served from the
    highest class down.  The struct keeps the total count and a hint, `hi_prio`, above which every class is empty. */
module FrameQueue {
  import opened Common

  /** A frame is the address of its socket buffer. */
  type Frame = nat

  // ---------------------------------------------------------------------------------------------------------
  // Classes of frames as values
  // ---------------------------------------------------------------------------------------------------------

  function Total(classes: seq<seq<Frame>>): nat {
    if classes == [] then 0 else Total(classes[..|classes| - 1]) + |classes[|classes| - 1]|
  }

  /** The order in which the frames leave: highest class first, oldest first within a class. */
  function ServiceOrder(classes: seq<seq<Frame>>): seq<Frame> {
    if classes == [] then [] else classes[|classes| - 1] + ServiceOrder(classes[..|classes| - 1])
  }

  predicate EmptyAbove(classes: seq<seq<Frame>>, hi: nat) {
    forall p :: hi < p < |classes| ==> classes[p] == []
  }

  /** `p` is the lowest class that holds a frame. */
  predicate Lowest(classes: seq<seq<Frame>>, p: nat) {
    p < |classes| && classes[p] != [] && forall q :: 0 <= q < p ==> classes[q] == []
  }

  lemma EmptyAboveUpdated(classes: seq<seq<Frame>>, hi: nat, p: nat, c: seq<Frame>)
    requires EmptyAbove(classes, hi) && p < |classes|
    ensures EmptyAbove(classes[p := c], if hi < p then p else hi)
  {
  }

  lemma {:induction false} TotalUpdated(classes: seq<seq<Frame>>, p: nat, c: seq<Frame>)
    requires p < |classes|
    ensures Total(classes[p := c]) == Total(classes) - |classes[p]| + |c|
    ensures |classes[p]| <= Total(classes)
  {
    var n := |classes| - 1;
    if p < n {
      TotalUpdated(classes[..n], p, c);
      assert classes[p := c][..n] == classes[..n][p := c];
    } else {
      assert classes[p := c][..n] == classes[..n];
    }
  }

  lemma {:induction false} TotalIsServiceLength(classes: seq<seq<Frame>>)
    ensures |ServiceOrder(classes)| == Total(classes)
    ensures Total(classes) == 0 <==> forall p :: 0 <= p < |classes| ==> classes[p] == []
  {
    if classes != [] {
      var n := |classes| - 1;
      TotalIsServiceLength(classes[..n]);
      assert forall p :: 0 <= p < n ==> classes[..n][p] == classes[p];
    }
  }

  lemma {:induction false} EmptyClassesDoNotServe(classes: seq<seq<Frame>>, hi: nat)
    requires hi < |classes| && EmptyAbove(classes, hi)
    ensures ServiceOrder(classes) == ServiceOrder(classes[..hi + 1])
    ensures Total(classes) == Total(classes[..hi + 1])
    decreases |classes|
  {
    var n := |classes| - 1;
    if hi == n {
      assert classes[..hi + 1] == classes;
    } else {
      assert forall p :: 0 <= p < n ==> classes[..n][p] == classes[p];
      EmptyClassesDoNotServe(classes[..n], hi);
      assert classes[..n][..hi + 1] == classes[..hi + 1];
    }
  }

  /** Taking the oldest frame of the highest class that holds one serves the first frame of the service order. */
  lemma TakingServesFirst(classes: seq<seq<Frame>>, hi: nat)
    requires hi < |classes| && EmptyAbove(classes, hi) && classes[hi] != []
    ensures ServiceOrder(classes) == [classes[hi][0]] + ServiceOrder(classes[hi := classes[hi][1..]])
  {
    var after := classes[hi := classes[hi][1..]];
    EmptyClassesDoNotServe(classes, hi);
    EmptyClassesDoNotServe(after, hi);
    assert classes[..hi + 1][..hi] == classes[..hi] == after[..hi + 1][..hi];
    assert classes[hi] == [classes[hi][0]] + classes[hi][1..];
  }

  /** The frames of all classes, whatever their order. */
  function Frames(classes: seq<seq<Frame>>): multiset<Frame> {
    if classes == [] then multiset{} else Frames(classes[..|classes| - 1]) + multiset(classes[|classes| - 1])
  }

  /** Adding or taking one frame of a class. */
  lemma {:induction false} OneFrame(classes: seq<seq<Frame>>, p: nat, c: seq<Frame>, x: Frame)
    requires p < |classes| && multiset(classes[p]) == multiset(c) + multiset{x}
    ensures Frames(classes) == Frames(classes[p := c]) + multiset{x}
  {
    var n := |classes| - 1;
    if p < n {
      OneFrame(classes[..n], p, c, x);
      assert classes[p := c][..n] == classes[..n][p := c];
    } else {
      assert classes[p := c][..n] == classes[..n];
    }
  }

  lemma {:induction false} FramesAreServed(classes: seq<seq<Frame>>)
    ensures Frames(classes) == multiset(ServiceOrder(classes))
  {
    if classes != [] {
      FramesAreServed(classes[..|classes| - 1]);
    }
  }

  // ---------------------------------------------------------------------------------------------------------
  // The queue
  // ---------------------------------------------------------------------------------------------------------

  class Queue {
    const qmax: nat
    var hi_prio: nat
    var qcnt: nat
    const queuelist: array<seq<Frame>>

    // every frame that was accepted, and what became of those that left
    ghost var accepted: multiset<Frame>
    ghost var delivered: seq<Frame>
    ghost var dropped: multiset<Frame>

    ghost predicate Valid()
      reads this, queuelist
    {
      && 1 <= queuelist.Length <= 8 && qmax < 0x1_0000
      && hi_prio < queuelist.Length && EmptyAbove(queuelist[..], hi_prio)
      && qcnt == Total(queuelist[..]) <= qmax
      && accepted == multiset(delivered) + dropped + Frames(queuelist[..])
    }

    ghost function Classes(): seq<seq<Frame>>
      reads this, queuelist
    {
      queuelist[..]
    }

    constructor (num_prio: nat, max_len: nat)
      requires 1 <= num_prio <= 8
      ensures Valid() && fresh(queuelist) && |Classes()| == num_prio && qmax == max_len % 0x1_0000
      ensures ServiceOrder(Classes()) == [] && delivered == []
    {
      qmax := max_len % 0x1_0000;
      queuelist := new seq<Frame>[num_prio](_ => []);
      hi_prio, qcnt := 0, 0;
      accepted, delivered, dropped := multiset{}, [], multiset{};
      new;
      TotalIsServiceLength(queuelist[..]);
      FramesAreServed(queuelist[..]);
    }

    /** aicwf_frame_queue_penq. */
    method Penq(prio: nat, p: Frame) returns (ok: bool)
      requires Valid() && prio < queuelist.Length && qcnt < qmax
      modifies this, queuelist
      ensures Valid() && ok
      ensures Classes() == old(Classes())[prio := old(Classes())[prio] + [p]]
      ensures accepted == old(accepted) + multiset{p} && delivered == old(delivered) && dropped == old(dropped)
      ensures qcnt == old(qcnt) + 1
    {
      TotalUpdated(queuelist[..], prio, queuelist[prio] + [p]);
      var c := queuelist[prio] + [p];
      assert queuelist[..][prio := c][prio := queuelist[prio]] == queuelist[..];
      OneFrame(queuelist[..][prio := c], prio, queuelist[prio], p);
      EmptyAboveUpdated(queuelist[..], hi_prio, prio, c);
      hide Total, Frames, EmptyAbove;
      if |queuelist[prio]| >= qmax {
        return false;
      }
      queuelist[prio] := queuelist[prio] + [p];
      qcnt := qcnt + 1;
      if hi_prio < prio {
        hi_prio := prio;
      }
      accepted := accepted + multiset{p};
      assert queuelist[..] == old(queuelist[..])[prio := c];
      return true;
    }

    /** aicwf_frame_queue_peek_tail: the youngest frame of the lowest class that holds one, and that class. */
    method PeekTail() returns (p: Option<Frame>, prio: nat)
      requires Valid()
      ensures qcnt == 0 ==> p == None
      ensures qcnt > 0 ==> Lowest(Classes(), prio) && p == Some(Classes()[prio][|Classes()[prio]| - 1])
    {
      prio := 0;
      if qcnt == 0 {
        return None, 0;
      }
      TotalIsServiceLength(queuelist[..]);
      while prio < hi_prio
        invariant prio <= hi_prio && forall q :: 0 <= q < prio ==> queuelist[q] == []
      {
        if queuelist[prio] != [] {
          break;
        }
        prio := prio + 1;
      }
      p := Some(queuelist[prio][|queuelist[prio]| - 1]);
    }

    /** aicwf_is_framequeue_empty. */
    method IsEmpty() returns (empty: bool)
      requires Valid()
      ensures empty <==> qcnt == 0
      ensures empty <==> ServiceOrder(Classes()) == []
    {
      var len := 0;
      var prio := 0;
      while prio <= hi_prio
        invariant prio <= hi_prio + 1 && len == Total(queuelist[..][..prio])
      {
        assert queuelist[..][..prio + 1][..prio] == queuelist[..][..prio];
        len := len + |queuelist[prio]|;
        prio := prio + 1;
      }
      EmptyClassesDoNotServe(queuelist[..], hi_prio);
      TotalIsServiceLength(queuelist[..]);
      empty := !(len > 0);
    }

    /** aicwf_frame_dequeue. */
    method Dequeue() returns (p: Option<Frame>)
      requires Valid()
      modifies this, queuelist
      ensures Valid() && accepted == old(accepted) && dropped == old(dropped)
      ensures p == None <==> old(qcnt) == 0
      ensures p == None ==> Classes() == old(Classes()) && delivered == old(delivered)
      ensures p.Some? ==> ServiceOrder(old(Classes())) == [p.value] + ServiceOrder(Classes())
      ensures p.Some? ==> delivered == old(delivered) + [p.value] && qcnt == old(qcnt) - 1
    {
      if qcnt == 0 {
        return None;
      }
      TotalIsServiceLength(queuelist[..]);
      while hi_prio > 0 && queuelist[hi_prio] == []
        invariant hi_prio < queuelist.Length && EmptyAbove(queuelist[..], hi_prio)
        invariant queuelist[..] == old(queuelist[..]) && unchanged(`qcnt, `accepted, `delivered, `dropped)
      {
        hi_prio := hi_prio - 1;
      }
      var prio := hi_prio;
      if queuelist[prio] == [] {
        return None;
      }
      var f := TakeHead(prio);
      return Some(f);
    }

    /** __skb_dequeue on the highest class that holds a frame, and the count. */
    method TakeHead(prio: nat) returns (p: Frame)
      requires Valid() && prio == hi_prio && queuelist[prio] != []
      modifies this, queuelist
      ensures Valid() && accepted == old(accepted) && dropped == old(dropped)
      ensures ServiceOrder(old(Classes())) == [p] + ServiceOrder(Classes())
      ensures delivered == old(delivered) + [p] && qcnt == old(qcnt) - 1
    {
      var q := queuelist[prio];
      p := q[0];
      TotalUpdated(queuelist[..], prio, q[1..]);
      assert q == [q[0]] + q[1..];
      OneFrame(queuelist[..], prio, q[1..], q[0]);
      TakingServesFirst(queuelist[..], prio);
      EmptyAboveUpdated(queuelist[..], hi_prio, prio, q[1..]);
      hide Total, Frames, ServiceOrder, EmptyAbove;
      queuelist[prio] := q[1..];
      qcnt := qcnt - 1;
      delivered := delivered + [p];
      assert queuelist[..] == old(queuelist[..])[prio := q[1..]];
    }

    /** aicwf_skb_dequeue_tail, the frame being freed by the caller. */
    method DropTail(prio: nat) returns (p: Option<Frame>)
      requires Valid() && prio < queuelist.Length && queuelist[prio] != []
      modifies this, queuelist
      ensures Valid() && accepted == old(accepted) && delivered == old(delivered) && hi_prio == old(hi_prio)
      ensures var c := old(Classes())[prio];
              && p == Some(c[|c| - 1]) && dropped == old(dropped) + multiset{c[|c| - 1]}
              && Classes() == old(Classes())[prio := c[..|c| - 1]] && qcnt == old(qcnt) - 1
    {
      var q := queuelist[prio];
      var n := |q| - 1;
      TotalUpdated(queuelist[..], prio, q[..n]);
      assert q == q[..n] + [q[n]];
      OneFrame(queuelist[..], prio, q[..n], q[n]);
      hide Total, Frames;
      queuelist[prio] := q[..n];
      qcnt := qcnt - 1;
      dropped := dropped + multiset{q[n]};
      assert queuelist[..] == old(queuelist[..])[prio := q[..n]];
      return Some(q[n]);
    }

    /** aicwf_frame_enq. */
    method Enq(pkt: Frame, prio: nat) returns (ok: bool)
      requires Valid() && prio < queuelist.Length
      modifies this, queuelist
      ensures Valid() && delivered == old(delivered)
      // accepted exactly when there is room or a strictly lower class holds a frame
      ensures ok <==> old(qcnt) < qmax || exists q :: 0 <= q < prio && old(Classes())[q] != []
      ensures !ok ==> Classes() == old(Classes()) && accepted == old(accepted) && dropped == old(dropped)
      ensures ok ==> accepted == old(accepted) + multiset{pkt}
      ensures ok && old(qcnt) < qmax ==>
                Classes() == old(Classes())[prio := old(Classes())[prio] + [pkt]] && dropped == old(dropped)
      // on a full queue the youngest frame of the lowest class gives way, and the new frame takes its place there
      ensures ok && old(qcnt) == qmax ==>
                exists low: nat :: && Lowest(old(Classes()), low) && low < prio && qcnt == qmax
                              && Overflowed(old(Classes()), Classes(), low, pkt)
                              && dropped == old(dropped) + multiset{Youngest(old(Classes())[low])}
    {
      if |queuelist[prio]| < qmax && qcnt < qmax {
        ok := Penq(prio, pkt);
        return;
      }
      TotalUpdated(queuelist[..], prio, []);
      if |queuelist[prio]| >= qmax {
        LoneClass(queuelist[..], prio);
        return false;
      }
      var p, low := PeekTail();
      if low > prio || low == prio {
        return false;
      }
      ghost var before := queuelist[..];
      p := DropTail(low);
      ok := Penq(low, pkt);
      assert Lowest(before, low) && Overflowed(before, Classes(), low, pkt);
    }

    /** aicwf_frame_queue_flush; `hi_prio` keeps its value. */
    method Flush()
      requires Valid()
      modifies this, queuelist
      ensures Valid() && qcnt == 0 && hi_prio == old(hi_prio) && ServiceOrder(Classes()) == []
      ensures accepted == old(accepted) && delivered == old(delivered)
      ensures dropped == old(dropped) + Frames(old(Classes()))
    {
      hide Total, Frames, EmptyAbove, ServiceOrder;
      assert accepted == multiset(delivered) + (dropped + Frames(queuelist[..]));
      var prio := 0;
      while prio < queuelist.Length
        invariant prio <= queuelist.Length && Valid() && hi_prio == old(hi_prio)
        invariant accepted == old(accepted) && delivered == old(delivered)
        invariant forall q :: 0 <= q < prio ==> queuelist[q] == []
      {
        while queuelist[prio] != []
          invariant Valid() && hi_prio == old(hi_prio)
          invariant accepted == old(accepted) && delivered == old(delivered)
          invariant forall q :: 0 <= q < prio ==> queuelist[q] == []
          decreases |queuelist[prio]|
        {
          var p := DropTail(prio);
        }
        prio := prio + 1;
      }
      Emptied();
      assert accepted == multiset(delivered) + dropped;
      Cancel(multiset(delivered), dropped, old(dropped) + Frames(old(queuelist[..])));
    }

    lemma Emptied()
      requires Valid() && forall q :: 0 <= q < queuelist.Length ==> queuelist[q] == []
      ensures qcnt == 0 && ServiceOrder(Classes()) == [] && Frames(queuelist[..]) == multiset{}
    {
      TotalIsServiceLength(queuelist[..]);
      FramesAreServed(queuelist[..]);
    }

    /** The receive and transmit loops: as long as the queue is not empty, take the next frame. */
    method ServeAll() returns (served: seq<Frame>)
      requires Valid()
      modifies this, queuelist
      ensures Valid() && qcnt == 0 && accepted == old(accepted) && dropped == old(dropped)
      ensures served == ServiceOrder(old(Classes())) && delivered == old(delivered) + served
    {
      hide Total, Frames, EmptyAbove, ServiceOrder;
      served := [];
      var empty := IsEmpty();
      while !empty
        invariant Valid() && accepted == old(accepted) && dropped == old(dropped)
        invariant empty <==> qcnt == 0
        invariant empty ==> ServiceOrder(Classes()) == []
        invariant ServiceOrder(old(Classes())) == served + ServiceOrder(Classes())
        invariant delivered == old(delivered) + served
        decreases qcnt
      {
        var p := Dequeue();
        served := served + [p.value];
        empty := IsEmpty();
      }
    }
  }

  lemma Cancel(a: multiset<Frame>, b: multiset<Frame>, c: multiset<Frame>)
    requires a + b == a + c
    ensures b == c
  {
    forall x ensures b[x] == c[x] {
      assert (a + b)[x] == (a + c)[x];
    }
  }

  function Youngest(c: seq<Frame>): Frame
    requires c != []
  {
    c[|c| - 1]
  }

  /** The youngest frame of class `low` is replaced by `pkt`; all other classes are as before. */
  predicate Overflowed(before: seq<seq<Frame>>, after: seq<seq<Frame>>, low: nat, pkt: Frame) {
    && low < |before| && before[low] != []
    && after == before[low := before[low][..|before[low]| - 1] + [pkt]]
  }

  /** A class that holds as many frames as all classes together is the only one that holds any. */
  lemma {:induction false} LoneClass(classes: seq<seq<Frame>>, p: nat)
    requires p < |classes| && |classes[p]| >= Total(classes)
    ensures forall q :: 0 <= q < |classes| && q != p ==> classes[q] == []
  {
    forall q | 0 <= q < |classes| && q != p ensures classes[q] == [] {
      TotalUpdated(classes, p, []);
      TotalUpdated(classes[p := []], q, []);
    }
  }
}
