/** When the entries of the ACK filter expire (tcp_ack_update of aicwf_tcp_ack.c), with the clock counted modulo
    2^64. */
module TcpAckAge {
  import opened Common
  import opened TcpAckFlow
  import opened TcpAckFilter

  lemma TimeAfterIsLater(a: nat, b: nat)
    requires a < b + TWO_63 && b < a + TWO_63
    ensures TimeAfter(a, b) <==> a > b
  {
    if a > b {
      assert (b - a) % TWO_64 == b - a + TWO_64;
    }
  }

  /** An ageing frees exactly the busy entries whose last ACK is longer ago than the timeout, and changes nothing
      else. */
  lemma ExpiresExactlyWhenOld(e: Entry, now: nat, timeout: nat)
    requires e.lastTime <= now < TWO_63 && timeout < TWO_63
    ensures Expire(e, now, timeout) == e.(busy := e.busy && now <= e.lastTime + timeout)
  {
    TimeAfterIsLater(now, e.lastTime + timeout);
    hide TimeAfter;
  }

  /** Somebody sends an ACK; `own` says whether it is one of the flow of the entry. */
  datatype Sending = Sending(now: nat, own: bool)

  /** What that does to the entry, and to the time of the last ageing.  Every ACK of its flow renews the entry. */
  function After(e: Entry, last: nat, s: Sending, timeout: nat): (Entry, nat) {
    var due := TimeAfter(s.now, last + timeout);
    var e1 := if due then Expire(e, s.now, timeout) else e;
    (if s.own && e1.busy then e1.(lastTime := s.now) else e1, if due then s.now else last)
  }

  /** Handle and Occupy are what renews it. */
  lemma AcksRenew(e: Entry, msg: Msg, ack: U32, maxDrop: int, now: nat, key: Key, winScale: nat)
    ensures Handle(e, msg, ack, maxDrop, now).0.lastTime == now
    ensures Occupy(e, key, ack, winScale, maxDrop, now).lastTime == now
  {
    hide Before;
  }

  predicate InOrder(clock: nat, ss: seq<Sending>)
    decreases |ss|
  {
    ss == [] || (clock <= ss[0].now < TWO_63 && InOrder(ss[0].now, ss[1..]))
  }

  function AfterAll(e: Entry, last: nat, ss: seq<Sending>, timeout: nat): (Entry, nat)
    decreases |ss|
  {
    if ss == [] then (e, last)
    else
      var (e1, last1) := After(e, last, ss[0], timeout);
      AfterAll(e1, last1, ss[1..], timeout)
  }

  /** The sendings come while the last ACK of the flow is not older than the timeout. */
  predicate KeptAlive(lastTime: nat, ss: seq<Sending>, timeout: nat)
    decreases |ss|
  {
    ss == []
    || (ss[0].now <= lastTime + timeout && KeptAlive(if ss[0].own then ss[0].now else lastTime, ss[1..], timeout))
  }

  lemma OneSending(e: Entry, last: nat, s: Sending, timeout: nat)
    requires e.lastTime <= s.now < TWO_63 && last <= s.now && timeout < TWO_63
    ensures var due := s.now > last + timeout;
            var busy := e.busy && !(due && s.now > e.lastTime + timeout);
            After(e, last, s, timeout)
            == (e.(busy := busy, lastTime := if s.own && busy then s.now else e.lastTime), if due then s.now else last)
  {
    TimeAfterIsLater(s.now, last + timeout);
    ExpiresExactlyWhenOld(e, s.now, timeout);
    hide TimeAfter, Expire;
  }

  /** A flow whose ACKs come in time keeps its entry, whatever other flows do. */
  lemma {:induction false} ActiveFlowStays(e: Entry, last: nat, clock: nat, ss: seq<Sending>, timeout: nat)
    requires e.busy && e.lastTime <= clock && last <= clock && InOrder(clock, ss) && timeout < TWO_63
    requires KeptAlive(e.lastTime, ss, timeout)
    ensures AfterAll(e, last, ss, timeout).0.busy
    decreases |ss|
  {
    if ss != [] {
      OneSending(e, last, ss[0], timeout);
      var (e1, last1) := After(e, last, ss[0], timeout);
      hide After;
      ActiveFlowStays(e1, last1, ss[0].now, ss[1..], timeout);
    }
  }

  /** A silent flow has lost its entry as soon as anybody sends an ACK twice the timeout after its last one, and a
      timeout after the last ageing known. */
  lemma {:induction false} SilentFlowIsFreed(e: Entry, last: nat, clock: nat, ss: seq<Sending>, timeout: nat)
    requires e.lastTime <= clock && last <= clock && InOrder(clock, ss) && timeout < TWO_63 && ss != []
    requires forall s <- ss :: !s.own
    requires ss[|ss| - 1].now > e.lastTime + 2 * timeout && ss[|ss| - 1].now > last + timeout
    ensures !AfterAll(e, last, ss, timeout).0.busy
    decreases |ss|
  {
    OneSending(e, last, ss[0], timeout);
    assert ss[0] in ss && forall s <- ss[1..] :: s in ss;
    var (e1, last1) := After(e, last, ss[0], timeout);
    hide After;
    if |ss| > 1 {
      if e1.busy {
        SilentFlowIsFreed(e1, last1, ss[0].now, ss[1..], timeout);
      } else {
        StaysFree(e1, last1, ss[1..], timeout);
      }
    } else {
      assert ss[1..] == [];
    }
  }

  lemma {:induction false} StaysFree(e: Entry, last: nat, ss: seq<Sending>, timeout: nat)
    requires !e.busy
    ensures !AfterAll(e, last, ss, timeout).0.busy
    decreases |ss|
  {
    if ss != [] {
      hide TimeAfter;
      var (e1, last1) := After(e, last, ss[0], timeout);
      StaysFree(e1, last1, ss[1..], timeout);
    }
  }
}
