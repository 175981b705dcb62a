/** The table of the TCP ACK filter (aicwf_tcp_ack.c): 32 entries, each for one flow, and the message buffers that pass
    through it.  Every handler runs to its end before the next one starts. */
module TcpAckFilter {
  import opened Common
  import opened TcpAckFlow

  const TCP_ACK_NUM := 32
  const TCP_ACK_DROP_CNT := 10

  /** time_after on 64-bit jiffies. */
  predicate TimeAfter(a: int, b: int) {
    (b - a) % TWO_64 >= TWO_63
  }

  // ---------------------------------------------------------------------------------------------------------
  // The table as a value
  // ---------------------------------------------------------------------------------------------------------

  function CountBusy(es: seq<Entry>): nat {
    if es == [] then 0 else CountBusy(es[..|es| - 1]) + if es[|es| - 1].busy then 1 else 0
  }

  /** How many entries hold back the message m. */
  function HeldCount(es: seq<Entry>, m: Msg): nat {
    if es == [] then 0 else HeldCount(es[..|es| - 1], m) + Holds(es[|es| - 1], m)
  }

  function Holds(e: Entry, m: Msg): nat {
    if e.msgbuf == Some(m) then 1 else 0
  }

  predicate DistinctFlows(es: seq<Entry>) {
    forall i, j :: 0 <= i < j < |es| && es[i].busy && es[j].busy ==> es[i].key != es[j].key
  }

  /** `i` is the entry of the flow `key`, -1 when it has none. */
  predicate IsMatch(es: seq<Entry>, key: Key, i: int) {
    if i >= 0 then i < |es| && es[i].busy && es[i].key == key
    else i == -1 && forall k :: 0 <= k < |es| ==> !(es[k].busy && es[k].key == key)
  }

  predicate Old(e: Entry, now: nat, timeout: nat) {
    e.busy && TimeAfter(now, e.lastTime + timeout)
  }

  function Expire(e: Entry, now: nat, timeout: nat): Entry {
    if Old(e, now, timeout) then e.(busy := false) else e
  }

  lemma {:induction false} CountChanged(es: seq<Entry>, i: nat, e: Entry)
    requires i < |es|
    ensures CountBusy(es[i := e]) == CountBusy(es) - (if es[i].busy then 1 else 0) + (if e.busy then 1 else 0)
  {
    var n := |es| - 1;
    if i < n {
      CountChanged(es[..n], i, e);
      assert es[i := e][..n] == es[..n][i := e];
    } else {
      assert es[i := e][..n] == es[..n];
    }
  }

  lemma {:induction false} HeldChanged(es: seq<Entry>, i: nat, e: Entry, m: Msg)
    requires i < |es|
    ensures HeldCount(es[i := e], m) == HeldCount(es, m) - Holds(es[i], m) + Holds(e, m)
  {
    var n := |es| - 1;
    if i < n {
      HeldChanged(es[..n], i, e, m);
      assert es[i := e][..n] == es[..n][i := e];
    } else {
      assert es[i := e][..n] == es[..n];
    }
  }

  lemma {:induction false} CountBounds(es: seq<Entry>)
    ensures CountBusy(es) <= |es|
    ensures CountBusy(es) == |es| <==> forall k :: 0 <= k < |es| ==> es[k].busy
    ensures CountBusy(es) == 0 <== forall k :: 0 <= k < |es| ==> !es[k].busy
  {
    if es != [] {
      var n := |es| - 1;
      CountBounds(es[..n]);
      assert forall k :: 0 <= k < n ==> es[..n][k] == es[k];
    }
  }

  lemma {:induction false} NobodyHolds(es: seq<Entry>, m: Msg)
    requires forall k :: 0 <= k < |es| ==> es[k].msgbuf == None
    ensures HeldCount(es, m) == 0
  {
    if es != [] {
      NobodyHolds(es[..|es| - 1], m);
    }
  }

  /** The flow table: the count is right, the hint is a free entry or -1, and no two busy entries have the same flow. */
  predicate TableOk(es: seq<Entry>, maxNum: int, freeIndex: int) {
    && |es| == TCP_ACK_NUM
    && maxNum == CountBusy(es)
    && -1 <= freeIndex < TCP_ACK_NUM && (freeIndex >= 0 ==> !es[freeIndex].busy)
    && DistinctFlows(es)
  }

  lemma ReleaseOk(es: seq<Entry>, maxNum: int, freeIndex: int, i: nat)
    requires TableOk(es, maxNum, freeIndex) && i < TCP_ACK_NUM && es[i].busy
    ensures TableOk(es[i := es[i].(busy := false)], maxNum - 1, i)
  {
    CountChanged(es, i, es[i].(busy := false));
    hide CountBusy;
  }

  lemma ChangeOk(es: seq<Entry>, maxNum: int, freeIndex: int, i: nat, e: Entry)
    requires TableOk(es, maxNum, freeIndex) && i < TCP_ACK_NUM && e.busy == es[i].busy && e.key == es[i].key
    ensures TableOk(es[i := e], maxNum, freeIndex)
  {
    CountChanged(es, i, e);
    hide CountBusy;
  }

  lemma OccupyOk(es: seq<Entry>, maxNum: int, freeIndex: int, i: nat, e: Entry)
    requires TableOk(es, maxNum, freeIndex) && i < TCP_ACK_NUM && !es[i].busy && e.busy
    requires IsMatch(es, e.key, -1)
    ensures TableOk(es[i := e], maxNum + 1, -1)
  {
    CountChanged(es, i, e);
    hide CountBusy;
  }

  // ---------------------------------------------------------------------------------------------------------
  // Where the messages are
  // ---------------------------------------------------------------------------------------------------------

  function Bag(m: Option<Msg>): multiset<Msg> {
    if m.Some? then multiset{m.value} else multiset{}
  }

  function Places(sent: multiset<Msg>, freed: multiset<Msg>, es: seq<Entry>, m: Msg): nat {
    sent[m] + freed[m] + HeldCount(es, m)
  }

  /** Every message given to the filter is in exactly one place, transmitted once, freed once, or held by one entry; no
      other message is anywhere. */
  ghost predicate Ledger(given: set<Msg>, sent: multiset<Msg>, freed: multiset<Msg>, es: seq<Entry>) {
    forall m: Msg :: Places(sent, freed, es, m) == if m in given then 1 else 0
  }

  lemma HandleLedger(given: set<Msg>, sent: multiset<Msg>, freed: multiset<Msg>, es: seq<Entry>,
                     i: nat, msg: Msg, ack: U32, maxDrop: int, now: nat)
    requires Ledger(given, sent, freed, es) && i < |es| && msg !in given
    ensures var (e, verdict, f) := Handle(es[i], msg, ack, maxDrop, now);
            var sent' := sent + (if verdict.Send? then multiset{msg} else multiset{});
            Ledger(given + {msg}, sent', freed + Bag(f), es[i := e])
  {
    var (e, verdict, f) := Handle(es[i], msg, ack, maxDrop, now);
    var sent' := sent + (if verdict.Send? then multiset{msg} else multiset{});
    forall m: Msg ensures Places(sent', freed + Bag(f), es[i := e], m) == if m in given + {msg} then 1 else 0 {
      HeldChanged(es, i, e, m);
      assert Places(sent, freed, es, m) == if m in given then 1 else 0;
      hide HeldCount;
    }
  }

  lemma SameFlow(e: Entry, msg: Msg, ack: U32, maxDrop: int, now: nat)
    ensures var r := Handle(e, msg, ack, maxDrop, now).0; r.busy == e.busy && r.key == e.key
  {
    hide Before;
  }

  lemma TimeOutLedger(given: set<Msg>, sent: multiset<Msg>, freed: multiset<Msg>, es: seq<Entry>, i: nat)
    requires Ledger(given, sent, freed, es) && i < |es|
    ensures Ledger(given, sent + Bag(TimeOut(es[i]).1), freed, es[i := TimeOut(es[i]).0])
  {
    var (e, out) := TimeOut(es[i]);
    forall m: Msg ensures Places(sent + Bag(out), freed, es[i := e], m) == if m in given then 1 else 0 {
      HeldChanged(es, i, e, m);
      assert Places(sent, freed, es, m) == if m in given then 1 else 0;
      hide HeldCount;
    }
  }

  lemma DropLedger(given: set<Msg>, sent: multiset<Msg>, freed: multiset<Msg>, es: seq<Entry>, i: nat)
    requires Ledger(given, sent, freed, es) && i < |es|
    ensures Ledger(given, sent, freed + Bag(es[i].msgbuf), es[i := es[i].(msgbuf := None)])
  {
    var e, f := es[i].(msgbuf := None), Bag(es[i].msgbuf);
    forall m: Msg ensures Places(sent, freed + f, es[i := e], m) == if m in given then 1 else 0 {
      HeldChanged(es, i, e, m);
      assert Places(sent, freed, es, m) == if m in given then 1 else 0;
      hide HeldCount;
    }
  }

  /** Changing an entry without touching its message moves no message. */
  lemma SameLedger(given: set<Msg>, sent: multiset<Msg>, freed: multiset<Msg>, es: seq<Entry>, i: nat, e: Entry)
    requires Ledger(given, sent, freed, es) && i < |es| && e.msgbuf == es[i].msgbuf
    ensures Ledger(given, sent, freed, es[i := e])
  {
    forall m: Msg ensures Places(sent, freed, es[i := e], m) == if m in given then 1 else 0 {
      HeldChanged(es, i, e, m);
      assert Places(sent, freed, es, m) == if m in given then 1 else 0;
      hide HeldCount;
    }
  }

  /** A message transmitted by the caller without the filter touching its table. */
  lemma PassLedger(given: set<Msg>, sent: multiset<Msg>, freed: multiset<Msg>, es: seq<Entry>, msg: Msg)
    requires Ledger(given, sent, freed, es) && msg !in given
    ensures Ledger(given + {msg}, sent + multiset{msg}, freed, es)
  {
    forall m: Msg ensures Places(sent + multiset{msg}, freed, es, m) == if m in given + {msg} then 1 else 0 {
      assert Places(sent, freed, es, m) == if m in given then 1 else 0;
    }
  }

  // ---------------------------------------------------------------------------------------------------------
  // What sending an ACK does to the table
  // ---------------------------------------------------------------------------------------------------------

  /** An ACK the host sends: its buffer, its flow, its number and the window scale option it carries (0 for none). */
  datatype Ack = Ack(msg: Msg, key: Key, ack: U32, winScale: nat)

  function Scaled(e: Entry, winScale: nat): Entry {
    if winScale != 0 then e.(winScale := winScale) else e
  }

  /** The table after tcp_ack_update. */
  predicate Aged(before: seq<Entry>, after: seq<Entry>, due: bool, now: nat, timeout: nat) {
    && |after| == |before|
    && forall i :: 0 <= i < |before| ==> after[i] == if due then Expire(before[i], now, timeout) else before[i]
  }

  /** The flow has an entry: the filter, if enabled, decides about the ACK. */
  predicate Decided(es: seq<Entry>, after: seq<Entry>, i: int, a: Ack, enabled: bool, maxDrop: int, now: nat,
                    filtered: bool) {
    && 0 <= i < |es| && IsMatch(es, a.key, i)
    && var e := Scaled(es[i], a.winScale);
    && var (e', verdict, _) := Handle(e, a.msg, a.ack, maxDrop, now);
    && after == es[i := if enabled then e' else e]
    && (filtered <==> enabled && !verdict.Send?)
  }

  /** The flow has no entry: the ACK is transmitted, and the flow gets a free entry unless all are busy. */
  predicate Admitted(es: seq<Entry>, after: seq<Entry>, i: int, a: Ack, maxDrop: int, now: nat, filtered: bool) {
    && IsMatch(es, a.key, -1) && !filtered
    && if CountBusy(es) == TCP_ACK_NUM then after == es
       else 0 <= i < |es| && !es[i].busy && after == es[i := Occupy(es[i], a.key, a.ack, a.winScale, maxDrop, now)]
  }

  /** The entry of the flow has noted a received push. */
  predicate Noted(es: seq<Entry>, after: seq<Entry>, i: int, key: Key, number: U32) {
    0 <= i < |es| && IsMatch(es, key, i) && after == es[i := es[i].(pshFlag := true, pshSeq := number)]
  }

  /** The timer of entry i has run. */
  predicate Fired(es: seq<Entry>, after: seq<Entry>, i: int) {
    0 <= i < |es| && after == es[i := TimeOut(es[i]).0]
  }

  /** The transmission of a message was reported back. */
  predicate Told(es: seq<Entry>, after: seq<Entry>, enabled: bool, msg: Msg) {
    && |after| == |es|
    && forall k :: 0 <= k < |es| ==> after[k] == if enabled then Reported(es[k], msg) else es[k]
  }

  // ---------------------------------------------------------------------------------------------------------
  // The filter
  // ---------------------------------------------------------------------------------------------------------

  class Filter {
    var enable: bool
    var max_num: int
    var free_index: int
    var last_time: nat
    const timeout: nat
    var max_drop_cnt: int
    const ack_info: array<Entry>

    // every message given to the filter, those transmitted and those freed
    ghost var given: set<Msg>
    ghost var sent: multiset<Msg>
    ghost var freed: multiset<Msg>

    ghost function Table(): seq<Entry>
      reads this, ack_info
    {
      ack_info[..]
    }

    /** The table is in order, and every message is in exactly one place: transmitted once, freed once, or held by one
        entry. */
    ghost predicate Valid()
      reads this, ack_info
    {
      && TableOk(ack_info[..], max_num, free_index)
      && Ledger(given, sent, freed, ack_info[..])
    }

    constructor (timeout: nat, now: nat)
      ensures Valid() && enable && given == {} && max_drop_cnt == TCP_ACK_DROP_CNT && fresh(ack_info)
      ensures forall i :: 0 <= i < TCP_ACK_NUM ==> !Table()[i].busy && Table()[i].msgbuf == None
    {
      enable, max_num, free_index, last_time, max_drop_cnt := true, 0, 0, now, TCP_ACK_DROP_CNT;
      this.timeout := timeout;
      given, sent, freed := {}, multiset{}, multiset{};
      ack_info := new Entry[TCP_ACK_NUM](_ => Entry(false, 0, false, 0, 0, now, None, None, Key(0, 0, 0, 0), 0));
      new;
      CountBounds(ack_info[..]);
      forall m: Msg ensures HeldCount(ack_info[..], m) == 0 {
        NobodyHolds(ack_info[..], m);
      }
    }

    /** tcp_ack_match. */
    method Match(key: Key) returns (index: int)
      requires ack_info.Length == TCP_ACK_NUM
      ensures IsMatch(Table(), key, index)
    {
      var i := 0;
      while i < TCP_ACK_NUM
        invariant i <= TCP_ACK_NUM && forall k :: 0 <= k < i ==> !(ack_info[k].busy && ack_info[k].key == key)
      {
        if ack_info[i].busy && ack_info[i].key == key {
          return i;
        }
        i := i + 1;
      }
      return -1;
    }

    /** tcp_ack_update. */
    method Update(now: nat)
      requires Valid()
      modifies `last_time, `free_index, `max_num, ack_info
      ensures Valid()
      ensures TimeAfter(now, old(last_time) + timeout) ==>
                forall i :: 0 <= i < TCP_ACK_NUM ==> Table()[i] == Expire(old(Table())[i], now, timeout)
      ensures !TimeAfter(now, old(last_time) + timeout) ==> Table() == old(Table())
      ensures last_time == if TimeAfter(now, old(last_time) + timeout) then now else old(last_time)
    {
      if TimeAfter(now, last_time + timeout) {
        last_time := now;
        assert ack_info.Length == TCP_ACK_NUM;
        hide TableOk, Ledger, Expire, TimeAfter;
        var i := TCP_ACK_NUM - 1;
        while i >= 0
          invariant -1 <= i < TCP_ACK_NUM && Valid() && last_time == now
          invariant forall k :: 0 <= k <= i ==> ack_info[k] == old(ack_info[k])
          invariant forall k :: i < k < TCP_ACK_NUM ==> ack_info[k] == Expire(old(ack_info[k]), now, timeout)
        {
          ExpireOne(i, now);
          i := i - 1;
        }
      }
    }

    method ExpireOne(i: nat, now: nat)
      requires Valid() && i < TCP_ACK_NUM == ack_info.Length
      modifies `free_index, `max_num, ack_info
      ensures Valid()
      ensures ack_info[i] == Expire(old(ack_info[i]), now, timeout)
      ensures forall k :: 0 <= k < TCP_ACK_NUM && k != i ==> ack_info[k] == old(ack_info[k])
    {
      var e := ack_info[i];
      if e.busy && TimeAfter(now, e.lastTime + timeout) {
        ReleaseOk(ack_info[..], max_num, free_index, i);
        SameLedger(given, sent, freed, ack_info[..], i, e.(busy := false));
        hide TableOk, Ledger;
        free_index := i;
        max_num := max_num - 1;
        ack_info[i] := e.(busy := false);
        assert ack_info[..] == old(ack_info[..])[i := e.(busy := false)];
      }
    }

    /** tcp_ack_alloc_index: a free entry, or -1 exactly when all are busy. */
    method AllocIndex() returns (index: int)
      requires Valid()
      modifies `max_num, `free_index
      ensures index == -1 <==> CountBusy(Table()) == TCP_ACK_NUM
      ensures index == -1 ==> max_num == old(max_num) && free_index == old(free_index)
      ensures index != -1 ==> 0 <= index < TCP_ACK_NUM && !Table()[index].busy
      ensures index != -1 ==> max_num == old(max_num) + 1 && free_index == -1
    {
      CountBounds(ack_info[..]);
      if max_num == TCP_ACK_NUM {
        return -1;
      }
      hide CountBusy, Ledger;
      if free_index >= 0 {
        index := free_index;
        free_index := -1;
        max_num := max_num + 1;
        return;
      }
      var i := 0;
      while i < TCP_ACK_NUM
        invariant i <= TCP_ACK_NUM && forall k :: 0 <= k < i ==> ack_info[k].busy
        invariant unchanged(`max_num, `free_index)
      {
        if !ack_info[i].busy {
          free_index := -1;
          max_num := max_num + 1;
          return i;
        }
        i := i + 1;
      }
      assert false;
      index := -1;
    }

    /** The critical section of tcp_ack_handle_new on the entry `e`. */
    method Judge(e: Entry, msg: Msg, ack: U32, now: nat) returns (info: Entry, filtered: bool, drop: Option<Msg>)
      ensures var (e', verdict, f) := Handle(e, msg, ack, max_drop_cnt, now);
              info == e' && filtered == !verdict.Send? && drop == f
    {
      drop := None;
      var quick := false;
      info := e.(lastTime := now);
      if Before(info.ackSeq, ack) {
        if info.msgbuf.Some? {
          drop := info.msgbuf;
          info := info.(msgbuf := None);
        }
        if info.pshFlag && !Before(ack, info.pshSeq) {
          info := info.(pshFlag := false);
          quick := true;
        } else {
          info := info.(dropCnt := info.dropCnt + 1);
        }
        info := info.(ackSeq := ack);
        if quick || (info.inSend == None && info.dropCnt >= max_drop_cnt) {
          info := info.(dropCnt := 0, inSend := Some(msg));
          filtered := false;
        } else {
          filtered := true;
          info := info.(msgbuf := Some(msg));
        }
      } else {
        drop := Some(msg);
        filtered := true;
      }
    }

    /** tcp_ack_handle_new; the result is whether the caller must not transmit the message. */
    method HandleNew(i: nat, msg: Msg, ack: U32, now: nat) returns (filtered: bool)
      requires Valid() && i < TCP_ACK_NUM && msg !in given
      modifies ack_info, `given, `sent, `freed
      ensures Valid() && given == old(given) + {msg}
      ensures var (e, verdict, drop) := Handle(old(Table())[i], msg, ack, max_drop_cnt, now);
              && Table() == old(Table())[i := e]
              && filtered == !verdict.Send?
              && sent == old(sent) + (if filtered then multiset{} else multiset{msg})
              && freed == old(freed) + Bag(drop)
    {
      assert |Table()| == TCP_ACK_NUM;
      hide TableOk, Ledger, Handle, Bag, Before;
      ghost var es, r := ack_info[..], Handle(ack_info[i], msg, ack, max_drop_cnt, now);
      SameFlow(ack_info[i], msg, ack, max_drop_cnt, now);
      HandleLedger(given, sent, freed, es, i, msg, ack, max_drop_cnt, now);
      ChangeOk(es, max_num, free_index, i, r.0);
      var info, drop;
      info, filtered, drop := Judge(ack_info[i], msg, ack, now);
      assert info == r.0 && drop == r.2 && filtered == !r.1.Send?;
      ack_info[i] := info;
      assert ack_info[..] == es[i := r.0];
      given := given + {msg};
      sent := sent + if filtered then multiset{} else multiset{msg};
      freed := freed + Bag(drop);
    }

    /** The write of one entry under its lock that leaves its flow and its message alone. */
    method Assign(i: nat, e: Entry)
      requires Valid() && i < TCP_ACK_NUM
      requires e.busy == Table()[i].busy && e.key == Table()[i].key && e.msgbuf == Table()[i].msgbuf
      modifies ack_info
      ensures Valid() && Table() == old(Table())[i := e]
    {
      ChangeOk(ack_info[..], max_num, free_index, i, e);
      SameLedger(given, sent, freed, ack_info[..], i, e);
      hide TableOk, Ledger;
      ack_info[i] := e;
      assert ack_info[..] == old(ack_info[..])[i := e];
    }

    /** filter_send_tcp_ack; the result is whether the caller must not transmit the message.  `es` is the table after
        the old entries are gone, `index` the entry of the flow. */
    method SendAck(a: Ack, now: nat) returns (filtered: bool, ghost es: seq<Entry>, index: int)
      requires Valid() && a.msg !in given
      modifies this, ack_info
      ensures Valid() && enable == old(enable) && max_drop_cnt == old(max_drop_cnt)
      ensures last_time == if TimeAfter(now, old(last_time) + timeout) then now else old(last_time)
      ensures given == old(given) + {a.msg}
      ensures sent == old(sent) + (if filtered then multiset{} else multiset{a.msg})
      ensures Aged(old(Table()), es, TimeAfter(now, old(last_time) + timeout), now, timeout)
      ensures if IsMatch(es, a.key, -1) then Admitted(es, Table(), index, a, max_drop_cnt, now, filtered)
              else Decided(es, Table(), index, a, enable, max_drop_cnt, now, filtered)
    {
      Update(now);
      assert |Table()| == TCP_ACK_NUM;
      es := Table();
      index := Match(a.key);
      if index >= 0 {
        filtered := Decide(index, a, now);
      } else {
        filtered := false;
        index := Admit(a, now);
      }
    }

    /** The flow has an entry. */
    method Decide(index: nat, a: Ack, now: nat) returns (filtered: bool)
      requires Valid() && a.msg !in given && index < TCP_ACK_NUM && IsMatch(Table(), a.key, index)
      modifies ack_info, `given, `sent, `freed
      ensures Valid() && given == old(given) + {a.msg}
      ensures sent == old(sent) + (if filtered then multiset{} else multiset{a.msg})
      ensures Decided(old(Table()), Table(), index, a, enable, max_drop_cnt, now, filtered)
    {
      ghost var es := Table();
      var e := ack_info[index];
      if a.winScale != 0 && e.winScale != a.winScale {
        e := e.(winScale := a.winScale);
      }
      Assign(index, e);
      hide Ledger, Handle;
      if enable {
        filtered := HandleNew(index, a.msg, a.ack, now);
        assert Table() == es[index := Handle(e, a.msg, a.ack, max_drop_cnt, now).0];
      } else {
        PassLedger(given, sent, freed, ack_info[..], a.msg);
        given, sent := given + {a.msg}, sent + multiset{a.msg};
        filtered := false;
      }
    }

    /** The flow has none. */
    method Admit(a: Ack, now: nat) returns (index: int)
      requires Valid() && a.msg !in given && IsMatch(Table(), a.key, -1)
      modifies ack_info, `given, `sent, `max_num, `free_index
      ensures Valid() && given == old(given) + {a.msg} && sent == old(sent) + multiset{a.msg}
      ensures Admitted(old(Table()), Table(), index, a, max_drop_cnt, now, false)
    {
      PassLedger(given, sent, freed, ack_info[..], a.msg);
      given, sent := given + {a.msg}, sent + multiset{a.msg};
      ghost var es, m, f := Table(), max_num, free_index;
      assert |es| == TCP_ACK_NUM;
      index := AllocIndex();
      if index >= 0 {
        var e := Occupy(ack_info[index], a.key, a.ack, a.winScale, max_drop_cnt, now);
        OccupyOk(es, m, f, index, e);
        SameLedger(given, sent, freed, es, index, e);
        hide TableOk, Ledger;
        ack_info[index] := e;
        assert ack_info[..] == es[index := e];
      }
    }

    /** filter_rx_tcp_ack on a received segment with PSH and ACK, seen from the host's side of the flow. */
    method NoteReceivedPush(key: Key, number: U32)
      requires Valid()
      modifies ack_info
      ensures Valid()
      ensures !enable || IsMatch(old(Table()), key, -1) ==> Table() == old(Table())
      ensures enable && !IsMatch(old(Table()), key, -1) ==>
                exists i :: Noted(old(Table()), Table(), i, key, number)
    {
      if !enable {
        return;
      }
      assert |Table()| == TCP_ACK_NUM;
      var index := Match(key);
      if index >= 0 {
        Assign(index, ack_info[index].(pshFlag := true, pshSeq := number));
        assert Noted(old(Table()), Table(), index, key, number);
      }
    }

    /** tcp_ack_timeout of entry i; the result is the message it transmits. */
    method Fire(i: nat) returns (out: Option<Msg>)
      requires Valid() && i < TCP_ACK_NUM
      modifies ack_info, `sent
      ensures Valid() && (out == TimeOut(old(Table())[i]).1)
      ensures Fired(old(Table()), Table(), i) && sent == old(sent) + Bag(out)
    {
      assert |Table()| == TCP_ACK_NUM;
      TimeOutLedger(given, sent, freed, ack_info[..], i);
      ChangeOk(ack_info[..], max_num, free_index, i, TimeOut(ack_info[i]).0);
      hide TableOk, Ledger;
      var info := ack_info[i];
      out := None;
      if info.busy && info.msgbuf.Some? && info.inSend == None {
        out := info.msgbuf;
        info := info.(msgbuf := None, dropCnt := 0, inSend := out);
      }
      ack_info[i] := info;
      assert ack_info[..] == old(ack_info[..])[i := info];
      sent := sent + Bag(out);
    }

    /** move_tcpack_msg: the transmission of a message is reported back. */
    method MoveMsg(msg: Msg)
      requires Valid()
      modifies ack_info
      ensures Valid()
      ensures Told(old(Table()), Table(), enable, msg)
    {
      if !enable {
        return;
      }
      assert |Table()| == TCP_ACK_NUM;
      var i := 0;
      while i < TCP_ACK_NUM
        invariant i <= TCP_ACK_NUM && Valid()
        invariant forall k :: 0 <= k < i ==> Table()[k] == Reported(old(Table())[k], msg)
        invariant forall k :: i <= k < TCP_ACK_NUM ==> Table()[k] == old(Table())[k]
      {
        if ack_info[i].busy && ack_info[i].inSend == Some(msg) {
          Assign(i, ack_info[i].(inSend := None));
        }
        i := i + 1;
      }
    }

    /** tcp_ack_deinit: the filter is off and every held message freed. */
    method Deinit()
      requires Valid()
      modifies this, ack_info
      ensures Valid() && !enable && given == old(given) && sent == old(sent)
      ensures forall k :: 0 <= k < TCP_ACK_NUM ==> Table()[k] == old(Table())[k].(msgbuf := None)
      ensures forall m: Msg :: sent[m] + freed[m] == if m in given then 1 else 0
    {
      enable := false;
      assert |Table()| == TCP_ACK_NUM;
      hide Ledger, TableOk;
      var i := 0;
      while i < TCP_ACK_NUM
        invariant i <= TCP_ACK_NUM && Valid() && given == old(given) && sent == old(sent) && !enable
        invariant forall k :: 0 <= k < i ==> Table()[k] == old(Table())[k].(msgbuf := None)
        invariant forall k :: i <= k < TCP_ACK_NUM ==> Table()[k] == old(Table())[k]
      {
        DropHeld(i);
        i := i + 1;
      }
      NothingHeld();
    }

    method DropHeld(i: nat)
      requires Valid() && i < TCP_ACK_NUM
      modifies ack_info, `freed
      ensures Valid() && Table() == old(Table())[i := old(Table())[i].(msgbuf := None)]
    {
      assert |Table()| == TCP_ACK_NUM;
      DropLedger(given, sent, freed, ack_info[..], i);
      ChangeOk(ack_info[..], max_num, free_index, i, ack_info[i].(msgbuf := None));
      hide TableOk, Ledger;
      var drop := ack_info[i].msgbuf;
      ack_info[i] := ack_info[i].(msgbuf := None);
      assert ack_info[..] == old(ack_info[..])[i := old(ack_info[i]).(msgbuf := None)];
      if drop.Some? {
        freed := freed + multiset{drop.value};
      }
    }

    lemma NothingHeld()
      requires Valid() && forall k :: 0 <= k < TCP_ACK_NUM ==> Table()[k].msgbuf == None
      ensures forall m: Msg :: sent[m] + freed[m] == if m in given then 1 else 0
    {
      assert forall k :: 0 <= k < TCP_ACK_NUM ==> ack_info[..][k] == Table()[k];
      forall m: Msg ensures sent[m] + freed[m] == if m in given then 1 else 0 {
        NobodyHolds(ack_info[..], m);
        assert Places(sent, freed, ack_info[..], m) == if m in given then 1 else 0;
      }
    }

    /** No message is in two places, and none is transmitted, freed or held twice. */
    lemma OnePlaceEach(m: Msg, i: nat)
      requires Valid() && m in sent && i < TCP_ACK_NUM
      ensures m in given && sent[m] == 1 && m !in freed && Table()[i].msgbuf != Some(m)
    {
      assert Places(sent, freed, ack_info[..], m) == if m in given then 1 else 0;
      HeldChanged(ack_info[..], i, ack_info[i].(msgbuf := None), m);
    }

    lemma FreedIsGone(m: Msg, i: nat)
      requires Valid() && m in freed && i < TCP_ACK_NUM
      ensures m in given && freed[m] == 1 && m !in sent && Table()[i].msgbuf != Some(m)
    {
      assert Places(sent, freed, ack_info[..], m) == if m in given then 1 else 0;
      HeldChanged(ack_info[..], i, ack_info[i].(msgbuf := None), m);
    }

    lemma HeldOnce(m: Msg, i: nat, j: nat)
      requires Valid() && i < j < TCP_ACK_NUM && Table()[i].msgbuf == Some(m)
      ensures m in given && m !in sent && m !in freed && Table()[j].msgbuf != Some(m)
    {
      assert Places(sent, freed, ack_info[..], m) == if m in given then 1 else 0;
      var es := ack_info[..][i := ack_info[i].(msgbuf := None)];
      HeldChanged(ack_info[..], i, ack_info[i].(msgbuf := None), m);
      HeldChanged(es, j, es[j].(msgbuf := None), m);
    }
  }
}
