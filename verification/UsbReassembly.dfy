/** Putting packets together from USB transfers (aicwf_usb_rx_complete and aicwf_usb_msg_rx_complete of aicwf_usb.c).

    A transfer holds at most `size` bytes.  A longer packet comes in transfers of exactly `size` bytes and a last one
    with the rest; the length is in the header, at the start of the first transfer. */
module UsbReassembly {
  import opened Common
  import opened Bits

  type Bytes = seq<Byte>

  /** The size of the transfers on an endpoint, and whether it carries messages only. */
  datatype Endpoint = Endpoint(size: nat, msg: bool)

  predicate SizeOk(e: Endpoint) {
    12 <= e.size <= 0x1_0000
  }

  /** A finished transfer: the whole buffer, of which the device has written `len` bytes, and whether memory for a
      longer packet is to be had. */
  datatype Completion = Completion(buf: Bytes, len: nat, memory: bool) {
    predicate Ok() {
      3 <= |buf| && 1 <= len <= |buf|
    }

    predicate On(e: Endpoint) {
      |buf| == e.size
    }
  }

  type Transfer = t: Completion | t.Ok() witness Completion([0, 0, 0], 1, true)

  function Data(t: Transfer): (d: Bytes)
    ensures |d| == t.len
  {
    t.buf[..t.len]
  }

  function HeaderLen(b: Bytes): nat
    requires |b| >= 3
  {
    b[0] as nat + b[1] as nat * 256
  }

  /** The length that a packet's own header gives, for the kinds of packets that the endpoint accepts. */
  function Declared(e: Endpoint, p: Bytes): Option<nat>
    requires |p| >= 3
  {
    if !IsCfg(p[2]) then if e.msg then None else Some(HeaderLen(p) + RX_HWHRD_LEN)
    else if p[2] == TYPE_CFG_CMD_RSP then Some((HeaderLen(p) + 7) / 4 * 4)
    else if p[2] == TYPE_CFG_DATA_CFM && HeaderLen(p) == 8 then Some(12)
    else None
  }

  predicate IsPacket(e: Endpoint, p: Bytes) {
    |p| >= 3 && Declared(e, p) == Some(|p|)
  }

  /** A data packet is as long as its header says and the hardware header; a response is its four bytes of header and
      its payload, filled up to a multiple of four; a confirmation of a transmission has eight bytes after its
      header.  Nothing else is a packet, and data are none on the endpoint for messages. */
  lemma PacketForms(e: Endpoint, p: Bytes)
    requires |p| >= 3
    ensures IsPacket(e, p) <==>
            || (!e.msg && !IsCfg(p[2]) && |p| == HeaderLen(p) + RX_HWHRD_LEN)
            || (p[2] == 0x11 && |p| % 4 == 0 && |p| - 4 < 4 + HeaderLen(p) <= |p|)
            || (p[2] == 0x12 && HeaderLen(p) == 8 && |p| == 12)
  {
  }

  /** What has been received of a packet, and how long it is to be. */
  datatype State = Idle | Active(got: Bytes, total: nat)

  /** The step that the driver means to take. */
  function Feed(e: Endpoint, s: State, t: Transfer): (State, Option<Bytes>) {
    if s.Active? && |s.got| + e.size < s.total && t.len == e.size then (Active(s.got + Data(t), s.total), None)
    else if s.Active? && |s.got| + t.len == s.total <= |s.got| + e.size then (Idle, Some(s.got + Data(t)))
    else Begun(e, t)
  }

  /** A transfer that continues no packet. */
  function Begun(e: Endpoint, t: Transfer): (State, Option<Bytes>) {
    match Declared(e, t.buf)
    case None => (Idle, None)
    case Some(total) =>
      if total == t.len then (Idle, Some(Data(t)))
      else if total > e.size == t.len && t.memory then (Active(Data(t), total), None)
      else (Idle, None)
  }

  /** A longer packet is begun exactly by a full transfer with its header, if there is memory for it. */
  lemma BegunExactlyWhen(e: Endpoint, t: Transfer)
    ensures Begun(e, t).0.Active? <==>
            exists total :: Declared(e, t.buf) == Some(total) && total > e.size && t.len == e.size && t.memory
  {
    if Declared(e, t.buf).Some? && Declared(e, t.buf).value > e.size == t.len && t.memory {
      assert Begun(e, t).0.Active?;
    }
  }

  predicate StateOk(e: Endpoint, s: State) {
    s.Active? ==> 0 < |s.got| < s.total <= 0x1_1000 && e.size <= |s.got| && IsBegunBy(e, s)
  }

  predicate IsBegunBy(e: Endpoint, s: State)
    requires s.Active?
  {
    |s.got| >= 3 && Declared(e, s.got) == Some(s.total)
  }

  /** All transfers of a run, in order: where it ends, and the packets handed on. */
  function Run(e: Endpoint, s: State, ts: seq<Transfer>): (State, seq<Bytes>)
  {
    if ts == [] then (s, [])
    else
      var before := Run(e, s, ts[..|ts| - 1]);
      var last := Feed(e, before.0, ts[|ts| - 1]);
      (last.0, if last.1.Some? then before.1 + [last.1.value] else before.1)
  }

  /** The bytes of some transfers, in order. */
  function Joined(ts: seq<Transfer>): Bytes
  {
    if ts == [] then [] else Joined(ts[..|ts| - 1]) + Data(ts[|ts| - 1])
  }

  lemma FeedKeeps(e: Endpoint, s: State, t: Transfer)
    requires SizeOk(e) && StateOk(e, s)
    ensures StateOk(e, Feed(e, s, t).0)
    ensures Feed(e, s, t).1.Some? ==> IsPacket(e, Feed(e, s, t).1.value)
  {
    BegunKeeps(e, t);
    hide Begun;
  }

  lemma BegunKeeps(e: Endpoint, t: Transfer)
    requires SizeOk(e)
    ensures StateOk(e, Begun(e, t).0)
    ensures Begun(e, t).1.Some? ==> IsPacket(e, Begun(e, t).1.value)
  {
  }

  /** Which transfers a packet was made of. */
  datatype Span = Span(from: nat, to: nat)

  /** The transfers of the span, all full but perhaps the last, make up the packet. */
  predicate MadeOf(e: Endpoint, ts: seq<Transfer>, packet: Bytes, span: Span) {
    && span.from < span.to <= |ts|
    && packet == Joined(ts[span.from..span.to])
    && FullUpTo(e, ts[span.from..span.to - 1])
  }

  predicate FullUpTo(e: Endpoint, ts: seq<Transfer>) {
    forall t <- ts :: t.len == e.size
  }

  /** The transfers from `from` on make up what is waiting. */
  predicate Waiting(e: Endpoint, ts: seq<Transfer>, s: State, from: nat) {
    from <= |ts| && if s.Active? then s.got == Joined(ts[from..]) && FullUpTo(e, ts[from..]) else from == |ts|
  }

  predicate InOrder(spans: seq<Span>, limit: nat) {
    (forall i :: 0 <= i < |spans| ==> spans[i].to <= limit)
    && forall i, j :: 0 <= i < j < |spans| ==> spans[i].to <= spans[j].from
  }

  /** Whatever transfers arrive, every packet handed on is made of consecutive transfers, all full but the last, has the
      length its header gives, and shares no transfer with another. */
  lemma {:induction false} RunIsExplained(e: Endpoint, ts: seq<Transfer>) returns (spans: seq<Span>, from: nat)
    requires SizeOk(e)
    ensures var (s, out) := Run(e, Idle, ts);
            && StateOk(e, s) && Waiting(e, ts, s, from)
            && |spans| == |out| && InOrder(spans, from)
            && forall i :: 0 <= i < |out| ==> IsPacket(e, out[i]) && MadeOf(e, ts, out[i], spans[i])
  {
    hide Feed, IsPacket, MadeOf, Waiting, StateOk;
    if ts == [] {
      NothingWaits(e);
      return [], 0;
    }
    var n := |ts| - 1;
    var (s, out) := Run(e, Idle, ts[..n]);
    var ss, f := RunIsExplained(e, ts[..n]);
    FeedKeeps(e, s, ts[n]);
    var span: Span;
    span, from := StepIsExplained(e, ts, s, f);
    spans := if Feed(e, s, ts[n]).1.Some? then ss + [span] else ss;
    forall i | 0 <= i < |ss| ensures MadeOf(e, ts, out[i], ss[i]) {
      MadeOfMore(e, ts, out[i], ss[i]);
    }
  }

  lemma NothingWaits(e: Endpoint)
    ensures StateOk(e, Idle) && Waiting(e, [], Idle, 0)
  {
  }

  lemma MadeOfMore(e: Endpoint, ts: seq<Transfer>, packet: Bytes, span: Span)
    requires ts != [] && MadeOf(e, ts[..|ts| - 1], packet, span)
    ensures MadeOf(e, ts, packet, span)
  {
    hide FullUpTo, Joined;
    assert ts[..|ts| - 1][span.from..span.to] == ts[span.from..span.to];
    assert ts[..|ts| - 1][span.from..span.to - 1] == ts[span.from..span.to - 1];
  }

  lemma StepIsExplained(e: Endpoint, ts: seq<Transfer>, s: State, f: nat) returns (span: Span, from: nat)
    requires ts != [] && Waiting(e, ts[..|ts| - 1], s, f)
    ensures f <= from && Waiting(e, ts, Feed(e, s, ts[|ts| - 1]).0, from)
    ensures Feed(e, s, ts[|ts| - 1]).1.Some? ==>
              f <= span.from && span.to <= from && MadeOf(e, ts, Feed(e, s, ts[|ts| - 1]).1.value, span)
  {
    hide Declared, Joined;
    var n := |ts| - 1;
    var t, us := ts[n], ts[..n];
    var r := Feed(e, s, t);
    var joins := s.Active? && if |s.got| + e.size < s.total then t.len == e.size else |s.got| + t.len == s.total;
    var start := if joins then f else n;
    assert us[f..] == ts[f..n];
    JoinedNext(ts, start);
    assert ts[n..n] == [] && [] + Data(t) == Data(t);
    JoinedNone();
    span := Span(start, n + 1);
    assert ts[start..n + 1] == ts[start..] && ts[start..] == ts[start..n] + [t];
    from := if r.0.Active? then start else n + 1;
  }

  lemma JoinedNone()
    ensures Joined([]) == []
  {
  }

  lemma JoinedNext(ts: seq<Transfer>, f: nat)
    requires f < |ts|
    ensures Joined(ts[f..]) == Joined(ts[f..|ts| - 1]) + Data(ts[|ts| - 1])
  {
    var us := ts[f..];
    assert us[..|us| - 1] == ts[f..|ts| - 1];
  }

  lemma {:induction false} RunInTwo(e: Endpoint, s: State, a: seq<Transfer>, b: seq<Transfer>)
    ensures var first := Run(e, s, a); var second := Run(e, first.0, b);
            Run(e, s, a + b) == (second.0, first.1 + second.1)
  {
    hide Feed;
    var first := Run(e, s, a);
    if b == [] {
      assert a + b == a && first.1 + [] == first.1;
    } else {
      var n := |b| - 1;
      assert (a + b)[..|a + b| - 1] == a + b[..n];
      RunInTwo(e, s, a, b[..n]);
      var before := Run(e, first.0, b[..n]);
      var last := Feed(e, before.0, b[n]);
      assert last.1.Some? ==> first.1 + before.1 + [last.1.value] == first.1 + (before.1 + [last.1.value]);
    }
  }

  /** Transfers that carry the packet p: full ones and a last one with the rest. */
  predicate Carries(e: Endpoint, ts: seq<Transfer>, p: Bytes)
    requires SizeOk(e)
    decreases |p|
  {
    ts != [] && ts[0].On(e)
    && if |p| <= e.size then |ts| == 1 && Data(ts[0]) == p
       else ts[0].memory && Data(ts[0]) == p[..e.size] && CarriesRest(e, ts[1..], p[e.size..])
  }

  predicate CarriesRest(e: Endpoint, ts: seq<Transfer>, p: Bytes)
    requires SizeOk(e)
    decreases |p|
  {
    ts != [] && ts[0].On(e)
    && if |p| <= e.size then |ts| == 1 && Data(ts[0]) == p
       else Data(ts[0]) == p[..e.size] && CarriesRest(e, ts[1..], p[e.size..])
  }

  lemma {:induction false} RestArrives(e: Endpoint, ts: seq<Transfer>, got: Bytes, p: Bytes)
    requires SizeOk(e) && CarriesRest(e, ts, p)
    ensures Run(e, Active(got, |got| + |p|), ts) == (Idle, [got + p])
    decreases |p|
  {
    var s := Active(got, |got| + |p|);
    assert |Data(ts[0])| == ts[0].len;
    RunOne(e, s, ts[0]);
    if |p| <= e.size {
      assert ts == [ts[0]];
    } else {
      RestArrives(e, ts[1..], got + p[..e.size], p[e.size..]);
      assert got + p[..e.size] + p[e.size..] == got + p;
      assert ts == [ts[0]] + ts[1..];
      RunInTwo(e, s, [ts[0]], ts[1..]);
      assert [] + [got + p] == [got + p];
    }
  }

  lemma RunOne(e: Endpoint, s: State, t: Transfer)
    ensures Run(e, s, [t]) == (Feed(e, s, t).0, if Feed(e, s, t).1.Some? then [Feed(e, s, t).1.value] else [])
  {
    hide Feed;
    assert [t][..0] == [] && forall v: Bytes :: [] + [v] == [v];
  }

  lemma SameHeader(e: Endpoint, t: Transfer, p: Bytes)
    requires |p| >= 3 && t.len >= 3 && Data(t)[..3] == p[..3]
    ensures Declared(e, t.buf) == Declared(e, p)
  {
    assert t.buf[..3] == Data(t)[..3];
    assert p[0] == p[..3][0] && p[1] == p[..3][1] && p[2] == p[..3][2];
    assert t.buf[0] == t.buf[..3][0] && t.buf[1] == t.buf[..3][1] && t.buf[2] == t.buf[..3][2];
  }

  /** Round trip: a packet that is cut up and sent arrives once, byte for byte. */
  lemma PacketArrives(e: Endpoint, ts: seq<Transfer>, p: Bytes)
    requires SizeOk(e) && IsPacket(e, p) && Carries(e, ts, p)
    ensures Run(e, Idle, ts) == (Idle, [p])
  {
    hide Declared, Run, CarriesRest;
    var t := ts[0];
    assert |Data(t)| == t.len;
    RunOne(e, Idle, t);
    SameHeader(e, t, p);
    if |p| <= e.size {
      assert ts == [t];
    } else {
      RestArrives(e, ts[1..], p[..e.size], p[e.size..]);
      assert p[..e.size] + p[e.size..] == p;
      assert ts == [t] + ts[1..];
      RunInTwo(e, Idle, [t], ts[1..]);
      assert [] + [p] == [p];
    }
  }

  /** And so do any number of packets, one after the other, in order. */
  lemma {:induction false} PacketsArrive(e: Endpoint, tss: seq<seq<Transfer>>, ps: seq<Bytes>)
    requires SizeOk(e) && |tss| == |ps|
    requires forall i :: 0 <= i < |ps| ==> IsPacket(e, ps[i]) && Carries(e, tss[i], ps[i])
    ensures Run(e, Idle, Flat(tss)) == (Idle, ps)
  {
    hide IsPacket, Carries, Run;
    if ps == [] {
      NothingArrives(e);
    } else {
      PacketsArrive(e, tss[1..], ps[1..]);
      PacketArrives(e, tss[0], ps[0]);
      RunInTwo(e, Idle, tss[0], Flat(tss[1..]));
      assert ps == [ps[0]] + ps[1..];
    }
  }

  lemma NothingArrives(e: Endpoint)
    ensures Run(e, Idle, []) == (Idle, [])
  {
  }

  function Flat(tss: seq<seq<Transfer>>): seq<Transfer> {
    if tss == [] then [] else tss[0] + Flat(tss[1..])
  }

  /** A transfer that does not continue the waiting packet ends it, and is then handled as if nothing had been waiting;
      so after any run the next short packet gets through, unless it has just the length that was missing. */
  lemma Recovers(e: Endpoint, s: State, t: Transfer)
    requires SizeOk(e) && t.On(e) && StateOk(e, s) && t.len < e.size && IsPacket(e, Data(t))
    ensures Feed(e, s, t) == (Idle, Some(Data(t))) <==> s.Idle? || |s.got| + t.len != s.total
  {
    assert |Data(t)| == t.len;
    assert t.buf[0] == Data(t)[0] && t.buf[1] == Data(t)[1] && t.buf[2] == Data(t)[2];
    if s.Active? {
      assert |s.got + Data(t)| > |Data(t)|;
    }
  }
}
