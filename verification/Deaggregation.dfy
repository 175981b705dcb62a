/** Taking apart what one SDIO transfer brought in (aicwf_another_ptk and the loop of aicwf_process_rxframes in
    aicwf_txrxif.c): data frames and messages, each padded to four bytes, until a zero length or the end. */
module Deaggregation {
  import opened Common
  import opened Bits

  type Bytes = seq<Byte>

  /** The memory that the receive buffer lies in; copies may run past the end of what was received. */
  type Memory = nat -> Byte

  /** What is left of the buffer. */
  datatype Rest = Rest(data: nat, len: nat)

  /** What is handed to the rest of the driver. */
  datatype Handed = DataFrame(body: Bytes) | Response(payload: Bytes) | Confirmation(payload: Bytes)

  function Length(m: Memory, at: nat): nat {
    m(at) as nat + m(at + 1) as nat * 256
  }

  function RoundUp4(n: nat): nat {
    (n + 3) / 4 * 4
  }

  /** aggr_len and adjust_len are 16 bits wide. */
  function AggrLen(m: Memory, at: nat): nat {
    if IsCfg(m(at + 2)) then Length(m, at) else (Length(m, at) + RX_HWHRD_LEN) % TWO_16
  }

  function Step(m: Memory, at: nat): nat {
    RoundUp4(AggrLen(m, at)) % TWO_16 + if IsCfg(m(at + 2)) then 4 else 0
  }

  function Copy(m: Memory, at: nat, n: nat): (c: Bytes)
    ensures |c| == n
  {
    seq(n, i requires 0 <= i => m(at + i))
  }

  /** The handlers that one record reaches. */
  function HandedFor(m: Memory, at: nat): seq<Handed> {
    var kind := m(at + 2);
    if !IsCfg(kind) then [DataFrame(Copy(m, at, AggrLen(m, at)))]
    else if kind % 128 == TYPE_CFG_CMD_RSP then [Response(Copy(m, at + 4, Length(m, at)))]
    else if kind % 128 == TYPE_CFG_DATA_CFM then [Confirmation(Copy(m, at + 4, Length(m, at)))]
    else []
  }

  /** aicwf_another_ptk says no. */
  predicate Stops(m: Memory, s: Rest) {
    s.len < 2 || Length(m, s.data) == 0
  }

  /** skb_pull, which does nothing when it is asked for more than there is. */
  function Pulled(s: Rest, n: nat): Rest {
    if n > s.len then s else Rest(s.data + n, s.len - n)
  }

  /** The buffer is a row of complete records. */
  predicate Parses(m: Memory, s: Rest)
    decreases s.len
  {
    Stops(m, s) || (0 < Step(m, s.data) <= s.len && Parses(m, Pulled(s, Step(m, s.data))))
  }

  function AllHanded(m: Memory, s: Rest): seq<Handed>
    requires Parses(m, s)
    decreases s.len
  {
    if Stops(m, s) then [] else HandedFor(m, s.data) + AllHanded(m, Pulled(s, Step(m, s.data)))
  }

  /** n rounds of the loop, regardless of whether it would have stopped. */
  function After(m: Memory, s: Rest, n: nat): Rest
    decreases n
  {
    if n == 0 || Stops(m, s) then s else After(m, Pulled(s, Step(m, s.data)), n - 1)
  }

  predicate StopsWithin(m: Memory, s: Rest, n: nat) {
    Stops(m, After(m, s, n))
  }

  lemma {:induction false} ParsedIsOver(m: Memory, s: Rest) returns (n: nat)
    requires Parses(m, s)
    ensures StopsWithin(m, s, n)
    decreases s.len
  {
    if Stops(m, s) {
      n := 0;
    } else {
      var k := ParsedIsOver(m, Pulled(s, Step(m, s.data)));
      n := k + 1;
    }
  }

  lemma {:induction false} UnparsedGoesOn(m: Memory, s: Rest, n: nat)
    requires !Parses(m, s)
    ensures !StopsWithin(m, s, n)
    decreases n
  {
    if n > 0 {
      var t := Pulled(s, Step(m, s.data));
      assert t == s || (t.len < s.len && !Parses(m, t));
      UnparsedGoesOn(m, t, n - 1);
    }
  }

  /** The loop ends exactly when the buffer is a row of complete records; a record that is cut short, or whose length
      wraps to zero, is handed on again and again. */
  lemma EndsExactlyWhenParsed(m: Memory, s: Rest)
    ensures (exists n: nat :: StopsWithin(m, s, n)) <==> Parses(m, s)
  {
    if Parses(m, s) {
      var n := ParsedIsOver(m, s);
    } else {
      forall n: nat ensures !StopsWithin(m, s, n) {
        UnparsedGoesOn(m, s, n);
      }
    }
  }

  /** A buffer with such records: one that is cut short, and one whose length and the hardware header come to 2^16. */
  lemma SomeDoNotParse() returns (short: Memory, wrapped: Memory, rest: Rest)
    ensures !Parses(short, rest) && Step(short, rest.data) > rest.len
    ensures !Parses(wrapped, rest) && Step(wrapped, rest.data) == 0
  {
    short := (i: nat) => if i == 0 then 100 else 0;
    wrapped := (i: nat) => if i == 0 then 0xC4 else if i == 1 then 0xFF else 0;
    rest := Rest(0, 64);
    assert Length(short, 0) == 100 && AggrLen(short, 0) == 160;
    assert Length(wrapped, 0) == TWO_16 - RX_HWHRD_LEN && AggrLen(wrapped, 0) == 0;
    hide Length, AggrLen;
    assert Step(short, 0) == 160 && Step(wrapped, 0) == 0;
    hide Step;
    DoesNotParse(short, rest);
    DoesNotParse(wrapped, rest);
  }

  lemma DoesNotParse(m: Memory, s: Rest)
    requires s.len >= 2 && Length(m, s.data) > 0 && !(0 < Step(m, s.data) <= s.len)
    ensures !Parses(m, s)
  {
    hide Length, Step;
  }

  class RxBuffer {
    const mem: Memory
    var data: nat
    var len: nat

    function Left(): Rest
      reads this
    {
      Rest(data, len)
    }

    constructor (mem: Memory, data: nat, len: nat)
      ensures this.mem == mem && Left() == Rest(data, len)
    {
      this.mem, this.data, this.len := mem, data, len;
    }

    method Pull(n: nat)
      modifies this
      ensures Left() == Pulled(old(Left()), n)
    {
      if n <= len {
        data, len := data + n, len - n;
      }
    }

    method AnotherPacket() returns (more: bool)
      ensures more <==> !Stops(mem, Left())
    {
      if len < 2 {
        return false;
      }
      var aggrLen := mem(data) as nat + mem(data + 1) as nat * 256;
      more := aggrLen != 0;
    }

    /** One round of the loop. */
    method HandOn() returns (handed: seq<Handed>)
      modifies this
      ensures handed == HandedFor(mem, old(data)) && Left() == Pulled(old(Left()), Step(mem, old(data)))
    {
      hide Copy, IsCfg;
      handed := [];
      var pktLen, kind := mem(data) as nat + mem(data + 1) as nat * 256, mem(data + 2);
      if !IsCfg(kind) {
        var aggrLen := (pktLen + RX_HWHRD_LEN) % TWO_16;
        Padded(aggrLen);
        var adjustLen := if aggrLen % 4 != 0 then RoundUp4(aggrLen) % TWO_16 else aggrLen;
        handed := [DataFrame(Copy(mem, data, aggrLen))];
        hide RoundUp4;
        Pull(adjustLen);
      } else {
        Padded(pktLen);
        var adjustLen := if pktLen % 4 != 0 then RoundUp4(pktLen) % TWO_16 else pktLen;
        hide RoundUp4;
        if kind % 128 == TYPE_CFG_CMD_RSP {
          handed := handed + [Response(Copy(mem, data + 4, pktLen))];
        }
        if kind % 128 == TYPE_CFG_DATA_CFM {
          handed := handed + [Confirmation(Copy(mem, data + 4, pktLen))];
        }
        Pull(adjustLen + 4);
      }
    }

    /** The loop for one buffer.  It hands on exactly the records of the buffer, in order. */
    method Process() returns (handed: seq<Handed>)
      requires Parses(mem, Left())
      modifies this
      ensures handed == AllHanded(mem, old(Left()))
      ensures Stops(mem, Left())
    {
      hide HandedFor, Step, Length;
      handed := [];
      var more := AnotherPacket();
      while more
        invariant Parses(mem, Left()) && more == !Stops(mem, Left())
        invariant handed + AllHanded(mem, Left()) == AllHanded(mem, old(Left()))
        decreases len
      {
        var h := HandOn();
        assert handed + (h + AllHanded(mem, Left())) == (handed + h) + AllHanded(mem, Left());
        handed := handed + h;
        more := AnotherPacket();
      }
    }
  }

  lemma Padded(n: nat)
    requires n < TWO_16
    ensures n % 4 == 0 ==> RoundUp4(n) % TWO_16 == n
  {
  }

  /** A record as the device writes it.  A data frame begins with its length and kind; a message comes after four
      bytes of header, of which the last is not used. */
  datatype Record = Frame(body: Bytes, pad: Bytes) | Message(kind: Byte, unused: Byte, payload: Bytes, pad: Bytes)

  predicate WellFormed(r: Record) {
    match r
    case Frame(body, pad) =>
      && RX_HWHRD_LEN < |body| <= TWO_16 - 4 && |pad| < 4 && (|body| + |pad|) % 4 == 0 && !IsCfg(body[2])
      && body[0] as nat + body[1] as nat * 256 == |body| - RX_HWHRD_LEN
    case Message(kind, _, payload, pad) =>
      0 < |payload| <= TWO_16 - 4 && |pad| < 4 && (|payload| + |pad|) % 4 == 0 && IsCfg(kind)
  }

  function Encode(r: Record): Bytes
    requires WellFormed(r)
  {
    match r
    case Frame(body, pad) => body + pad
    case Message(kind, unused, payload, pad) => [|payload| % 256, |payload| / 256, kind, unused] + payload + pad
  }

  function Meant(r: Record): seq<Handed> {
    match r
    case Frame(body, _) => [DataFrame(body)]
    case Message(kind, _, payload, _) =>
      if kind % 128 == TYPE_CFG_CMD_RSP then [Response(payload)]
      else if kind % 128 == TYPE_CFG_DATA_CFM then [Confirmation(payload)]
      else []
  }

  function EncodeAll(rs: seq<Record>): Bytes
    requires forall r <- rs :: WellFormed(r)
  {
    if rs == [] then [] else Encode(rs[0]) + EncodeAll(rs[1..])
  }

  function AllMeant(rs: seq<Record>): seq<Handed> {
    if rs == [] then [] else Meant(rs[0]) + AllMeant(rs[1..])
  }

  /** The memory holds these bytes at `at`. */
  predicate Holds(m: Memory, at: nat, b: Bytes) {
    forall i :: 0 <= i < |b| ==> m(at + i) == b[i]
  }

  lemma RecordRead(m: Memory, at: nat, r: Record)
    requires WellFormed(r) && Holds(m, at, Encode(r))
    ensures Length(m, at) != 0 && Step(m, at) == |Encode(r)| > 1
    ensures HandedFor(m, at) == Meant(r)
  {
    var b := Encode(r);
    assert m(at + 0) == b[0] && m(at + 1) == b[1] && m(at + 2) == b[2];
    match r {
      case Frame(body, pad) =>
        assert b[0] == body[0] && b[1] == body[1] && b[2] == body[2];
        assert Length(m, at) == |body| - RX_HWHRD_LEN;
        assert [] + body + pad == b;
        Copied(m, at, [], body, pad);
        Filled(|body|, |pad|);
        hide Copy, RoundUp4, IsCfg;
      case Message(kind, unused, payload, pad) =>
        assert Length(m, at) == |payload|;
        Copied(m, at, [|payload| % 256, |payload| / 256, kind, unused], payload, pad);
        Filled(|payload|, |pad|);
        hide Copy, RoundUp4, IsCfg;
    }
  }

  /** What lies between other bytes is copied. */
  lemma Copied(m: Memory, at: nat, before: Bytes, body: Bytes, behind: Bytes)
    requires Holds(m, at, before + body + behind)
    ensures Copy(m, at + |before|, |body|) == body
  {
    var b := before + body + behind;
    forall i | 0 <= i < |body| ensures Copy(m, at + |before|, |body|)[i] == body[i] {
      assert m(at + (|before| + i)) == b[|before| + i];
    }
  }

  lemma Filled(n: nat, pad: nat)
    requires pad < 4 && (n + pad) % 4 == 0 && n <= TWO_16 - 4
    ensures RoundUp4(n) % TWO_16 == RoundUp4(n) == n + pad
  {
  }

  /** Round trip: well-formed records, one after the other, up to the end of the buffer or a zero length, whatever
      follows that, come out as they went in: each once, in order, at the handler for its kind. */
  lemma {:induction false} RecordsComeOut(m: Memory, s: Rest, rs: seq<Record>)
    requires forall r <- rs :: WellFormed(r)
    requires |EncodeAll(rs)| <= s.len && Holds(m, s.data, EncodeAll(rs))
    requires Stops(m, Pulled(s, |EncodeAll(rs)|))
    ensures Parses(m, s) && AllHanded(m, s) == AllMeant(rs)
    decreases |rs|
  {
    hide WellFormed, Encode, Meant, HandedFor, Step, Length, RoundUp4, Holds, Stops, Pulled;
    PulledTwice(s, 0, 0);
    if rs != [] {
      var first, rest := Encode(rs[0]), EncodeAll(rs[1..]);
      Split(m, s.data, first, rest);
      RecordRead(m, s.data, rs[0]);
      NotOver(m, s);
      var t := Pulled(s, |first|);
      PulledTwice(s, |first|, |rest|);
      RecordsComeOut(m, t, rs[1..]);
    }
  }

  lemma PulledTwice(s: Rest, a: nat, b: nat)
    requires a + b <= s.len
    ensures Pulled(s, 0) == s && Pulled(Pulled(s, a), b) == Pulled(s, a + b)
    ensures Pulled(s, a).len == s.len - a && Pulled(s, a).data == s.data + a
  {
  }

  lemma NotOver(m: Memory, s: Rest)
    requires Length(m, s.data) != 0 && s.len > 1
    ensures !Stops(m, s)
  {
  }

  lemma Split(m: Memory, at: nat, a: Bytes, b: Bytes)
    requires Holds(m, at, a + b)
    ensures Holds(m, at, a) && Holds(m, at + |a|, b)
  {
    forall i | 0 <= i < |a| ensures m(at + i) == a[i] {
      assert (a + b)[i] == a[i];
    }
    forall i | 0 <= i < |b| ensures m(at + |a| + i) == b[i] {
      assert (a + b)[|a| + i] == b[i];
      assert m(at + (|a| + i)) == (a + b)[|a| + i];
    }
  }
}
