/** How the driver counts fragments of a packet, and when that is right (the counters of aicwf_rx_priv and the
    decisions of aicwf_usb_rx_complete and aicwf_usb_msg_rx_complete in aicwf_usb.c). */
module UsbFragments {
  import opened Common
  import opened Bits
  import opened BitFacts
  import opened Alignment
  import opened UsbReassembly

  const AICWF_USB_MSG_MAX_PKT_SIZE := 2048
  const AICWF_USB_MAX_AMSDU_PKT_SIZE := 12288

  ghost predicate PowerOfTwo(n: nat) {
    exists k: nat :: k < 32 && n == Pow2(k)
  }

  /** What the driver decides about the next fragment from its counters: whether it fits, and whether it is the last. */
  function Judge(size: nat, curFrags: nat, totalFrags: nat, curLen: nat, totalLen: nat, fragLen: nat): (bool, bool) {
    if curFrags + 1 == totalFrags then (curLen + fragLen == totalLen, curLen + fragLen == totalLen)
    else (fragLen == size, false)
  }

  function Frags(total: nat, size: nat): nat
    requires size > 0 && total + size <= TWO_32
  {
    Over(Align(total, size), size)
  }

  lemma FragsAreRight(total: nat, size: nat)
    requires PowerOfTwo(size) && total + size <= TWO_32
    ensures Frags(total, size) == Ceiling(total, size)
  {
    var k: nat :| k < 32 && size == Pow2(k);
    hide Align, Pow2, Ceiling, Over;
    AlignRounds(total, k);
    Multiple(Ceiling(total, size), size);
  }

  lemma LastPiece(size: nat, total: nat, cur: nat)
    requires size > 0 && cur * size < total
    ensures cur + 1 == Ceiling(total, size) <==> total <= cur * size + size
  {
    var left, c := total - cur * size, Ceiling(total, size);
    var r := (total + size - 1) % size;
    assert total + size - 1 == size * c + r;
    assert size * (cur + 1) == cur * size + size;
    if left <= size {
      Quotient(total + size - 1, size, cur + 1, left - 1);
    }
  }

  /** The driver takes the k-th piece of a packet cut into pieces of `size` bytes, and the last one as the last. */
  predicate TakesPiece(size: nat, total: nat, frags: nat, k: nat)
    requires k * size < total
  {
    Judge(size, k, frags, k * size, total, if total < k * size + size then total - k * size else size)
    == (true, total <= k * size + size)
  }

  /** All pieces are taken exactly when ALIGN gave the number of pieces. */
  lemma PiecesFitExactlyWhen(size: nat, total: nat)
    requires 0 < size < total && total + size <= TWO_32
    ensures (forall k: nat :: 0 < k && k * size < total ==> TakesPiece(size, total, Frags(total, size), k))
            <==> Frags(total, size) == Ceiling(total, size)
  {
    hide Align, Frags, Ceiling;
    var frags, n := Frags(total, size), Ceiling(total, size);
    LastIndex(size, total);
    if frags == n {
      forall k: nat | 0 < k && k * size < total ensures TakesPiece(size, total, frags, k) {
        LastPiece(size, total, k);
      }
    } else {
      LastPiece(size, total, n - 1);
      assert !TakesPiece(size, total, frags, n - 1);
    }
  }

  lemma LastIndex(size: nat, total: nat)
    requires 0 < size < total
    ensures var n := Ceiling(total, size); n >= 2 && (n - 1) * size < total <= (n - 1) * size + size
  {
    var n, r := Ceiling(total, size), (total + size - 1) % size;
    assert total + size - 1 == size * n + r;
    assert n < 2 ==> size * n <= size;
    Distribute(size, n);
  }

  /** The packet lengths for which the number of fragments is right when a transfer holds 12288 bytes, which is no
      power of two: three ranges, with 32768 of the 53307 lengths that a longer packet can have. */
  predicate CountedRightly(total: nat) {
    20481 <= total <= 28672 || 32769 <= total <= 49152 || 53249 <= total <= 61440
  }

  lemma FragsOf12288(total: nat)
    requires AICWF_USB_MAX_AMSDU_PKT_SIZE < total <= 0xFFFF + RX_HWHRD_LEN
    ensures Frags(total, AICWF_USB_MAX_AMSDU_PKT_SIZE) == Ceiling(total, AICWF_USB_MAX_AMSDU_PKT_SIZE)
            <==> CountedRightly(total)
  {
    var x := total + 12287;
    var h, l := x / 4096, x % 4096;
    var u := h - 2 * (h / 2 % 2);
    AlignBy12288(total);
    hide Align, Over;
    Thirds(u, 0);
    Thirds(h, l);
    WhichThirds(h);
  }

  lemma WhichThirds(h: nat)
    requires 6 <= h <= 19
    ensures (h - 2 * (h / 2 % 2)) / 3 == h / 3 <==> h in {8, 9, 11, 12, 13, 14, 16, 17}
  {
  }

  lemma Thirds(h: nat, l: nat)
    requires l < 4096
    ensures Over(4096 * h + l, 12288) == h / 3
  {
    var q, r := h / 3, h % 3;
    Quotient(4096 * h + l, 12288, q, 4096 * r + l);
  }

  // ---------------------------------------------------------------------------------------------------------
  // The step that the counters lead to
  // ---------------------------------------------------------------------------------------------------------

  /** What the driver decides in a state: the number of fragments it has got is the length divided by the size. */
  function Decision(e: Endpoint, s: State, t: Transfer): (bool, bool)
    requires SizeOk(e) && s.Active? && s.total <= 0x1_1000
  {
    Judge(e.size, Over(|s.got|, e.size), Frags(s.total, e.size), |s.got|, s.total, t.len)
  }

  predicate Bounded(s: State) {
    s.Active? ==> s.total <= 0x1_1000
  }

  function Took(e: Endpoint, s: State, t: Transfer): (State, Option<Bytes>)
    requires SizeOk(e) && Bounded(s)
  {
    if s.Idle? || !Decision(e, s, t).0 then Begun(e, t)
    else if Decision(e, s, t).1 then (Idle, Some(s.got + Data(t)))
    else (Active(s.got + Data(t), s.total), None)
  }

  /** The fragment would be written past the end of the buffer, which is as long as the packet. */
  predicate Overruns(e: Endpoint, s: State, t: Transfer)
    requires SizeOk(e) && Bounded(s)
  {
    s.Active? && Decision(e, s, t).0 && |s.got| + t.len > s.total
  }

  /** A packet of which some full pieces, but not all of it, are there. */
  ghost predicate Whole(e: Endpoint, s: State) {
    s.Active? ==> e.size > 0 && exists k: nat :: 0 < k && |s.got| == k * e.size < s.total <= 0x1_1000
  }

  predicate CountRight(e: Endpoint, s: State)
    requires SizeOk(e) && Bounded(s)
  {
    s.Active? ==> Frags(s.total, e.size) == Ceiling(s.total, e.size)
  }

  /** Where the number of fragments is right, the counters lead to the step that is meant, and nothing is written
      past the end of the packet's buffer. */
  lemma TookIsFeed(e: Endpoint, s: State, t: Transfer)
    requires SizeOk(e) && Whole(e, s) && t.On(e) && CountRight(e, s)
    ensures Took(e, s, t) == Feed(e, s, t) && !Overruns(e, s, t)
  {
    hide Frags, Ceiling, Begun;
    if s.Active? {
      var k: nat :| 0 < k && |s.got| == k * e.size < s.total;
      Multiple(k, e.size);
      LastPiece(e.size, s.total, k);
      hide Over;
    }
  }

  /** With a power of two it always is. */
  lemma TookIsFeedForPowers(e: Endpoint, s: State, t: Transfer)
    requires SizeOk(e) && PowerOfTwo(e.size) && Whole(e, s) && t.On(e)
    ensures Took(e, s, t) == Feed(e, s, t) && !Overruns(e, s, t) && Whole(e, Feed(e, s, t).0)
  {
    hide PowerOfTwo, Frags, Ceiling;
    if s.Active? {
      FragsAreRight(s.total, e.size);
    }
    TookIsFeed(e, s, t);
    FeedStaysWhole(e, s, t);
  }

  lemma FeedStaysWhole(e: Endpoint, s: State, t: Transfer)
    requires SizeOk(e) && Whole(e, s) && t.On(e)
    ensures Whole(e, Feed(e, s, t).0)
  {
    var r := Feed(e, s, t).0;
    if r.Active? {
      if s.Active? && |s.got| + e.size < s.total && t.len == e.size {
        var k: nat :| 0 < k && |s.got| == k * e.size < s.total;
        assert (k + 1) * e.size == k * e.size + e.size;
        assert |r.got| == (k + 1) * e.size;
      } else {
        assert |r.got| == 1 * e.size;
      }
    }
  }

  /** All transfers of a run, in order, as the counters lead. */
  function TakenRun(e: Endpoint, s: State, ts: seq<Transfer>): (State, seq<Bytes>)
    requires SizeOk(e) && Bounded(s)
    decreases |ts|
  {
    if ts == [] then (s, [])
    else
      TookIsBounded(e, s, ts[0]);
      var (next, packet) := Took(e, s, ts[0]);
      var (last, packets) := TakenRun(e, next, ts[1..]);
      (last, (if packet.Some? then [packet.value] else []) + packets)
  }

  lemma TookIsBounded(e: Endpoint, s: State, t: Transfer)
    requires SizeOk(e) && Bounded(s)
    ensures Bounded(Took(e, s, t).0)
  {
    hide Decision;
  }

  /** For powers of two, all runs are as meant. */
  lemma {:induction false} TakenRunIsRun(e: Endpoint, s: State, ts: seq<Transfer>)
    requires SizeOk(e) && PowerOfTwo(e.size) && Whole(e, s) && forall t <- ts :: t.On(e)
    ensures TakenRun(e, s, ts) == Run(e, s, ts)
    decreases |ts|
  {
    if ts != [] {
      hide Took, Feed, Whole, PowerOfTwo;
      assert ts[0].On(e);
      TookIsFeedForPowers(e, s, ts[0]);
      TakenRunIsRun(e, Feed(e, s, ts[0]).0, ts[1..]);
      assert ts == [ts[0]] + ts[1..];
      RunInTwo(e, s, [ts[0]], ts[1..]);
      RunOne(e, s, ts[0]);
    }
  }

  /** So it is on the message endpoint, with its 2048-byte transfers. */
  lemma MessagesAreAsMeant(e: Endpoint, ts: seq<Transfer>)
    requires e.size == AICWF_USB_MSG_MAX_PKT_SIZE && forall t <- ts :: t.On(e)
    ensures TakenRun(e, Idle, ts) == Run(e, Idle, ts)
  {
    assert Pow2(5) == 32;
    assert e.size == Pow2(11);
    hide Took, Feed;
    TakenRunIsRun(e, Idle, ts);
  }

  // ---------------------------------------------------------------------------------------------------------
  // Which fragments do not fit the packet's buffer
  // ---------------------------------------------------------------------------------------------------------

  /** The number of fragments is never too large, and too small by one at most. */
  lemma FragsBounds(total: nat, size: nat)
    requires size > 0 && total + size <= TWO_32
    ensures Over(total, size) <= Frags(total, size) <= Ceiling(total, size)
  {
    AlignBounds(total, size);
    hide Align, Over;
    OverGrows(total, Align(total, size), size);
    OverGrows(Align(total, size), total + size - 1, size);
  }

  /** A longer packet that is counted as one fragment is shorter than two transfers. */
  lemma OneFragment(total: nat, size: nat)
    requires 0 < size < total && total + size <= TWO_32
    ensures Frags(total, size) < 2 ==> total < 2 * size
    ensures Frags(total, size) >= 1
  {
    FragsBounds(total, size);
    Multiple(1, size);
    OverGrows(size, total, size);
    hide Frags, Over;
    if Frags(total, size) < 2 {
      OverBelow(total, size, 2);
    }
  }

  /** In a state that no fragment has overrun, another is still expected, but for a packet that is counted as one. */
  ghost predicate OnCourse(e: Endpoint, s: State)
    requires SizeOk(e)
  {
    s.Active? ==>
      exists k: nat :: 0 < k && |s.got| == k * e.size && e.size < s.total <= 0x1_1000
                       && (k == 1 || k < Frags(s.total, e.size))
  }

  /** The state has just begun a packet that is counted as one fragment. */
  predicate CountedAsOne(e: Endpoint, s: State)
    requires SizeOk(e) && Bounded(s)
  {
    s.Active? && |s.got| == e.size && Frags(s.total, e.size) < 2
  }

  /** Only then can the next fragment overrun the buffer, and does so if it is full. */
  lemma OverrunsExactlyWhenOne(e: Endpoint, s: State, t: Transfer)
    requires SizeOk(e) && OnCourse(e, s) && t.On(e)
    ensures Bounded(s)
    ensures Overruns(e, s, t) <==> CountedAsOne(e, s) && t.len == e.size
    ensures !Overruns(e, s, t) ==> OnCourse(e, Took(e, s, t).0)
  {
    hide Frags, Over, Judge;
    BegunIsOnCourse(e, t);
    if s.Active? {
      var k: nat :| 0 < k && |s.got| == k * e.size && (k == 1 || k < Frags(s.total, e.size));
      Multiple(k, e.size);
      JudgedOnCourse(e.size, s.total, k, t.len);
      hide Begun;
      if !Overruns(e, s, t) && Decision(e, s, t) == (true, false) {
        assert |s.got + Data(t)| == (k + 1) * e.size;
      }
    }
  }

  /** After k full fragments: what the next one does. */
  lemma JudgedOnCourse(size: nat, total: nat, k: nat, len: nat)
    requires 0 < size < total && total + size <= TWO_32 && 0 < k && len <= size
    requires k == 1 || k < Frags(total, size)
    ensures var (valid, done) := Judge(size, k, Frags(total, size), k * size, total, len);
            && (valid && k * size + len > total <==> k * size == size && Frags(total, size) < 2 && len == size)
            && (valid && !done && k * size + len <= total ==>
                  k + 1 < Frags(total, size) && k * size + len == (k + 1) * size)
  {
    hide Over;
    OneFragment(total, size);
    FragsBounds(total, size);
    hide Frags;
    assert (k + 1) * size == k * size + size;
    if k > 1 {
      Times(size, 1, k);
    }
    if k + 1 < Ceiling(total, size) {
      BeforeLast(total, size, k);
    }
  }

  lemma BeforeLast(total: nat, size: nat, k: nat)
    requires 0 < size < total && k + 1 < Ceiling(total, size)
    ensures (k + 1) * size < total
  {
    LastIndex(size, total);
    hide Ceiling;
    var n := Ceiling(total, size);
    if k + 1 < n - 1 {
      Times(size, k + 1, n - 1);
    }
  }

  lemma BegunIsOnCourse(e: Endpoint, t: Transfer)
    requires SizeOk(e)
    ensures OnCourse(e, Begun(e, t).0)
    ensures Begun(e, t).0.Active? ==> |Begun(e, t).0.got| == e.size
  {
    hide Frags;
    var r := Begun(e, t).0;
    if r.Active? {
      assert |r.got| == 1 * e.size;
    }
  }

  /** The state after n transfers. */
  function Reached(e: Endpoint, ts: seq<Transfer>, n: nat): (s: State)
    requires SizeOk(e) && n <= |ts|
    ensures Bounded(s)
  {
    if n == 0 then Idle
    else
      TookIsBounded(e, Reached(e, ts, n - 1), ts[n - 1]);
      Took(e, Reached(e, ts, n - 1), ts[n - 1]).0
  }

  /** This is where the run of all transfers gets to. */
  lemma {:induction false} ReachedByRun(e: Endpoint, before: seq<Transfer>, ts: seq<Transfer>)
    requires SizeOk(e)
    ensures TakenRun(e, Reached(e, before + ts, |before|), ts).0 == Reached(e, before + ts, |before + ts|)
    decreases |ts|
  {
    hide Took;
    if ts == [] {
      assert before + ts == before;
    } else {
      assert before + ts == before + [ts[0]] + ts[1..];
      ReachedByRun(e, before + [ts[0]], ts[1..]);
    }
  }

  predicate OverrunsAt(e: Endpoint, ts: seq<Transfer>, k: nat)
    requires SizeOk(e)
  {
    k < |ts| && Overruns(e, Reached(e, ts, k), ts[k])
  }

  /** The j-th transfer continues no packet and begins a longer one, of the given length. */
  predicate BeginsAt(e: Endpoint, ts: seq<Transfer>, j: nat, total: nat)
    requires SizeOk(e) && j < |ts|
  {
    var s := Reached(e, ts, j);
    (s.Idle? || !Decision(e, s, ts[j]).0) && Begun(e, ts[j]).0.Active? && Begun(e, ts[j]).0.total == total
  }

  /** The j-th transfer begins a packet that is counted as one fragment, and a full transfer follows. */
  predicate FullAfterOne(e: Endpoint, ts: seq<Transfer>, j: nat, total: nat)
    requires SizeOk(e)
  {
    && j + 1 < |ts| && BeginsAt(e, ts, j, total) && ts[j + 1].len == e.size
    && total <= 0x1_1000 && Frags(total, e.size) < 2
  }

  lemma {:induction false} StaysOnCourse(e: Endpoint, ts: seq<Transfer>, n: nat)
    requires SizeOk(e) && n <= |ts| && (forall t <- ts :: t.On(e)) && forall k :: 0 <= k < n ==> !OverrunsAt(e, ts, k)
    ensures OnCourse(e, Reached(e, ts, n))
  {
    if n > 0 {
      hide Took, OnCourse, Overruns;
      StaysOnCourse(e, ts, n - 1);
      assert !OverrunsAt(e, ts, n - 1);
      OverrunsExactlyWhenOne(e, Reached(e, ts, n - 1), ts[n - 1]);
    } else {
      assert Reached(e, ts, 0).Idle?;
    }
  }

  /** The first fragment that overruns comes right after a packet was begun. */
  lemma FirstOverrun(e: Endpoint, ts: seq<Transfer>, k: nat) returns (j: nat, total: nat)
    requires SizeOk(e) && (forall t <- ts :: t.On(e)) && OverrunsAt(e, ts, k)
    requires forall l :: 0 <= l < k ==> !OverrunsAt(e, ts, l)
    ensures FullAfterOne(e, ts, j, total)
  {
    StaysOnCourse(e, ts, k);
    assert k > 0 by {
      assert Reached(e, ts, 0).Idle?;
    }
    StaysOnCourse(e, ts, k - 1);
    OverrunsExactlyWhenOne(e, Reached(e, ts, k), ts[k]);
    j, total := k - 1, Reached(e, ts, k).total;
    Extends(e, Reached(e, ts, k - 1), ts[k - 1]);
    hide Took, OnCourse, Overruns, Frags;
  }

  lemma Extends(e: Endpoint, s: State, t: Transfer)
    requires SizeOk(e) && OnCourse(e, s)
    ensures Bounded(s)
    ensures var r := Took(e, s, t).0;
            r.Active? && |r.got| <= e.size ==> r == Begun(e, t).0 && (s.Idle? || !Decision(e, s, t).0)
  {
    hide Decision, Begun;
    if s.Active? {
      var k: nat :| 0 < k && |s.got| == k * e.size;
      assert k * e.size >= e.size by {
        if k > 1 { Times(e.size, 1, k); }
      }
    }
  }

  /** Over all runs of transfers, on every endpoint: some fragment is copied past the end of its packet's buffer exactly
      when a packet is begun that is counted as one fragment, and the transfer after its first is full too. */
  lemma OverrunsExactlyWhen(e: Endpoint, ts: seq<Transfer>)
    requires SizeOk(e) && forall t <- ts :: t.On(e)
    ensures (exists k: nat :: OverrunsAt(e, ts, k)) <==> exists j: nat, total: nat :: FullAfterOne(e, ts, j, total)
  {
    hide FullAfterOne, OverrunsAt;
    if k: nat :| OverrunsAt(e, ts, k) {
      var first := Earliest(e, ts, k);
      var j, total := FirstOverrun(e, ts, first);
    }
    if j: nat, total: nat :| FullAfterOne(e, ts, j, total) {
      SecondOverruns(e, ts, j, total);
    }
  }

  lemma Earliest(e: Endpoint, ts: seq<Transfer>, k: nat) returns (first: nat)
    requires SizeOk(e) && OverrunsAt(e, ts, k)
    ensures OverrunsAt(e, ts, first) && forall l :: 0 <= l < first ==> !OverrunsAt(e, ts, l)
  {
    hide OverrunsAt;
    first := 0;
    while !OverrunsAt(e, ts, first)
      invariant first <= k && forall l :: 0 <= l < first ==> !OverrunsAt(e, ts, l)
      decreases k - first
    {
      first := first + 1;
    }
  }

  lemma SecondOverruns(e: Endpoint, ts: seq<Transfer>, j: nat, total: nat)
    requires SizeOk(e) && (forall t <- ts :: t.On(e)) && FullAfterOne(e, ts, j, total)
    ensures OverrunsAt(e, ts, j + 1)
  {
    BegunIsOnCourse(e, ts[j]);
    assert Reached(e, ts, j + 1) == Begun(e, ts[j]).0;
    hide OnCourse, Overruns, Begun, Frags, Decision;
    OverrunsExactlyWhenOne(e, Reached(e, ts, j + 1), ts[j + 1]);
  }

  /** With a power of two it never happens. */
  lemma PowersNeverOverrun(e: Endpoint, ts: seq<Transfer>, k: nat)
    requires SizeOk(e) && PowerOfTwo(e.size) && forall t <- ts :: t.On(e)
    ensures !OverrunsAt(e, ts, k)
  {
    OverrunsExactlyWhen(e, ts);
    hide PowerOfTwo, OverrunsAt, FullAfterOne;
    forall j: nat, total: nat ensures !FullAfterOne(e, ts, j, total) {
      MoreThanOne(e, ts, j, total);
    }
  }

  lemma MoreThanOne(e: Endpoint, ts: seq<Transfer>, j: nat, total: nat)
    requires SizeOk(e) && PowerOfTwo(e.size)
    ensures !FullAfterOne(e, ts, j, total)
  {
    hide PowerOfTwo, Frags, Ceiling, Decision, Begun, Reached;
    if j + 1 < |ts| && BeginsAt(e, ts, j, total) && total <= 0x1_1000 {
      BegunLength(e, ts[j]);
      FragsAreRight(total, e.size);
      LastIndex(e.size, total);
    }
  }

  /** With transfers of 12288 bytes, packets of up to 20480 bytes are counted as one fragment. */
  lemma OneFragmentAt12288(total: nat)
    requires AICWF_USB_MAX_AMSDU_PKT_SIZE < total <= 0xFFFF + RX_HWHRD_LEN
    ensures Frags(total, AICWF_USB_MAX_AMSDU_PKT_SIZE) < 2 <==> total <= 20480
  {
    var h := (total + 12287) / 4096;
    AlignBy12288(total);
    hide Align, Over;
    Thirds(h - 2 * (h / 2 % 2), 0);
    TwoThirds(h);
  }

  lemma TwoThirds(h: nat)
    requires 6 <= h <= 19
    ensures (h - 2 * (h / 2 % 2)) / 3 < 2 <==> h < 8
  {
  }

  /** The j-th transfer begins a packet of up to 20480 bytes, and a full transfer follows. */
  predicate FullAfterShort(e: Endpoint, ts: seq<Transfer>, j: nat, total: nat)
    requires SizeOk(e)
  {
    j + 1 < |ts| && BeginsAt(e, ts, j, total) && total <= 20480 && ts[j + 1].len == e.size
  }

  lemma OneIsShort(e: Endpoint, ts: seq<Transfer>, j: nat, total: nat)
    requires e.size == AICWF_USB_MAX_AMSDU_PKT_SIZE
    ensures FullAfterOne(e, ts, j, total) <==> FullAfterShort(e, ts, j, total)
  {
    hide Frags, Decision, Begun, Reached;
    if j + 1 < |ts| && BeginsAt(e, ts, j, total) {
      BegunLength(e, ts[j]);
      OneFragmentAt12288(total);
    }
  }

  /** On the endpoint with 12288-byte transfers, these are the packets of up to 20480 bytes. */
  lemma OverrunsAt12288ExactlyWhen(e: Endpoint, ts: seq<Transfer>)
    requires e.size == AICWF_USB_MAX_AMSDU_PKT_SIZE && forall t <- ts :: t.On(e)
    ensures (exists k: nat :: OverrunsAt(e, ts, k)) <==> exists j: nat, total: nat :: FullAfterShort(e, ts, j, total)
  {
    OverrunsExactlyWhen(e, ts);
    hide OverrunsAt, FullAfterOne, FullAfterShort;
    forall j: nat, total: nat
      ensures FullAfterOne(e, ts, j, total) <==> FullAfterShort(e, ts, j, total)
    {
      OneIsShort(e, ts, j, total);
    }
  }

  lemma BegunLength(e: Endpoint, t: Transfer)
    ensures Begun(e, t).0.Active? ==> e.size < Begun(e, t).0.total <= 0xFFFF + RX_HWHRD_LEN
  {
  }

  /** Two full transfers, the first of which declares 16444 bytes, and memory for the packet: the second is copied
      past the end. */
  lemma SecondDoesNotFit() returns (e: Endpoint, ts: seq<Transfer>)
    ensures e == Endpoint(AICWF_USB_MAX_AMSDU_PKT_SIZE, false) && (forall t <- ts :: t.On(e)) && OverrunsAt(e, ts, 1)
  {
    e := Endpoint(AICWF_USB_MAX_AMSDU_PKT_SIZE, false);
    var buf: Bytes := [0x00, 0x40, 0x00] + seq(12285, _ => 0);
    var t: Transfer := Completion(buf, 12288, true);
    ts := [t, t];
    assert Begun(e, t) == (Active(Data(t), 16444), None);
    OneFragmentAt12288(16444);
    hide Frags, Decision, Begun;
    assert Reached(e, ts, 0) == Idle;
    assert FullAfterOne(e, ts, 0, 16444);
    SecondOverruns(e, ts, 0, 16444);
  }

  // ---------------------------------------------------------------------------------------------------------
  // Which packets arrive
  // ---------------------------------------------------------------------------------------------------------

  function Lengths(ts: seq<Transfer>): nat {
    if ts == [] then 0 else ts[0].len + Lengths(ts[1..])
  }

  function Held(s: State): nat {
    if s.Active? then |s.got| else 0
  }

  /** No packet is longer than what it can be made of. */
  lemma {:induction false} NothingFromNothing(e: Endpoint, s: State, ts: seq<Transfer>)
    requires SizeOk(e) && Bounded(s)
    ensures forall packet <- TakenRun(e, s, ts).1 :: |packet| <= Held(s) + Lengths(ts)
    decreases |ts|
  {
    if ts != [] {
      var r := Took(e, s, ts[0]);
      TookIsBounded(e, s, ts[0]);
      OneFromNothing(e, s, ts[0]);
      hide Took, Held;
      NothingFromNothing(e, r.0, ts[1..]);
    }
  }

  lemma OneFromNothing(e: Endpoint, s: State, t: Transfer)
    requires SizeOk(e) && Bounded(s)
    ensures Held(Took(e, s, t).0) <= Held(s) + t.len
    ensures Took(e, s, t).1.Some? ==> |Took(e, s, t).1.value| <= Held(s) + t.len
  {
    hide Decision;
  }

  lemma {:induction false} RestLengths(e: Endpoint, ts: seq<Transfer>, p: Bytes)
    requires SizeOk(e) && CarriesRest(e, ts, p)
    ensures Lengths(ts) == |p|
    decreases |p|
  {
    assert |Data(ts[0])| == ts[0].len;
    if |p| <= e.size {
      assert ts[1..] == [];
    } else {
      RestLengths(e, ts[1..], p[e.size..]);
    }
  }

  /** The rest of a packet completes it exactly when the number of fragments is right. */
  lemma {:induction false} RestTaken(e: Endpoint, ts: seq<Transfer>, got: Bytes, p: Bytes, k: nat)
    requires SizeOk(e) && CarriesRest(e, ts, p) && |got| == k * e.size && k > 0 && p != [] && |got| + |p| <= 0x1_1000
    ensures TakenRun(e, Active(got, |got| + |p|), ts) == (Idle, [got + p])
            <==> Frags(|got| + |p|, e.size) == Ceiling(|got| + |p|, e.size)
    decreases |p|
  {
    hide Frags, Ceiling, Begun, Over;
    var s, t := Active(got, |got| + |p|), ts[0];
    assert |Data(t)| == t.len && t.len <= e.size;
    Multiple(k, e.size);
    LastPiece(e.size, s.total, k);
    assert (k + 1) * e.size == k * e.size + e.size;
    RestLengths(e, ts, p);
    var r := Took(e, s, t);
    if !Decision(e, s, t).0 {
      BegunFromNothing(e, t);
      TookIsBounded(e, s, t);
      hide CarriesRest, Took, TakenRun;
      NotTaken(e, s, ts, got + p);
    } else if |p| <= e.size {
      assert ts[1..] == [] && [got + p] + [] == [got + p];
    } else {
      assert got + p[..e.size] + p[e.size..] == got + p;
      RestTaken(e, ts[1..], got + p[..e.size], p[e.size..], k + 1);
      assert [] + TakenRun(e, r.0, ts[1..]).1 == TakenRun(e, r.0, ts[1..]).1;
    }
  }

  lemma BegunFromNothing(e: Endpoint, t: Transfer)
    ensures Held(Begun(e, t).0) <= t.len
    ensures Begun(e, t).1.Some? ==> |Begun(e, t).1.value| <= t.len
  {
  }

  /** Once the waiting part is given up, what comes out is shorter than the packet. */
  lemma NotTaken(e: Endpoint, s: State, ts: seq<Transfer>, packet: Bytes)
    requires SizeOk(e) && Bounded(s) && s.Active? && ts != [] && !Decision(e, s, ts[0]).0 && Lengths(ts) < |packet|
    ensures TakenRun(e, s, ts).1 != [packet]
  {
    var r := Took(e, s, ts[0]);
    BegunFromNothing(e, ts[0]);
    TookIsBounded(e, s, ts[0]);
    hide Decision, Begun;
    NothingFromNothing(e, r.0, ts[1..]);
    var out := TakenRun(e, s, ts).1;
    var rest := TakenRun(e, r.0, ts[1..]).1;
    assert out == (if r.1.Some? then [r.1.value] else []) + rest;
    forall o | o in out ensures |o| < |packet| {
      assert o in rest || (r.1.Some? && o == r.1.value);
    }
    assert packet in [packet];
  }

  /** A packet longer than a transfer, cut up and sent, arrives exactly when the number of its fragments is right. */
  lemma PacketArrivesExactlyWhen(e: Endpoint, ts: seq<Transfer>, p: Bytes)
    requires SizeOk(e) && IsPacket(e, p) && |p| > e.size && Carries(e, ts, p)
    ensures TakenRun(e, Idle, ts) == (Idle, [p]) <==> Frags(|p|, e.size) == Ceiling(|p|, e.size)
  {
    hide Frags, Ceiling, Decision, CarriesRest, Declared;
    var t := ts[0];
    assert |Data(t)| == t.len;
    SameHeader(e, t, p);
    LengthBound(e, p);
    assert Took(e, Idle, t) == (Active(p[..e.size], |p|), None);
    assert p[..e.size] + p[e.size..] == p;
    assert |p[..e.size]| == 1 * e.size;
    RestTaken(e, ts[1..], p[..e.size], p[e.size..], 1);
    assert [] + TakenRun(e, Active(p[..e.size], |p|), ts[1..]).1 == TakenRun(e, Active(p[..e.size], |p|), ts[1..]).1;
  }

  lemma LengthBound(e: Endpoint, p: Bytes)
    requires IsPacket(e, p)
    ensures |p| <= 0xFFFF + RX_HWHRD_LEN
  {
  }

  /** On the endpoint with 12288-byte transfers, these are the packets of certain lengths. */
  lemma PacketArrivesAt12288ExactlyWhen(e: Endpoint, ts: seq<Transfer>, p: Bytes)
    requires e.size == AICWF_USB_MAX_AMSDU_PKT_SIZE && IsPacket(e, p) && |p| > e.size && Carries(e, ts, p)
    ensures TakenRun(e, Idle, ts) == (Idle, [p]) <==> CountedRightly(|p|)
  {
    hide Frags, Ceiling, Carries, IsPacket, TakenRun;
    LengthBound(e, p);
    PacketArrivesExactlyWhen(e, ts, p);
    FragsOf12288(|p|);
  }

  /** The reassembly fields of aicwf_rx_priv for one endpoint. */
  class Reassembler {
    const e: Endpoint
    var skb: Option<Bytes>
    var totalLen: nat
    var curLen: nat
    var totalFrags: nat
    var curFrags: nat

    ghost predicate Valid()
      reads this
    {
      && SizeOk(e)
      && match skb
         case None => totalLen == curLen == totalFrags == curFrags == 0
         case Some(got) => |got| == curLen == curFrags * e.size && totalLen <= 0x1_1000
                           && totalFrags == Frags(totalLen, e.size)
    }

    ghost function View(): (s: State)
      requires Valid()
      reads this
      ensures Bounded(s)
    {
      if skb.Some? then Active(skb.value, totalLen) else Idle
    }

    constructor (e: Endpoint)
      requires SizeOk(e)
      ensures Valid() && View() == Idle && this.e == e
    {
      this.e := e;
      skb, totalLen, curLen, totalFrags, curFrags := None, 0, 0, 0, 0;
    }

    method Clear()
      requires SizeOk(e)
      modifies this
      ensures Valid() && View() == Idle
    {
      skb, totalLen, curLen, totalFrags, curFrags := None, 0, 0, 0, 0;
    }

    /** A transfer that is not the continuation of a packet. */
    method Begin(t: Transfer) returns (packet: Option<Bytes>)
      requires Valid() && View() == Idle && t.On(e)
      modifies this
      ensures Valid() && (View(), packet) == Begun(e, t)
    {
      hide Align, Over;
      var len, kind := t.buf[0] as nat + t.buf[1] as nat * 256, t.buf[2];
      if !IsCfg(kind) {
        if e.msg {
          return None;
        }
        packet := Sized(t, len + RX_HWHRD_LEN);
      } else if kind == TYPE_CFG_CMD_RSP {
        AlignFour(len + 4);
        packet := Sized(t, Align(len + 4, 4));
      } else if kind == TYPE_CFG_DATA_CFM {
        packet := if len == 8 && t.len == 12 then Some(Data(t)) else None;
      } else {
        packet := None;
      }
    }

    method Sized(t: Transfer, total: nat) returns (packet: Option<Bytes>)
      requires Valid() && View() == Idle && t.On(e) && total <= 0x1_0100
      modifies this
      ensures Valid()
      ensures (View(), packet) ==
              if total == t.len then (Idle, Some(Data(t)))
              else if total > e.size == t.len && t.memory then (Active(Data(t), total), None)
              else (Idle, None)
    {
      hide Align, Over;
      packet := None;
      if total > e.size && t.len == e.size {
        if t.memory {
          skb, totalLen, curLen := Some(Data(t)), total, t.len;
          totalFrags, curFrags := Over(Align(total, e.size), e.size), 1;
        }
      } else if total == t.len {
        packet := Some(Data(t));
      }
    }

    /** The fragment goes behind what is in the packet's buffer. */
    method Extend(t: Transfer)
      requires Valid() && skb.Some? && t.On(e) && t.len == e.size
      modifies this
      ensures Valid() && View() == Active(old(skb).value + Data(t), old(totalLen))
    {
      hide Frags;
      assert (curFrags + 1) * e.size == curFrags * e.size + e.size;
      skb, curLen := Some(skb.value + Data(t)), curLen + t.len;
      curFrags := curFrags + 1;
    }

    /** The last fragment completes the packet. */
    method Finish(t: Transfer) returns (packet: Option<Bytes>)
      requires Valid() && skb.Some? && t.On(e) && curLen + t.len == totalLen
      modifies this
      ensures Valid() && View() == Idle && packet == Some(old(skb).value + Data(t))
    {
      packet := Some(skb.value + Data(t));
      Clear();
    }

    lemma DecidedBy(t: Transfer)
      requires Valid() && skb.Some?
      ensures Decision(e, View(), t) == Judge(e.size, curFrags, totalFrags, curLen, totalLen, t.len)
      ensures curLen == |skb.value|
    {
      Multiple(curFrags, e.size);
    }

    /** One completed transfer, on an endpoint of any size.  `overrun` says that the copy goes past the end of the
        packet's buffer; the counters go on as ever, but what the memory behind the buffer held is lost. */
    method Receive(t: Transfer) returns (packet: Option<Bytes>, overrun: bool)
      requires Valid() && t.On(e)
      modifies this
      ensures Valid() && (View(), packet) == Took(e, old(View()), t)
      ensures overrun <==> Overruns(e, old(View()), t)
    {
      hide Begun, Decision, Frags;
      overrun := false;
      if skb.Some? {
        DecidedBy(t);
        var valid, done := false, false;
        if curFrags + 1 == totalFrags {
          if curLen + t.len == totalLen {
            valid, done := true, true;
          }
        } else if t.len == e.size {
          valid := true;
        }
        if valid {
          overrun := curLen + t.len > totalLen;
          if done {
            packet := Finish(t);
          } else {
            Extend(t);
            packet := None;
          }
          return;
        }
        Clear();
      }
      packet := Begin(t);
    }
  }
}
