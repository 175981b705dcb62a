/** The buffers that carry frames to the USB device, and the flow control that goes by how many of them are free
    (aicwf_usb_tx_queue, aicwf_usb_tx_dequeue, usb_tx_flow_ctrl, usb_txc_sta_flowctrl and the checks of tx_free_count in
    aicwf_usb.c). */
module UsbTxPool {
  import opened Common

  const AICWF_USB_TX_URBS := 200
  const AICWF_USB_TX_LOW_WATER := AICWF_USB_TX_URBS / 4
  const AICWF_USB_TX_HIGH_WATER := AICWF_USB_TX_LOW_WATER * 3
  const AICWF_USB_FC_PERSTA_HIGH_WATER := 64
  const AICWF_USB_FC_PERSTA_LOW_WATER := 16

  type Buffer = nat
  type Station = nat

  /** The station a frame goes to, if it is one of the table, and whether it is a management frame. */
  datatype Frame = Frame(sta: Option<Station>, mgmt: bool)

  /** sta_flowctrl of one station, and whether its interface is an access point. */
  datatype StaFlow = StaFlow(txPendingCnt: int, flowctrl: bool, ap: bool)

  /** The fields of aic_usb_dev and rwnx_hw that all calls share. */
  datatype Shared = Shared(free: seq<Buffer>, txFreeCount: int, post: seq<Buffer>, txPostCount: int, tbusy: bool,
                           stas: map<Station, StaFlow>)

  function FreeTaken(s: Shared): Shared
    requires s.free != []
  {
    s.(free := s.free[1..], txFreeCount := s.txFreeCount - 1)
  }

  function FreeAdded(s: Shared, b: Buffer): Shared {
    s.(free := s.free + [b], txFreeCount := s.txFreeCount + 1)
  }

  function PostTaken(s: Shared): Shared
    requires s.post != []
  {
    s.(post := s.post[1..], txPostCount := s.txPostCount - 1)
  }

  function PostAdded(s: Shared, b: Buffer): Shared {
    s.(post := s.post + [b], txPostCount := s.txPostCount + 1)
  }

  /** Whether a frame is counted for a station, and for which. */
  predicate CountsFor(stas: map<Station, StaFlow>, f: Frame, sta: Station) {
    f.sta == Some(sta) && !f.mgmt && sta in stas
  }

  function OneMore(v: StaFlow): StaFlow {
    var n := v.txPendingCnt + 1;
    StaFlow(n, v.flowctrl || (v.ap && n >= AICWF_USB_FC_PERSTA_HIGH_WATER), v.ap)
  }

  function OneLess(v: StaFlow): StaFlow {
    var n := v.txPendingCnt - 1;
    StaFlow(n, v.flowctrl && !(v.ap && n < AICWF_USB_FC_PERSTA_LOW_WATER), v.ap)
  }

  function Counted(stas: map<Station, StaFlow>, f: Frame): map<Station, StaFlow> {
    if f.sta.Some? && CountsFor(stas, f, f.sta.value) then stas[f.sta.value := OneMore(stas[f.sta.value])] else stas
  }

  function Uncounted(stas: map<Station, StaFlow>, f: Frame): map<Station, StaFlow> {
    if f.sta.Some? && CountsFor(stas, f, f.sta.value) then stas[f.sta.value := OneLess(stas[f.sta.value])] else stas
  }

  /** A station of an access point is held back from 64 frames on, until it has less than 16 again; others never are. */
  predicate Hysteresis(v: StaFlow) {
    if v.ap then
      && (v.txPendingCnt >= AICWF_USB_FC_PERSTA_HIGH_WATER ==> v.flowctrl)
      && (v.txPendingCnt < AICWF_USB_FC_PERSTA_LOW_WATER ==> !v.flowctrl)
    else !v.flowctrl
  }

  lemma HysteresisKept(v: StaFlow)
    requires Hysteresis(v)
    ensures Hysteresis(OneMore(v)) && Hysteresis(OneLess(v))
    ensures v.ap && !v.flowctrl && OneMore(v).flowctrl ==> OneMore(v).txPendingCnt == AICWF_USB_FC_PERSTA_HIGH_WATER
    ensures v.ap && v.flowctrl && !OneLess(v).flowctrl ==> OneLess(v).txPendingCnt == AICWF_USB_FC_PERSTA_LOW_WATER - 1
  {
  }

  /** Submitting all posted buffers, first to last: those that fail become free at once. */
  function AllSubmitted(s: Shared, frames: map<Buffer, Frame>, fails: set<Buffer>): (Shared, seq<Buffer>)
    requires forall b <- s.post :: b in frames
    decreases |s.post|
  {
    if s.post == [] then (s, [])
    else
      var b := s.post[0];
      if b in fails then AllSubmitted(Returned(PostTaken(s), b, frames[b]), frames, fails)
      else
        var rest := AllSubmitted(PostTaken(s), frames, fails);
        (rest.0, [b] + rest.1)
  }

  /** A buffer comes back with the frame it carried. */
  function Returned(s: Shared, b: Buffer, f: Frame): (r: Shared)
    ensures r.post == s.post
  {
    FreeAdded(s.(stas := Uncounted(s.stas, f)), b)
  }

  /** The buffers of a list outside and inside a set, in their order. */
  function Without(bs: seq<Buffer>, out: set<Buffer>): seq<Buffer> {
    if bs == [] then [] else (if bs[0] in out then [] else [bs[0]]) + Without(bs[1..], out)
  }

  function Within(bs: seq<Buffer>, kept: set<Buffer>): seq<Buffer> {
    if bs == [] then [] else (if bs[0] in kept then [bs[0]] else []) + Within(bs[1..], kept)
  }

  /** How many of the buffers carry a frame that counts for the station. */
  function FramesFor(bs: seq<Buffer>, frames: map<Buffer, Frame>, sta: Station): nat
    requires forall b <- bs :: b in frames
  {
    if bs == [] then 0
    else (if frames[bs[0]].sta == Some(sta) && !frames[bs[0]].mgmt then 1 else 0) + FramesFor(bs[1..], frames, sta)
  }

  lemma {:induction false} WithinListed(bs: seq<Buffer>, kept: set<Buffer>)
    ensures forall b <- Within(bs, kept) :: b in bs
  {
    if bs != [] { WithinListed(bs[1..], kept); }
  }

  /** A station after n frames of it came back: a held back station of an access point goes on when this brings it below
      16 frames. */
  function Lessened(v: StaFlow, n: nat): StaFlow {
    var p := v.txPendingCnt - n;
    StaFlow(p, v.flowctrl && !(v.ap && n > 0 && p < AICWF_USB_FC_PERSTA_LOW_WATER), v.ap)
  }

  lemma OneLessened(v: StaFlow, n: nat)
    ensures Lessened(OneLess(v), n) == Lessened(v, n + 1)
    ensures Lessened(v, 0) == v
  {
  }

  /** Submitting all: the failed buffers go to the end of the free list in their order, and the others fly. */
  lemma {:induction false} SubmittedLists(s: Shared, frames: map<Buffer, Frame>, fails: set<Buffer>)
    requires forall b <- s.post :: b in frames
    ensures var (t, flying) := AllSubmitted(s, frames, fails);
            && flying == Without(s.post, fails)
            && t.post == [] && t.txPostCount == s.txPostCount - |s.post|
            && t.free == s.free + Within(s.post, fails) && t.txFreeCount == s.txFreeCount + |Within(s.post, fails)|
            && t.tbusy == s.tbusy
    decreases |s.post|
  {
    hide Uncounted;
    if s.post != [] {
      var b, s1 := s.post[0], PostTaken(s);
      assert s.post == [b] + s1.post;
      if b in fails {
        FailedFirst(s.free, b, s1.post, fails);
        SubmittedLists(Returned(s1, b, frames[b]), frames, fails);
      } else {
        SubmittedLists(s1, frames, fails);
      }
    }
  }

  /** And each station has as many frames less as failed for it. */
  lemma {:induction false} SubmittedStation(s: Shared, frames: map<Buffer, Frame>, fails: set<Buffer>, sta: Station)
    requires forall b <- s.post :: b in frames
    ensures forall b <- Within(s.post, fails) :: b in frames
    ensures sta in AllSubmitted(s, frames, fails).0.stas <==> sta in s.stas
    ensures sta in s.stas ==>
              AllSubmitted(s, frames, fails).0.stas[sta]
              == Lessened(s.stas[sta], FramesFor(Within(s.post, fails), frames, sta))
    decreases |s.post|
  {
    WithinListed(s.post, fails);
    if s.post == [] {
      if sta in s.stas { OneLessened(s.stas[sta], 0); }
    } else {
      var b, s1 := s.post[0], PostTaken(s);
      assert s.post == [b] + s1.post;
      if b in fails {
        var s2 := Returned(s1, b, frames[b]);
        SubmittedStation(s2, frames, fails, sta);
        FailedCounts(b, s1.post, fails, frames, sta);
        hide Lessened, OneLess, Within;
        if sta in s.stas { OneLessened(s.stas[sta], FramesFor(Within(s1.post, fails), frames, sta)); }
      } else {
        assert [] + Within(s1.post, fails) == Within(s1.post, fails);
        SubmittedStation(s1, frames, fails, sta);
      }
    }
  }

  lemma FailedFirst(free: seq<Buffer>, b: Buffer, post: seq<Buffer>, fails: set<Buffer>)
    requires b in fails
    ensures Within([b] + post, fails) == [b] + Within(post, fails) && Without([b] + post, fails) == Without(post, fails)
    ensures free + [b] + Within(post, fails) == free + Within([b] + post, fails)
  {
    assert ([b] + post)[1..] == post;
  }

  lemma FailedCounts(b: Buffer, post: seq<Buffer>, fails: set<Buffer>, frames: map<Buffer, Frame>, sta: Station)
    requires b in fails && b in frames && (forall c <- Within(post, fails) :: c in frames)
    ensures forall c <- Within([b] + post, fails) :: c in frames
    ensures FramesFor(Within([b] + post, fails), frames, sta)
            == FramesFor(Within(post, fails), frames, sta)
               + if frames[b].sta == Some(sta) && !frames[b].mgmt then 1 else 0
  {
    FailedFirst([], b, post, fails);
    assert ([b] + Within(post, fails))[1..] == Within(post, fails);
  }

  class UsbDev {
    var txFreeList: seq<Buffer>
    var txFreeCount: int
    var txPostList: seq<Buffer>
    var txPostCount: int
    var tbusy: bool
    var staFlowctrl: map<Station, StaFlow>

    function View(): Shared
      reads this
    {
      Shared(txFreeList, txFreeCount, txPostList, txPostCount, tbusy, staFlowctrl)
    }

    /** All buffers are free, and no frames wait. */
    constructor (stas: map<Station, bool>)
      ensures View() == Initial(stas)
    {
      txFreeList, txFreeCount := seq(AICWF_USB_TX_URBS, i => i), AICWF_USB_TX_URBS;
      txPostList, txPostCount, tbusy := [], 0, false;
      staFlowctrl := map k | k in stas :: StaFlow(0, false, stas[k]);
    }

    /** aicwf_usb_tx_dequeue and aicwf_usb_tx_queue on either list. */
    method TakeFree() returns (b: Option<Buffer>)
      modifies this
      ensures b == if old(txFreeList) == [] then None else Some(old(txFreeList)[0])
      ensures View() == if b.None? then old(View()) else FreeTaken(old(View()))
    {
      if txFreeList == [] {
        return None;
      }
      b := Some(txFreeList[0]);
      txFreeList, txFreeCount := txFreeList[1..], txFreeCount - 1;
    }

    method TakePost() returns (b: Option<Buffer>)
      modifies this
      ensures b == if old(txPostList) == [] then None else Some(old(txPostList)[0])
      ensures View() == if b.None? then old(View()) else PostTaken(old(View()))
    {
      if txPostList == [] {
        return None;
      }
      b := Some(txPostList[0]);
      txPostList, txPostCount := txPostList[1..], txPostCount - 1;
    }

    method PutFree(b: Buffer)
      modifies this
      ensures View() == FreeAdded(old(View()), b)
    {
      txFreeList, txFreeCount := txFreeList + [b], txFreeCount + 1;
    }

    method PutPost(b: Buffer)
      modifies this
      ensures View() == PostAdded(old(View()), b)
    {
      txPostList, txPostCount := txPostList + [b], txPostCount + 1;
    }

    /** usb_tx_flow_ctrl. */
    method CountFrame(f: Frame)
      modifies this
      ensures View() == old(View()).(stas := Counted(old(staFlowctrl), f))
    {
      if f.sta.Some? && f.sta.value in staFlowctrl && !f.mgmt {
        var sta := f.sta.value;
        var v := staFlowctrl[sta];
        v := v.(txPendingCnt := v.txPendingCnt + 1);
        if v.ap {
          if (v.txPendingCnt >= AICWF_USB_FC_PERSTA_HIGH_WATER && !v.flowctrl) || v.flowctrl {
            v := v.(flowctrl := true);
          }
        }
        staFlowctrl := staFlowctrl[sta := v];
      }
    }

    /** usb_txc_sta_flowctrl. */
    method UncountFrame(f: Frame)
      modifies this
      ensures View() == old(View()).(stas := Uncounted(old(staFlowctrl), f))
    {
      if f.sta.Some? && f.sta.value in staFlowctrl && !f.mgmt {
        var sta := f.sta.value;
        var v := staFlowctrl[sta];
        v := v.(txPendingCnt := v.txPendingCnt - 1);
        if v.ap {
          if v.txPendingCnt < AICWF_USB_FC_PERSTA_LOW_WATER && v.flowctrl {
            v := v.(flowctrl := false);
          }
        }
        staFlowctrl := staFlowctrl[sta := v];
      }
    }

    /** aicwf_usb_bus_txdata, when nothing else happens meanwhile. */
    method BusTxData(f: Frame) returns (b: Option<Buffer>)
      modifies this
      ensures b == if old(txFreeList) == [] then None else Some(old(txFreeList)[0])
      ensures var s := if b.None? then old(View())
                       else PostAdded(FreeTaken(old(View())), b.value).(stas := Counted(old(staFlowctrl), f));
              View() == s.(tbusy := s.tbusy || s.txFreeCount < AICWF_USB_TX_LOW_WATER)
    {
      b := TakeFree();
      if b.Some? {
        CountFrame(f);
        PutPost(b.value);
      }
      if txFreeCount < AICWF_USB_TX_LOW_WATER {
        tbusy := true;
      }
    }

    /** aicwf_usb_tx_process: every waiting buffer is submitted, in order; those for which `fails` says so come
        back.  That more buffers are free now is not looked at. */
    method TxProcess(frames: map<Buffer, Frame>, fails: set<Buffer>) returns (flying: seq<Buffer>)
      requires forall b <- txPostList :: b in frames
      modifies this
      ensures flying == Without(old(txPostList), fails)
      ensures txPostList == [] && txPostCount == old(txPostCount) - |old(txPostList)|
      ensures txFreeList == old(txFreeList) + Within(old(txPostList), fails)
      ensures txFreeCount == old(txFreeCount) + |Within(old(txPostList), fails)| && tbusy == old(tbusy)
      ensures (forall b <- Within(old(txPostList), fails) :: b in frames) && staFlowctrl.Keys == old(staFlowctrl).Keys
      ensures forall sta <- staFlowctrl ::
                var n := FramesFor(Within(old(txPostList), fails), frames, sta);
                staFlowctrl[sta] == Lessened(old(staFlowctrl)[sta], n)
    {
      hide Uncounted;
      SubmittedLists(View(), frames, fails);
      forall sta: Station {
        SubmittedStation(View(), frames, fails, sta);
      }
      flying := [];
      while txPostList != []
        invariant forall b <- txPostList :: b in frames
        invariant AllSubmitted(View(), frames, fails).0 == AllSubmitted(old(View()), frames, fails).0
        invariant flying + AllSubmitted(View(), frames, fails).1 == AllSubmitted(old(View()), frames, fails).1
        decreases |txPostList|
      {
        var b := TakePost();
        if b.value in fails {
          UncountFrame(frames[b.value]);
          PutFree(b.value);
        } else {
          ghost var rest := AllSubmitted(View(), frames, fails).1;
          assert flying + ([b.value] + rest) == flying + [b.value] + rest;
          flying := flying + [b.value];
        }
      }
      assert flying + [] == flying;
    }

    /** aicwf_usb_tx_complete, when nothing else happens meanwhile. */
    method TxComplete(b: Buffer, f: Frame)
      modifies this
      ensures var s := Returned(old(View()), b, f);
              View() == s.(tbusy := s.tbusy && s.txFreeCount <= AICWF_USB_TX_HIGH_WATER)
    {
      UncountFrame(f);
      PutFree(b);
      if txFreeCount > AICWF_USB_TX_HIGH_WATER {
        if tbusy {
          tbusy := false;
        }
      }
    }
  }

  function Initial(stas: map<Station, bool>): Shared {
    Shared(seq(AICWF_USB_TX_URBS, i => i), AICWF_USB_TX_URBS, [], 0, false,
           map k | k in stas :: StaFlow(0, false, stas[k]))
  }
}
