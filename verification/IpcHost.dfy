/** The transmit descriptor rings shared with the firmware (ipc_host.c).

    A ring is a power-of-two array of host ids (pointers, 0 for none) and two free-running 32-bit indices, `used` and
    `free`, masked into the array.  Since every ring size divides 2^32, masking with size - 1 is the remainder modulo
    the size, and the wrap of the indices at 2^32 does not disturb the positions. */
module IpcHost {
  import opened Common
  import opened Bits
  import opened BitFacts

  /** The ring sizes of nx_txdesc_cnt. */
  predicate RingSize(cnt: nat) {
    cnt == 8 || cnt == 32 || cnt == 64
  }

  lemma MaskIsRemainder(x: Word, cnt: nat)
    requires RingSize(cnt)
    ensures And(x, cnt - 1) == x % cnt
  {
    assert Pow2(3) == 8 && Pow2(5) == 32 && Pow2(6) == 64 by {
      assert Pow2(4) == 16;
    }
    var k := if cnt == 8 then 3 else if cnt == 32 then 5 else 6;
    MaskLow(32, k, x);
    LoweredIs(k, x);
    RaisedIs(k, x / cnt);
    hide Bitwise, Raised, Lowered, Pow2;
  }

  /** An index masked into the ring. */
  function Masked(x: Word, cnt: nat): (p: nat)
    requires RingSize(cnt)
    ensures p == x % cnt
  {
    MaskIsRemainder(x, cnt);
    And(x, cnt - 1)
  }

  /** The position of an index that was advanced x times. */
  function Pos(cnt: nat, x: nat): nat
    requires cnt > 0
  {
    x % cnt
  }

  /** The 32-bit image of an index that was advanced x times. */
  function U32(x: nat): nat {
    x % TWO_32
  }

  lemma Remainder8(x: nat, q: nat, r: nat)
    requires x == 8 * q + r && r < 8
    ensures x % 8 == r
  {
  }

  lemma Remainder32(x: nat, q: nat, r: nat)
    requires x == 32 * q + r && r < 32
    ensures x % 32 == r
  {
  }

  lemma Remainder64(x: nat, q: nat, r: nat)
    requires x == 64 * q + r && r < 64
    ensures x % 64 == r
  {
  }

  lemma RemainderU32(x: nat, q: nat, r: nat)
    requires x == 0x1_0000_0000 * q + r && r < 0x1_0000_0000
    ensures U32(x) == r
  {
  }

  lemma RemainderIs(c: nat, x: nat, q: nat, r: nat)
    requires RingSize(c) && x == c * q + r && r < c
    ensures x % c == r
  {
    if c == 8 {
      Remainder8(x, q, r);
    } else if c == 32 {
      Remainder32(x, q, r);
    } else {
      Remainder64(x, q, r);
    }
  }

  /** The 32-bit image of an index has the same position. */
  lemma WrappedPosition(cnt: nat, x: nat)
    requires RingSize(cnt)
    ensures U32(x) % cnt == Pos(cnt, x) < cnt
  {
    var q, r := x / TWO_32, x % TWO_32;
    var turns := if cnt == 8 then 0x2000_0000 else if cnt == 32 then 0x800_0000 else 0x400_0000;
    assert TWO_32 == cnt * turns;
    assert x == cnt * (turns * q) + r;
    SumPosition(cnt, turns * q, r);
  }

  lemma SumPosition(cnt: nat, q: nat, r: nat)
    requires RingSize(cnt)
    ensures (cnt * q + r) % cnt == r % cnt < cnt
  {
    assert cnt * q + r == cnt * (q + r / cnt) + r % cnt;
    RemainderIs(cnt, cnt * q + r, q + r / cnt, r % cnt);
  }

  /** Within one turn of the ring all positions differ; after one turn they repeat. */
  lemma Positions(cnt: nat, x: nat, y: nat)
    requires RingSize(cnt) && x < y <= x + cnt
    ensures Pos(cnt, x) < cnt
    ensures y < x + cnt ==> Pos(cnt, x) != Pos(cnt, y)
    ensures y == x + cnt ==> Pos(cnt, x) == Pos(cnt, y)
  {
    var q, r, d := x / cnt, x % cnt, y - x;
    assert x == cnt * q + r;
    if r + d < cnt {
      RemainderIs(cnt, y, q, r + d);
    } else {
      assert y == cnt * (q + 1) + (r + d - cnt);
      RemainderIs(cnt, y, q + 1, r + d - cnt);
    }
  }

  lemma U32Same(x: nat, y: nat)
    requires x <= y < x + TWO_32
    ensures U32(x) == U32(y) <==> x == y
  {
    var q, r, d := x / TWO_32, x % TWO_32, y - x;
    if r + d < TWO_32 {
      RemainderU32(y, q, r + d);
    } else {
      RemainderU32(y, q + 1, r + d - TWO_32);
    }
  }

  lemma U32Sum(x: nat, d: nat)
    ensures (U32(x) + d) % TWO_32 == U32(x + d)
  {
    var y := U32(x) + d;
    RemainderU32(x + d, x / TWO_32 + y / TWO_32, y % TWO_32);
  }

  /** ipc_host_txdesc_get on two 32-bit indices: the position of the next free descriptor, unless the ring is full. */
  function NextFree(cnt: nat, used: nat, free: nat): Option<nat>
    requires cnt > 0
  {
    if free != (used + cnt) % TWO_32 then Some(free % cnt) else None
  }

  /** On every reachable pair of indices the test answers whether the ring is full. */
  lemma NextFreeIsNotFull(cnt: nat, u: nat, f: nat)
    requires RingSize(cnt) && u <= f <= u + cnt
    ensures NextFree(cnt, U32(u), U32(f)) == if f < u + cnt then Some(Pos(cnt, f)) else None
  {
    WrappedPosition(cnt, f);
    U32Sum(u, cnt);
    U32Same(f, u + cnt);
    hide U32, Pos;
  }

  /** The confirm loop advances `used` before it asks the callback, so that the callback, which may look for a free
      descriptor, always finds one: on a full ring the one just being confirmed. */
  lemma CallbackFindsRoom(cnt: nat, u: nat, f: nat)
    requires RingSize(cnt) && u < f <= u + cnt
    ensures NextFree(cnt, U32(u + 1), U32(f)) == Some(Pos(cnt, f))
    ensures f == u + cnt ==> Pos(cnt, f) == Pos(cnt, u)
  {
    NextFreeIsNotFull(cnt, u + 1, f);
    Positions(cnt, u, u + cnt);
  }

  // ---------------------------------------------------------------------------------------------------------
  // The contents of a ring
  // ---------------------------------------------------------------------------------------------------------

  /** Slots from `u` up to `f` hold ids, all others are empty. */
  predicate Filled(a: seq<nat>, u: nat, f: nat) {
    && RingSize(|a|) && u <= f <= u + |a|
    && (forall k :: u <= k < f ==> 0 <= Pos(|a|, k) < |a| && a[Pos(|a|, k)] != 0)
    && (forall k :: f <= k < u + |a| ==> 0 <= Pos(|a|, k) < |a| && a[Pos(|a|, k)] == 0)
  }

  /** The ids in the ring, oldest first. */
  function Window(a: seq<nat>, u: nat, f: nat): (s: seq<nat>)
    requires Filled(a, u, f)
    ensures |s| == f - u
  {
    seq(f - u, k requires 0 <= k < f - u => a[Pos(|a|, u + k)])
  }

  lemma OtherPositions(cnt: nat, x: nat)
    requires RingSize(cnt)
    ensures Pos(cnt, x) < cnt && Pos(cnt, x + cnt) == Pos(cnt, x)
    ensures forall k :: x < k < x + cnt ==> Pos(cnt, k) != Pos(cnt, x)
    ensures forall k :: 0 <= k < x < k + cnt ==> Pos(cnt, k) != Pos(cnt, x)
  {
    Positions(cnt, x, x + cnt);
    forall k | x < k < x + cnt ensures Pos(cnt, k) != Pos(cnt, x) {
      Positions(cnt, x, k);
    }
    forall k | 0 <= k < x < k + cnt ensures Pos(cnt, k) != Pos(cnt, x) {
      Positions(cnt, k, x);
    }
  }

  /** Writing the slot at `f` appends. */
  lemma PushAppends(a: seq<nat>, u: nat, f: nat, id: nat)
    requires Filled(a, u, f) && f < u + |a| && id != 0
    ensures Pos(|a|, f) < |a| && Filled(a[Pos(|a|, f) := id], u, f + 1)
    ensures Window(a[Pos(|a|, f) := id], u, f + 1) == Window(a, u, f) + [id]
  {
    OtherPositions(|a|, f);
    hide Pos;
  }

  /** Clearing the slot at `u` takes the oldest id; putting the id back restores the slots. */
  lemma ClearTakes(a: seq<nat>, u: nat, f: nat)
    requires Filled(a, u, f)
    ensures Pos(|a|, u) < |a| && (a[Pos(|a|, u)] == 0 <==> u == f)
    ensures a[Pos(|a|, u) := 0][Pos(|a|, u) := a[Pos(|a|, u)]] == a
    ensures u == f ==> a[Pos(|a|, u) := 0] == a
    ensures u < f ==> Filled(a[Pos(|a|, u) := 0], u + 1, f)
    ensures u < f ==> Window(a, u, f) == [a[Pos(|a|, u)]] + Window(a[Pos(|a|, u) := 0], u + 1, f)
  {
    OtherPositions(|a|, u);
    hide Pos;
    if u < f {
      var b := a[Pos(|a|, u) := 0];
      assert Filled(b, u + 1, f);
      var w, rest := Window(b, u + 1, f), Window(a, u, f)[1..];
      forall k | 0 <= k < f - (u + 1) ensures w[k] == rest[k] {
        assert u + 1 + k == u + (k + 1);
      }
    }
  }

  class TxRing {
    const cnt: nat
    var used_idx: nat
    var free_idx: nat
    const host_id: array<nat>

    // how often each index was advanced, and the ids that went in and came out
    ghost var used: nat
    ghost var free: nat
    ghost var pushed: seq<nat>
    ghost var freed: seq<nat>

    ghost predicate Valid()
      reads this, host_id
    {
      && host_id.Length == cnt && Filled(host_id[..], used, free)
      && used_idx == U32(used) && free_idx == U32(free)
      && pushed == freed + Pending()
    }

    /** The ids pushed and not confirmed, oldest first. */
    ghost function Pending(): (s: seq<nat>)
      requires Filled(host_id[..], used, free)
      reads this, host_id
    {
      Window(host_id[..], used, free)
    }

    constructor (size: nat)
      requires RingSize(size)
      ensures Valid() && cnt == size && fresh(host_id) && Pending() == [] && pushed == []
    {
      cnt := size;
      host_id := new nat[size](_ => 0);
      used_idx, free_idx, used, free := 0, 0, 0, 0;
      pushed, freed := [], [];
    }

    method TxdescGet() returns (r: Option<nat>)
      requires Valid()
      ensures r.Some? <==> |Pending()| < cnt
      ensures r.Some? ==> r.value == Pos(cnt, free) < cnt && host_id[r.value] == 0
    {
      NextFreeIsNotFull(cnt, used, free);
      Positions(cnt, free, free + 1);
      hide Pos, U32, Masked;
      if free_idx != (used_idx + cnt) % TWO_32 {
        r := Some(Masked(free_idx, cnt));
      } else {
        r := None;
      }
    }

    /** The caller has got a free descriptor before, so the ring is not full. */
    method TxdescPush(id: nat)
      requires Valid() && id != 0 && |Pending()| < cnt
      modifies this, host_id
      ensures Valid() && Pending() == old(Pending()) + [id]
      ensures pushed == old(pushed) + [id] && freed == old(freed) && used == old(used) && used_idx == old(used_idx)
    {
      WrappedPosition(cnt, free);
      U32Sum(free, 1);
      PushAppends(host_id[..], used, free, id);
      hide Pos, U32, Window, Filled, Masked;
      host_id[Masked(free_idx, cnt)] := id;
      free_idx := (free_idx + 1) % TWO_32;
      free := free + 1;
      pushed := pushed + [id];
      assert host_id[..] == old(host_id[..])[old(Pos(cnt, free)) := id];
    }

    /** ipc_host_tx_flush: takes the oldest id, whether the firmware confirmed it or not; 0 on an empty ring. */
    method TxFlush() returns (id: nat)
      requires Valid()
      modifies this, host_id
      ensures Valid() && pushed == old(pushed)
      ensures id == 0 <==> old(Pending()) == []
      ensures id != 0 ==> old(Pending()) == [id] + Pending() && freed == old(freed) + [id]
      ensures id == 0 ==> Pending() == [] && freed == old(freed)
    {
      WrappedPosition(cnt, used);
      U32Sum(used, 1);
      ClearTakes(host_id[..], used, free);
      assert |Pending()| == free - used;
      hide Pos, U32, Window, Filled, Masked;
      id := host_id[Masked(used_idx, cnt)];
      if id != 0 {
        host_id[Masked(used_idx, cnt)] := 0;
        used_idx := (used_idx + 1) % TWO_32;
        used := used + 1;
        freed := freed + [id];
        assert host_id[..] == old(host_id[..])[old(Pos(cnt, used)) := 0];
      }
    }

    /** The callback lets waiting frames in: as many of them as find a descriptor. */
    method PushAll(ids: seq<nat>)
      requires Valid() && (forall id <- ids :: id != 0) && |Pending()| < cnt
      modifies this, host_id
      ensures Valid() && freed == old(freed) && used == old(used) && used_idx == old(used_idx)
      ensures exists n :: 0 <= n <= |ids| && pushed == old(pushed) + ids[..n] && (n < |ids| ==> |Pending()| >= cnt)
      ensures ids != [] ==> |pushed| > |old(pushed)|
    {
      hide Filled, Window, Pos, U32;
      var n := 0;
      assert pushed == old(pushed) + ids[..0] && ids[..|ids|] == ids;
      while n < |ids|
        invariant n <= |ids| && Valid() && freed == old(freed) && used == old(used) && used_idx == old(used_idx)
        invariant pushed == old(pushed) + ids[..n] && (n == 0 ==> |Pending()| < cnt)
      {
        var r := TxdescGet();
        if r.None? {
          return;
        }
        assert ids[n] in ids && ids[..n + 1] == ids[..n] + [ids[n]];
        TxdescPush(ids[n]);
        n := n + 1;
      }
    }

    /** The oldest id is taken out before the callback is asked, and put back when there was none or the callback
        refuses it. */
    method TakeOldest(accepted: bool) returns (stop: bool)
      requires Valid()
      modifies this, host_id
      ensures Valid() && pushed == old(pushed) && free == old(free)
      ensures stop <==> old(Pending()) == [] || !accepted
      ensures stop ==> used_idx == old(used_idx) && used == old(used) && freed == old(freed)
      ensures stop ==> host_id[..] == old(host_id[..])
      ensures !stop ==> used == old(used) + 1 && freed == old(freed) + [old(Pending())[0]] && |Pending()| < cnt
    {
      hide Masked, And;
      assert |host_id[..]| == cnt;
      ghost var slots := host_id[..];
      WrappedPosition(cnt, used);
      U32Sum(used, 1);
      ClearTakes(host_id[..], used, free);
      if used < free {
        CallbackFindsRoom(cnt, used, free);
      }
      assert |Pending()| == free - used <= cnt;
      hide Pos, U32, Window, Filled, NextFree, Masked;
      var used_before := used_idx;
      var pos := Masked(used_before, cnt);
      used_idx := (used_before + 1) % TWO_32;
      var id := host_id[pos];
      host_id[pos] := 0;
      assert host_id[..] == slots[pos := 0];
      if id == 0 {
        used_idx := used_before;
        return true;
      }
      assert NextFree(cnt, used_idx, free_idx).Some?;
      if !accepted {
        used_idx := used_before;
        host_id[pos] := id;
        assert host_id[..] == slots[pos := 0][pos := id];
        return true;
      }
      used := used + 1;
      freed := freed + [id];
      stop := false;
    }

    /** One turn of the confirm loop.  A callback that takes the id may push others, and finds room. */
    method ConfirmOne(accept: nat -> bool, pushes: nat -> seq<nat>, n: nat) returns (stop: bool)
      requires Valid() && forall id <- pushes(n) :: id != 0
      modifies this, host_id
      ensures Valid()
      ensures stop <==> old(Pending()) == [] || !accept(n)
      ensures stop ==> used_idx == old(used_idx) && used == old(used) && freed == old(freed)
      ensures stop ==> host_id[..] == old(host_id[..])
                       && free == old(free) && pushed == old(pushed)
      ensures !stop ==> used == old(used) + 1 && freed == old(freed) + [old(Pending())[0]]
      ensures !stop ==> exists k :: 0 <= k <= |pushes(n)| && pushed == old(pushed) + pushes(n)[..k]
      ensures !stop && pushes(n) != [] ==> |pushed| > |old(pushed)|
    {
      hide Pos, U32, Window, Filled;
      stop := TakeOldest(accept(n));
      if !stop {
        PushAll(pushes(n));
      }
    }

    /** ipc_host_tx_cfm_handler.  `accept(k)` is whether the callback takes the k-th id it is shown, and `pushes(k)`
        what it then pushes; the firmware has not confirmed the id shown as number `last`. */
    method TxCfmHandler(accept: nat -> bool, pushes: nat -> seq<nat>, last: nat) returns (confirmed: nat)
      requires Valid() && !accept(last) && forall k: nat, id <- pushes(k) :: id != 0
      modifies this, host_id
      ensures Valid() && old(pushed) <= pushed
      ensures freed <= pushed && |freed| == |old(freed)| + confirmed
      ensures forall k :: 0 <= k < confirmed ==> accept(k)
      ensures Pending() == [] || !accept(confirmed)
      ensures confirmed == 0 ==> used_idx == old(used_idx) && host_id[..] == old(host_id[..]) && pushed == old(pushed)
      ensures (forall k: nat :: pushes(k) == []) ==> pushed == old(pushed)
    {
      hide Filled, Window, Pos, U32;
      confirmed := 0;
      while true
        invariant Valid() && old(pushed) <= pushed && |freed| == |old(freed)| + confirmed
        invariant confirmed <= last && forall k :: 0 <= k < confirmed ==> accept(k)
        invariant confirmed == 0 ==> used_idx == old(used_idx) && pushed == old(pushed)
        invariant confirmed == 0 ==> host_id[..] == old(host_id[..])
        invariant (forall k: nat :: pushes(k) == []) ==> pushed == old(pushed)
        decreases last - confirmed
      {
        var stop := ConfirmOne(accept, pushes, confirmed);
        if stop {
          break;
        }
        confirmed := confirmed + 1;
      }
    }
  }

  /** ipc_host_tx_frames_pending over all rings of all queues and users. */
  method TxFramesPending(rings: seq<seq<TxRing>>) returns (pending: bool)
    requires forall i, j :: 0 <= i < |rings| && 0 <= j < |rings[i]| ==> rings[i][j].Valid()
    ensures pending <==>
            exists i, j :: 0 <= i < |rings| && 0 <= j < |rings[i]| && rings[i][j].Valid() && rings[i][j].Pending() != []
  {
    pending := false;
    var i := 0;
    while i < |rings| && !pending
      invariant 0 <= i <= |rings|
      invariant pending ==>
                  exists i, j :: 0 <= i < |rings| && 0 <= j < |rings[i]|
                    && rings[i][j].Valid() && rings[i][j].Pending() != []
      invariant !pending ==> forall k, j :: 0 <= k < i && 0 <= j < |rings[k]| ==> rings[k][j].Pending() == []
    {
      var j := 0;
      while j < |rings[i]|
        invariant 0 <= j <= |rings[i]|
        invariant !pending
        invariant forall l :: 0 <= l < j ==> rings[i][l].Pending() == []
      {
        var ring := rings[i][j];
        IndicesDiffer(ring.cnt, ring.used, ring.free);
        if ring.used_idx != ring.free_idx {
          pending := true;
          break;
        }
        j := j + 1;
      }
      i := i + 1;
    }
  }

  lemma IndicesDiffer(cnt: nat, u: nat, f: nat)
    requires RingSize(cnt) && u <= f <= u + cnt
    ensures U32(u) == U32(f) <==> u == f
  {
    U32Same(u, f);
  }
}
