/** Where a received IPv4 frame goes, by what was seen on the air before; and the bucket an address belongs to. */
module Nat25Delivery {
  import opened Common
  import opened Bits
  import opened BitDigits
  import opened Nat25Table
  import opened Nat25Db
  import opened Nat25Runs
  import opened Nat25Frame

  lemma Ipv4AddrsDiffer(a: Ip, b: Ip)
    ensures Ipv4Addr(a) == Ipv4Addr(b) <==> a == b
  {
    assert Ipv4Addr(a)[7..11] == a && Ipv4Addr(b)[7..11] == b;
  }

  /** A station whose IPv4 address was seen with its MAC less than `timeout` ago gets the frames for that address,
      whatever else was seen, asked for and expired since. */
  lemma GoesToTheStationSeen(k: Knowledge, m: map<Addr, Value>, ip: Ip, mac: Mac, t: nat, acts: seq<Act>, dst: Mac,
                             bridge: Mac, now: nat, timeout: nat)
    requires var a := Ipv4Addr(ip);
             && k.table == After(Seen(m, a, mac, t, true), acts, timeout) && (a in m ==> m[a].useCount >= 1)
             && InOrder(t, acts) && timeout < TWO_63 && t <= now < TWO_63 && now < t + timeout
             && forall act <- acts :: act.now <= now && !((act.See? || act.Renew?) && act.a == a)
    ensures var r := LookupAnswered(k, dst, ip, bridge, now, timeout); r.dst == mac && r.brMac == k.brMac
  {
    SeenThenAnswered(m, Ipv4Addr(ip), mac, t, acts, now, timeout, dst);
    StaysSeen(m, Ipv4Addr(ip), mac, t, acts, now, timeout);
    hide After, LookedUp, InOrder, Ipv4Addr;
  }

  /** Of an address that was never seen nothing is known. */
  lemma {:induction false} NeverSeen(m: map<Addr, Value>, acts: seq<Act>, timeout: nat, a: Addr)
    requires a !in m && forall act <- acts :: act.See? ==> act.a != a
    ensures a !in After(m, acts, timeout)
    decreases |acts|
  {
    if acts != [] {
      assert acts[0] in acts && forall act <- acts[1..] :: act in acts;
      hide HasExpired;
      NeverSeen(Done(m, acts[0], timeout), acts[1..], timeout, a);
    }
  }

  /** A frame for an address never seen goes to everybody if that is a broadcast address, and to the bridge
      otherwise; the MAC address of the bridge is read when it is not known yet, and then kept. */
  lemma UnknownGoesToTheBridge(k: Knowledge, acts: seq<Act>, ip: Ip, dst: Mac, bridge: Mac, now: nat, timeout: nat)
    requires k.table == After(map[], acts, timeout) && forall act <- acts :: act.See? ==> act.a != Ipv4Addr(ip)
    ensures var r := LookupAnswered(k, dst, ip, bridge, now, timeout);
            && r.table == k.table
            && (ip[3] == 255 ==> r.dst.Bytes() == [255, 255, 255, 255, 255, 255] && r.brMac == k.brMac)
            && (ip[3] != 255 ==> r.dst == r.brMac)
            && (ip[3] != 255 && k.brMac.Bytes() == [0, 0, 0, 0, 0, 0] ==> r.brMac == bridge)
            && (k.brMac.Bytes() != [0, 0, 0, 0, 0, 0] ==> r.brMac == k.brMac)
  {
    NeverSeen(map[], acts, timeout, Ipv4Addr(ip));
    hide After, LookedUp, Ipv4Addr;
  }

  /** A frame for an address that was seen too long ago keeps its destination. */
  lemma OldKeepsDestination(k: Knowledge, ip: Ip, dst: Mac, bridge: Mac, now: nat, timeout: nat)
    requires var a := Ipv4Addr(ip); a in k.table && k.table[a].age + timeout <= now
    requires now < TWO_63
    ensures var r := LookupAnswered(k, dst, ip, bridge, now, timeout); r.dst == dst && r.table == k.table
  {
    ExpiredIsOld(k.table[Ipv4Addr(ip)].age, now, timeout);
    hide HasExpired, Ipv4Addr;
  }

  /** The shortcut answers for its own address only, and only when it is on; with NAT2.5 off, all frames but those
      for the bridge itself are left alone. */
  lemma ShortcutAnswersItsAddress(k: Knowledge, f: seq<Byte>, len: nat, bridge: Mac, now: nat, timeout: nat)
    requires |f| == SEEN && f[14] % 16 * 4 < len
    ensures var r := Answered(k, f, len, bridge, now, timeout);
            var looked := LookupAnswered(k, Destination(f), f[30..34], bridge, now, timeout);
            && r.ok
            && (!k.disabled && !k.noShortcut && f[30..34] == k.shortcutIp ==>
                  r.dst == k.shortcutMac && r.table == k.table)
            && (!k.disabled && (k.noShortcut || f[30..34] != k.shortcutIp) ==> r == looked)
            && (k.disabled && f[30..34] == k.brIp ==> r == looked)
            && (k.disabled && f[30..34] != k.brIp ==> r.dst == Destination(f) && r.table == k.table)
  {
    hide LookupAnswered;
  }

  /** A frame is refused, with nothing learnt, exactly when it must be looked up and its IP header does not end
      before the frame does. */
  lemma RefusedExactlyWhenMalformed(k: Knowledge, f: seq<Byte>, len: nat, bridge: Mac, now: nat, timeout: nat)
    requires |f| == SEEN
    ensures var r := Answered(k, f, len, bridge, now, timeout);
            var looksUp := if k.disabled then f[30..34] == k.brIp else k.noShortcut || f[30..34] != k.shortcutIp;
            && (!r.ok <==> looksUp && len <= 4 * (f[14] % 16))
            && (!r.ok ==> r == Answer(false, Destination(f), k.brMac, k.table))
  {
    hide LookupAnswered;
  }

  // ---------------------------------------------------------------------------------------------------------
  // Buckets
  // ---------------------------------------------------------------------------------------------------------

  /** How many of the bytes have the j-th digit set. */
  function Ones(bytes: seq<Byte>, j: nat): nat {
    if bytes == [] then 0 else Ones(bytes[..|bytes| - 1], j) + if Bit(bytes[|bytes| - 1], j) then 1 else 0
  }

  lemma {:induction false} XorIsParity(a: Addr, from: nat, to: nat, j: nat)
    requires from <= to <= MAX_NETWORK_ADDR_LEN && j < 8
    ensures Bit(XorRange(a, from, to), j) <==> Ones(a[from..to], j) % 2 == 1
  {
    hide Bit, Pow2, Bitwise;
    NoBit(0, j);
    if from < to {
      var rest, last := XorRange(a, from, to - 1), a[to - 1];
      XorIsParity(a, from, to - 1, j);
      XorByteBit(rest, last, j);
      OnesNext(a[from..to - 1], last, j);
      assert a[from..to] == a[from..to - 1] + [last];
    }
  }

  lemma OnesNext(bytes: seq<Byte>, b: Byte, j: nat)
    ensures Ones(bytes + [b], j) == Ones(bytes, j) + if Bit(b, j) then 1 else 0
  {
    hide Bit;
    assert (bytes + [b])[..|bytes|] == bytes;
  }

  lemma XorByteBit(x: Byte, y: Byte, j: nat)
    requires j < 8
    ensures Bit(XorByte(x, y), j) == (Bit(x, j) != Bit(y, j))
  {
    hide Bit;
    BitwiseBit(8, Differ, x, y, j);
  }

  /** An IPv4 address belongs to the bucket whose four digits are the parities of the lowest digits of its bytes. */
  lemma BucketOfIpv4(ip: Ip, j: nat)
    requires j < 4
    ensures Bit(Hash(Ipv4Addr(ip)), j) <==> Ones(ip, j) % 2 == 1
  {
    var a := Ipv4Addr(ip);
    assert a[7..11] == ip && a[0] == 1;
    XorIsParity(a, 7, 11, j);
    assert Pow2(4) == 16;
    LowBit(4, XorRange(a, 7, 11), j);
    hide Bit, XorRange, Ones;
  }
}
