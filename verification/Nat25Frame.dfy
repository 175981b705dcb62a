/** What nat25_handle_frame of aic_br_ext.c does to a received frame: take the VLAN tag out, give the frame the MAC
    address of the station behind its IPv4 destination, and put the tag back, all in the buffer the frame arrived in. */
module Nat25Frame {
  import opened Bits
  import opened Nat25Table
  import opened Nat25Db

  const ETH_ALEN := 6
  const ETH_HLEN := 14

  /** How much of an untagged frame the driver looks at, and the buffer must hold, however short the frame is. */
  const SEEN := ETH_HLEN + 20
  const BROADCAST := Mac(0xff, 0xff, 0xff, 0xff, 0xff, 0xff)

  function Destination(f: seq<Byte>): Mac
    requires |f| >= ETH_ALEN
  {
    Mac(f[0], f[1], f[2], f[3], f[4], f[5])
  }

  /** A frame with another destination. */
  function SentTo(f: seq<Byte>, mac: Mac): seq<Byte>
    requires |f| >= ETH_ALEN
  {
    mac.Bytes() + f[ETH_ALEN..]
  }

  /** A frame without its VLAN tag, and with a tag. */
  function Untagged(f: seq<Byte>): seq<Byte>
    requires |f| >= 16
  {
    f[..12] + f[16..]
  }

  function Tagged(f: seq<Byte>, tag: seq<Byte>): seq<Byte>
    requires |f| >= 12
  {
    f[..12] + [0x81, 0x00] + tag + f[12..]
  }

  predicate HasTag(f: seq<Byte>) {
    |f| >= 16 && f[12] == 0x81 && f[13] == 0x00
  }

  predicate IsIpv4(f: seq<Byte>)
    requires |f| >= 18
  {
    if HasTag(f) then f[16] == 0x08 && f[17] == 0x00 else f[12] == 0x08 && f[13] == 0x00
  }

  lemma SameDestination(f: seq<Byte>)
    requires |f| >= ETH_ALEN
    ensures SentTo(f, Destination(f)) == f
  {
  }

  lemma TagComesBack(f: seq<Byte>, dst: Mac)
    requires HasTag(f)
    ensures Tagged(SentTo(Untagged(f), dst), f[14..16]) == SentTo(f, dst)
  {
    var t := Tagged(SentTo(Untagged(f), dst), f[14..16]);
    assert |t| == |f|;
    assert forall k :: 6 <= k < |f| ==> t[k] == f[k];
  }

  /** A buffer in which the addresses moved up, or down, by four bytes. */
  lemma MovedUp(was: seq<Byte>, now: seq<Byte>, data: nat, len: nat)
    requires |now| == |was| >= data + len && len >= 16
    requires forall k :: 0 <= k < |was| && !(data + 4 <= k < data + 16) ==> now[k] == was[k]
    requires forall k :: data + 4 <= k < data + 16 ==> now[k] == was[k - 4]
    ensures now[data + 4..data + len] == Untagged(was[data..data + len])
    ensures now[..data] == was[..data] && now[data + len..] == was[data + len..]
  {
    var f, g := now[data + 4..data + len], Untagged(was[data..data + len]);
    forall k: nat | k < len - 4 ensures f[k] == g[k] {
      assert f[k] == now[data + 4 + k];
    }
  }

  lemma MovedDown(was: seq<Byte>, now: seq<Byte>, data: nat, len: nat, tag: seq<Byte>)
    requires |now| == |was| >= data + 4 + len && len >= 12 && |tag| == 2
    requires forall k :: 0 <= k < |was| && !(data <= k < data + 16) ==> now[k] == was[k]
    requires forall k :: data <= k < data + 12 ==> now[k] == was[k + 4]
    requires now[data + 12..data + 16] == [0x81, 0x00] + tag
    ensures now[data..data + 4 + len] == Tagged(was[data + 4..data + 4 + len], tag)
    ensures now[..data] == was[..data] && now[data + 4 + len..] == was[data + 4 + len..]
  {
    var f, g := now[data..data + 4 + len], Tagged(was[data + 4..data + 4 + len], tag);
    forall k: nat | k < len + 4 ensures f[k] == g[k] {
      assert f[k] == now[data + k];
      if 12 <= k < 16 {
        assert now[data + k] == now[data + 12..data + 16][k - 12];
      }
    }
  }

  /** A socket buffer: the frame is the `len` bytes from offset `data`, with headroom before and tailroom after it. */
  class Skb {
    const buf: array<Byte>
    var data: nat
    var len: nat

    constructor (buf: array<Byte>, data: nat, len: nat)
      requires data + len <= buf.Length
      ensures this.buf == buf && this.data == data && this.len == len
    {
      this.buf, this.data, this.len := buf, data, len;
    }

    predicate Valid()
      reads this
    {
      data + len <= buf.Length
    }

    function Frame(): (f: seq<Byte>)
      requires Valid()
      reads this, buf
      ensures |f| == len
    {
      buf[data..data + len]
    }

    /** The first n bytes of the buffer from the start of the frame, perhaps beyond its end. */
    function Seen(n: nat): (f: seq<Byte>)
      requires data + n <= buf.Length
      reads this, buf
      ensures |f| == n
    {
      buf[data..data + n]
    }

    method Read(i: nat, j: nat, ghost n: nat) returns (bytes: seq<Byte>)
      requires i <= j <= n && data + n <= buf.Length
      ensures bytes == Seen(n)[i..j]
    {
      bytes := buf[data + i..data + j];
      assert forall k :: 0 <= k < j - i ==> bytes[k] == Seen(n)[i..j][k];
    }

    lemma SeenStart()
      requires Valid() && len >= ETH_ALEN && data + SEEN <= buf.Length
      ensures Destination(Seen(SEEN)) == Destination(Frame())
    {
    }

    /** The copies that close the gap of the tag move the two addresses four bytes up, last word first. */
    method MoveUp()
      requires Valid() && len >= 16
      modifies buf
      ensures forall k :: 0 <= k < buf.Length && !(data + 4 <= k < data + 16) ==> buf[k] == old(buf[k])
      ensures forall k :: data + 4 <= k < data + 16 ==> buf[k] == old(buf[k - 4])
    {
      for i := 0 to 6
        invariant forall k :: 0 <= k < buf.Length && !(data + 16 - 2 * i <= k < data + 16) ==> buf[k] == old(buf[k])
        invariant forall k :: data + 16 - 2 * i <= k < data + 16 ==> buf[k] == old(buf[k - 4])
      {
        buf[data + 14 - 2 * i], buf[data + 15 - 2 * i] := buf[data + 10 - 2 * i], buf[data + 11 - 2 * i];
      }
    }

    /** The copies that make room for the tag move the two addresses four bytes down, first word first. */
    method MoveDown()
      requires Valid() && len >= 16
      modifies buf
      ensures forall k :: 0 <= k < buf.Length && !(data <= k < data + 12) ==> buf[k] == old(buf[k])
      ensures forall k :: data <= k < data + 12 ==> buf[k] == old(buf[k + 4])
    {
      for i := 0 to 6
        invariant forall k :: 0 <= k < buf.Length && !(data <= k < data + 2 * i) ==> buf[k] == old(buf[k])
        invariant forall k :: data <= k < data + 2 * i ==> buf[k] == old(buf[k + 4])
      {
        buf[data + 2 * i], buf[data + 2 * i + 1] := buf[data + 4 + 2 * i], buf[data + 5 + 2 * i];
      }
    }

    method StripTag() returns (tag: seq<Byte>)
      requires Valid() && len >= 16
      modifies `data, `len, buf
      ensures Valid() && data == old(data) + 4 && len == old(len) - 4
      ensures tag == old(Frame())[14..16] && Frame() == Untagged(old(Frame()))
      ensures buf[..old(data)] == old(buf[..data]) && buf[old(data) + old(len)..] == old(buf[data + len..])
      ensures old(data) + SEEN + 4 <= buf.Length ==> Seen(SEEN) == Untagged(old(Seen(SEEN + 4)))
    {
      hide Untagged;
      tag := Read(14, 16, len);
      ghost var was, f := buf[..], Frame();
      assert f == was[data..data + len];
      MoveUp();
      MovedUp(was, buf[..], data, len);
      if data + SEEN + 4 <= buf.Length {
        MovedUp(was, buf[..], data, SEEN + 4);
        assert old(Seen(SEEN + 4)) == was[data..data + (SEEN + 4)];
      }
      data, len := data + 4, len - 4;
    }

    method RestoreTag(tag: seq<Byte>)
      requires Valid() && len >= 12 && data >= 4 && |tag| == 2
      modifies `data, `len, buf
      ensures Valid() && data == old(data) - 4 && len == old(len) + 4
      ensures Frame() == Tagged(old(Frame()), tag)
      ensures buf[..data] == old(buf[..data - 4]) && buf[data + len..] == old(buf[data + len..])
    {
      hide Tagged;
      ghost var was, f := buf[..], Frame();
      assert f == was[data..data + len];
      data, len := data - 4, len + 4;
      MoveDown();
      buf[data + 12], buf[data + 13] := 0x81, 0x00;
      buf[data + 14], buf[data + 15] := tag[0], tag[1];
      MovedDown(was, buf[..], data, len - 4, tag);
    }

    method SetDestination(mac: Mac)
      requires Valid() && len >= ETH_ALEN
      modifies buf
      ensures Frame() == SentTo(old(Frame()), mac)
    {
      buf[data], buf[data + 1], buf[data + 2] := mac.b0, mac.b1, mac.b2;
      buf[data + 3], buf[data + 4], buf[data + 5] := mac.b3, mac.b4, mac.b5;
    }
  }

  /** The settings of the bridge side and what it has learnt. */
  datatype Knowledge = Knowledge(
    disabled: bool, noShortcut: bool, brIp: Ip, brMac: Mac, shortcutIp: Ip, shortcutMac: Mac, table: map<Addr, Value>)

  datatype Answer = Answer(ok: bool, dst: Mac, brMac: Mac, table: map<Addr, Value>)

  /** What the driver means to do with an untagged IPv4 frame of length `len` for one station; `bridge` is the
      bridge's MAC address as netdev_br_init would read it. */
  function Answered(k: Knowledge, f: seq<Byte>, len: nat, bridge: Mac, now: nat, timeout: nat): Answer
    requires |f| == SEEN
  {
    if k.disabled && f[30..34] != k.brIp then Answer(true, Destination(f), k.brMac, k.table)
    else if !k.disabled && !k.noShortcut && f[30..34] == k.shortcutIp then Answer(true, k.shortcutMac, k.brMac, k.table)
    else if f[14] % 16 * 4 >= len then Answer(false, Destination(f), k.brMac, k.table)
    else LookupAnswered(k, Destination(f), f[30..34], bridge, now, timeout)
  }

  function LookupAnswered(k: Knowledge, dst: Mac, ip: Ip, bridge: Mac, now: nat, timeout: nat): (r: Answer)
    ensures r.ok
  {
    if Ipv4Addr(ip) in k.table
    then Answer(true, LookedUp(k.table, Ipv4Addr(ip), now, timeout, dst).0, k.brMac,
                LookedUp(k.table, Ipv4Addr(ip), now, timeout, dst).1)
    else if ip[3] == 0xff then Answer(true, BROADCAST, k.brMac, k.table)
    else Answer(true, ToBridge(k.brMac, bridge), ToBridge(k.brMac, bridge), k.table)
  }

  function ToBridge(brMac: Mac, bridge: Mac): Mac {
    if brMac == ZERO_MAC then bridge else brMac
  }

  class Bridge {
    const vif: Vif
    const disabled: bool
    const noShortcut: bool
    var brIp: Ip
    var brMac: Mac

    constructor (vif: Vif, disabled: bool, noShortcut: bool, brIp: Ip, brMac: Mac)
      ensures this.vif == vif && this.disabled == disabled && this.noShortcut == noShortcut
      ensures this.brIp == brIp && this.brMac == brMac
    {
      this.vif, this.disabled, this.noShortcut := vif, disabled, noShortcut;
      this.brIp, this.brMac := brIp, brMac;
    }

    ghost function Knows(): Knowledge
      requires vif.Valid()
      reads this, vif, vif.nethash
    {
      Knowledge(disabled, noShortcut, brIp, brMac, vif.scdb_ip, vif.scdb_mac, vif.Contents())
    }

    /** nat25_db_handle for NAT25_LOOKUP on an IPv4 frame. */
    method Lookup(skb: Skb, bridge: Mac, now: nat) returns (ok: bool)
      requires vif.Valid() && skb.Valid() && skb.len >= ETH_ALEN && skb.data + SEEN <= skb.buf.Length
      requires skb.buf as object != vif.nethash as object
      modifies skb.buf, vif`mem, `brMac
      ensures vif.Valid() && skb.Valid()
      ensures ok <==> old(skb.Seen(SEEN))[14] % 16 * 4 < skb.len
      ensures !ok ==> Knows() == old(Knows()) && skb.Frame() == old(skb.Frame())
      ensures ok ==> var was := old(skb.Seen(SEEN));
                     var a := LookupAnswered(old(Knows()), Destination(was), was[30..34], bridge, now, vif.timeout);
                     && skb.Frame() == SentTo(old(skb.Frame()), a.dst)
                     && Knows() == old(Knows()).(brMac := a.brMac, table := a.table)
    {
      hide TableOk, OwnerOk, Model, Hash, HasExpired;
      var f := skb.Seen(SEEN);
      if f[14] % 16 * 4 >= skb.len {
        return false;
      }
      ok := true;
      var found, mac := vif.LookupAndReplace(Ipv4Addr(f[30..34]), now, Destination(f));
      if !found {
        if f[33] == 0xff {
          mac := BROADCAST;
        } else {
          if brMac == ZERO_MAC {
            brMac := bridge;
          }
          mac := brMac;
        }
      }
      skb.SetDestination(mac);
    }

    /** The middle part of nat25_handle_frame, for an untagged IPv4 frame. */
    method Readdress(skb: Skb, bridge: Mac, now: nat) returns (ok: bool)
      requires vif.Valid() && skb.Valid() && skb.len >= ETH_ALEN && skb.data + SEEN <= skb.buf.Length
      requires skb.buf as object != vif.nethash as object
      modifies skb.buf, vif`mem, `brMac
      ensures vif.Valid() && skb.Valid()
      ensures var a := Answered(old(Knows()), old(skb.Seen(SEEN)), skb.len, bridge, now, vif.timeout);
              ok == a.ok && skb.Frame() == SentTo(old(skb.Frame()), a.dst)
              && Knows() == old(Knows()).(brMac := a.brMac, table := a.table)
    {
      hide TableOk, OwnerOk, Model, Hash, HasExpired, LookupAnswered;
      ok := true;
      SameDestination(skb.Frame());
      skb.SeenStart();
      var ip := skb.Read(30, 34, SEEN);
      if !disabled {
        if !noShortcut && ip == vif.scdb_ip {
          skb.SetDestination(vif.scdb_mac);
        } else {
          ok := Lookup(skb, bridge, now);
        }
      } else if ip == brIp {
        ok := Lookup(skb, bridge, now);
      }
    }

    /** nat25_handle_frame on an IPv4 frame of any length, tagged or not.  Whatever is done to the addresses in
        between, the frame keeps its place and length, and nothing but its destination MAC address changes; a frame
        for a group is left alone. */
    method HandleFrame(skb: Skb, bridge: Mac, now: nat) returns (ok: bool)
      requires vif.Valid() && skb.Valid() && skb.buf as object != vif.nethash as object
      requires skb.data + SEEN + 4 <= skb.buf.Length && IsIpv4(skb.Seen(SEEN + 4))
      requires skb.len >= if HasTag(skb.Seen(SEEN + 4)) then 16 else ETH_HLEN
      modifies skb, skb.buf, vif`mem, `brMac
      ensures vif.Valid() && skb.Valid() && skb.data == old(skb.data) && skb.len == old(skb.len)
      ensures old(skb.Frame())[0] % 2 == 1 ==> ok && skb.Frame() == old(skb.Frame()) && Knows() == old(Knows())
      ensures old(skb.Frame())[0] % 2 == 0 ==>
                var seen := old(skb.Seen(SEEN + 4));
                var (plain, len) := if HasTag(seen) then (Untagged(seen), skb.len - 4) else (seen[..SEEN], skb.len);
                var a := Answered(old(Knows()), plain, len, bridge, now, vif.timeout);
                && ok == a.ok
                && skb.Frame() == SentTo(old(skb.Frame()), a.dst)
                && Knows() == old(Knows()).(brMac := a.brMac, table := a.table)
    {
      hide TableOk, OwnerOk, Model, Hash, HasExpired, Answered, Tagged, SentTo;
      ok := true;
      ghost var f, seen := skb.Frame(), skb.Seen(SEEN + 4);
      assert seen[..SEEN] == skb.Seen(SEEN);
      if skb.buf[skb.data] % 2 == 1 {
        return;
      }
      var tagged := skb.buf[skb.data + 12] == 0x81 && skb.buf[skb.data + 13] == 0x00;
      var tag := [];
      if tagged {
        assert f[12] == seen[12] && f[13] == seen[13];
        tag := skb.StripTag();
      }
      ok := Readdress(skb, bridge, now);
      if tagged {
        TagComesBack(f, Answered(old(Knows()), Untagged(seen), |f| - 4, bridge, now, vif.timeout).dst);
        skb.RestoreTag(tag);
      }
    }
  }
}
