/** The NAT2.5 database of aic_br_ext.c at work: lookup, insert, expiry, cleanup, and the shortcut to the entry last
    seen. Each operation walks and rewrites the chains; what it does to the map from addresses is stated beside it. */
module Nat25Db {
  import opened Nat25Table

  /** Looking an address up: the MAC the frame gets, and the map afterwards.  The entry counts one more use, unless
      it has expired; then, or when the address is unknown, the frame keeps its destination. */
  function LookedUp(m: map<Addr, Value>, a: Addr, now: nat, timeout: nat, dst: Mac): (Mac, map<Addr, Value>) {
    if a in m && !HasExpired(m[a].age, now, timeout) then (m[a].mac, m[a := m[a].(useCount := m[a].useCount + 1)])
    else (dst, m)
  }

  /** A sender was seen: a known address is renewed, an unknown one added if there is memory for it. */
  function Seen(m: map<Addr, Value>, a: Addr, mac: Mac, now: nat, memory: bool): map<Addr, Value> {
    if a in m then m[a := Value(mac, m[a].useCount, now)]
    else if memory then m[a := Value(mac, 1, now)]
    else m
  }

  /** Expiring an entry takes one use away, and the entry when that was the last. */
  predicate Dies(v: Value, now: nat, timeout: nat) {
    HasExpired(v.age, now, timeout) && v.useCount == 1
  }

  function Aged(v: Value, now: nat, timeout: nat): Value {
    if HasExpired(v.age, now, timeout) then v.(useCount := v.useCount - 1) else v
  }

  /** The map after the addresses in `done` have been looked at by the expiry. */
  function ExpireSome(m: map<Addr, Value>, done: set<Addr>, now: nat, timeout: nat): map<Addr, Value> {
    map a | a in m && !(a in done && Dies(m[a], now, timeout)) :: if a in done then Aged(m[a], now, timeout) else m[a]
  }

  /** The map after nat25_db_expire: exactly the expired entries with one use are gone, the other expired ones have
      one use less, and all others are as before. */
  function ExpireAll(m: map<Addr, Value>, now: nat, timeout: nat): map<Addr, Value> {
    map a | a in m && !Dies(m[a], now, timeout) :: Aged(m[a], now, timeout)
  }

  /** The entry seen last, with the MAC and IPv4 address it was seen with. */
  datatype Shortcut = Shortcut(entry: Ptr, mac: Mac, ip: Ip)

  const NO_IP: Ip := [0, 0, 0, 0]
  const NO_SHORTCUT := Shortcut(NULL, ZERO_MAC, NO_IP)

  /** The shortcut when only these entries are left. */
  function Left(s: Shortcut, entries: set<Ptr>): Shortcut {
    if s.entry == NULL || s.entry in entries then s else NO_SHORTCUT
  }

  /** Whether the shortcut still has its entry, and the MAC and address that it answers with and for. */
  datatype Held = Held(on: bool, mac: Mac, ip: Ip)

  const NOTHING_HELD := Held(false, ZERO_MAC, NO_IP)

  /** The transmit path notes the sender of an IPv4 packet. */
  function Noted(m: map<Addr, Value>, h: Held, mac: Mac, ip: Ip, now: nat): (map<Addr, Value>, Held) {
    if h.mac == mac then
      if h.on then (Renewed(m, Ipv4Addr(h.ip), now), h) else (m, NOTHING_HELD)
    else if Ipv4Addr(ip) in m then (Renewed(m, Ipv4Addr(ip), now), Held(true, mac, ip))
    else (m, h.(on := false))
  }

  function Renewed(m: map<Addr, Value>, a: Addr, now: nat): map<Addr, Value> {
    if a in m then m[a := m[a].(age := now)] else m
  }

  /** The shortcut when only these addresses are left. */
  function Forgotten(h: Held, m: map<Addr, Value>): Held {
    if h.on && Ipv4Addr(h.ip) !in m then NOTHING_HELD else h
  }

  lemma LeftTwice(s: Shortcut, a: set<Ptr>, b: set<Ptr>)
    requires b <= a
    ensures Left(Left(s, a), b) == Left(s, b)
  {
  }

  /** The pointer writes of __network_hash_link of a new entry at address p. */
  method LinkWrites(mem: Memory, p: Ptr, e: Entry, hash: nat, first: Ptr) returns (m: Memory)
    requires p !in mem && (first == NULL || first in mem) && p != NULL
    ensures m == LinkMemory(mem, p, e, hash, first)
  {
    m := mem[p := e];
    m := m[p := m[p].(next := first)];
    var next := m[p].next;
    if next != NULL {
      m := m[next := m[next].(pprev := NextOf(p))];
    }
    m := m[p := m[p].(pprev := Slot(hash))];
  }

  /** The pointer writes of __network_hash_unlink, as far as they go to entries, and kfree. */
  method UnlinkWrites(mem: Memory, p: Ptr) returns (m: Memory)
    requires p in mem && (mem[p].pprev.NextOf? ==> mem[p].pprev.prev in mem)
    requires mem[p].next == NULL || mem[p].next in mem
    ensures m == UnlinkMemory(mem, p)
  {
    m := mem;
    var e := mem[p];
    if e.pprev.NextOf? {
      m := m[e.pprev.prev := m[e.pprev.prev].(next := e.next)];
    }
    if e.next != NULL {
      m := m[e.next := m[e.next].(pprev := e.pprev)];
    }
    m := m - {p};
  }

  class Vif {
    const nethash: array<Ptr>
    var mem: Memory
    const timeout: nat
    var scdb_entry: Ptr
    var scdb_mac: Mac
    var scdb_ip: Ip

    ghost var chains: seq<seq<Ptr>>
    ghost var owner: map<Addr, Ptr>

    function LastSeen(): Shortcut
      reads this
    {
      Shortcut(scdb_entry, scdb_mac, scdb_ip)
    }

    ghost function AsTable(): Table
      reads this, nethash
    {
      Table(mem, nethash[..], chains, owner)
    }

    /** The table is in order, and the shortcut never points to an entry that was removed, nor to that of another
        address. */
    ghost predicate Valid()
      reads this, nethash
    {
      TableOk(AsTable()) && (scdb_entry == NULL || (scdb_entry in mem && mem[scdb_entry].addr == Ipv4Addr(scdb_ip)))
    }

    function Holding(): Held
      reads this
    {
      Held(scdb_entry != NULL, scdb_mac, scdb_ip)
    }

    ghost function Contents(): map<Addr, Value>
      requires Valid()
      reads this, nethash
    {
      Model(mem, owner)
    }

    constructor (timeout: nat)
      ensures Valid() && Contents() == map[] && fresh(nethash) && this.timeout == timeout
    {
      this.timeout := timeout;
      nethash := new Ptr[NAT25_HASH_SIZE](_ => NULL);
      mem, owner, scdb_entry := map[], map[], NULL;
      scdb_mac, scdb_ip := ZERO_MAC, NO_IP;
      chains := seq(NAT25_HASH_SIZE, _ => []);
    }

    /** The walk along a chain common to lookup, insert and scdb_findEntry: the entry with the address, NULL when
        there is none. */
    method Find(a: Addr) returns (db: Ptr)
      requires Valid()
      ensures db == NULL <==> a !in owner
      ensures db != NULL ==> db == owner[a] && db in mem && mem[db].addr == a
    {
      ghost var c := chains[Hash(a)];
      OnItsChain(a);
      var i := Hash(a);
      hide Hash;
      assert ChainOk(mem, nethash[..][i], i, c);
      db := nethash[i];
      hide TableOk;
      ghost var k, p := 0, if a in owner then Position(c, owner[a]) else |c|;
      while db != NULL
        invariant k <= p && db == At(c, k)
        decreases |c| - k
      {
        assert NodeOk(mem, i, c, k);
        if mem[db].addr == a {
          return;
        }
        db := mem[db].next;
        k := k + 1;
      }
      assert k < |c| ==> NodeOk(mem, i, c, k);
    }

    lemma OnItsChain(a: Addr)
      requires Valid()
      ensures a in owner ==> owner[a] in chains[Hash(a)] && owner[a] in mem && mem[owner[a]].addr == a
      ensures forall q <- mem :: mem[q].addr == a ==> a in owner && owner[a] == q
    {
      hide Hash, ChainOk;
    }

    lemma KnownValue(a: Addr)
      requires Valid()
      ensures a in Contents() <==> a in owner
      ensures a in owner ==> owner[a] in mem && Contents()[a] == mem[owner[a]].value
      ensures a in owner ==> mem[owner[a]].value.useCount >= 1
    {
      hide Hash, ChainOk;
    }

    lemma EntryValue(f: Ptr)
      requires Valid() && f in mem
      ensures mem[f].addr in Contents() && Contents()[mem[f].addr] == mem[f].value && mem[f].value.useCount >= 1
    {
      hide Hash, ChainOk;
    }

    /** Writing the data of one entry. */
    method Touch(db: Ptr, v: Value)
      requires Valid() && db in mem && v.useCount >= 1
      modifies `mem
      ensures Valid() && Contents() == old(Contents())[old(mem)[db].addr := v]
      ensures mem.Keys == old(mem.Keys) && forall q <- mem :: mem[q].addr == old(mem)[q].addr
      ensures db in mem && mem[db].value == v && forall q <- mem :: q != db ==> mem[q].value == old(mem)[q].value
    {
      hide TableOk, OwnerOk, Model, Hash;
      TouchKeeps(AsTable(), db, v);
      mem := mem[db := mem[db].(value := v)];
    }

    /** __nat25_db_network_lookup_and_replace on a frame with destination `dst`: an address that is known is found
        even when its entry has expired, but then the frame is left alone. */
    method LookupAndReplace(a: Addr, now: nat, dst: Mac) returns (found: bool, mac: Mac)
      requires Valid()
      modifies `mem
      ensures Valid()
      ensures found <==> a in old(Contents())
      ensures (mac, Contents()) == LookedUp(old(Contents()), a, now, timeout, dst)
    {
      hide OwnerOk, Model, TableOk, HasExpired, Hash;
      var db := Find(a);
      KnownValue(a);
      if db == NULL {
        return false, dst;
      }
      var v := mem[db].value;
      if HasExpired(v.age, now, timeout) {
        return true, dst;
      }
      Touch(db, v.(useCount := v.useCount + 1));
      return true, v.mac;
    }

    /** __nat25_db_network_insert.  `p` is what kmalloc answers when it is asked: NULL or an unused address. */
    method Insert(a: Addr, mac: Mac, now: nat, p: Ptr)
      requires Valid() && p !in mem
      modifies `mem, `chains, `owner, nethash
      ensures Valid() && scdb_entry == old(scdb_entry)
      ensures Contents() == Seen(old(Contents()), a, mac, now, p != NULL)
    {
      hide OwnerOk, Model, TableOk, Hash;
      var hash := Hash(a);
      var db := Find(a);
      KnownValue(a);
      if db != NULL {
        Touch(db, Value(mac, mem[db].value.useCount, now));
        return;
      }
      if p == NULL {
        return;
      }
      LinkEntry(p, Entry(NULL, Unlinked, a, Value(mac, 1, now)), hash);
    }

    /** __network_hash_link of a new entry at address p. */
    method LinkEntry(p: Ptr, e: Entry, hash: nat)
      requires Valid() && p !in mem && p != NULL && e.addr !in owner && e.value.useCount >= 1 && hash == Hash(e.addr)
      modifies `mem, `chains, `owner, nethash
      ensures Valid() && Contents() == old(Contents())[e.addr := e.value]
    {
      hide TableOk, Model, OwnerOk, Hash, LinkMemory;
      FirstListed(hash);
      LinkKeeps(AsTable(), p, e);
      LinkData(mem, p, e, hash, nethash[hash]);
      mem := LinkWrites(mem, p, e, hash, nethash[hash]);
      nethash[hash] := p;
      chains := chains[hash := [p] + chains[hash]];
      owner := owner[e.addr := p];
      assert nethash[..] == old(nethash[..])[hash := p];
    }

    lemma FirstListed(hash: nat)
      requires Valid() && hash < NAT25_HASH_SIZE
      ensures nethash.Length == |chains| == NAT25_HASH_SIZE
      ensures nethash[hash] == NULL || nethash[hash] in mem
    {
      hide Hash;
      assert |nethash[..]| == NAT25_HASH_SIZE;
      assert ChainOk(mem, nethash[..][hash], hash, chains[hash]);
      if chains[hash] != [] { assert NodeOk(mem, hash, chains[hash], 0); }
    }

    /** __network_hash_unlink and kfree. */
    method UnlinkEntry(p: Ptr)
      requires Valid() && p in mem && p != scdb_entry
      modifies `mem, `chains, `owner, nethash
      ensures Valid() && Contents() == old(Contents()) - {old(mem)[p].addr}
      ensures AsTable() == Removed(old(AsTable()), p)
    {
      hide TableOk, Model, OwnerOk, Hash, UnlinkMemory;
      UnlinkKeeps(AsTable(), p);
      NeighboursListed(p);
      UnlinkData(mem, p);
      ghost var t := AsTable();
      var e := mem[p];
      if e.pprev.Slot? {
        nethash[e.pprev.hash] := e.next;
      }
      mem := UnlinkWrites(mem, p);
      assert nethash[..] == UnlinkHeads(t.mem, t.heads, p);
      hide UnlinkHeads;
      var i := Hash(e.addr);
      chains := chains[i := Without(chains[i], Position(chains[i], p))];
      owner := owner - {e.addr};
    }

    /** Expiry and cleanup forget the shortcut before its entry goes. */
    method Drop(f: Ptr)
      requires Valid() && f in mem
      modifies this, nethash
      ensures Valid() && Contents() == old(Contents()) - {old(mem)[f].addr}
      ensures AsTable() == Removed(old(AsTable()), f) && mem.Keys == old(mem).Keys - {f}
      ensures LastSeen() == Left(old(LastSeen()), mem.Keys)
    {
      hide TableOk, OwnerOk, Model, Hash, Without, Position, UnlinkMemory;
      NeighboursListed(f);
      UnlinkData(mem, f);
      if scdb_entry == f {
        scdb_mac, scdb_ip, scdb_entry := ZERO_MAC, NO_IP, NULL;
      }
      UnlinkEntry(f);
    }

    lemma NeighboursListed(p: Ptr)
      requires Valid() && p in mem
      ensures mem[p].pprev.NextOf? ==> mem[p].pprev.prev in mem && mem[p].pprev.prev != p
      ensures mem[p].next == NULL || (mem[p].next in mem && mem[p].next != p)
      ensures nethash.Length == |chains| == NAT25_HASH_SIZE && p in chains[Hash(mem[p].addr)] && p != NULL
      ensures mem[p].pprev.Slot? ==> mem[p].pprev.hash < NAT25_HASH_SIZE
    {
      assert |nethash[..]| == NAT25_HASH_SIZE;
      var i := Hash(mem[p].addr);
      hide Hash;
      var c := chains[i];
      assert ChainOk(mem, nethash[..][i], i, c);
      var k := Position(c, p);
      assert NodeOk(mem, i, c, k);
      if k > 0 { assert NodeOk(mem, i, c, k - 1); }
      if k + 1 < |c| { assert NodeOk(mem, i, c, k + 1); }
    }

    /** What nat25_db_expire does with one entry, the k-th of its chain. */
    method ExpireEntry(f: Ptr, now: nat, ghost i: nat, ghost k: nat)
      requires Valid() && f in mem && i == Hash(mem[f].addr) && i < |chains| && k < |chains[i]| && chains[i][k] == f
      modifies this, nethash
      ensures Valid() && |chains| == |old(chains)|
      ensures old(mem)[f].addr in old(Contents())
      ensures Contents() == ExpireSome(old(Contents()), {old(mem)[f].addr}, now, timeout)
      ensures chains[i] == old(chains)[i] || chains[i] == Without(old(chains)[i], k)
      ensures NoneMoved(mem, old(mem)) && mem.Keys <= old(mem.Keys) && chains[i + 1..] == old(chains)[i + 1..]
      ensures LastSeen() == Left(old(LastSeen()), mem.Keys)
    {
      hide TableOk, OwnerOk, Model, Hash, HasExpired, UnlinkMemory, UnlinkHeads, Without;
      var e := mem[f];
      NeighboursListed(f);
      OnlyPosition(i, k);
      EntryValue(f);
      UnlinkData(mem, f);
      if HasExpired(e.value.age, now, timeout) {
        if e.value.useCount - 1 == 0 {
          Drop(f);
        } else {
          Touch(f, e.value.(useCount := e.value.useCount - 1));
        }
      }
    }

    lemma OnlyPosition(i: nat, k: nat)
      requires Valid() && i < NAT25_HASH_SIZE == |chains| && k < |chains[i]|
      ensures Position(chains[i], chains[i][k]) == k
    {
      hide Hash, Position;
      assert ChainOk(mem, nethash[..][i], i, chains[i]);
      var l := Position(chains[i], chains[i][k]);
      if l < k { } else if k < l { }
    }

    /** The walk of nat25_db_expire along chain i.  `t` is the table when the expiry began, `done` what it has looked
        at. */
    method ExpireChain(i: nat, now: nat, ghost t: Table, ghost m: map<Addr, Value>, ghost done: set<Addr>)
      returns (ghost done': set<Addr>)
      requires Valid() && TableOk(t) && i < NAT25_HASH_SIZE == |chains| == |t.chains|
      requires chains[i..] == t.chains[i..] && NoneMoved(mem, t.mem)
      requires Contents() == ExpireSome(m, done, now, timeout) && LookedAt(t, done, i, [])
      modifies this, nethash
      ensures Valid() && |chains| == NAT25_HASH_SIZE
      ensures chains[i + 1..] == t.chains[i + 1..] && NoneMoved(mem, t.mem)
      ensures Contents() == ExpireSome(m, done', now, timeout) && LookedAt(t, done', i + 1, [])
      ensures LastSeen() == Left(old(LastSeen()), mem.Keys) && mem.Keys <= old(mem.Keys)
    {
      hide TableOk, OwnerOk, Model, Hash, HasExpired, ExpireSome, NoneMoved, LookedAt, Left, Without, At;
      NothingForgotten();
      ghost var c := t.chains[i];
      ghost var kept: seq<Ptr> := [];
      ghost var k := 0;
      done' := done;
      assert chains[i] == chains[i..][0];
      HeadIs(i);
      var f := nethash[i];
      WholeChain(t, i);
      while f != NULL
        invariant Valid() && |chains| == NAT25_HASH_SIZE && k <= |c|
        invariant f == At(c, k) && chains[i] == kept + c[k..]
        invariant chains[i + 1..] == t.chains[i + 1..] && NoneMoved(mem, t.mem)
        invariant Contents() == ExpireSome(m, done', now, timeout) && LookedAt(t, done', i, c[..k])
        invariant LastSeen() == Left(old(LastSeen()), mem.Keys) && mem.Keys <= old(mem.Keys)
        decreases |c| - k
      {
        ghost var was := mem;
        ghost var seen := old(LastSeen());
        StillThere(kept, c, k);
        NodeOf(i, |kept|);
        EntryOf(t, i, k, done', mem);
        var g := mem[f].next;
        ghost var a := mem[f].addr;
        ExpireEntry(f, now, i, |kept|);
        LeftTwice(seen, was.Keys, mem.Keys);
        StillNoneMoved(mem, was, t.mem);
        ExpireMore(m, done', a, now, timeout);
        done' := done' + {a};
        kept := WalkedOn(kept, c, k, chains[i]);
        k := k + 1;
        f := g;
      }
      AllWalked(c, k);
      NextChain(t, done', i);
    }

    /** nat25_db_expire. */
    method Expire(now: nat)
      requires Valid()
      modifies this, nethash
      ensures Valid() && Contents() == ExpireAll(old(Contents()), now, timeout)
      ensures LastSeen() == Left(old(LastSeen()), mem.Keys) && Holding() == Forgotten(old(Holding()), Contents())
    {
      hide TableOk, OwnerOk, Model, Hash, HasExpired, ExpireSome, ExpireAll, Ipv4Addr;
      if scdb_entry != NULL { ShortcutKnown(); }
      ghost var t, m := AsTable(), Contents();
      ghost var done: set<Addr> := {};
      Start(now);
      var i := 0;
      while i < NAT25_HASH_SIZE
        invariant i <= NAT25_HASH_SIZE && Valid() && |chains| == NAT25_HASH_SIZE
        invariant chains[i..] == t.chains[i..] && NoneMoved(mem, t.mem)
        invariant Contents() == ExpireSome(m, done, now, timeout) && LookedAt(t, done, i, [])
        invariant LastSeen() == Left(old(LastSeen()), mem.Keys) && mem.Keys <= old(mem.Keys)
      {
        done := ExpireChain(i, now, t, m, done);
        i := i + 1;
      }
      ExpiredAll(t, m, done, now, timeout);
      OwnersLeft(t);
    }

    /** Where the shortcut points is the entry of its address. */
    lemma ShortcutKnown()
      requires Valid() && scdb_entry != NULL
      ensures Ipv4Addr(scdb_ip) in owner && owner[Ipv4Addr(scdb_ip)] == scdb_entry
    {
      hide Hash, ChainOk, Ipv4Addr;
    }

    /** The addresses that are left have the entries that they had. */
    lemma OwnersLeft(t: Table)
      requires Valid() && TableOk(t) && NoneMoved(mem, t.mem)
      ensures Contents().Keys == owner.Keys
      ensures forall a <- owner :: a in t.owner && owner[a] == t.owner[a] && owner[a] in mem
      ensures forall a <- t.owner :: t.owner[a] in mem ==> a in owner
    {
      hide Hash, ChainOk;
    }

    lemma Start(now: nat)
      requires Valid()
      ensures |chains| == NAT25_HASH_SIZE && Contents().Keys == owner.Keys
      ensures Contents() == ExpireSome(Contents(), {}, now, timeout)
    {
      hide HasExpired, Hash, ChainOk;
    }

    /** nat25_db_cleanup. */
    method Cleanup()
      requires Valid()
      modifies this, nethash
      ensures Valid() && Contents() == map[] && mem == map[]
      ensures LastSeen() == Left(old(LastSeen()), mem.Keys)
    {
      hide TableOk, OwnerOk, Model, Hash;
      Start(0);
      var i := 0;
      while i < NAT25_HASH_SIZE
        invariant i <= NAT25_HASH_SIZE && Valid() && |chains| == NAT25_HASH_SIZE
        invariant forall j :: 0 <= j < i ==> chains[j] == []
        invariant LastSeen() == Left(old(LastSeen()), mem.Keys) && mem.Keys <= old(mem.Keys)
      {
        CleanupChain(i);
        i := i + 1;
      }
      Emptied();
    }

    method CleanupChain(i: nat)
      requires Valid() && i < NAT25_HASH_SIZE == |chains|
      modifies this, nethash
      ensures Valid() && |chains| == NAT25_HASH_SIZE
      ensures chains == old(chains)[i := []]
      ensures LastSeen() == Left(old(LastSeen()), mem.Keys) && mem.Keys <= old(mem.Keys)
    {
      hide TableOk, OwnerOk, Model, Hash, Without, Left;
      NothingForgotten();
      ghost var c := chains[i];
      ghost var k := 0;
      HeadIs(i);
      var f := nethash[i];
      while f != NULL
        invariant Valid() && |chains| == NAT25_HASH_SIZE && k <= |c|
        invariant f == At(c, k) && chains == old(chains)[i := c[k..]]
        invariant LastSeen() == Left(old(LastSeen()), mem.Keys) && mem.Keys <= old(mem.Keys)
        decreases |c| - k
      {
        assert chains[i][0] == f;
        NodeOf(i, 0);
        OnlyPosition(i, 0);
        Walked([], c, k);
        assert [] + c[k..] == c[k..] && [] + c[k + 1..] == c[k + 1..];
        var g := mem[f].next;
        LeftTwice(old(LastSeen()), mem.Keys, mem.Keys - {f});
        Drop(f);
        k := k + 1;
        f := g;
      }
      ChainEnds(i);
    }

    lemma NothingForgotten()
      requires Valid()
      ensures Left(LastSeen(), mem.Keys) == LastSeen()
    {
    }

    lemma ChainEnds(i: nat)
      requires Valid() && i < NAT25_HASH_SIZE == |chains|
      ensures forall k :: 0 <= k < |chains[i]| ==> chains[i][k] != NULL
    {
      forall k | 0 <= k < |chains[i]| ensures chains[i][k] != NULL {
        NodeOf(i, k);
      }
    }

    lemma Emptied()
      requires Valid() && forall j :: 0 <= j < NAT25_HASH_SIZE ==> chains[j] == []
      ensures mem == map[] && Contents() == map[] && scdb_entry == NULL
    {
      hide ChainOk;
      forall p <- mem ensures false {
        var j := Hash(mem[p].addr);
      }
      assert owner == map[];
    }

    /** The transmit path (rwnx_tx.c) keeps a shortcut to the entry of the host it last sent an IPv4 packet for; the
        result is whether the frame needs no further treatment. */
    method NoteShortcut(mac: Mac, ip: Ip, now: nat) returns (noted: bool)
      requires Valid()
      modifies this
      ensures Valid()
      ensures noted <==> if old(scdb_mac) == mac then old(scdb_entry) != NULL else Ipv4Addr(ip) in old(Contents())
      ensures LastSeen() == if old(scdb_mac) == mac then if noted then old(LastSeen()) else NO_SHORTCUT
                            else if noted then Shortcut(old(owner)[Ipv4Addr(ip)], mac, ip)
                            else Shortcut(NULL, old(scdb_mac), old(scdb_ip))
      ensures !noted ==> mem == old(mem) && Contents() == old(Contents())
      ensures noted ==> scdb_entry in old(mem) && old(mem)[scdb_entry].addr in old(Contents())
      ensures noted ==> var a := old(mem)[scdb_entry].addr;
                        Contents() == old(Contents())[a := old(Contents())[a].(age := now)]
      ensures (Contents(), Holding()) == Noted(old(Contents()), old(Holding()), mac, ip, now)
    {
      hide TableOk, OwnerOk, Model, Hash, Ipv4Addr;
      KnownValue(Ipv4Addr(ip));
      if scdb_mac != mac {
        scdb_entry := Find(Ipv4Addr(ip));
        if scdb_entry == NULL {
          return false;
        }
        scdb_mac, scdb_ip := mac, ip;
      } else if scdb_entry == NULL {
        scdb_mac, scdb_ip := ZERO_MAC, NO_IP;
        return false;
      }
      EntryValue(scdb_entry);
      Touch(scdb_entry, mem[scdb_entry].value.(age := now));
      noted := true;
    }

    lemma HeadIs(i: nat)
      requires Valid() && i < NAT25_HASH_SIZE == |chains|
      ensures nethash.Length == NAT25_HASH_SIZE && nethash[i] == At(chains[i], 0)
    {
      hide Hash;
      assert |nethash[..]| == NAT25_HASH_SIZE;
      assert ChainOk(mem, nethash[..][i], i, chains[i]);
    }

    lemma NodeOf(i: nat, k: nat)
      requires Valid() && i < NAT25_HASH_SIZE == |chains| && k < |chains[i]|
      ensures chains[i][k] in mem && chains[i][k] != NULL && Hash(mem[chains[i][k]].addr) == i
      ensures mem[chains[i][k]].next == At(chains[i], k + 1)
    {
      hide Hash;
      assert ChainOk(mem, nethash[..][i], i, chains[i]) && NodeOk(mem, i, chains[i], k);
    }
  }

  /** All entries that are left were there before, under the same addresses. */
  ghost predicate NoneMoved(mem: Memory, was: Memory) {
    forall q <- mem :: q in was && mem[q].addr == was[q].addr
  }

  lemma StillNoneMoved(mem: Memory, was: Memory, first: Memory)
    requires NoneMoved(was, first) && NoneMoved(mem, was)
    ensures NoneMoved(mem, first)
  {
  }

  /** Of the table's addresses, `done` has those of the chains before chain i and of the entries in `part`. */
  ghost predicate LookedAt(t: Table, done: set<Addr>, i: nat, part: seq<Ptr>) {
    forall a <- t.owner :: a in done <==> Hash(a) < i || t.owner[a] in part
  }

  lemma WholeChain(t: Table, i: nat)
    requires TableOk(t) && i < NAT25_HASH_SIZE
    ensures forall a <- t.owner :: t.owner[a] in t.chains[i] <==> Hash(a) == i
    ensures NULL !in t.chains[i]
  {
    hide Hash;
    forall k: nat | k < |t.chains[i]| ensures t.chains[i][k] != NULL {
      assert ChainOk(t.mem, t.heads[i], i, t.chains[i]) && NodeOk(t.mem, i, t.chains[i], k);
    }
    forall a <- t.owner ensures t.owner[a] in t.chains[i] <==> Hash(a) == i {
      if t.owner[a] in t.chains[i] {
        assert ChainOk(t.mem, t.heads[i], i, t.chains[i]);
        assert NodeOk(t.mem, i, t.chains[i], Position(t.chains[i], t.owner[a]));
      }
    }
  }

  lemma NextChain(t: Table, done: set<Addr>, i: nat)
    requires TableOk(t) && i < NAT25_HASH_SIZE && LookedAt(t, done, i, t.chains[i])
    ensures LookedAt(t, done, i + 1, [])
  {
    hide TableOk, Hash;
    WholeChain(t, i);
  }

  /** The k-th entry of chain i belongs to one address, which none of the entries before it has. */
  lemma EntryOf(t: Table, i: nat, k: nat, done: set<Addr>, mem: Memory)
    requires TableOk(t) && i < NAT25_HASH_SIZE && k < |t.chains[i]|
    requires LookedAt(t, done, i, t.chains[i][..k]) && NoneMoved(mem, t.mem) && t.chains[i][k] in mem
    ensures var a := mem[t.chains[i][k]].addr;
            a in t.owner && a !in done && LookedAt(t, done + {a}, i, t.chains[i][..k + 1])
  {
    hide Hash;
    var c := t.chains[i];
    assert ChainOk(t.mem, t.heads[i], i, c) && NodeOk(t.mem, i, c, k);
    assert c[..k + 1] == c[..k] + [c[k]];
  }

  lemma Walked(kept: seq<Ptr>, c: seq<Ptr>, k: nat)
    requires k < |c|
    ensures kept + c[k..] == (kept + [c[k]]) + c[k + 1..]
    ensures Without(kept + c[k..], |kept|) == kept + c[k + 1..]
    ensures At(kept + c[k..], |kept| + 1) == At(c, k + 1)
  {
  }

  /** The walk has come to the k-th entry of c, of which `kept` are left in front of it. */
  lemma StillThere(kept: seq<Ptr>, c: seq<Ptr>, k: nat)
    requires k <= |c| && At(c, k) != NULL
    ensures k < |c| && |kept| < |kept + c[k..]| && (kept + c[k..])[|kept|] == At(c, k)
    ensures At(kept + c[k..], |kept| + 1) == At(c, k + 1)
  {
  }

  lemma WalkedOn(kept: seq<Ptr>, c: seq<Ptr>, k: nat, chain: seq<Ptr>) returns (kept': seq<Ptr>)
    requires k < |c| && (chain == kept + c[k..] || chain == Without(kept + c[k..], |kept|))
    ensures chain == kept' + c[k + 1..]
  {
    Walked(kept, c, k);
    kept' := if chain == kept + c[k..] then kept + [c[k]] else kept;
  }

  lemma AllWalked(c: seq<Ptr>, k: nat)
    requires k <= |c| && At(c, k) == NULL && NULL !in c
    ensures c[..k] == c
  {
  }

  lemma ExpireMore(m: map<Addr, Value>, done: set<Addr>, a: Addr, now: nat, timeout: nat)
    requires a !in done
    ensures ExpireSome(ExpireSome(m, done, now, timeout), {a}, now, timeout) == ExpireSome(m, done + {a}, now, timeout)
  {
    hide HasExpired;
  }

  lemma ExpiredAll(t: Table, m: map<Addr, Value>, done: set<Addr>, now: nat, timeout: nat)
    requires m.Keys == t.owner.Keys && forall a <- t.owner :: a in done <==> Hash(a) < NAT25_HASH_SIZE
    ensures ExpireSome(m, done, now, timeout) == ExpireAll(m, now, timeout)
  {
    hide HasExpired;
    forall a | a in m ensures a in done {
      var h := Hash(a);
    }
  }
}
