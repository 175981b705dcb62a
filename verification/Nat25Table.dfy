/** The NAT2.5 hash table of aic_br_ext.c as a value: sixteen list heads and the memory the entries live in.

    Entries are named by their addresses, 0 being NULL.  An entry holds the address of the next one and the place of the
    pointer that reaches it, so that unlinking, dangling pointers and freed memory are all visible in the model. */
module Nat25Table {
  import opened Common
  import opened Bits

  type Ptr = nat

  datatype Mac = Mac(b0: Byte, b1: Byte, b2: Byte, b3: Byte, b4: Byte, b5: Byte) {
    function Bytes(): seq<Byte> { [b0, b1, b2, b3, b4, b5] }
  }

  const ZERO_MAC := Mac(0, 0, 0, 0, 0, 0)

  type Ip = p: seq<Byte> | |p| == 4 witness seq(4, _ => 0)

  const NULL: Ptr := 0
  const NAT25_HASH_SIZE := 16
  const MAX_NETWORK_ADDR_LEN := 17

  type Addr = a: seq<Byte> | |a| == MAX_NETWORK_ADDR_LEN witness seq(MAX_NETWORK_ADDR_LEN, _ => 0)

  /** __nat25_generate_ipv4_network_addr. */
  function Ipv4Addr(ip: Ip): Addr {
    [1, 0, 0, 0, 0, 0, 0] + ip + [0, 0, 0, 0, 0, 0]
  }

  /** All bytes from `from` up to `to`, joined by exclusive or. */
  function XorRange(a: Addr, from: nat, to: nat): Byte
    requires from <= to <= MAX_NETWORK_ADDR_LEN
  {
    if from == to then 0 else XorByte(XorRange(a, from, to - 1), a[to - 1])
  }

  /** __nat25_network_hash: which bytes count depends on the kind of address in the first byte. */
  function Hash(a: Addr): (h: nat)
    ensures h < NAT25_HASH_SIZE
  {
    var x := match a[0]
      case 1 => XorRange(a, 7, 11)      // IPv4
      case 3 => XorRange(a, 1, 11)      // IPX
      case 4 => XorRange(a, 1, 4)       // AppleTalk
      case 5 => XorRange(a, 0, 9)       // PPPoE
      case 2 => XorRange(a, 1, 17)      // IPv6
      case _ => XorRange(a, 0, 17);
    x % NAT25_HASH_SIZE
  }

  /** time_before_eq(age, now - timeout) on 64-bit jiffies. */
  predicate HasExpired(age: nat, now: nat, timeout: nat) {
    (now - timeout - age) % TWO_64 < TWO_63
  }

  /** The place that holds the pointer to an entry: a list head or the next field of another entry. */
  datatype Link = Unlinked | Slot(hash: nat) | NextOf(prev: Ptr)

  /** What the table knows about an address. */
  datatype Value = Value(mac: Mac, useCount: int, age: nat)

  datatype Entry = Entry(next: Ptr, pprev: Link, addr: Addr, value: Value)

  type Memory = map<Ptr, Entry>

  /** The k-th entry of a chain, NULL behind its end. */
  function At(c: seq<Ptr>, k: nat): Ptr {
    if k < |c| then c[k] else NULL
  }

  /** The place of the pointer that reaches the k-th entry of chain i. */
  function Reaching(i: nat, c: seq<Ptr>, k: nat): Link
    requires 0 < k ==> k - 1 < |c|
  {
    if k == 0 then Slot(i) else NextOf(c[k - 1])
  }

  /** A node of chain i at position k: linked to its successor, knowing the pointer that reaches it, and in its
      bucket. */
  predicate NodeOk(mem: Memory, i: nat, c: seq<Ptr>, k: nat)
    requires k < |c|
  {
    && c[k] != NULL && c[k] in mem
    && mem[c[k]].next == At(c, k + 1) && mem[c[k]].pprev == Reaching(i, c, k)
    && Hash(mem[c[k]].addr) == i
  }

  predicate ChainOk(mem: Memory, head: Ptr, i: nat, c: seq<Ptr>) {
    && head == At(c, 0)
    && (forall k :: 0 <= k < |c| ==> NodeOk(mem, i, c, k))
    && (forall k, l :: 0 <= k < l < |c| ==> c[k] != c[l])
  }

  /** Which entry each known address has. */
  predicate OwnerOk(mem: Memory, owner: map<Addr, Ptr>) {
    && (forall p <- mem :: mem[p].addr in owner && owner[mem[p].addr] == p)
    && (forall a <- owner :: owner[a] in mem && mem[owner[a]].addr == a)
  }

  datatype Table = Table(mem: Memory, heads: seq<Ptr>, chains: seq<seq<Ptr>>, owner: map<Addr, Ptr>)

  /** The table is in order: all chains are, every allocated entry is on the chain of its bucket, and addresses are
      unique. */
  predicate TableOk(t: Table) {
    && |t.heads| == |t.chains| == NAT25_HASH_SIZE
    && (forall i :: 0 <= i < NAT25_HASH_SIZE ==> ChainOk(t.mem, t.heads[i], i, t.chains[i]))
    && (forall p <- t.mem :: p in t.chains[Hash(t.mem[p].addr)])
    && (forall p <- t.mem :: t.mem[p].value.useCount >= 1)
    && OwnerOk(t.mem, t.owner)
  }

  /** The table as a map from network addresses. */
  function Model(mem: Memory, owner: map<Addr, Ptr>): map<Addr, Value>
    requires OwnerOk(mem, owner)
  {
    map a | a in owner :: mem[owner[a]].value
  }

  /** The links do not matter for the map. */
  lemma OwnerAdded(mem: Memory, mem': Memory, owner: map<Addr, Ptr>, p: Ptr)
    requires OwnerOk(mem, owner) && p !in mem && mem'.Keys == mem.Keys + {p} && mem'[p].addr !in owner
    requires forall q <- mem :: mem'[q].addr == mem[q].addr && mem'[q].value == mem[q].value
    ensures OwnerOk(mem', owner[mem'[p].addr := p])
    ensures Model(mem', owner[mem'[p].addr := p]) == Model(mem, owner)[mem'[p].addr := mem'[p].value]
  {
    hide Hash;
  }

  lemma OwnerRemoved(mem: Memory, mem': Memory, owner: map<Addr, Ptr>, p: Ptr)
    requires OwnerOk(mem, owner) && p in mem && mem'.Keys == mem.Keys - {p}
    requires forall q <- mem' :: mem'[q].addr == mem[q].addr && mem'[q].value == mem[q].value
    ensures OwnerOk(mem', owner - {mem[p].addr})
    ensures Model(mem', owner - {mem[p].addr}) == Model(mem, owner) - {mem[p].addr}
  {
    hide Hash;
  }

  // ---------------------------------------------------------------------------------------------------------
  // Changing the data of an entry
  // ---------------------------------------------------------------------------------------------------------

  lemma TouchKeeps(t: Table, p: Ptr, v: Value)
    requires TableOk(t) && p in t.mem && v.useCount >= 1
    ensures var mem := t.mem[p := t.mem[p].(value := v)];
            && TableOk(t.(mem := mem))
            && Model(mem, t.owner) == Model(t.mem, t.owner)[t.mem[p].addr := v]
  {
    hide Hash;
    var mem := t.mem[p := t.mem[p].(value := v)];
    forall i | 0 <= i < NAT25_HASH_SIZE ensures ChainOk(mem, t.heads[i], i, t.chains[i]) {
      assert ChainOk(t.mem, t.heads[i], i, t.chains[i]);
      forall k | 0 <= k < |t.chains[i]| ensures NodeOk(mem, i, t.chains[i], k) {
        assert NodeOk(t.mem, i, t.chains[i], k);
      }
    }
  }

  // ---------------------------------------------------------------------------------------------------------
  // Linking
  // ---------------------------------------------------------------------------------------------------------

  /** The memory after __network_hash_link of the new entry e at address p, `first` being the old head. */
  function LinkMemory(mem: Memory, p: Ptr, e: Entry, hash: nat, first: Ptr): Memory {
    var mem1 := mem[p := e.(next := first, pprev := Slot(hash))];
    if first != NULL && first in mem1 then mem1[first := mem1[first].(pprev := NextOf(p))] else mem1
  }

  lemma LinkChain(mem: Memory, p: Ptr, e: Entry, hash: nat, c: seq<Ptr>)
    requires ChainOk(mem, At(c, 0), hash, c) && p !in mem && p != NULL && Hash(e.addr) == hash
    ensures ChainOk(LinkMemory(mem, p, e, hash, At(c, 0)), p, hash, [p] + c)
  {
    hide Hash;
    var mem', d := LinkMemory(mem, p, e, hash, At(c, 0)), [p] + c;
    forall k | 0 <= k < |c| ensures c[k] != p && c[k] in mem && c[k] != NULL {
      assert NodeOk(mem, hash, c, k);
    }
    forall k | 0 <= k < |d| ensures NodeOk(mem', hash, d, k) {
      assert At(d, k + 1) == At(c, k);
      if k > 0 {
        assert NodeOk(mem, hash, c, k - 1) && d[k] == c[k - 1];
      }
    }
  }

  /** Chains without the changed entries stay as they are. */
  lemma OtherChain(mem: Memory, mem': Memory, head: Ptr, i: nat, c: seq<Ptr>)
    requires ChainOk(mem, head, i, c)
    requires forall q <- c :: q in mem' && (q in mem ==> mem'[q] == mem[q])
    ensures ChainOk(mem', head, i, c)
  {
    hide Hash;
    forall k | 0 <= k < |c| ensures NodeOk(mem', i, c, k) {
      assert NodeOk(mem, i, c, k);
    }
  }

  /** Different chains have no entry in common. */
  lemma ApartChains(t: Table, i: nat, j: nat, p: Ptr)
    requires TableOk(t) && i < NAT25_HASH_SIZE && j < NAT25_HASH_SIZE && i != j && p in t.chains[i]
    ensures p !in t.chains[j] && p in t.mem && Hash(t.mem[p].addr) == i
  {
    hide Hash;
    var k :| 0 <= k < |t.chains[i]| && t.chains[i][k] == p;
    assert ChainOk(t.mem, t.heads[i], i, t.chains[i]) && NodeOk(t.mem, i, t.chains[i], k);
    assert ChainOk(t.mem, t.heads[j], j, t.chains[j]);
    forall l | 0 <= l < |t.chains[j]| ensures t.chains[j][l] != p {
      assert NodeOk(t.mem, j, t.chains[j], l);
    }
  }

  lemma LinkKeeps(t: Table, p: Ptr, e: Entry)
    requires TableOk(t) && p !in t.mem && p != NULL && e.addr !in t.owner && e.value.useCount >= 1
    ensures var hash := Hash(e.addr);
            var mem := LinkMemory(t.mem, p, e, hash, t.heads[hash]);
            var t' := Table(mem, t.heads[hash := p], t.chains[hash := [p] + t.chains[hash]], t.owner[e.addr := p]);
            && TableOk(t')
            && Model(mem, t'.owner) == Model(t.mem, t.owner)[e.addr := e.value]
  {
    var hash := Hash(e.addr);
    var mem := LinkMemory(t.mem, p, e, hash, t.heads[hash]);
    LinkChains(t, p, e);
    LinkRest(t, p, e);
    hide Hash, ChainOk, LinkMemory, OwnerOk, Model;
  }

  ghost predicate AllChainsOk(mem: Memory, heads: seq<Ptr>, chains: seq<seq<Ptr>>)
    requires |heads| == |chains| == NAT25_HASH_SIZE
  {
    forall j :: 0 <= j < NAT25_HASH_SIZE ==> ChainOk(mem, heads[j], j, chains[j])
  }

  lemma LinkChains(t: Table, p: Ptr, e: Entry)
    requires TableOk(t) && p !in t.mem && p != NULL
    ensures var hash := Hash(e.addr);
            var mem := LinkMemory(t.mem, p, e, hash, t.heads[hash]);
            AllChainsOk(mem, t.heads[hash := p], t.chains[hash := [p] + t.chains[hash]])
  {
    var hash := Hash(e.addr);
    hide Hash;
    var c := t.chains[hash];
    var mem := LinkMemory(t.mem, p, e, hash, t.heads[hash]);
    assert ChainOk(t.mem, t.heads[hash], hash, c);
    LinkChain(t.mem, p, e, hash, c);
    forall j | 0 <= j < NAT25_HASH_SIZE && j != hash ensures ChainOk(mem, t.heads[j], j, t.chains[j]) {
      forall q <- t.chains[j] ensures q in mem && q in t.mem && mem[q] == t.mem[q] {
        ApartChains(t, j, hash, q);
      }
      OtherChain(t.mem, mem, t.heads[j], j, t.chains[j]);
    }
  }

  lemma LinkRest(t: Table, p: Ptr, e: Entry)
    requires TableOk(t) && p !in t.mem && p != NULL && e.addr !in t.owner && e.value.useCount >= 1
    ensures var hash := Hash(e.addr);
            var mem := LinkMemory(t.mem, p, e, hash, t.heads[hash]);
            && (forall q <- mem :: q in t.chains[hash := [p] + t.chains[hash]][Hash(mem[q].addr)])
            && (forall q <- mem :: mem[q].value.useCount >= 1)
            && OwnerOk(mem, t.owner[e.addr := p])
            && Model(mem, t.owner[e.addr := p]) == Model(t.mem, t.owner)[e.addr := e.value]
  {
    var hash := Hash(e.addr);
    hide Hash;
    var c := t.chains[hash];
    var mem := LinkMemory(t.mem, p, e, hash, t.heads[hash]);
    assert ChainOk(t.mem, t.heads[hash], hash, c);
    if c != [] { assert NodeOk(t.mem, hash, c, 0); }
    LinkData(t.mem, p, e, hash, t.heads[hash]);
    OwnerAdded(t.mem, mem, t.owner, p);
    hide ChainOk, LinkMemory, OwnerOk, Model;
    forall q <- mem ensures q in t.chains[hash := [p] + c][Hash(mem[q].addr)] {
      if q != p { assert q in t.mem && mem[q].addr == t.mem[q].addr; }
    }
  }

  /** Linking changes no other entry's address and data. */
  lemma LinkData(mem: Memory, p: Ptr, e: Entry, hash: nat, first: Ptr)
    requires p !in mem && first != p
    ensures var mem' := LinkMemory(mem, p, e, hash, first);
            && mem'.Keys == mem.Keys + {p} && mem'[p].addr == e.addr && mem'[p].value == e.value
            && forall q <- mem :: mem'[q].addr == mem[q].addr && mem'[q].value == mem[q].value
  {
  }

  // ---------------------------------------------------------------------------------------------------------
  // Unlinking and freeing
  // ---------------------------------------------------------------------------------------------------------

  /** The memory after the pointer writes of __network_hash_unlink of entry p, followed by kfree. */
  function UnlinkMemory(mem: Memory, p: Ptr): Memory
    requires p in mem
  {
    var e := mem[p];
    var mem1 :=
      if e.pprev.NextOf? && e.pprev.prev in mem then mem[e.pprev.prev := mem[e.pprev.prev].(next := e.next)] else mem;
    var mem2 := if e.next != NULL && e.next in mem1 then mem1[e.next := mem1[e.next].(pprev := e.pprev)] else mem1;
    mem2 - {p}
  }

  function UnlinkHeads(mem: Memory, heads: seq<Ptr>, p: Ptr): seq<Ptr>
    requires p in mem && (mem[p].pprev.Slot? ==> mem[p].pprev.hash < |heads|)
  {
    if mem[p].pprev.Slot? then heads[mem[p].pprev.hash := mem[p].next] else heads
  }

  function Without(c: seq<Ptr>, k: nat): seq<Ptr>
    requires k < |c|
  {
    c[..k] + c[k + 1..]
  }

  /** Unlinking the k-th entry through the pointer that reaches it leaves a chain without it. */
  lemma UnlinkChain(mem: Memory, head: Ptr, i: nat, c: seq<Ptr>, k: nat)
    requires ChainOk(mem, head, i, c) && k < |c|
    ensures c[k] in mem && (mem[c[k]].pprev == Slot(i) <==> k == 0)
    ensures ChainOk(UnlinkMemory(mem, c[k]), if k == 0 then mem[c[k]].next else head, i, Without(c, k))
  {
    hide Hash;
    assert NodeOk(mem, i, c, k);
    if k > 0 { assert NodeOk(mem, i, c, k - 1); }
    if k + 1 < |c| { assert NodeOk(mem, i, c, k + 1); }
    var mem', d := UnlinkMemory(mem, c[k]), Without(c, k);
    forall m | 0 <= m < |d| ensures NodeOk(mem', i, d, m) {
      UnlinkNode(mem, head, i, c, k, m);
    }
    forall m, n | 0 <= m < n < |d| ensures d[m] != d[n] {
      assert d[m] == c[if m < k then m else m + 1] && d[n] == c[if n < k then n else n + 1];
    }
  }

  lemma UnlinkNode(mem: Memory, head: Ptr, i: nat, c: seq<Ptr>, k: nat, m: nat)
    requires ChainOk(mem, head, i, c) && k < |c| && c[k] in mem && m < |Without(c, k)|
    ensures NodeOk(UnlinkMemory(mem, c[k]), i, Without(c, k), m)
  {
    hide Hash;
    var d, old_m := Without(c, k), if m < k then m else m + 1;
    assert d[m] == c[old_m];
    assert NodeOk(mem, i, c, k) && NodeOk(mem, i, c, old_m);
    assert At(d, m + 1) == if m + 1 == k then At(c, k + 1) else At(c, old_m + 1);
    if m > 0 {
      assert d[m - 1] == c[if m == k then k - 1 else old_m - 1];
    }
    if k > 0 { assert NodeOk(mem, i, c, k - 1); }
    if k + 1 < |c| { assert NodeOk(mem, i, c, k + 1); }
  }

  function Position(c: seq<Ptr>, p: Ptr): (k: nat)
    requires p in c
    ensures k < |c| && c[k] == p
  {
    if c[0] == p then 0 else 1 + Position(c[1..], p)
  }

  /** The table without the entry p. */
  function Removed(t: Table, p: Ptr): Table
    requires TableOk(t) && p in t.mem
  {
    var i := Hash(t.mem[p].addr);
    UnlinkHere(t, p);
    Table(UnlinkMemory(t.mem, p), UnlinkHeads(t.mem, t.heads, p),
          t.chains[i := Without(t.chains[i], Position(t.chains[i], p))], t.owner - {t.mem[p].addr})
  }

  lemma UnlinkHere(t: Table, p: Ptr)
    requires TableOk(t) && p in t.mem
    ensures var i := Hash(t.mem[p].addr);
            && p in t.chains[i]
            && (t.mem[p].pprev == Slot(i) || (t.mem[p].pprev.NextOf? && t.mem[p].pprev.prev in t.chains[i]))
  {
    var i := Hash(t.mem[p].addr);
    hide Hash;
    var c := t.chains[i];
    assert ChainOk(t.mem, t.heads[i], i, c) && NodeOk(t.mem, i, c, Position(c, p));
  }

  /** Which entries the pointer writes of unlinking touch. */
  lemma UnlinkTouches(t: Table, p: Ptr, j: nat)
    requires TableOk(t) && p in t.mem && j < NAT25_HASH_SIZE && j != Hash(t.mem[p].addr)
    ensures forall q <- t.chains[j] ::
              q in t.mem && q in UnlinkMemory(t.mem, p) && UnlinkMemory(t.mem, p)[q] == t.mem[q]
  {
    var i := Hash(t.mem[p].addr);
    hide Hash;
    var c := t.chains[i];
    UnlinkHere(t, p);
    var k := Position(c, p);
    assert ChainOk(t.mem, t.heads[i], i, c) && NodeOk(t.mem, i, c, k);
    forall q <- t.chains[j]
      ensures q in t.mem && q in UnlinkMemory(t.mem, p) && UnlinkMemory(t.mem, p)[q] == t.mem[q]
    {
      ApartChains(t, j, i, q);
      assert q != p && q !in c;
      if k > 0 { assert c[k - 1] in c; }
      if k + 1 < |c| { assert c[k + 1] in c; }
    }
  }

  /** Unlinking changes no entry's address and data, and takes exactly p out. */
  lemma UnlinkData(mem: Memory, p: Ptr)
    requires p in mem
    ensures UnlinkMemory(mem, p).Keys == mem.Keys - {p}
    ensures forall q <- UnlinkMemory(mem, p) ::
              UnlinkMemory(mem, p)[q].addr == mem[q].addr && UnlinkMemory(mem, p)[q].value == mem[q].value
  {
  }

  lemma UnlinkKeeps(t: Table, p: Ptr)
    requires TableOk(t) && p in t.mem
    ensures TableOk(Removed(t, p))
    ensures Model(Removed(t, p).mem, Removed(t, p).owner) == Model(t.mem, t.owner) - {t.mem[p].addr}
  {
    var i, t' := Hash(t.mem[p].addr), Removed(t, p);
    hide Hash;
    var c := t.chains[i];
    UnlinkHere(t, p);
    var k := Position(c, p);
    assert ChainOk(t.mem, t.heads[i], i, c) && NodeOk(t.mem, i, c, k);
    UnlinkChain(t.mem, t.heads[i], i, c, k);
    forall j | 0 <= j < NAT25_HASH_SIZE ensures ChainOk(t'.mem, t'.heads[j], j, t'.chains[j]) {
      if j != i {
        UnlinkTouches(t, p, j);
        hide UnlinkMemory;
        OtherChain(t.mem, t'.mem, t.heads[j], j, t.chains[j]);
      }
    }
    UnlinkRest(t, p);
  }

  lemma UnlinkRest(t: Table, p: Ptr)
    requires TableOk(t) && p in t.mem
    ensures var t' := Removed(t, p);
            && (forall q <- t'.mem :: q in t'.chains[Hash(t'.mem[q].addr)])
            && (forall q <- t'.mem :: t'.mem[q].value.useCount >= 1)
            && OwnerOk(t'.mem, t'.owner)
            && Model(t'.mem, t'.owner) == Model(t.mem, t.owner) - {t.mem[p].addr}
  {
    var t' := Removed(t, p);
    UnlinkData(t.mem, p);
    OwnerRemoved(t.mem, t'.mem, t.owner, p);
    forall q <- t'.mem ensures q in t'.chains[Hash(t'.mem[q].addr)] && t'.mem[q].value.useCount >= 1 {
      UnlinkListed(t, p, q);
    }
    hide *;
  }

  lemma UnlinkListed(t: Table, p: Ptr, q: Ptr)
    requires TableOk(t) && p in t.mem && q in Removed(t, p).mem
    ensures var t' := Removed(t, p); q in t'.chains[Hash(t'.mem[q].addr)] && t'.mem[q].value.useCount >= 1
  {
    UnlinkData(t.mem, p);
    hide Hash, ChainOk, UnlinkMemory, OwnerOk, UnlinkHeads;
    var i := Hash(t.mem[p].addr);
    var c := t.chains[i];
    if Hash(t.mem[q].addr) == i {
      StaysIn(c, Position(c, p), q);
    }
  }

  lemma StaysIn(c: seq<Ptr>, k: nat, q: Ptr)
    requires k < |c| && q in c && q != c[k]
    ensures q in Without(c, k)
  {
    var m :| 0 <= m < |c| && c[m] == q;
    assert Without(c, k)[if m < k then m else m - 1] == q;
  }
}
