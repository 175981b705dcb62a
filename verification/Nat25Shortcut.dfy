/** The shortcut of NAT2.5 over time: the MAC and address noted last, for which received frames are answered without a
    look at the table (rwnx_tx.c and aic_br_ext.c). */
module Nat25Shortcut {
  import opened Bits
  import opened Nat25Table
  import opened Nat25Db
  import opened Nat25Runs
  import opened Nat25Frame

  datatype State = State(m: map<Addr, Value>, h: Held)

  /** What Vif.NoteShortcut, and the other operations of Vif, do. */
  datatype Event = Note(mac: Mac, ip: Ip, now: nat) | Other(act: Act)

  function Step(s: State, e: Event, timeout: nat): State {
    match e
    case Note(mac, ip, now) => var (m, h) := Noted(s.m, s.h, mac, ip, now); State(m, h)
    case Other(act) => var m := Done(s.m, act, timeout); State(m, Forgotten(s.h, m))
  }

  function Reached(s: State, es: seq<Event>, timeout: nat): State {
    if es == [] then s else Step(Reached(s, es[..|es| - 1], timeout), es[|es| - 1], timeout)
  }

  /** At first no address is known, and none noted. */
  const START := State(map[], NOTHING_HELD)

  /** While the shortcut has its entry, its address is bound. */
  predicate Sound(s: State) {
    s.h.on ==> Ipv4Addr(s.h.ip) in s.m
  }

  lemma StepKeepsSound(s: State, e: Event, timeout: nat)
    requires Sound(s)
    ensures Sound(Step(s, e, timeout))
  {
    hide HasExpired, Done;
  }

  lemma {:induction false} AlwaysSound(es: seq<Event>, timeout: nat)
    ensures Sound(Reached(START, es, timeout))
  {
    if es != [] {
      AlwaysSound(es[..|es| - 1], timeout);
      hide Step, Sound;
      StepKeepsSound(Reached(START, es[..|es| - 1], timeout), es[|es| - 1], timeout);
    }
  }

  /** The shortcut answers for an address that is not bound any more. */
  predicate Stale(s: State) {
    s.h.ip != NO_IP && Ipv4Addr(s.h.ip) !in s.m
  }

  /** Frames for the address then go to the MAC noted, although the table knows nothing of it. */
  lemma StaleAnswers(s: State, k: Knowledge, f: seq<Byte>, len: nat, bridge: Mac, now: nat, timeout: nat)
    requires Stale(s) && k.table == s.m && k.shortcutIp == s.h.ip && k.shortcutMac == s.h.mac
    requires !k.disabled && !k.noShortcut && |f| == SEEN && f[30..34] == s.h.ip
    ensures Answered(k, f, len, bridge, now, timeout).dst == s.h.mac && Ipv4Addr(f[30..34]) !in k.table
  {
  }

  /** The k-th event is a packet of another sender whose address is not known: the shortcut lets go of its entry, but
      keeps the MAC and the address. */
  predicate LetsGo(es: seq<Event>, k: nat, timeout: nat)
    requires k < |es|
  {
    var s := Reached(START, es[..k], timeout);
    s.h.on && es[k].Note? && es[k].mac != s.h.mac && Ipv4Addr(es[k].ip) !in s.m
  }

  /** From the k-th event on the shortcut is as that event leaves it. */
  predicate Unchanged(es: seq<Event>, k: nat, timeout: nat)
    requires k < |es|
  {
    forall j :: k < j <= |es| ==> Reached(START, es[..j], timeout).h == Reached(START, es[..k], timeout).h.(on := false)
  }

  ghost predicate HasLetGo(es: seq<Event>, timeout: nat) {
    exists k :: 0 <= k < |es| && LetsGo(es, k, timeout) && Unchanged(es, k, timeout)
  }

  /** How one event turns the shortcut off. */
  lemma TurnsOff(s: State, e: Event, timeout: nat)
    requires Sound(s)
    ensures var t := Step(s, e, timeout);
            && (!t.h.on && t.h.ip != NO_IP ==>
                  (t.h == s.h)
                  || (s.h.on && e.Note? && e.mac != s.h.mac && Ipv4Addr(e.ip) !in s.m && t.h == s.h.(on := false)))
            && (s.h.on && e.Note? && e.mac != s.h.mac && Ipv4Addr(e.ip) !in s.m ==> t.h == s.h.(on := false))
  {
    hide HasExpired, Done, Ipv4Addr;
  }

  lemma ReachedNext(es: seq<Event>, k: nat, timeout: nat)
    requires k < |es|
    ensures Reached(START, es[..k + 1], timeout) == Step(Reached(START, es[..k], timeout), es[k], timeout)
  {
    hide Step;
    assert es[..k + 1][..k] == es[..k];
  }

  /** A shortcut without its entry has let go of it at some time and not changed since. */
  lemma {:induction false} OffSince(es: seq<Event>, n: nat, timeout: nat) returns (k: nat)
    requires n <= |es|
    requires var h := Reached(START, es[..n], timeout).h; !h.on && h.ip != NO_IP
    ensures k < n && LetsGo(es, k, timeout)
    ensures forall j :: k < j <= n ==>
              Reached(START, es[..j], timeout).h == Reached(START, es[..k], timeout).h.(on := false)
    decreases n
  {
    hide Step, Ipv4Addr;
    assert es[..0] == [] && Reached(START, es[..0], timeout) == START;
    if n > 0 {
      var s := Reached(START, es[..n - 1], timeout);
      AlwaysSound(es[..n - 1], timeout);
      ReachedNext(es, n - 1, timeout);
      TurnsOff(s, es[n - 1], timeout);
      hide Reached;
      if s.h.on {
        k := n - 1;
      } else {
        k := OffSince(es, n - 1, timeout);
      }
    }
  }

  /** Over all runs: the shortcut answers for an address that is not bound any more exactly when it has let go of its
      entry for another sender, was not changed since, and the address is not bound. */
  lemma StaleExactlyWhen(es: seq<Event>, timeout: nat)
    ensures var s := Reached(START, es, timeout);
            Stale(s) <==> HasLetGo(es, timeout) && s.h.ip != NO_IP && Ipv4Addr(s.h.ip) !in s.m
  {
    hide Reached, LetsGo, Ipv4Addr;
    var s := Reached(START, es, timeout);
    assert es[..|es|] == es;
    AlwaysSound(es, timeout);
    if Stale(s) {
      var k := OffSince(es, |es|, timeout);
      assert Unchanged(es, k, timeout);
    }
  }

  /** It happens: a station is seen and noted; a packet of another sender comes from an address that is not known;
      then the entry of the first station expires. */
  lemma ShortcutOutlivesItsEntry(a: Ip, b: Ip, mac: Mac, other: Mac, timeout: nat) returns (es: seq<Event>)
    requires a != b && a != NO_IP && mac != ZERO_MAC && mac != other && 0 < timeout < 1000
    ensures var s := Reached(START, es, timeout); Stale(s) && s.h.ip == a && s.h.mac == mac && s.m == map[]
  {
    var see := Other(See(Ipv4Addr(a), mac, 1, true));
    var note, next, expire := Note(mac, a, 2), Note(other, b, 3), Other(Expire(2 + timeout));
    es := [see, note, next, expire];
    AddrsDiffer(a, b);
    ExpiredIsOld(2, 2 + timeout, timeout);
    hide Ipv4Addr, HasExpired;
    var s1 := Step(START, see, timeout);
    var s2 := Step(s1, note, timeout);
    var s3 := Step(s2, next, timeout);
    var s4 := Step(s3, expire, timeout);
    assert s2 == State(map[Ipv4Addr(a) := Value(mac, 1, 2)], Held(true, mac, a));
    assert s3 == State(s2.m, Held(false, mac, a));
    assert s4.m == map[];
    hide Step;
    FourSteps(see, note, next, expire, timeout);
  }

  lemma AddrsDiffer(a: Ip, b: Ip)
    requires a != b
    ensures Ipv4Addr(a) != Ipv4Addr(b)
  {
    assert Ipv4Addr(a)[7..11] == a && Ipv4Addr(b)[7..11] == b;
  }

  lemma FourSteps(a: Event, b: Event, c: Event, d: Event, timeout: nat)
    ensures Reached(START, [a, b, c, d], timeout)
            == Step(Step(Step(Step(START, a, timeout), b, timeout), c, timeout), d, timeout)
  {
    hide Step;
    var es := [a, b, c, d];
    assert es[..0] == [] && es[..4] == es;
    ReachedNext(es, 0, timeout);
    ReachedNext(es, 1, timeout);
    ReachedNext(es, 2, timeout);
    ReachedNext(es, 3, timeout);
  }
}
