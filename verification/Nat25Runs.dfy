/** The NAT2.5 database over time: which addresses are bound to which MAC, whatever is seen, looked up and expired
    meanwhile.  What the methods of Nat25Db do to the map from addresses are the acts of a run. */
module Nat25Runs {
  import opened Common
  import opened Nat25Table
  import opened Nat25Db

  datatype Act =
    | See(a: Addr, mac: Mac, now: nat, memory: bool)   // Vif.Insert
    | Renew(a: Addr, now: nat)                         // Vif.NoteShortcut
    | LookUp(a: Addr, now: nat)                        // Vif.LookupAndReplace
    | Expire(now: nat)                                 // Vif.Expire

  function Done(m: map<Addr, Value>, act: Act, timeout: nat): map<Addr, Value> {
    match act
    case See(a, mac, now, memory) => Seen(m, a, mac, now, memory)
    case Renew(a, now) => Renewed(m, a, now)
    case LookUp(a, now) => LookedUp(m, a, now, timeout, ZERO_MAC).1
    case Expire(now) => ExpireAll(m, now, timeout)
  }

  function After(m: map<Addr, Value>, acts: seq<Act>, timeout: nat): map<Addr, Value>
    decreases |acts|
  {
    if acts == [] then m else After(Done(m, acts[0], timeout), acts[1..], timeout)
  }

  /** Time does not run backwards, and does not reach 2^63. */
  predicate InOrder(clock: nat, acts: seq<Act>)
    decreases |acts|
  {
    acts == [] || (clock <= acts[0].now < TWO_63 && InOrder(acts[0].now, acts[1..]))
  }

  /** The comparison modulo 2^64 says that `timeout` has passed. */
  lemma ExpiredIsOld(age: nat, now: nat, timeout: nat)
    requires age <= now < TWO_63 && timeout < TWO_63
    ensures HasExpired(age, now, timeout) <==> age + timeout <= now
  {
  }

  /** The address is bound and was seen at `age`, which is not in the future. */
  predicate Bound(m: map<Addr, Value>, a: Addr, clock: nat) {
    a in m && m[a].age <= clock && m[a].useCount >= 1
  }

  /** The MAC that the address has been seen with last. */
  function LastMac(mac: Mac, acts: seq<Act>, a: Addr): Mac
    decreases |acts|
  {
    if acts == [] then mac
    else LastMac(if acts[0].See? && acts[0].a == a then acts[0].mac else mac, acts[1..], a)
  }

  /** When it was seen or renewed last. */
  function SeenAt(age: nat, act: Act, a: Addr): nat {
    if (act.See? || act.Renew?) && act.a == a then act.now else age
  }

  function LastSeen(age: nat, acts: seq<Act>, a: Addr): nat
    decreases |acts|
  {
    if acts == [] then age
    else LastSeen(SeenAt(age, acts[0], a), acts[1..], a)
  }

  /** No expiry comes when the address has not been seen for `timeout`. */
  predicate NeverOld(age: nat, acts: seq<Act>, a: Addr, timeout: nat) {
    forall k :: 0 <= k < |acts| && acts[k].Expire? ==> acts[k].now < LastSeen(age, acts[..k], a) + timeout
  }

  function LookUps(acts: seq<Act>, a: Addr): nat {
    if acts == [] then 0 else (if acts[0].LookUp? && acts[0].a == a then 1 else 0) + LookUps(acts[1..], a)
  }

  /** What one act does to one address. */
  lemma OneAct(m: map<Addr, Value>, act: Act, timeout: nat, a: Addr, clock: nat)
    requires Bound(m, a, clock) && clock <= act.now < TWO_63 && timeout < TWO_63
    ensures var n := Done(m, act, timeout); var v := m[a];
            match act
            case See(b, mac, now, _) => a in n && n[a] == if b == a then Value(mac, v.useCount, now) else v
            case Renew(b, now) => a in n && n[a] == if b == a then v.(age := now) else v
            case LookUp(b, now) =>
              && a in n
              && n[a] == if b == a && now < v.age + timeout then v.(useCount := v.useCount + 1) else v
            case Expire(now) =>
              if now < v.age + timeout then a in n && n[a] == v
              else if v.useCount == 1 then a !in n
              else a in n && n[a] == v.(useCount := v.useCount - 1)
  {
    ExpiredIsOld(m[a].age, act.now, timeout);
    hide HasExpired;
  }

  /** A bound address keeps its entry as long as no expiry finds it old, with the MAC it was seen with last, whatever
      happens to others; meanwhile it is used once more by each lookup in time. */
  lemma {:induction false} StaysBound(m: map<Addr, Value>, acts: seq<Act>, timeout: nat, a: Addr, clock: nat)
    requires Bound(m, a, clock) && InOrder(clock, acts) && timeout < TWO_63 && NeverOld(m[a].age, acts, a, timeout)
    ensures var n := After(m, acts, timeout);
            && a in n && n[a].mac == LastMac(m[a].mac, acts, a) && n[a].age == LastSeen(m[a].age, acts, a)
            && m[a].useCount <= n[a].useCount <= m[a].useCount + LookUps(acts, a)
    decreases |acts|
  {
    if acts != [] {
      OneAct(m, acts[0], timeout, a, clock);
      OldLater(m[a].age, acts, a, timeout);
      hide Done, NeverOld;
      StaysBound(Done(m, acts[0], timeout), acts[1..], timeout, a, acts[0].now);
    }
  }

  lemma OldLater(age: nat, acts: seq<Act>, a: Addr, timeout: nat)
    requires acts != [] && NeverOld(age, acts, a, timeout)
    ensures acts[0].Expire? ==> acts[0].now < age + timeout
    ensures NeverOld(SeenAt(age, acts[0], a), acts[1..], a, timeout)
  {
    assert acts[..0] == [];
    assert acts[0].Expire? ==> acts[0].now < LastSeen(age, acts[..0], a) + timeout;
    forall k | 0 <= k < |acts| - 1 && acts[1..][k].Expire?
      ensures acts[1..][k].now < LastSeen(SeenAt(age, acts[0], a), acts[1..][..k], a) + timeout
    {
      assert acts[..k + 1][1..] == acts[1..][..k] && acts[..k + 1][0] == acts[0];
      assert acts[k + 1].now < LastSeen(age, acts[..k + 1], a) + timeout;
    }
  }

  /** Nobody sees or asks for the address. */
  predicate Untouched(acts: seq<Act>, a: Addr) {
    forall act <- acts :: act.Expire? || act.a != a
  }

  /** How many expiries come from time `from` on. */
  function Expiries(acts: seq<Act>, from: nat): nat {
    if acts == [] then 0 else (if acts[0].Expire? && from <= acts[0].now then 1 else 0) + Expiries(acts[1..], from)
  }

  /** An address that is neither seen nor asked for loses one use with every expiry that comes `timeout` or more
      after it was seen last, and is gone exactly when there were as many of them as it had uses. */
  lemma {:induction false} GoneExactlyWhen(m: map<Addr, Value>, acts: seq<Act>, timeout: nat, a: Addr, clock: nat)
    requires Bound(m, a, clock) && InOrder(clock, acts) && timeout < TWO_63 && Untouched(acts, a)
    ensures var n := After(m, acts, timeout); var late := Expiries(acts, m[a].age + timeout);
            && (a in n <==> late < m[a].useCount)
            && (a in n ==> n[a] == m[a].(useCount := m[a].useCount - late))
    decreases |acts|
  {
    if acts != [] {
      assert acts[0] in acts && forall act <- acts[1..] :: act in acts;
      OneAct(m, acts[0], timeout, a, clock);
      var n := Done(m, acts[0], timeout);
      hide Done, Untouched;
      assert Untouched(acts[1..], a) by { StillUntouched(acts, a); }
      if a in n {
        GoneExactlyWhen(n, acts[1..], timeout, a, acts[0].now);
      } else {
        StaysAway(n, acts[1..], timeout, a);
      }
    }
  }

  lemma StillUntouched(acts: seq<Act>, a: Addr)
    requires acts != [] && Untouched(acts, a)
    ensures Untouched(acts[1..], a)
  {
  }

  lemma {:induction false} StaysAway(m: map<Addr, Value>, acts: seq<Act>, timeout: nat, a: Addr)
    requires a !in m && Untouched(acts, a)
    ensures a !in After(m, acts, timeout)
    decreases |acts|
  {
    if acts != [] {
      assert acts[0] in acts;
      StillUntouched(acts, a);
      hide HasExpired, Untouched;
      StaysAway(Done(m, acts[0], timeout), acts[1..], timeout, a);
    }
  }

  /** A frame gets the MAC of its address exactly when that is bound and was seen less than `timeout` ago. */
  lemma AnsweredInTime(m: map<Addr, Value>, a: Addr, now: nat, timeout: nat, dst: Mac)
    requires (a in m ==> m[a].age <= now) && now < TWO_63 && timeout < TWO_63
    ensures LookedUp(m, a, now, timeout, dst).0 == if a in m && now < m[a].age + timeout then m[a].mac else dst
  {
    if a in m {
      ExpiredIsOld(m[a].age, now, timeout);
    }
    hide HasExpired;
  }

  /** An address seen at t is bound to the MAC it was seen with at every time before t + timeout, whatever other
      addresses are seen, asked for and expired in between. */
  lemma StaysSeen(m: map<Addr, Value>, a: Addr, mac: Mac, t: nat, acts: seq<Act>, now: nat, timeout: nat)
    requires a in m ==> m[a].useCount >= 1
    requires InOrder(t, acts) && timeout < TWO_63 && t <= now < TWO_63 && now < t + timeout
    requires forall act <- acts :: act.now <= now && !((act.See? || act.Renew?) && act.a == a)
    ensures var n := After(Seen(m, a, mac, t, true), acts, timeout); a in n && n[a].mac == mac && n[a].age == t
  {
    SeenOnce(acts, a, mac, t);
    hide After, InOrder;
    assert NeverOld(t, acts, a, timeout) by {
      forall k | 0 <= k < |acts| && acts[k].Expire? ensures acts[k].now < LastSeen(t, acts[..k], a) + timeout {
        assert acts[k] in acts && forall act <- acts[..k] :: act in acts;
        SeenOnce(acts[..k], a, mac, t);
      }
    }
    StaysBound(Seen(m, a, mac, t, true), acts, timeout, a, t);
  }

  /** So a frame to it gets that MAC. */
  lemma SeenThenAnswered(m: map<Addr, Value>, a: Addr, mac: Mac, t: nat, acts: seq<Act>, now: nat, timeout: nat,
                         dst: Mac)
    requires a in m ==> m[a].useCount >= 1
    requires InOrder(t, acts) && timeout < TWO_63 && t <= now < TWO_63 && now < t + timeout
    requires forall act <- acts :: act.now <= now && !((act.See? || act.Renew?) && act.a == a)
    ensures LookedUp(After(Seen(m, a, mac, t, true), acts, timeout), a, now, timeout, dst).0 == mac
  {
    hide After, LookedUp, InOrder;
    StaysSeen(m, a, mac, t, acts, now, timeout);
    AnsweredInTime(After(Seen(m, a, mac, t, true), acts, timeout), a, now, timeout, dst);
  }

  lemma {:induction false} SeenOnce(acts: seq<Act>, a: Addr, mac: Mac, t: nat)
    requires forall act <- acts :: !((act.See? || act.Renew?) && act.a == a)
    ensures LastSeen(t, acts, a) == t && LastMac(mac, acts, a) == mac
    decreases |acts|
  {
    if acts != [] {
      assert acts[0] in acts && forall act <- acts[1..] :: act in acts;
      SeenOnce(acts[1..], a, mac, t);
    }
  }

  /** An address seen for the first time has one use: if nobody asks for it, the first expiry that comes `timeout` or
      more later takes it away, and no other does. */
  lemma NewAddressExpiresOnce(m: map<Addr, Value>, a: Addr, mac: Mac, t: nat, acts: seq<Act>, timeout: nat)
    requires a !in m && InOrder(t, acts) && timeout < TWO_63 && Untouched(acts, a)
    ensures a in After(Seen(m, a, mac, t, true), acts, timeout) <==> Expiries(acts, t + timeout) == 0
  {
    hide After, InOrder, Untouched;
    GoneExactlyWhen(Seen(m, a, mac, t, true), acts, timeout, a, t);
  }
}
