/** The firmware command list of rwnx_cmds.c.

    The manager's list holds the commands that were accepted and not yet taken out again.  Commands are
    blocking and ask for a confirmation (RWNX_CMD_FLAG_REQ_CFM, not RWNX_CMD_FLAG_NONBLOCK).  Every accepted
    command gets the next token; the 32-bit token wraps, so a command also carries its unbounded acceptance
    number `serial`, of which the token is the low 32 bits.

    `Manager` is the value of the manager; class `CommandManager` holds the source's fields and does the work of
    each critical section step by step. */
module CommandQueue {
  import opened Common

  const RWNX_CMD_MAX_QUEUED := 16

  datatype Cmd = Cmd(serial: nat, tkn: nat, reqid: nat, waitPush: bool, waitCfm: bool, done: bool) {
    /** Confirmed by the firmware: neither waiting to be pushed nor waiting for its confirmation. */
    predicate Finished() {
      !waitPush && !waitCfm
    }

    /** Handed (or about to be handed) to the firmware and not confirmed yet. */
    predicate Outstanding() {
      !waitPush && waitCfm
    }
  }

  datatype Manager = Manager(crashed: bool, accepted: nat, queueSz: int, wakeHeld: bool, cmds: seq<Cmd>)

  const InitialManager := Manager(false, 0, 0, false, [])

  datatype Outcome =
    | Crashed                          // -EPIPE
    | TooMany                          // -ENOMEM
    | Retry                            // list not empty, caller sleeps and looks again
    | Direct(serial: nat)              // the caller transmits the command itself
    | Deferred(serial: nat, wake: bool) // the worker will transmit it

  // ---------------------------------------------------------------------------------------------------------
  // The critical sections as functions
  // ---------------------------------------------------------------------------------------------------------

  /** Append a new command that waits for its confirmation and, if `push`, for the worker as well. */
  function Accept(m: Manager, reqid: nat, push: bool): Manager {
    m.(cmds := m.cmds + [Cmd(m.accepted, m.accepted % TWO_32, reqid, push, true, false)],
       accepted := m.accepted + 1,
       wakeHeld := m.wakeHeld || m.queueSz == 0,
       queueSz := m.queueSz + 1)
  }

  predicate LastIsWaiting(cmds: seq<Cmd>) {
    cmds != [] && (cmds[|cmds| - 1].waitPush || cmds[|cmds| - 1].waitCfm)
  }

  /** One pass of cmd_mgr_queue through the lock.  `hasReply` is `e2a_msg != NULL`: such a caller waits until the
      list is empty.  `forced` is one of the two message ids that are always left to the worker. */
  function Submit(m: Manager, reqid: nat, hasReply: bool, forced: bool): (Manager, Outcome) {
    if m.crashed then (m, Crashed)
    else if hasReply && m.cmds != [] then (m, Retry)
    else if m.cmds != [] && m.queueSz == RWNX_CMD_MAX_QUEUED then (m, TooMany)
    else
      var push := LastIsWaiting(m.cmds) || forced;
      var m' := Accept(m, reqid, push);
      (m', if push then Deferred(m.accepted, m'.queueSz <= 1) else Direct(m.accepted))
  }

  /** cmd_mgr_queue_force_defer. */
  function SubmitDeferred(m: Manager, reqid: nat): (Manager, Outcome) {
    if m.crashed then (m, Crashed)
    else if m.cmds != [] && m.queueSz == RWNX_CMD_MAX_QUEUED then (m, TooMany)
    else (Accept(m, reqid, true), Deferred(m.accepted, true))
  }

  /** What the worker takes: the head of the list, if that still waits to be pushed. */
  function NextToPush(cmds: seq<Cmd>): Option<nat> {
    if cmds != [] && cmds[0].waitPush then Some(cmds[0].serial) else None
  }

  /** The position of a command in the list; |cmds| when it is not there. */
  function IndexOf(cmds: seq<Cmd>, serial: nat): (i: nat)
    ensures i <= |cmds|
    ensures i < |cmds| ==> cmds[i].serial == serial
    ensures forall j :: 0 <= j < i ==> cmds[j].serial != serial
  {
    if cmds == [] || cmds[0].serial == serial then 0 else 1 + IndexOf(cmds[1..], serial)
  }

  /** The first command that waits for the confirmation `id`; |cmds| when there is none. */
  function FirstMatch(cmds: seq<Cmd>, id: nat): (i: nat)
    ensures i <= |cmds|
    ensures i < |cmds| ==> cmds[i].reqid == id && cmds[i].waitCfm
    ensures forall j :: 0 <= j < i ==> !(cmds[j].reqid == id && cmds[j].waitCfm)
  {
    if cmds == [] || (cmds[0].reqid == id && cmds[0].waitCfm) then 0 else 1 + FirstMatch(cmds[1..], id)
  }

  predicate Listed(cmds: seq<Cmd>, serial: nat) {
    exists i :: 0 <= i < |cmds| && cmds[i].serial == serial
  }

  function ClearPush(m: Manager, serial: nat): Manager {
    var i := IndexOf(m.cmds, serial);
    if i < |m.cmds| then m.(cmds := m.cmds[i := m.cmds[i].(waitPush := false)]) else m
  }

  /** list_del, queue_sz--, and the wake lock dropped with the last command. */
  function Remove(m: Manager, serial: nat): Manager {
    var i := IndexOf(m.cmds, serial);
    if i < |m.cmds| then
      m.(cmds := m.cmds[..i] + m.cmds[i + 1..],
         queueSz := m.queueSz - 1,
         wakeHeld := m.wakeHeld && m.queueSz - 1 != 0)
    else m
  }

  /** cmd_mgr_msgind: the confirmation goes to the first command of the list that waits for this id. */
  function MsgInd(m: Manager, id: nat): Manager {
    var i := FirstMatch(m.cmds, id);
    if i < |m.cmds| then m.(cmds := m.cmds[i := m.cmds[i].(waitCfm := false, done := true)]) else m
  }

  /** A wait ran out: the manager is crashed for good and the command marked done, still in the list. */
  function TimedOut(m: Manager, serial: nat): Manager {
    var i := IndexOf(m.cmds, serial);
    if i < |m.cmds| then m.(crashed := true, cmds := m.cmds[i := m.cmds[i].(done := true)])
    else m.(crashed := true)
  }

  // ---------------------------------------------------------------------------------------------------------
  // The manager itself
  // ---------------------------------------------------------------------------------------------------------

  /** `accepted` counts the commands accepted so far; the source keeps only its low 32 bits, `next_tkn`. */
  class CommandManager {
    var crashed: bool
    var next_tkn: nat
    var queue_sz: int
    var cmds: seq<Cmd>
    var wakeHeld: bool
    var accepted: nat

    ghost predicate Valid()
      reads this
    {
      && next_tkn == accepted % TWO_32
      && queue_sz == |cmds|
      && wakeHeld == (queue_sz > 0)
      && (forall i :: 0 <= i < |cmds| ==> cmds[i].serial < accepted && cmds[i].tkn == cmds[i].serial % TWO_32)
      && (forall i, j :: 0 <= i < j < |cmds| ==> cmds[i].serial < cmds[j].serial)
    }

    ghost function Model(): Manager
      reads this
    {
      Manager(crashed, accepted, queue_sz, wakeHeld, cmds)
    }

    constructor ()
      ensures Valid() && Model() == InitialManager
    {
      crashed, next_tkn, queue_sz, cmds, wakeHeld, accepted := false, 0, 0, [], false, 0;
    }

    method Append(reqid: nat, push: bool)
      requires Valid()
      modifies this
      ensures Valid() && Model() == Accept(old(Model()), reqid, push)
    {
      var cmd := Cmd(accepted, next_tkn, reqid, push, true, false);
      next_tkn := (next_tkn + 1) % TWO_32;
      accepted := accepted + 1;
      cmds := cmds + [cmd];
      if queue_sz == 0 {
        wakeHeld := true;
      }
      queue_sz := queue_sz + 1;
    }

    /** One pass of cmd_mgr_queue through the lock. */
    method Queue(reqid: nat, hasReply: bool, forced: bool) returns (r: Outcome)
      requires Valid()
      modifies this
      ensures Valid() && (Model(), r) == Submit(old(Model()), reqid, hasReply, forced)
    {
      if crashed {
        return Crashed;
      }
      if hasReply && cmds != [] {
        return Retry;
      }
      var defer := false;
      if cmds != [] {
        if queue_sz == RWNX_CMD_MAX_QUEUED {
          return TooMany;
        }
        var last := cmds[|cmds| - 1];
        if last.waitPush || last.waitCfm {
          defer := true;
        }
      }
      if forced {
        defer := true;
      }
      var serial := accepted;
      Append(reqid, defer);
      if defer {
        r := Deferred(serial, queue_sz <= 1);
      } else {
        r := Direct(serial);
      }
    }

    method QueueForceDefer(reqid: nat) returns (r: Outcome)
      requires Valid()
      modifies this
      ensures Valid() && (Model(), r) == SubmitDeferred(old(Model()), reqid)
    {
      if crashed {
        return Crashed;
      }
      if cmds != [] {
        if queue_sz == RWNX_CMD_MAX_QUEUED {
          return TooMany;
        }
      }
      r := Deferred(accepted, true);
      Append(reqid, true);
    }

    /** The worker's look at the list; only the first command is judged. */
    method ReadHead() returns (next: Option<nat>)
      requires Valid()
      ensures next == NextToPush(cmds)
    {
      next := None;
      if cmds != [] {
        if cmds[0].waitPush {
          next := Some(cmds[0].serial);
        }
      }
    }

    /** The list position of a command; stands for following the source's pointer to it. */
    method Locate(serial: nat) returns (i: nat)
      ensures i == IndexOf(cmds, serial)
    {
      i := 0;
      while i < |cmds| && cmds[i].serial != serial
        invariant i <= |cmds|
        invariant forall j :: 0 <= j < i ==> cmds[j].serial != serial
      {
        i := i + 1;
      }
    }

    method StartPush(serial: nat)
      requires Valid()
      modifies this
      ensures Valid() && Model() == ClearPush(old(Model()), serial)
    {
      var i := Locate(serial);
      if i < |cmds| {
        cmds := cmds[i := cmds[i].(waitPush := false)];
      }
    }

    method ListDel(serial: nat)
      requires Valid()
      modifies this
      ensures Valid() && Model() == Remove(old(Model()), serial)
    {
      var i := Locate(serial);
      if i < |cmds| {
        cmds := cmds[..i] + cmds[i + 1..];
        queue_sz := queue_sz - 1;
        if queue_sz == 0 {
          wakeHeld := false;
        }
      }
    }

    /** cmd_mgr_msgind, the callback accepting the message. */
    method HandleMsg(id: nat) returns (found: bool)
      requires Valid()
      modifies this
      ensures Valid() && Model() == MsgInd(old(Model()), id)
      ensures found == exists c <- old(cmds) :: c.reqid == id && c.waitCfm
    {
      found := false;
      var i := 0;
      while i < |cmds|
        invariant i <= |cmds|
        invariant forall j :: 0 <= j < i ==> !(cmds[j].reqid == id && cmds[j].waitCfm)
        invariant unchanged(this)
        invariant !found
      {
        if cmds[i].reqid == id && cmds[i].waitCfm {
          found := true;
          cmds := cmds[i := cmds[i].(waitCfm := false, done := true)];
          break;
        }
        i := i + 1;
      }
    }

    method TimeOut(serial: nat)
      requires Valid()
      modifies this
      ensures Valid() && Model() == TimedOut(old(Model()), serial)
    {
      crashed := true;
      var i := Locate(serial);
      if i < |cmds| && !cmds[i].done {
        cmds := cmds[i := cmds[i].(done := true)];
      }
    }
  }
}
