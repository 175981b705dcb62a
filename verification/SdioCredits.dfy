/** How many frames may be sent: the firmware's flow-control register says how many buffers it has, and the driver
    counts down from there (aicwf_sdio_tx_process and aicwf_sdio_send of aicwf_sdio.c). */
module SdioCredits {
  import opened Common
  import opened SdioAggregation

  const MAX_RETRY := 5
  const SDIOWIFI_FLOWCTRL_MASK_REG := 0x7F

  datatype Frame = Frame(desc: Bytes, payload: Bytes) {
    predicate Ok() { desc != [] }
    function Body(): Bytes { desc + payload }
  }

  /** What one call of aicwf_sdio_send meets: the answers of the flow-control register should it ask, the frame that the
      queue would give, and whether it then sees no further frames, or a command, waiting. */
  datatype Round = Round(answers: seq<int>, frame: Option<Frame>, last: bool) {
    predicate Ok() {
      |answers| == MAX_RETRY + 1 && (frame.Some? ==> frame.value.Ok())
    }

    function Size(): nat {
      if frame.Some? then |Record(frame.value.Body())| else 0
    }
  }

  /** The frames in the aggregation buffer, fw_avail_bufcnt, what the register said when it was last read, and the
      frames sent since. */
  datatype Credit = Credit(held: nat, avail: int, granted: int, sent: nat)

  function Read(c: Credit, r: int): Credit {
    c.(avail := r, granted := r, sent := 0)
  }

  function ReadUntil(c: Credit, answers: seq<int>): Credit
    decreases |answers|
  {
    if answers == [] then c
    else if answers[0] > 0 then Read(c, answers[0])
    else ReadUntil(Read(c, answers[0]), answers[1..])
  }

  function AllSent(c: Credit): Credit {
    c.(held := 0, avail := c.avail - c.held, sent := c.sent + c.held)
  }

  function Ready(c: Credit, r: Round): Credit {
    if c.avail <= 0 then ReadUntil(c, r.answers) else c
  }

  predicate Takes(c: Credit, r: Round) {
    var d := Ready(c, r);
    d.avail > 0 && d.held != d.avail && r.frame.Some?
  }

  predicate Sends(c: Credit, r: Round) {
    var d := Ready(c, r);
    d.avail > 0 && (d.held == d.avail || (r.frame.Some? && r.last))
  }

  function Next(c: Credit, r: Round): Credit {
    var d := Ready(c, r);
    var e := if Takes(c, r) then d.(held := d.held + 1) else d;
    if Sends(c, r) then AllSent(e) else e
  }

  /** No more frames were sent than the firmware had buffers for, and there are buffers for those that are held. */
  predicate Safe(c: Credit) {
    && c.avail == c.granted - c.sent
    && (c.held > 0 ==> c.held <= c.avail)
    && (c.sent > 0 ==> c.sent <= c.granted)
  }

  /** A run of the transmit thread: it reads the register each time it is woken up, and then goes round. */
  datatype Event = Wake(answer: int) | Go(round: Round)

  function After(c: Credit, es: seq<Event>): Credit {
    if es == [] then c
    else
      var d := After(c, es[..|es| - 1]);
      match es[|es| - 1]
      case Wake(r) => Read(d, r)
      case Go(r) => Next(d, r)
  }

  /** Each time the thread is woken up, it holds no more frames than the firmware has buffers. */
  predicate WakesCovered(c: Credit, es: seq<Event>) {
    forall k :: 0 <= k < |es| && es[k].Wake? ==> After(c, es[..k]).held == 0 || After(c, es[..k]).held <= es[k].answer
  }

  predicate AlwaysSafe(c: Credit, es: seq<Event>) {
    forall k :: 0 <= k <= |es| ==> Safe(After(c, es[..k]))
  }

  lemma {:induction false} ReadUntilIsSafe(c: Credit, answers: seq<int>)
    requires c.held == 0 && Safe(c)
    ensures Safe(ReadUntil(c, answers)) && ReadUntil(c, answers).held == 0
    decreases |answers|
  {
    if answers != [] && answers[0] <= 0 {
      ReadUntilIsSafe(Read(c, answers[0]), answers[1..]);
    }
  }

  /** Going round keeps within the credits: the register is read again only when nothing is held. */
  lemma NextIsSafe(c: Credit, r: Round)
    requires Safe(c)
    ensures Safe(Next(c, r))
  {
    if c.avail <= 0 {
      ReadUntilIsSafe(c, r.answers);
    }
  }

  /** The driver starts with nothing in its buffer. */
  const EMPTY := Credit(0, 0, 0, 0)

  /** From there on, it keeps within the credits all the time exactly when it never wakes up holding more frames than
      the register then allows. */
  lemma SafeExactlyWhenCovered(es: seq<Event>)
    ensures AlwaysSafe(EMPTY, es) <==> WakesCovered(EMPTY, es)
  {
    SafeWhenCovered(EMPTY, es);
  }

  lemma {:induction false} SafeWhenCovered(c: Credit, es: seq<Event>)
    requires Safe(c)
    ensures AlwaysSafe(c, es) <==> WakesCovered(c, es)
  {
    hide Safe, Next, Read, AlwaysSafe, WakesCovered;
    if es == [] {
      Nothing(c);
    } else {
      var n := |es| - 1;
      SafeWhenCovered(c, es[..n]);
      OneMore(c, es);
      match es[n] {
        case Wake(r) => ReadIsSafe(After(c, es[..n]), r);
        case Go(r) => if AlwaysSafe(c, es[..n]) { NextIsSafe(After(c, es[..n]), r); }
      }
    }
  }

  lemma Nothing(c: Credit)
    ensures (AlwaysSafe(c, []) <==> Safe(c)) && WakesCovered(c, [])
  {
    hide Safe;
    var none: seq<Event> := [];
    assert none[..0] == none;
    assert Safe(c) <==> Safe(After(c, none[..0]));
  }

  lemma OneMore(c: Credit, es: seq<Event>)
    requires es != []
    ensures var us := es[..|es| - 1]; var d := After(c, us);
            && (AlwaysSafe(c, es) <==> AlwaysSafe(c, us) && Safe(After(c, es)))
            && (WakesCovered(c, es) <==>
                WakesCovered(c, us) && (es[|es| - 1].Wake? ==> d.held == 0 || d.held <= es[|es| - 1].answer))
            && (AlwaysSafe(c, us) ==> Safe(d))
  {
    hide Safe, After;
    var n := |es| - 1;
    var us := es[..n];
    assert forall k :: 0 <= k <= n ==> us[..k] == es[..k];
    assert es[..n + 1] == es && us[..n] == us;
    if AlwaysSafe(c, us) {
      assert Safe(After(c, us[..n]));
      if Safe(After(c, es)) {
        forall k | 0 <= k <= n + 1 ensures Safe(After(c, es[..k])) {
          if k <= n { assert Safe(After(c, us[..k])); }
        }
      }
    }
    if AlwaysSafe(c, es) {
      forall k | 0 <= k <= n ensures Safe(After(c, us[..k])) {
        assert Safe(After(c, es[..k]));
      }
      assert Safe(After(c, es[..n + 1]));
    }
    if WakesCovered(c, us) && (es[n].Wake? ==> After(c, us).held == 0 || After(c, us).held <= es[n].answer) {
      forall k | 0 <= k < |es| && es[k].Wake?
        ensures After(c, es[..k]).held == 0 || After(c, es[..k]).held <= es[k].answer
      {
        if k < n { assert us[k].Wake?; }
      }
    }
    if WakesCovered(c, es) {
      forall k | 0 <= k < n && us[k].Wake?
        ensures After(c, us[..k]).held == 0 || After(c, us[..k]).held <= us[k].answer
      {
        assert es[k].Wake?;
      }
      if es[n].Wake? { assert es[..n] == us; }
    }
  }

  lemma ReadIsSafe(c: Credit, r: int)
    ensures Safe(Read(c, r)) <==> c.held == 0 || c.held <= r
  {
  }

  /** When more frames are held than there are buffers, they are not sent in two portions: the next time anything is
      sent, it is more than the firmware allowed. */
  lemma HeldFramesOverspend(c: Credit, r: Round)
    requires 0 < c.avail < c.held && c.avail == c.granted - c.sent
    ensures var d := Next(c, r);
            if Sends(c, r) then d.sent > d.granted
            else 0 < d.avail < d.held && d.sent == c.sent && d.granted == c.granted
  {
  }

  // ---------------------------------------------------------------------------------------------------------
  // When more is sent than was granted
  // ---------------------------------------------------------------------------------------------------------

  predicate Overspent(c: Credit) {
    c.sent > 0 && c.sent > c.granted
  }

  /** The firmware has buffers, but not for all frames that are held. */
  predicate Short(c: Credit) {
    0 < c.avail < c.held
  }

  predicate Balanced(c: Credit) {
    c.avail == c.granted - c.sent
  }

  lemma {:induction false} ReadUntilBalances(c: Credit, answers: seq<int>)
    requires Balanced(c)
    ensures var d := ReadUntil(c, answers);
            Balanced(d) && d.held == c.held && (answers != [] ==> d.sent == 0) && (answers == [] ==> d == c)
    decreases |answers|
  {
    if answers != [] && answers[0] <= 0 {
      ReadUntilBalances(Read(c, answers[0]), answers[1..]);
    }
  }

  /** A call sends too much exactly when it finds the driver short, and sends; otherwise it does not begin to. */
  lemma SendsTooMuchExactlyWhenShort(c: Credit, r: Round)
    requires Balanced(c)
    ensures Balanced(Next(c, r))
    ensures Sends(c, r) ==> (Overspent(Next(c, r)) <==> Short(Ready(c, r)))
    ensures !Sends(c, r) ==> (Overspent(Next(c, r)) ==> Overspent(c)) && (Short(Next(c, r)) <==> Short(Ready(c, r)))
    ensures Sends(c, r) ==> !Short(Next(c, r))
  {
    ReadUntilBalances(c, r.answers);
    hide ReadUntil;
  }

  lemma {:induction false} AfterIsBalanced(es: seq<Event>)
    ensures Balanced(After(EMPTY, es))
  {
    if es != [] {
      AfterIsBalanced(es[..|es| - 1]);
      match es[|es| - 1] {
        case Wake(_) =>
        case Go(r) => SendsTooMuchExactlyWhenShort(After(EMPTY, es[..|es| - 1]), r);
      }
    }
  }

  /** The i-th event of a run reads the register, and leaves the driver short. */
  predicate ReadsShort(es: seq<Event>, i: nat)
    requires i < |es|
  {
    var c := After(EMPTY, es[..i]);
    match es[i]
    case Wake(r) => Short(Read(c, r))
    case Go(r) => c.avail <= 0 && Short(ReadUntil(c, r.answers))
  }

  predicate SendsAt(es: seq<Event>, k: nat)
    requires k < |es|
  {
    es[k].Go? && Sends(After(EMPTY, es[..k]), es[k].round)
  }

  /** Nothing is sent and the thread is not woken up again until the k-th event. */
  predicate Lasts(es: seq<Event>, i: nat, k: nat)
    requires k <= |es|
  {
    forall j :: i <= j < k ==> !SendsAt(es, j) && (j > i ==> es[j].Go?)
  }

  /** Event i reads, and leaves the driver short; event k, perhaps the same call, is the first to send after that,
      with no wake-up in between. */
  predicate SpendsShort(es: seq<Event>, i: nat, k: nat) {
    i <= k < |es| && ReadsShort(es, i) && SendsAt(es, k) && Lasts(es, i, k)
  }

  lemma AfterOne(es: seq<Event>, k: nat)
    requires k < |es|
    ensures var c := After(EMPTY, es[..k]);
            && Balanced(c)
            && After(EMPTY, es[..k + 1]) == match es[k] case Wake(r) => Read(c, r) case Go(r) => Next(c, r)
  {
    hide Next, Read, Balanced;
    var u := es[..k + 1];
    assert u[..|u| - 1] == es[..k];
    AfterIsBalanced(es[..k]);
  }

  lemma ReadyIs(c: Credit, r: Round)
    ensures Ready(c, r) == if c.avail <= 0 then ReadUntil(c, r.answers) else c
    ensures Short(c) ==> c.avail > 0
  {
    hide ReadUntil;
  }

  lemma {:induction false} ShortLasts(es: seq<Event>, i: nat, k: nat)
    requires i < k <= |es| && ReadsShort(es, i) && Lasts(es, i, k)
    ensures Short(After(EMPTY, es[..k]))
    decreases k
  {
    hide After, Next, Ready, ReadUntil, Sends, Short, Balanced;
    AfterOne(es, k - 1);
    var c := After(EMPTY, es[..k - 1]);
    if k - 1 > i {
      ShortLasts(es, i, k - 1);
    }
    assert !SendsAt(es, k - 1);
    if es[k - 1].Go? {
      SendsTooMuchExactlyWhenShort(c, es[k - 1].round);
      ReadyIs(c, es[k - 1].round);
    }
  }

  /** Being short comes from such a read. */
  lemma {:induction false} ShortSince(es: seq<Event>, k: nat) returns (i: nat)
    requires k <= |es| && Short(After(EMPTY, es[..k]))
    ensures i < k && ReadsShort(es, i) && Lasts(es, i, k)
    decreases k
  {
    NotShortAtStart(es, k);
    hide After, Next, Ready, ReadUntil, Sends, Short, Balanced;
    AfterOne(es, k - 1);
    var c := After(EMPTY, es[..k - 1]);
    i := k - 1;
    if es[k - 1].Go? {
      SendsTooMuchExactlyWhenShort(c, es[k - 1].round);
      ReadyIs(c, es[k - 1].round);
      if c.avail > 0 {
        i := ShortSince(es, k - 1);
      }
    }
  }

  lemma NotShortAtStart(es: seq<Event>, k: nat)
    requires k <= |es| && (Short(After(EMPTY, es[..k])) || Overspent(After(EMPTY, es[..k])))
    ensures k > 0
  {
    assert es[..0] == [];
  }

  /** The first time that too much has been sent, it was by a call that found the driver short. */
  lemma {:induction false} OverspentSince(es: seq<Event>, k: nat) returns (j: nat)
    requires k <= |es| && Overspent(After(EMPTY, es[..k]))
    ensures j < k && SendsAt(es, j) && Short(Ready(After(EMPTY, es[..j]), es[j].round))
    decreases k
  {
    NotShortAtStart(es, k);
    hide After, Next, Ready, ReadUntil, Sends, Short, Balanced;
    AfterOne(es, k - 1);
    j := k - 1;
    if es[k - 1].Go? {
      SendsTooMuchExactlyWhenShort(After(EMPTY, es[..k - 1]), es[k - 1].round);
      if !SendsAt(es, k - 1) {
        j := OverspentSince(es, k - 1);
      }
    }
  }

  /** Over all runs: more frames are sent than the firmware granted exactly when some read, at a wake-up or by a retry,
      leaves fewer buffers than frames are held, though some, and the held frames are sent before the next read. */
  lemma OverspendsExactlyWhenShort(es: seq<Event>)
    ensures (exists k :: 0 <= k <= |es| && Overspent(After(EMPTY, es[..k]))) <==> exists i, k :: SpendsShort(es, i, k)
  {
    hide Short, Overspent, After, Next, Ready, Sends;
    if k: nat :| k <= |es| && Overspent(After(EMPTY, es[..k])) {
      var j := OverspentSince(es, k);
      var i := ShortBefore(es, j);
      assert SpendsShort(es, i, j);
    }
    if i: nat, k: nat :| SpendsShort(es, i, k) {
      SpendsTooMuch(es, i, k);
    }
  }

  lemma ShortBefore(es: seq<Event>, j: nat) returns (i: nat)
    requires j < |es| && SendsAt(es, j) && Short(Ready(After(EMPTY, es[..j]), es[j].round))
    ensures SpendsShort(es, i, j)
  {
    hide After, ReadUntil, Sends;
    if After(EMPTY, es[..j]).avail <= 0 {
      i := j;
    } else {
      i := ShortSince(es, j);
    }
  }

  lemma SpendsTooMuch(es: seq<Event>, i: nat, k: nat)
    requires SpendsShort(es, i, k)
    ensures Overspent(After(EMPTY, es[..k + 1]))
  {
    var u := es[..k + 1];
    assert u[..|u| - 1] == es[..k];
    var c := After(EMPTY, es[..k]);
    AfterIsBalanced(es[..k]);
    if i < k {
      ShortLasts(es, i, k);
    }
    SendsTooMuchExactlyWhenShort(c, es[k].round);
    hide ReadUntil, Sends;
  }

  /** Such a run: of five buffers two are used for frames that are held; the next reading leaves one, and the third
      frame, the last one, takes the others with it. */
  lemma HeldOverWakeUp() returns (es: seq<Event>)
    ensures SpendsShort(es, 3, 4) && Overspent(After(EMPTY, es))
    ensures forall k :: 0 <= k < |es| && es[k].Go? ==> es[k].round.Ok()
  {
    hide *;
    var frame, answers := Frame([0], []), [0, 0, 0, 0, 0, 0];
    var r, last := Round(answers, Some(frame), false), Round(answers, Some(frame), true);
    assert r.Ok() && last.Ok() by { AreOk(r, last); }
    es := [Wake(5), Go(r), Go(r), Wake(1), Go(last)];
    TwoHeld(es, r);
    AfterOne(es, 3);
    ShortThenSent(es, r, last);
    SpendsTooMuch(es, 3, 4);
    WholeRun(es);
  }

  lemma AreOk(r: Round, last: Round)
    requires |r.answers| == |last.answers| == 6
    requires r.frame == last.frame && r.frame.Some? && r.frame.value.desc != []
    ensures r.Ok() && last.Ok()
  {
  }

  lemma WholeRun(es: seq<Event>)
    ensures After(EMPTY, es[..|es|]) == After(EMPTY, es)
  {
    hide After;
    assert es[..|es|] == es;
  }

  lemma TwoHeld(es: seq<Event>, r: Round)
    requires |es| == 5 && es[0] == Wake(5) && es[1] == es[2] == Go(r) && r.frame.Some? && !r.last
    ensures After(EMPTY, es[..3]) == Credit(2, 5, 5, 0)
  {
    hide *;
    AtStart(es);
    AfterOne(es, 0);
    var c := Read(EMPTY, 5);
    assert After(EMPTY, es[..1]) == c;
    assert c == Credit(0, 5, 5, 0) by { ReadOne(); }
    HoldsOne(0, r);
    HoldsOne(1, r);
    AfterOne(es, 1);
    assert After(EMPTY, es[..2]) == Next(c, r);
    AfterOne(es, 2);
    assert After(EMPTY, es[..3]) == Next(Credit(1, 5, 5, 0), r);
  }

  lemma ReadOne()
    ensures Read(EMPTY, 5) == Credit(0, 5, 5, 0)
  {
  }

  lemma AtStart(es: seq<Event>)
    ensures After(EMPTY, es[..0]) == EMPTY
  {
  }

  lemma HoldsOne(held: nat, r: Round)
    requires held < 5 && r.frame.Some? && !r.last
    ensures Next(Credit(held, 5, 5, 0), r) == Credit(held + 1, 5, 5, 0)
  {
  }

  lemma ShortThenSent(es: seq<Event>, r: Round, last: Round)
    requires |es| == 5 && es[3] == Wake(1) && es[4] == Go(last) && last.frame.Some? && last.last
    requires After(EMPTY, es[..3]) == Credit(2, 5, 5, 0) && After(EMPTY, es[..4]) == Read(After(EMPTY, es[..3]), 1)
    ensures SpendsShort(es, 3, 4)
  {
    hide After;
  }

  // ---------------------------------------------------------------------------------------------------------
  // Whether there is room in the aggregation buffer
  // ---------------------------------------------------------------------------------------------------------

  function NextTail(c: Credit, tail: nat, r: Round): nat {
    if Sends(c, r) then 0 else if Takes(c, r) then tail + r.Size() else tail
  }

  /** The call takes a frame for which there is no room. */
  predicate PastEnd(c: Credit, tail: nat, r: Round) {
    Takes(c, r) && tail + r.Size() > MAX_AGGR_TXPKT_LEN
  }

  /** How much of the aggregation buffer is in use. */
  function TailAfter(es: seq<Event>): nat {
    if es == [] then 0
    else
      var us := es[..|es| - 1];
      match es[|es| - 1]
      case Wake(_) => TailAfter(us)
      case Go(r) => NextTail(After(EMPTY, us), TailAfter(us), r)
  }

  predicate PastEndAt(es: seq<Event>, k: nat) {
    k < |es| && es[k].Go? && PastEnd(After(EMPTY, es[..k]), TailAfter(es[..k]), es[k].round)
  }

  /** No answer of the register is above `most`, and no record is longer than `size`. */
  predicate EventWithin(e: Event, most: nat, size: nat) {
    match e
    case Wake(r) => r <= most
    case Go(r) => r.Ok() && (forall a <- r.answers :: a <= most) && r.Size() <= size
  }

  predicate Within(es: seq<Event>, most: nat, size: nat) {
    forall k :: 0 <= k < |es| ==> EventWithin(es[k], most, size)
  }

  /** There are no more frames in the buffer than it is long, and no more are allowed for than the register ever
      said. */
  ghost predicate Filled(c: Credit, tail: nat, most: nat, size: nat) {
    Safe(c) && c.granted <= most && tail <= c.held * size
  }

  lemma {:induction false} ReadUntilAtMost(c: Credit, answers: seq<int>, most: nat)
    requires c.granted <= most && forall a <- answers :: a <= most
    ensures ReadUntil(c, answers).granted <= most
    decreases |answers|
  {
    if answers != [] {
      assert answers[0] in answers;
      var d := Read(c, answers[0]);
      assert forall a <- answers[1..] :: a in answers;
      ReadUntilAtMost(d, answers[1..], most);
    }
  }

  lemma NextFills(c: Credit, tail: nat, r: Round, most: nat, size: nat)
    requires Filled(c, tail, most, size) && r.Size() <= size && forall a <- r.answers :: a <= most
    ensures Filled(Next(c, r), NextTail(c, tail, r), most, size)
    ensures Takes(c, r) ==> tail + r.Size() <= most * size
  {
    hide Record;
    if c.avail <= 0 {
      ReadUntilIsSafe(c, r.answers);
      ReadUntilAtMost(c, r.answers, most);
    }
    hide ReadUntil;
    var d := Ready(c, r);
    if Takes(c, r) {
      OneMoreFits(d.held, most, size, tail, r.Size());
    }
  }

  lemma OneMoreFits(held: nat, most: nat, size: nat, tail: nat, more: nat)
    requires held < most && tail <= held * size && more <= size
    ensures tail + more <= (held + 1) * size <= most * size
  {
    assert (held + 1) * size == held * size + size;
    Grows(held + 1, most, size);
  }

  lemma Grows(a: nat, b: nat, size: nat)
    requires a <= b
    ensures a * size <= b * size
  {
  }

  lemma {:induction false} StaysFilled(es: seq<Event>, n: nat, most: nat, size: nat)
    requires WakesCovered(EMPTY, es) && Within(es, most, size) && n <= |es|
    ensures Filled(After(EMPTY, es[..n]), TailAfter(es[..n]), most, size)
  {
    hide After, TailAfter, Next, NextTail, Filled, WakesCovered, EventWithin, Read;
    if n == 0 {
      NothingFilled(most, size);
      assert es[..0] == [];
    } else {
      StaysFilled(es, n - 1, most, size);
      AfterOne(es, n - 1);
      TailAfterOne(es, n - 1);
      var c, tail := After(EMPTY, es[..n - 1]), TailAfter(es[..n - 1]);
      CoveredAt(es, n - 1);
      assert EventWithin(es[n - 1], most, size);
      EventFills(c, tail, es[n - 1], most, size);
    }
  }

  lemma NothingFilled(most: nat, size: nat)
    ensures Filled(After(EMPTY, []), TailAfter([]), most, size)
  {
  }

  lemma TailAfterOne(es: seq<Event>, k: nat)
    requires k < |es|
    ensures TailAfter(es[..k + 1]) ==
            match es[k]
            case Wake(_) => TailAfter(es[..k])
            case Go(r) => NextTail(After(EMPTY, es[..k]), TailAfter(es[..k]), r)
  {
    hide NextTail, After;
    var u := es[..k + 1];
    assert u[..|u| - 1] == es[..k];
  }

  lemma CoveredAt(es: seq<Event>, k: nat)
    requires WakesCovered(EMPTY, es) && k < |es|
    ensures es[k].Wake? ==> After(EMPTY, es[..k]).held == 0 || After(EMPTY, es[..k]).held <= es[k].answer
  {
    hide After;
  }

  lemma EventFills(c: Credit, tail: nat, e: Event, most: nat, size: nat)
    requires Filled(c, tail, most, size) && EventWithin(e, most, size)
    requires e.Wake? ==> c.held == 0 || c.held <= e.answer
    ensures match e
            case Wake(r) => Filled(Read(c, r), tail, most, size)
            case Go(r) => Filled(Next(c, r), NextTail(c, tail, r), most, size)
    ensures e.Go? && Takes(c, e.round) ==> tail + e.round.Size() <= most * size
  {
    hide Next, NextTail, Filled, Takes, Read;
    match e {
      case Wake(a) => ReadFills(c, tail, a, most, size);
      case Go(r) => NextFills(c, tail, r, most, size);
    }
  }

  lemma PastEndNeedsMore(es: seq<Event>, k: nat, most: nat, size: nat)
    requires WakesCovered(EMPTY, es) && Within(es, most, size) && PastEndAt(es, k)
    ensures most * size > MAX_AGGR_TXPKT_LEN
  {
    hide Filled, Takes, After, TailAfter, WakesCovered, EventWithin;
    StaysFilled(es, k, most, size);
    assert EventWithin(es[k], most, size);
    EventFills(After(EMPTY, es[..k]), TailAfter(es[..k]), es[k], most, size);
  }

  lemma ReadFills(c: Credit, tail: nat, answer: int, most: nat, size: nat)
    requires Filled(c, tail, most, size) && answer <= most && (c.held == 0 || c.held <= answer)
    ensures Filled(Read(c, answer), tail, most, size)
  {
  }

  /** A frame whose record has the given length, and what the thread does with n of them. */
  function FrameOf(size: nat): Frame
    requires size >= 8
  {
    Frame([0], seq(size - 5, _ => 0))
  }

  function RoundOf(most: nat, size: nat): Round
    requires size >= 8
  {
    Round(seq(MAX_RETRY + 1, _ => most), Some(FrameOf(size)), false)
  }

  function Filling(most: nat, size: nat, n: nat): seq<Event>
    requires size >= 8
  {
    if n == 0 then [Wake(most)]
    else Filling(most, size, n - 1) + [Go(RoundOf(most, size))]
  }

  lemma FrameOfSize(size: nat)
    requires size >= 8 && size % 4 == 0
    ensures FrameOf(size).Ok() && |Record(FrameOf(size).Body())| == size
  {
  }

  lemma {:induction false} FillingFills(most: nat, size: nat, n: nat)
    requires size >= 8 && size % 4 == 0 && n <= most && most > 0
    ensures var es := Filling(most, size, n);
            && |es| == n + 1 && Within(es, most, size) && WakesCovered(EMPTY, es)
            && After(EMPTY, es) == Credit(n, most, most, 0) && TailAfter(es) == n * size
  {
    hide *;
    FillingOn(most, size, n);
    if n == 0 {
      FirstWake(most, size);
    } else {
      FillingFills(most, size, n - 1);
      RoundOfSize(most, size, n - 1);
      RoundsOn(Filling(most, size, n - 1), RoundOf(most, size), most, size);
      Distributes(n, size);
    }
  }

  lemma FillingOn(most: nat, size: nat, n: nat)
    requires size >= 8
    ensures Filling(most, size, n) ==
            if n == 0 then [Wake(most)] else Filling(most, size, n - 1) + [Go(RoundOf(most, size))]
  {
  }

  lemma Distributes(n: nat, size: nat)
    requires n > 0
    ensures n * size == (n - 1) * size + size
  {
  }

  lemma RoundsOn(us: seq<Event>, r: Round, most: nat, size: nat)
    requires Within(us, most, size) && Within([Go(r)], most, size) && WakesCovered(EMPTY, us)
    ensures var es := us + [Go(r)];
            && Within(es, most, size) && WakesCovered(EMPTY, es)
            && After(EMPTY, es) == Next(After(EMPTY, us), r)
            && TailAfter(es) == NextTail(After(EMPTY, us), TailAfter(us), r)
  {
    hide Within, WakesCovered, After, TailAfter, Next, NextTail;
    OneMoreGo(us, Go(r), most, size);
    var es, n := us + [Go(r)], |us|;
    AfterOne(es, n);
    TailAfterOne(es, n);
    assert es[..n] == us && es[..n + 1] == es;
  }

  lemma FirstWake(most: nat, size: nat)
    ensures var es := [Wake(most)];
            && Within(es, most, size) && WakesCovered(EMPTY, es)
            && After(EMPTY, es) == Credit(0, most, most, 0) && TailAfter(es) == 0
  {
    var es := [Wake(most)];
    assert es[..0] == [];
    assert After(EMPTY, []) == EMPTY && TailAfter([]) == 0;
  }

  lemma RoundOfSize(most: nat, size: nat, held: nat)
    requires size >= 8 && size % 4 == 0 && held < most
    ensures Within([Go(RoundOf(most, size))], most, size) && RoundOf(most, size).Size() == size
    ensures var c := Credit(held, most, most, 0);
            && Takes(c, RoundOf(most, size)) && !Sends(c, RoundOf(most, size))
            && Next(c, RoundOf(most, size)) == c.(held := held + 1)
            && forall tail: nat :: NextTail(c, tail, RoundOf(most, size)) == tail + size
  {
    FrameOfSize(size);
    hide Record, FrameOf;
  }

  lemma OneMoreGo(us: seq<Event>, e: Event, most: nat, size: nat)
    requires e.Go? && Within(us, most, size) && Within([e], most, size) && WakesCovered(EMPTY, us)
    ensures Within(us + [e], most, size) && WakesCovered(EMPTY, us + [e])
  {
    var es := us + [e];
    assert forall k :: 0 <= k < |us| ==> us[..k] == es[..k] && us[k] == es[k];
    assert [e][0] == e;
  }

  ghost predicate RoomOnRuns(most: nat, size: nat) {
    forall es: seq<Event>, k: nat :: Within(es, most, size) && WakesCovered(EMPTY, es) ==> !PastEndAt(es, k)
  }

  /** Over all runs that keep within the credits, with answers up to `most` and records up to `size`: no frame is copied
      past the end of the aggregation buffer exactly when it has room for `most` records. */
  lemma RoomExactlyWhen(most: nat, size: nat)
    requires size >= 8 && size % 4 == 0
    ensures RoomOnRuns(most, size) <==> most * size <= MAX_AGGR_TXPKT_LEN
  {
    hide Within, WakesCovered, PastEndAt;
    if most * size <= MAX_AGGR_TXPKT_LEN {
      forall es: seq<Event>, k: nat | Within(es, most, size) && WakesCovered(EMPTY, es) ensures !PastEndAt(es, k) {
        if PastEndAt(es, k) { PastEndNeedsMore(es, k, most, size); }
      }
    } else {
      var es, k := NoRoom(most, size);
    }
  }

  /** For records of 1536 bytes the buffer is long enough for answers up to 64, but the register has seven bits. */
  lemma RoomFor64()
    ensures RoomOnRuns(64, 1536) && !RoomOnRuns(SDIOWIFI_FLOWCTRL_MASK_REG, 1536)
  {
    RoomExactlyWhen(64, 1536);
    RoomExactlyWhen(SDIOWIFI_FLOWCTRL_MASK_REG, 1536);
  }

  lemma NoRoom(most: nat, size: nat) returns (es: seq<Event>, k: nat)
    requires size >= 8 && size % 4 == 0 && most * size > MAX_AGGR_TXPKT_LEN
    ensures Within(es, most, size) && WakesCovered(EMPTY, es) && PastEndAt(es, k)
  {
    hide Within, WakesCovered, After, TailAfter, PastEndAt;
    var n := MostRecords(most, size);
    es, k := Filling(most, size, n + 1), n + 1;
    FillingFills(most, size, n + 1);
    OverflowsAfter(most, size, n);
  }

  lemma MostRecords(most: nat, size: nat) returns (n: nat)
    requires size > 0 && most * size > MAX_AGGR_TXPKT_LEN
    ensures n < most && n * size + size > MAX_AGGR_TXPKT_LEN
  {
    n := most - 1;
    assert n * size + size == most * size;
  }

  lemma OverflowsAfter(most: nat, size: nat, n: nat)
    requires size >= 8 && size % 4 == 0 && n < most && n * size + size > MAX_AGGR_TXPKT_LEN
    ensures PastEndAt(Filling(most, size, n + 1), n + 1)
  {
    FillingFills(most, size, n);
    FrameOfSize(size);
    hide Within, WakesCovered, Record, FrameOf, After, TailAfter;
    assert Filling(most, size, n + 1)[..n + 1] == Filling(most, size, n);
  }

  class Sender {
    const buffer: TxBuffer
    var fwAvailBufcnt: int
    ghost var granted: int
    ghost var sent: nat

    ghost predicate Valid()
      reads this, buffer, buffer.buf
    {
      buffer.Valid()
    }

    ghost function View(): Credit
      reads this, buffer
    {
      Credit(buffer.aggrCount, fwAvailBufcnt, granted, sent)
    }

    constructor ()
      ensures Valid() && View() == EMPTY && fresh(buffer) && fresh(buffer.buf) && buffer.queued == []
    {
      buffer := new TxBuffer();
      fwAvailBufcnt, granted, sent := 0, 0, 0;
    }

    method ReadRegister(answer: int)
      modifies this
      ensures View() == Read(old(View()), answer)
    {
      fwAvailBufcnt, granted, sent := answer, answer, 0;
    }

    method Flush() returns (wire: Bytes)
      requires Valid()
      modifies this, buffer, buffer.buf
      ensures Valid() && View() == AllSent(old(View())) && buffer.queued == [] && buffer.tail == 0
      ensures Decode(wire) == AllPadded(old(buffer.queued)) <==> AllFit(old(buffer.queued))
    {
      hide Records, Decode, Record, AllPadded, AllFit;
      fwAvailBufcnt := fwAvailBufcnt - buffer.aggrCount;
      sent := sent + buffer.aggrCount;
      wire := buffer.SendAll();
      buffer.CountAndTail();
    }

    /** aicwf_sdio_send.  Its first check, that the buffer is empty if its count is zero and the other way round, never
        fails.  `pastEnd` says that the frame is copied past the end of the aggregation buffer. */
    method Send(r: Round) returns (wire: Option<Bytes>, pastEnd: bool)
      requires Valid() && r.Ok()
      modifies this, buffer, buffer.buf
      ensures pastEnd <==> PastEnd(old(View()), old(buffer.tail), r)
      ensures !pastEnd ==> Valid() && View() == Next(old(View()), r)
      ensures !pastEnd ==> (wire.Some? <==> Sends(old(View()), r))
      ensures !pastEnd ==>
                var q := old(buffer.queued) + if Takes(old(View()), r) then [r.frame.value.Body()] else [];
                if wire.Some? then buffer.queued == [] && (Decode(wire.value) == AllPadded(q) <==> AllFit(q))
                else buffer.queued == q
      ensures !pastEnd ==> buffer.tail == NextTail(old(View()), old(buffer.tail), r)
    {
      hide Records, Decode, AllPadded, AllFit, Record;
      buffer.CountAndTail();
      assert (buffer.aggrCount == 0) == (buffer.tail == 0);
      wire, pastEnd := None, false;
      if fwAvailBufcnt <= 0 {
        ReadRegister(r.answers[0]);
        var retryTimes := 0;
        while fwAvailBufcnt <= 0 && retryTimes < MAX_RETRY
          modifies this
          decreases MAX_RETRY - retryTimes
          invariant retryTimes <= MAX_RETRY
          invariant ReadUntil(old(View()), r.answers) ==
                    if fwAvailBufcnt > 0 then View() else ReadUntil(View(), r.answers[retryTimes + 1..])
        {
          retryTimes := retryTimes + 1;
          ReadRegister(r.answers[retryTimes]);
        }
        if fwAvailBufcnt <= 0 {
          return;
        }
      }
      assert View() == Ready(old(View()), r);
      assert buffer.queued + [] == buffer.queued;
      if buffer.aggrCount == fwAvailBufcnt {
        var w := Flush();
        wire := Some(w);
      } else if r.frame.Some? {
        pastEnd := AppendFrame(r.frame.value);
        if !pastEnd && r.last {
          var w := Flush();
          wire := Some(w);
        }
      }
    }

    method AppendFrame(f: Frame) returns (pastEnd: bool)
      requires Valid() && f.Ok()
      modifies buffer, buffer.buf
      ensures pastEnd <==> old(buffer.tail) + |Record(f.Body())| > buffer.buf.Length
      ensures !pastEnd ==>
                && Valid() && View() == old(View()).(held := old(View()).held + 1)
                && buffer.queued == old(buffer.queued) + [f.Body()]
                && buffer.tail == old(buffer.tail) + |Record(f.Body())|
    {
      hide Records, Record;
      pastEnd := buffer.Append(f.desc, f.payload);
    }
  }
}
