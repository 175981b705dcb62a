/** What the transmit thread of the SDIO bus does with the frames in the queue: which credits a call goes by, and
    that all frames go out, in their order (aicwf_sdio_send, and the loop of aicwf_sdio_tx_process, of aicwf_sdio.c). */
module SdioProgress {
  import opened Common
  import opened SdioCredits

  /** When the credits are used up the register is read until it says that there are some; the call goes by the first
      answer that does. */
  lemma {:induction false} FirstCreditsCount(c: Credit, answers: seq<int>, i: nat)
    requires i < |answers| && answers[i] > 0 && forall j :: 0 <= j < i ==> answers[j] <= 0
    ensures ReadUntil(c, answers) == Credit(c.held, answers[i], answers[i], 0)
    decreases |answers|
  {
    if i > 0 {
      FirstCreditsCount(Read(c, answers[0]), answers[1..], i - 1);
    }
  }

  /** If none does, the call ends with what the last one said, neither taking nor sending anything. */
  lemma {:induction false} NoCredits(c: Credit, answers: seq<int>)
    requires answers != [] && forall j :: 0 <= j < |answers| ==> answers[j] <= 0
    ensures var last := answers[|answers| - 1]; ReadUntil(c, answers) == Credit(c.held, last, last, 0)
    decreases |answers|
  {
    if |answers| > 1 {
      NoCredits(Read(c, answers[0]), answers[1..]);
    }
  }

  lemma NothingWithoutCredits(c: Credit, r: Round)
    requires r.Ok() && c.avail <= 0 && forall j :: 0 <= j < |r.answers| ==> r.answers[j] <= 0
    ensures !Takes(c, r) && !Sends(c, r) && Next(c, r).held == c.held && Next(c, r).sent == 0
  {
    NoCredits(c, r.answers);
    hide ReadUntil;
  }

  /** Some answer gives credits. */
  predicate Generous(answers: seq<int>) {
    |answers| == MAX_RETRY + 1 && exists i :: 0 <= i < |answers| && answers[i] > 0
  }

  lemma {:induction false} HasCredits(c: Credit, answers: seq<int>)
    requires exists i :: 0 <= i < |answers| && answers[i] > 0
    ensures ReadUntil(c, answers).avail > 0 && ReadUntil(c, answers).held == c.held
    decreases |answers|
  {
    if answers[0] <= 0 {
      HasCredits(Read(c, answers[0]), answers[1..]);
    }
  }

  /** The thread with the frames that wait in the queue, those in the aggregation buffer, and those sent, in order. */
  datatype Thread = Thread(c: Credit, queue: seq<Frame>, buffer: seq<Frame>, out: seq<Frame>)

  /** One turn of the loop, which goes on while frames wait.  A frame is the last when no others wait behind it, or a
      command does (`cmd`). */
  datatype Turn = Turn(answers: seq<int>, cmd: bool)

  function Call(t: Thread, turn: Turn): Round
    requires t.queue != []
  {
    Round(turn.answers, Some(t.queue[0]), |t.queue| == 1 || turn.cmd)
  }

  function Turned(t: Thread, turn: Turn): Thread {
    if t.queue == [] then t
    else
      var r := Call(t, turn);
      var buffer := t.buffer + if Takes(t.c, r) then [t.queue[0]] else [];
      Thread(Next(t.c, r), if Takes(t.c, r) then t.queue[1..] else t.queue,
             if Sends(t.c, r) then [] else buffer, if Sends(t.c, r) then t.out + buffer else t.out)
  }

  function AllTurns(t: Thread, turns: seq<Turn>): Thread
    decreases |turns|
  {
    if turns == [] then t else AllTurns(Turned(t, turns[0]), turns[1..])
  }

  function Waiting(t: Thread): nat {
    2 * |t.queue| + if t.c.held > 0 then 1 else 0
  }

  /** A turn with credits takes the next frame, or sends what is held; it loses and turns round nothing; and when it
      takes the last frame it sends all. */
  lemma TurnWorks(t: Thread, turn: Turn)
    requires Generous(turn.answers) && t.c.held == |t.buffer| && t.queue != []
    ensures var u := Turned(t, turn);
            && u.c.held == |u.buffer| && Waiting(u) < Waiting(t)
            && u.out + u.buffer + u.queue == t.out + t.buffer + t.queue
            && (u.queue == [] ==> u.buffer == [])
            && (turn.cmd && u.queue != t.queue ==> u.buffer == [])
  {
    HasCredits(t.c, turn.answers);
    hide ReadUntil;
    assert t.queue == [t.queue[0]] + t.queue[1..];
  }

  /** Within two turns for each frame that waits, and one more, all frames are sent, those held before first, each
      once and in the order of the queue. */
  lemma {:induction false} QueueEmpties(t: Thread, turns: seq<Turn>)
    requires t.c.held == |t.buffer| && t.queue != [] && |turns| >= Waiting(t)
    requires forall turn <- turns :: Generous(turn.answers)
    ensures var u := AllTurns(t, turns);
            u.queue == [] && u.buffer == [] && u.c.held == 0 && u.out == t.out + t.buffer + t.queue
    decreases |turns|
  {
    assert turns[0] in turns && forall turn <- turns[1..] :: turn in turns;
    TurnWorks(t, turns[0]);
    var u := Turned(t, turns[0]);
    hide Turned, Generous;
    if u.queue == [] {
      Idle(u, turns[1..]);
    } else {
      QueueEmpties(u, turns[1..]);
    }
  }

  lemma {:induction false} Idle(t: Thread, turns: seq<Turn>)
    requires t.queue == []
    ensures AllTurns(t, turns) == t
    decreases |turns|
  {
    if turns != [] {
      Idle(t, turns[1..]);
    }
  }

  /** A frame is held back only as long as there are credits for more, others wait behind it and no command does. */
  lemma HeldBackExactlyWhen(t: Thread, turn: Turn)
    requires Generous(turn.answers) && t.c.held == |t.buffer| && t.queue != [] && 0 < t.c.avail
    ensures var u := Turned(t, turn);
            u.buffer == t.buffer + [t.queue[0]] <==> |t.buffer| != t.c.avail && |t.queue| > 1 && !turn.cmd
  {
    hide ReadUntil;
  }
}
