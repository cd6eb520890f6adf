/**
 Waiting for a commit turn (`backoff`, `_holds` and `TableTurns.wait` in
 `lakehouse_kit/commit_turns.py`): poll, sleep a doubling and capped pause, give up at the deadline, and
 sleep only in one of the process's twenty seats. Times are whole microseconds of the process's
 monotonic clock.
 */
module TurnWaiting {
  import opened Outcomes
  import CommitTurns
  import EtagStore

  type Turn = CommitTurns.Turn

  const HOLD_MICROS := 30_000_000
  const POLL_MICROS := 20_000
  const POLL_CAP_MICROS := 250_000
  const THREAD_WAITERS := 20

  // ---------------------------------------------------------------- whom a poll waits for

  /** Some turn on `ref` under another token than `mine`; without `handed`, only a door's own turn counts. */
  predicate Holds(turns: seq<Turn>, ref: Option<string>, mine: Option<string>, handed: bool) {
    exists t :: t in turns && t.ref == ref && Some(t.token) != mine && (handed || t.handedTo.None?)
  }

  /** A poll and a take cannot disagree: over one and the same record, a commit that lists no turn there
      yet is kept waiting exactly when its take would not be written, and a take whose poll found the ref
      free and whom nobody interrupts is granted, as the only live turn of the ref. */
  lemma {:induction false} APollDecidesTheTake(w: CommitTurns.World, take: CommitTurns.Step)
    requires CommitTurns.Inv(w) && take.Take? && take.hold > 0
    requires take.read == CommitTurns.StoreRead(w.cell.stored, w.cell.clock)
    requires EtagStore.MayName(w.cell, CommitTurns.Written(take), take.etag)
    requires !CommitTurns.Names(CommitTurns.KeptBy(take.read), take.token)
    ensures var done := CommitTurns.Next(CommitTurns.Next(w, CommitTurns.Read), take);
            if Holds(CommitTurns.KeptBy(take.read), take.ref, Some(take.token), true)
            then done == CommitTurns.Next(w, CommitTurns.Read)
            else && CommitTurns.HoldsNow(done, CommitTurns.Mine(take))
                 && forall h :: CommitTurns.HoldsNow(done, h) && h.ref == take.ref ==> h == CommitTurns.Mine(take)
  {
    var turns, read := CommitTurns.KeptBy(take.read), CommitTurns.Read;
    assert Holds(turns, take.ref, Some(take.token), true) <==> CommitTurns.Busy(turns, take.ref) by {
      if t :| t in turns && t.ref == take.ref {
        assert Some(t.token) != Some(take.token);
      }
    }
    CommitTurns.StepKeepsInv(w, read);
    CommitTurns.StepKeepsInv(CommitTurns.Next(w, read), take);
    var done := CommitTurns.Next(CommitTurns.Next(w, read), take);
    if !CommitTurns.Busy(turns, take.ref) {
      assert CommitTurns.HoldsNow(done, CommitTurns.Mine(take));
    }
  }

  /** What a poll answers of the record as it stands: a live turn on the ref under another token than the waiter's,
      and, for a waiter that races handed turns, one of a door's own. */
  lemma {:induction false} HoldsExactly(w: CommitTurns.World, ref: Option<string>, mine: Option<string>, handed: bool)
    ensures Holds(CommitTurns.KeptBy(CommitTurns.ReadNow(w)), ref, mine, handed)
            <==> exists t ::
                   && CommitTurns.LiveOn(w, ref, t) && mine != Some(t.token)
                   && (t.handedTo != None ==> handed)
  {
    assert forall t :: CommitTurns.LiveOn(w, ref, t)
                       <==> t in CommitTurns.KeptBy(CommitTurns.ReadNow(w)) && t.ref == ref;
  }

  /** So a stock writer's peers are kept waiting by a door's turn exactly as doors are, and by a handed one never. */
  lemma {:induction false} PeersRaceHandedTurns(
      w: CommitTurns.World, ref: Option<string>, mine: Option<string>, t: Turn)
    requires CommitTurns.Inv(w) && CommitTurns.LiveOn(w, ref, t) && mine != Some(t.token)
    ensures Holds(CommitTurns.KeptBy(CommitTurns.ReadNow(w)), ref, mine, true)
    ensures Holds(CommitTurns.KeptBy(CommitTurns.ReadNow(w)), ref, mine, false) <==> t.handedTo == None
  {
    HoldsExactly(w, ref, mine, true);
    HoldsExactly(w, ref, mine, false);
    hide Holds, CommitTurns.KeptBy;
    forall x | CommitTurns.LiveOn(w, ref, x) ensures x == t {
      var body := w.cell.stored.value.body;
      assert CommitTurns.OnePerRef(body);
    }
  }

  // ---------------------------------------------------------------- the pauses

  function Doubled(attempt: nat): nat {
    if attempt == 0 then POLL_MICROS else 2 * Doubled(attempt - 1)
  }

  /** The shortest the pause can be: a random jitter only lengthens it. */
  function Pause(attempt: nat): nat {
    if Doubled(attempt) < POLL_CAP_MICROS then Doubled(attempt) else POLL_CAP_MICROS
  }

  /** What the first `attempts` pauses take at least. */
  function Elapsed(attempts: nat): nat {
    if attempts == 0 then 0 else Elapsed(attempts - 1) + Pause(attempts - 1)
  }

  lemma {:induction false} PauseIsCapped(attempt: nat)
    requires attempt >= 4
    ensures Doubled(attempt) >= POLL_CAP_MICROS && Pause(attempt) == POLL_CAP_MICROS
  {
    if attempt == 4 {
      assert Doubled(1) == 40_000 && Doubled(2) == 80_000 && Doubled(3) == 160_000;
    } else {
      PauseIsCapped(attempt - 1);
    }
  }

  lemma {:induction false} ElapsedInFull(attempts: nat)
    requires attempts >= 4
    ensures Elapsed(attempts) == 300_000 + POLL_CAP_MICROS * (attempts - 4)
  {
    if attempts == 4 {
      assert Pause(0) == 20_000 && Pause(1) == 40_000 && Pause(2) == 80_000 && Pause(3) == 160_000;
      assert Elapsed(1) == 20_000 && Elapsed(2) == 60_000 && Elapsed(3) == 140_000;
    } else {
      ElapsedInFull(attempts - 1);
      PauseIsCapped(attempts - 1);
    }
  }

  // ---------------------------------------------------------------- one wait

  datatype Answer = Waits | Clear | StoreRefused

  /** What a wait meets at one poll: the poll's answer, the clock once it was answered, and the jitter its
      pause would get. */
  datatype Poll = Poll(answer: Answer, now: int, jitter: nat)

  datatype Outcome = TurnFree | Outlasted | NoSeat | StoreError

  function Sleep(polls: nat -> Poll, deadline: int, k: nat): int {
    var pause := Pause(k) + polls(k).jitter;
    var left := deadline - polls(k).now;
    if pause < left then pause else left
  }

  /** A sleep is asked for the pause and its jitter, but never past the deadline. */
  lemma {:induction false} SleepExactly(polls: nat -> Poll, deadline: int, k: nat)
    ensures Sleep(polls, deadline, k) in {Pause(k) + polls(k).jitter, deadline - polls(k).now}
    ensures Sleep(polls, deadline, k) <= Pause(k) + polls(k).jitter
            && polls(k).now + Sleep(polls, deadline, k) <= deadline
    ensures k == 0 ==> Pause(k) == 20_000
    ensures k > 0 ==> Pause(k) == if 2 * Pause(k - 1) < 250_000 then 2 * Pause(k - 1) else 250_000
  {
  }

  /** Sleeps last at least as long as asked, and clocks do not run back. */
  ghost predicate SleepsInFull(polls: nat -> Poll, deadline: int) {
    forall k: nat :: polls(k).now < deadline ==> polls(k).now + Sleep(polls, deadline, k) <= polls(k + 1).now
  }

  /** Whether a wait goes past its poll `k`. */
  predicate GoesOn(polls: nat -> Poll, deadline: int, k: nat) {
    polls(k).answer == Waits && polls(k).now < deadline
  }

  lemma {:induction false} PollsAreApart(polls: nat -> Poll, deadline: int, k: nat)
    requires SleepsInFull(polls, deadline)
    requires forall i: nat :: i < k ==> GoesOn(polls, deadline, i)
    ensures polls(0).now + Elapsed(k) <= polls(k).now || deadline <= polls(k).now
  {
    if k > 0 {
      PollsAreApart(polls, deadline, k - 1);
      assert GoesOn(polls, deadline, k - 1);
      assert polls(k - 1).now + Sleep(polls, deadline, k - 1) <= polls((k - 1) + 1).now;
    }
  }

  /** When a wait gives up: at `until`, or thirty seconds from its start. */
  function Deadline(start: int, until: Option<int>): int {
    if until.Some? then until.value else start + HOLD_MICROS
  }

  /** `wait`: the outcome and the number of polls are the environment's, exactly; the last poll but one
      came before the deadline, so the pauses bound how many there were, and a wait with no deadline of its own
      makes at most 124; and a seat is taken at most once and given back on every way out. `seatFree` is what
      its one attempt to sit down meets. */
  method Wait(polls: nat -> Poll, start: int, until: Option<int>, seatFree: bool)
    returns (outcome: Outcome, made: nat, taken: nat, givenBack: nat)
    requires SleepsInFull(polls, Deadline(start, until)) && start <= polls(0).now
    ensures made >= 1 && forall k: nat :: k < made - 1 ==> GoesOn(polls, Deadline(start, until), k)
    ensures made >= 2 ==> Elapsed(made - 2) < Deadline(start, until) - polls(0).now
    ensures until.None? ==> made <= 124
    ensures outcome == NoSeat <==> !seatFree && GoesOn(polls, Deadline(start, until), made - 1)
    ensures outcome == NoSeat ==> made == 1
    ensures outcome == TurnFree <==> polls(made - 1).answer == Clear
    ensures outcome == StoreError <==> polls(made - 1).answer == StoreRefused
    ensures outcome == Outlasted <==>
              && polls(made - 1).answer == Waits
              && polls(made - 1).now >= (if until.Some? then until.value else start + 30_000_000)
    ensures taken == givenBack <= 1
    ensures taken == 1 <==> seatFree && GoesOn(polls, Deadline(start, until), 0)
  {
    var deadline := Deadline(start, until);
    var attempt, seated := 0, false;
    taken, givenBack, made := 0, 0, 0;
    while true
      invariant made == attempt && seated == (attempt > 0) && (seated ==> seatFree)
      invariant taken == (if seated then 1 else 0) && givenBack == 0
      invariant forall k: nat :: k < attempt ==> GoesOn(polls, deadline, k)
      decreases if attempt == 0 then 1 else 0,
                if attempt == 0 || polls(attempt).now >= deadline then 0 else deadline - polls(attempt).now
    {
      var poll := polls(attempt);
      made := made + 1;
      if attempt > 0 {
        PollsAreApart(polls, deadline, attempt - 1);
        assert GoesOn(polls, deadline, attempt - 1);
      }
      if poll.answer == Clear {
        outcome := TurnFree;
        break;
      }
      if poll.answer == StoreRefused {
        outcome := StoreError;
        break;
      }
      if poll.now >= deadline {
        outcome := Outlasted;
        break;
      }
      assert GoesOn(polls, deadline, attempt);
      if !seated {
        if !seatFree {
          outcome := NoSeat;
          break;
        }
        taken := taken + 1;
      }
      seated := true;
      assert poll.now + Sleep(polls, deadline, attempt) <= polls(attempt + 1).now;
      PauseIsPositive(attempt);
      attempt := attempt + 1;
    }
    if seated {
      givenBack := givenBack + 1;
    }
    if until.None? {
      FewPollsFit(made, deadline - polls(0).now);
    }
  }

  lemma {:induction false} PauseIsPositive(attempt: nat)
    ensures Doubled(attempt) > 0 && Pause(attempt) > 0
  {
    if attempt > 0 {
      PauseIsPositive(attempt - 1);
    }
  }

  /** Pauses that fit into thirty seconds leave room for at most 124 polls. */
  lemma {:induction false} FewPollsFit(made: nat, span: int)
    requires made >= 2 ==> Elapsed(made - 2) < span
    requires span <= HOLD_MICROS
    ensures made <= 124
  {
    if made >= 125 {
      ElapsedInFull(made - 2);
    }
  }

  /** A ref held throughout, no jitter, and sleeps of exactly what was asked. */
  function HeldThroughout(start: int): nat -> Poll {
    (k: nat) => Poll(Waits, start + Elapsed(k), 0)
  }

  lemma {:induction false} HeldPollsSleepInFull(start: int, deadline: int)
    ensures SleepsInFull(HeldThroughout(start), deadline)
  {
    forall k: nat | HeldThroughout(start)(k).now < deadline
      ensures HeldThroughout(start)(k).now
              + Sleep(HeldThroughout(start), deadline, k) <= HeldThroughout(start)(k + 1).now
    {
      assert Elapsed(k + 1) == Elapsed(k) + Pause(k);
    }
  }

  lemma {:induction false} ShortOfTheHold(k: nat)
    ensures Elapsed(k) < HOLD_MICROS <==> k < 123
  {
    if k >= 4 {
      ElapsedInFull(k);
    } else {
      ElapsedInFull(4);
      assert Elapsed(4) == Elapsed(3) + Pause(3) && Elapsed(3) == Elapsed(2) + Pause(2)
             && Elapsed(2) == Elapsed(1) + Pause(1);
    }
  }

  /** 124 is reached: a default wait on a ref held throughout polls 124 times and is then outlasted. */
  method ADefaultWaitOf124Polls(start: int) returns (outcome: Outcome, made: nat)
    ensures made == 124 && outcome == Outlasted
  {
    hide SleepsInFull, Pause;
    var polls := HeldThroughout(start);
    HeldPollsSleepInFull(start, start + HOLD_MICROS);
    var taken, givenBack;
    outcome, made, taken, givenBack := Wait(polls, start, None, true);
    ShortOfTheHold(made - 1);
    if made >= 2 {
      ShortOfTheHold(made - 2);
      assert GoesOn(polls, start + HOLD_MICROS, made - 2);
    }
    hide Elapsed;
    assert !GoesOn(polls, start + HOLD_MICROS, made - 1);
  }

  // ---------------------------------------------------------------- every wait of the process

  /** One thread inside `wait`: polling, in a seat or not, or asleep in one. */
  datatype Waiter = Polling(seated: bool) | Sleeping

  datatype Seats = Seats(free: int, waiters: map<nat, Waiter>)

  /** `Exit` is every way out of the loop but a refused seat: the turn is free, the deadline passed, or
      the store refused the poll. */
  datatype Step = Begin(thread: nat) | SitDown(thread: nat) | Wake(thread: nat) | Exit(thread: nat)

  predicate Seated(s: Seats, t: nat) {
    t in s.waiters && (s.waiters[t].Sleeping? || s.waiters[t].seated)
  }

  function Next(s: Seats, step: Step): Seats {
    var t := step.thread;
    match step
    case Begin(_) => if t in s.waiters then s else s.(waiters := s.waiters[t := Polling(false)])
    case SitDown(_) =>
      if t !in s.waiters || s.waiters[t].Sleeping? then s
      else if s.waiters[t].seated then s.(waiters := s.waiters[t := Sleeping])
      else if s.free > 0 then Seats(s.free - 1, s.waiters[t := Sleeping])
      else s.(waiters := s.waiters - {t})
    case Wake(_) => if t in s.waiters && s.waiters[t].Sleeping? then s.(waiters := s.waiters[t := Polling(true)]) else s
    case Exit(_) =>
      if t !in s.waiters || s.waiters[t].Sleeping? then s
      else Seats(if s.waiters[t].seated then s.free + 1 else s.free, s.waiters - {t})
  }

  function Run(s: Seats, steps: seq<Step>): Seats
    decreases |steps|
  {
    if steps == [] then s else Next(Run(s, steps[..|steps| - 1]), steps[|steps| - 1])
  }

  function SeatedThreads(s: Seats): set<nat> {
    set t | t in s.waiters && Seated(s, t)
  }

  function Sleepers(s: Seats): set<nat> {
    set t | t in s.waiters && s.waiters[t].Sleeping?
  }

  /** A step moves its own thread only, and a seat for each change of its standing. */
  lemma {:induction false} StepMovesOneThread(s: Seats, step: Step)
    ensures forall u :: u != step.thread ==> (Seated(Next(s, step), u) <==> Seated(s, u))
    ensures Next(s, step).free + (if Seated(Next(s, step), step.thread) then 1 else 0)
            == s.free + (if Seated(s, step.thread) then 1 else 0)
    ensures s.free >= 0 ==> Next(s, step).free >= 0
  {
  }

  lemma {:induction false} StepKeepsSeats(s: Seats, step: Step)
    requires s.free >= 0 && s.free + |SeatedThreads(s)| == THREAD_WAITERS
    ensures var s' := Next(s, step); s'.free >= 0 && s'.free + |SeatedThreads(s')| == THREAD_WAITERS
  {
    StepMovesOneThread(s, step);
    var s', t := Next(s, step), step.thread;
    hide Next;
    if Seated(s, t) == Seated(s', t) {
      assert SeatedThreads(s') == SeatedThreads(s);
    } else if Seated(s', t) {
      assert SeatedThreads(s') == SeatedThreads(s) + {t};
    } else {
      assert SeatedThreads(s') == SeatedThreads(s) - {t};
    }
  }

  /** Over every interleaving of any number of threads: seats are neither lost nor minted, at most twenty
      threads sleep at once, the bounded semaphore is never released past its bound, and once every wait
      has ended all twenty seats are free. */
  lemma {:induction false} SeatsAreConserved(steps: seq<Step>)
    ensures var s := Run(Seats(20, map[]), steps);
            && 0 <= s.free <= 20 && s.free + |SeatedThreads(s)| == 20 && |Sleepers(s)| <= 20
            && (s.waiters == map[] ==> s.free == 20)
    decreases |steps|
  {
    var s := Run(Seats(THREAD_WAITERS, map[]), steps);
    if steps != [] {
      SeatsAreConserved(steps[..|steps| - 1]);
      StepKeepsSeats(Run(Seats(THREAD_WAITERS, map[]), steps[..|steps| - 1]), steps[|steps| - 1]);
    }
    assert SeatedThreads(s) == Sleepers(s) + (SeatedThreads(s) - Sleepers(s));
  }

  /** In every reachable state a waiter that asks to sleep is turned away if and only if it has no seat yet and
      twenty threads have one; it is asleep otherwise, and nobody else is moved either way. */
  lemma {:induction false} TurnedAwayExactly(steps: seq<Step>, t: nat)
    requires var s := Run(Seats(20, map[]), steps); t in s.waiters && s.waiters[t].Polling?
    ensures var s := Run(Seats(20, map[]), steps);
            var asked := Next(s, SitDown(t)).waiters;
            && (t !in asked <==> !s.waiters[t].seated && |SeatedThreads(s)| == 20)
            && (t in asked ==> asked == s.waiters[t := Sleeping])
            && (t !in asked ==> asked == s.waiters - {t})
  {
    SeatsAreConserved(steps);
  }

  /** A sleeper keeps its seat as it wakes, and a wait that ends gives it up. */
  lemma {:induction false} ASeatIsGivenUpAtTheEnd(s: Seats, t: nat)
    requires t in s.waiters && s.waiters[t].Sleeping?
    ensures Next(s, Wake(t)) == Seats(s.free, s.waiters[t := Polling(true)])
    ensures Next(Next(s, Wake(t)), Exit(t)) == Seats(s.free + 1, s.waiters - {t})
  {
  }

  /** Threads 0, 1, ... each come and ask to sleep. */
  function Arrivals(n: nat): seq<Step> {
    if n == 0 then [] else Arrivals(n - 1) + [Begin(n - 1)] + [SitDown(n - 1)]
  }

  ghost predicate FirstSleep(s: Seats, n: nat) {
    && s.free == (if n < 20 then 20 - n else 0)
    && (forall t: nat :: t in s.waiters <==> t < n && t < 20)
    && (forall t :: t in s.waiters ==> s.waiters[t] == Sleeping)
  }

  /** Twenty is reached, and is the end: of any number of arrivals the first twenty sleep and the rest are turned
      away. */
  lemma {:induction false} TwentySleep(n: nat)
    ensures FirstSleep(Run(Seats(20, map[]), Arrivals(n)), n)
  {
    if n > 0 {
      hide Next, FirstSleep;
      TwentySleep(n - 1);
      var came := Arrivals(n - 1) + [Begin(n - 1)];
      assert came[..|came| - 1] == Arrivals(n - 1);
      assert Arrivals(n)[..|came|] == came;
      OneMoreArrives(Run(Seats(20, map[]), Arrivals(n - 1)), n - 1);
    } else {
      assert FirstSleep(Seats(20, map[]), 0);
    }
  }

  lemma {:induction false} OneMoreArrives(s: Seats, n: nat)
    requires FirstSleep(s, n)
    ensures FirstSleep(Next(Next(s, Begin(n)), SitDown(n)), n + 1)
  {
  }
}
