/**
 The process's shared view of the tables' turn records (`_SharedReads` in
 `lakehouse_kit/commit_turns.py`): one load answers every waiter, a write by this process clears the
 table's view, and a load that such a clearing overtook is not kept.

 The class below is the guarded sections as the code runs them; the machine interleaves those sections
 over any number of callers. Two counters observe a run and decide nothing: `events` numbers its
 sections, and `Answer.since` is the number of the section after which the answer's load began.
 */
module SharedReads {
  import opened Outcomes
  import opened SetSizes
  import CommitTurns

  type Turn = CommitTurns.Turn

  /** What two loads must agree on to share an answer. */
  datatype SharedRead = SharedRead(
    controlRoot: string, tableUuid: string, options: seq<(string, string)>, signer: Option<string>)

  /** `answeredAt` is on the process's monotonic clock, in microseconds. */
  datatype Answer = Answer(turns: seq<Turn>, answeredAt: int, since: nat)

  datatype Cache = Cache(
    held: map<SharedRead, Answer>, locks: set<SharedRead>, clearings: map<SharedRead, nat>, starts: nat)

  const SHARED_READ_MICROS := 100_000
  const SHARED_READ_TABLES := 1024

  // ---------------------------------------------------------------- the guarded sections

  function Count(c: Cache, read: SharedRead): nat {
    if read in c.clearings then c.clearings[read] else 0
  }

  /** Where the clearings of `read` stand. */
  function Cleared(c: Cache, read: SharedRead): (nat, nat) {
    (c.starts, Count(c, read))
  }

  predicate StartsOver(c: Cache, read: SharedRead) {
    read !in c.locks && |c.locks| >= SHARED_READ_TABLES
  }

  function WithLock(c: Cache, read: SharedRead): Cache {
    if StartsOver(c, read) then Cache(map[], {read}, map[], c.starts + 1)
    else c.(locks := c.locks + {read})
  }

  /** The view goes in any case; the count goes up where a lock stands for the read. */
  function WithoutView(c: Cache, read: SharedRead): Cache {
    c.(clearings := if read in c.locks then c.clearings[read := Count(c, read) + 1] else c.clearings,
       held := c.held - {read})
  }

  function WithAnswer(c: Cache, read: SharedRead, before: (nat, nat), answer: Answer): Cache {
    if Cleared(c, read) == before then c.(held := c.held[read := answer]) else c
  }

  function Peeked(c: Cache, read: SharedRead, now: int): Option<seq<Turn>> {
    if read !in c.held || now - c.held[read].answeredAt >= SHARED_READ_MICROS then None
    else Some(c.held[read].turns)
  }

  class Reads {
    var held: map<SharedRead, Answer>
    var locks: set<SharedRead>
    var clearings: map<SharedRead, nat>
    var starts: nat

    ghost function View(): Cache
      reads this
    {
      Cache(held, locks, clearings, starts)
    }

    constructor ()
      ensures View() == Cache(map[], {}, map[], 0)
    {
      held, locks, clearings, starts := map[], {}, map[], 0;
    }

    method Peek(read: SharedRead, now: int) returns (turns: Option<seq<Turn>>)
      ensures turns == Peeked(View(), read, now)
      ensures turns.Some? <==> read in held && now < held[read].answeredAt + 100_000
      ensures turns.Some? ==> turns.value == held[read].turns
    {
      if read !in held || now - held[read].answeredAt >= SHARED_READ_MICROS {
        return None;
      }
      return Some(held[read].turns);
    }

    method LockFor(read: SharedRead)
      modifies this
      ensures View() == WithLock(old(View()), read)
      ensures read in locks
      ensures read !in old(locks) && |old(locks)| >= 1024 ==>
        locks == {read} && held == map[] && clearings == map[] && starts == old(starts) + 1
      ensures read in old(locks) || |old(locks)| < 1024 ==>
        locks == old(locks) + {read} && held == old(held) && clearings == old(clearings) && starts == old(starts)
    {
      if read !in locks && |locks| >= SHARED_READ_TABLES {
        locks := {};
        held := map[];
        clearings := map[];
        starts := starts + 1;
      }
      locks := locks + {read};
    }

    method Stand(read: SharedRead) returns (before: (nat, nat))
      ensures before == Cleared(View(), read)
    {
      before := (starts, if read in clearings then clearings[read] else 0);
    }

    /** The end of a `get` that loaded: its caller gets the loaded turns whether or not they are kept. */
    method Keep(read: SharedRead, before: (nat, nat), answer: Answer) returns (turns: seq<Turn>)
      modifies this
      ensures View() == WithAnswer(old(View()), read, before, answer)
      ensures turns == answer.turns
    {
      turns := answer.turns;
      var now := Stand(read);
      if now == before {
        held := held[read := answer];
      }
    }

    method Forget(read: SharedRead)
      modifies this
      ensures View() == WithoutView(old(View()), read)
    {
      if read in locks {
        clearings := clearings[read := (if read in clearings then clearings[read] else 0) + 1];
      }
      held := held - {read};
    }
  }

  // ---------------------------------------------------------------- the machine

  /** Where one caller of `get` is: past its `_lock_for`, or loading since the section numbered `since`. */
  datatype Phase =
    | HasLock(read: SharedRead)
    | Loading(read: SharedRead, before: (nat, nat), since: nat)

  /** An answer handed to a caller, and the number of the last `forget` of its read completed by then. */
  datatype Given = Given(read: SharedRead, answer: Answer, forgotten: Option<nat>) {
    /** Its load began before that `forget` completed. */
    predicate Old() {
      forgotten.Some? && answer.since < forgotten.value
    }
  }

  /** `forgotten` is the number of the last completed `forget` of each read, `given` every answer handed out. */
  datatype World = World(
    cache: Cache, callers: map<nat, Phase>, events: nat, forgotten: map<SharedRead, nat>, given: seq<Given>)

  datatype Step =
    | LockFor(caller: nat, read: SharedRead)
    | Leave(caller: nat)
    | Snapshot(caller: nat)
    | Finish(caller: nat, turns: seq<Turn>, at: int)
    | Forget(read: SharedRead)
    | Peek(read: SharedRead, now: int)

  predicate Enabled(w: World, s: Step) {
    match s
    case LockFor(c, _) => c !in w.callers
    case Leave(c) => c in w.callers
    case Snapshot(c) => c in w.callers && w.callers[c].HasLock?
    case Finish(c, _, _) => c in w.callers && w.callers[c].Loading?
    case Forget(_) => true
    case Peek(_, _) => true
  }

  /** What a step hands a caller: a `get` its own load, whatever the counters say by then; a `peek`, and a `get`
      it answers, what is held and fresh. */
  function HandedOut(w: World, s: Step): Option<Given> {
    if s.Finish? && Enabled(w, s) then
      var p := w.callers[s.caller];
      Some(GivenNow(w, p.read, Answer(s.turns, s.at, p.since)))
    else if s.Peek? && Peeked(w.cache, s.read, s.now).Some? then Some(GivenNow(w, s.read, w.cache.held[s.read]))
    else None
  }

  function GivenNow(w: World, read: SharedRead, answer: Answer): Given {
    Given(read, answer, if read in w.forgotten then Some(w.forgotten[read]) else None)
  }

  function Next(w: World, s: Step): World {
    if !Enabled(w, s) then w
    else
      var out := HandedOut(w, s);
      var tick := w.(events := w.events + 1, given := if out.Some? then w.given + [out.value] else w.given);
      match s
      case LockFor(c, read) => tick.(cache := WithLock(w.cache, read), callers := w.callers[c := HasLock(read)])
      case Leave(c) => tick.(callers := w.callers - {c})
      case Snapshot(c) =>
        var read := w.callers[c].read;
        tick.(callers := w.callers[c := Loading(read, Cleared(w.cache, read), w.events)])
      case Finish(c, turns, at) =>
        var p := w.callers[c];
        tick.(cache := WithAnswer(w.cache, p.read, p.before, Answer(turns, at, p.since)), callers := w.callers - {c})
      case Forget(read) =>
        tick.(cache := WithoutView(w.cache, read), forgotten := w.forgotten[read := w.events])
      case Peek(_, _) => tick
  }

  /** The steps are the sections of the class: each enabled one does to the cache what its method does, numbers itself,
      and moves its own caller only. */
  lemma {:induction false} StepsAreTheSections(w: World, s: Step)
    requires Enabled(w, s)
    ensures Next(w, s).events == w.events + 1
    ensures s.LockFor? ==>
              && Next(w, s).cache == WithLock(w.cache, s.read)
              && Next(w, s).callers == w.callers[s.caller := HasLock(s.read)]
    ensures s.Snapshot? ==>
              var read := w.callers[s.caller].read;
              && Next(w, s).cache == w.cache
              && Next(w, s).callers == w.callers[s.caller := Loading(read, Cleared(w.cache, read), w.events)]
    ensures s.Finish? ==>
              var p := w.callers[s.caller];
              && Next(w, s).cache == WithAnswer(w.cache, p.read, p.before, Answer(s.turns, s.at, p.since))
              && Next(w, s).callers == w.callers - {s.caller}
    ensures s.Leave? ==> Next(w, s).cache == w.cache && Next(w, s).callers == w.callers - {s.caller}
    ensures s.Forget? ==>
              && Next(w, s).cache == WithoutView(w.cache, s.read) && Next(w, s).callers == w.callers
              && Next(w, s).forgotten == w.forgotten[s.read := w.events]
    ensures !s.Forget? ==> Next(w, s).forgotten == w.forgotten
    ensures s.Peek? ==> Next(w, s).cache == w.cache && Next(w, s).callers == w.callers
  {
  }

  function Run(w: World, steps: seq<Step>): World
    decreases |steps|
  {
    if steps == [] then w else Next(Run(w, steps[..|steps| - 1]), steps[|steps| - 1])
  }

  function Started(): World {
    World(Cache(map[], {}, map[], 0), map[], 0, map[], [])
  }

  // ---------------------------------------------------------------- coherence

  /** Every held answer was loaded by a load that began after the last completed `forget` of its read. */
  ghost predicate Coherent(w: World) {
    forall r :: r in w.cache.held && r in w.forgotten ==> w.forgotten[r] < w.cache.held[r].since
  }

  /** The one moment that matters: a snapshot is taken while its read still has its lock. */
  predicate Guarded(w: World, s: Step) {
    s.Snapshot? && Enabled(w, s) ==> w.callers[s.caller].read in w.cache.locks
  }

  ghost predicate AllGuarded(w: World, steps: seq<Step>) {
    forall i :: 0 <= i < |steps| ==> Guarded(Run(w, steps[..i]), steps[i])
  }

  /** A snapshot never runs ahead of the counters, and a load that could still keep its answer belongs to
      a read that has its lock and was not forgotten since the load began. */
  ghost predicate LoadIsSound(w: World, p: Phase)
    requires p.Loading?
  {
    && p.since < w.events
    && p.before.0 <= w.cache.starts
    && (p.before.0 == w.cache.starts ==> p.before.1 <= Count(w.cache, p.read))
    && (p.before == Cleared(w.cache, p.read) ==>
          p.read in w.cache.locks && (p.read in w.forgotten ==> w.forgotten[p.read] < p.since))
  }

  ghost predicate Inv(w: World) {
    && Coherent(w)
    && (forall r :: r in w.forgotten ==> w.forgotten[r] < w.events)
    && (forall c :: c in w.callers && w.callers[c].Loading? ==> LoadIsSound(w, w.callers[c]))
  }

  lemma {:induction false} StepKeepsInv(w: World, s: Step)
    requires Inv(w) && Guarded(w, s)
    ensures Inv(Next(w, s))
  {
    if Enabled(w, s) {
      var w' := Next(w, s);
      forall c | c in w'.callers && w'.callers[c].Loading? ensures LoadIsSound(w', w'.callers[c]) {
        if s.Snapshot? && c == s.caller {
          assert w'.callers[c].read in w.cache.locks;
        } else {
          assert c in w.callers && w.callers[c] == w'.callers[c];
          assert LoadIsSound(w, w.callers[c]);
        }
      }
      if s.Finish? {
        assert LoadIsSound(w, w.callers[s.caller]);
      }
    }
  }

  lemma {:induction false} RunKeepsInv(w: World, steps: seq<Step>)
    requires Inv(w) && AllGuarded(w, steps)
    ensures Inv(Run(w, steps))
    decreases |steps|
  {
    hide Inv, Guarded, Next;
    if steps != [] {
      var n := |steps| - 1;
      assert forall i :: 0 <= i < n ==> steps[..n][..i] == steps[..i] && steps[..n][i] == steps[i];
      RunKeepsInv(w, steps[..n]);
      assert Guarded(Run(w, steps[..n]), steps[n]);
      StepKeepsInv(Run(w, steps[..n]), steps[n]);
    }
  }

  /** In every interleaving whose snapshots are guarded, no view from before a completed `forget` is ever
      held, not even by a load that was in flight when the `forget` completed; so no `peek` answers one. */
  lemma {:induction false} NoViewFromBeforeAForget(steps: seq<Step>, read: SharedRead, now: int)
    requires AllGuarded(Started(), steps)
    ensures var w := Run(Started(), steps);
            Peeked(w.cache, read, now).Some? && read in w.forgotten ==> w.forgotten[read] < w.cache.held[read].since
  {
    RunKeepsInv(Started(), steps);
  }

  // ---------------------------------------------------------------- what a get hands its own caller

  /** A load that ends hands its caller what it loaded, kept or not; a peek hands out what is held for the read, while
      it is under a tenth of a second old; no other step hands out anything. */
  lemma {:induction false} HandedOutExactly(w: World, s: Step)
    ensures s.Finish? && s.caller in w.callers && w.callers[s.caller].Loading? ==>
              && HandedOut(w, s).Some? && HandedOut(w, s).value.read == w.callers[s.caller].read
              && HandedOut(w, s).value.answer == Answer(s.turns, s.at, w.callers[s.caller].since)
    ensures s.Peek? ==>
              (HandedOut(w, s).Some? <==> s.read in w.cache.held && s.now < w.cache.held[s.read].answeredAt + 100_000)
    ensures s.Peek? && HandedOut(w, s).Some? ==>
              HandedOut(w, s).value.read == s.read && HandedOut(w, s).value.answer == w.cache.held[s.read]
    ensures !s.Peek? && !s.Finish? ==> HandedOut(w, s).None?
    ensures HandedOut(w, s).Some? ==>
              var g := HandedOut(w, s).value;
              && (g.forgotten.Some? <==> g.read in w.forgotten)
              && (g.forgotten.Some? ==> g.forgotten.value == w.forgotten[g.read])
  {
  }

  /** The load in flight for `caller` began at step `j`, the section numbered `since`. */
  ghost predicate LoadBegan(steps: seq<Step>, caller: nat, j: nat, since: nat) {
    && j < |steps| && steps[j] == Snapshot(caller)
    && Enabled(Run(Started(), steps[..j]), steps[j]) && Run(Started(), steps[..j]).events == since
  }

  ghost predicate ForgottenAfter(steps: seq<Step>, read: SharedRead, j: nat) {
    exists k :: j < k < |steps| && steps[k] == Forget(read)
  }

  /** Step `s`, after `steps`, ends a load that a `forget` of its read overtook: one completed between the
      load's snapshot and its finish. */
  ghost predicate EndsAnOvertakenLoad(steps: seq<Step>, s: Step, g: Given) {
    s.Finish? && exists j: nat :: LoadBegan(steps, s.caller, j, g.answer.since) && ForgottenAfter(steps, g.read, j)
  }

  ghost predicate Numbered(w: World) {
    && (forall r :: r in w.forgotten ==> w.forgotten[r] < w.events)
    && (forall c :: c in w.callers && w.callers[c].Loading? ==> w.callers[c].since < w.events)
  }

  lemma {:induction false} RunIsNumbered(steps: seq<Step>)
    ensures Numbered(Run(Started(), steps))
    decreases |steps|
  {
    if steps != [] {
      RunIsNumbered(steps[..|steps| - 1]);
      StepIsNumbered(Run(Started(), steps[..|steps| - 1]), steps[|steps| - 1]);
      hide Next, Numbered;
    }
  }

  lemma {:induction false} StepIsNumbered(w: World, s: Step)
    requires Numbered(w)
    ensures Numbered(Next(w, s))
  {
    hide HandedOut, WithLock, WithoutView, WithAnswer;
  }

  lemma {:induction false} EventsGrow(steps: seq<Step>, j: nat)
    requires j <= |steps|
    ensures Run(Started(), steps[..j]).events <= Run(Started(), steps).events
    decreases |steps|
  {
    hide HandedOut, WithLock, WithoutView, WithAnswer;
    if j < |steps| {
      var head := steps[..|steps| - 1];
      assert head[..j] == steps[..j];
      EventsGrow(head, j);
    } else {
      assert steps[..j] == steps;
    }
  }

  lemma {:induction false} LoadBeganEarlier(steps: seq<Step>, caller: nat, j: nat, since: nat)
    requires steps != [] && j < |steps| - 1
    ensures LoadBegan(steps, caller, j, since) <==> LoadBegan(steps[..|steps| - 1], caller, j, since)
  {
    assert steps[..|steps| - 1][..j] == steps[..j];
  }

  /** Every load in flight began at some step, and remembers which. */
  lemma {:induction false} EveryLoadBegan(steps: seq<Step>, caller: nat)
    requires var w := Run(Started(), steps); caller in w.callers && w.callers[caller].Loading?
    ensures exists j: nat :: LoadBegan(steps, caller, j, Run(Started(), steps).callers[caller].since)
    decreases |steps|
  {
    hide HandedOut, WithLock, WithoutView, WithAnswer;
    var n := |steps| - 1;
    var before, s := Run(Started(), steps[..n]), steps[n];
    if s == Snapshot(caller) && Enabled(before, s) {
      assert LoadBegan(steps, caller, n, before.events);
    } else {
      EveryLoadBegan(steps[..n], caller);
      var j: nat :| LoadBegan(steps[..n], caller, j, before.callers[caller].since);
      LoadBeganEarlier(steps, caller, j, before.callers[caller].since);
    }
  }

  /** A read was last forgotten after a load began exactly when a later step forgot it. */
  lemma {:induction false} ForgottenSinceExactly(steps: seq<Step>, caller: nat, j: nat, since: nat, read: SharedRead)
    requires LoadBegan(steps, caller, j, since)
    ensures var w := Run(Started(), steps);
            read in w.forgotten && since < w.forgotten[read] <==> ForgottenAfter(steps, read, j)
    decreases |steps|
  {
    var n := |steps| - 1;
    var head := steps[..n];
    var before, s := Run(Started(), head), steps[n];
    RunIsNumbered(head);
    if j < n {
      LoadBeganEarlier(steps, caller, j, since);
      ForgottenSinceExactly(head, caller, j, since, read);
      SnapshotTicks(head, j);
      assert ForgottenAfter(steps, read, j) <==> ForgottenAfter(head, read, j) || s == Forget(read) by {
        if k :| j < k < |head| && head[k] == Forget(read) {
          assert steps[k] == Forget(read);
        }
        if k :| j < k < |steps| && steps[k] == Forget(read) {
          assert k < n ==> head[k] == Forget(read);
        }
        assert steps[n] == s;
      }
      hide HandedOut, WithLock, WithoutView, WithAnswer, Run;
      assert Run(Started(), steps) == Next(before, s) by { LastStep(steps); }
    } else {
      assert head == steps[..j];
    }
  }

  lemma {:induction false} LastStep(steps: seq<Step>)
    requires steps != []
    ensures Run(Started(), steps) == Next(Run(Started(), steps[..|steps| - 1]), steps[|steps| - 1])
  {
  }

  /** Past an enabled snapshot the numbers are past its own. */
  lemma {:induction false} SnapshotTicks(steps: seq<Step>, j: nat)
    requires j < |steps| && steps[j].Snapshot? && Enabled(Run(Started(), steps[..j]), steps[j])
    ensures Run(Started(), steps[..j]).events < Run(Started(), steps).events
  {
    hide HandedOut;
    assert steps[..j + 1][..j] == steps[..j];
    EventsGrow(steps, j + 1);
  }

  /** What guarded runs hand out, exactly: an answer from before the last completed `forget` of its read is
      handed out if and only if it is a `get`'s own load and such a `forget` completed between the load's
      snapshot and its finish. */
  lemma {:induction false} OldExactlyWhenOvertaken(steps: seq<Step>, s: Step)
    requires AllGuarded(Started(), steps) && HandedOut(Run(Started(), steps), s).Some?
    ensures var g := HandedOut(Run(Started(), steps), s).value;
            g.Old() <==> EndsAnOvertakenLoad(steps, s, g)
  {
    var w := Run(Started(), steps);
    var g := HandedOut(w, s).value;
    RunKeepsInv(Started(), steps);
    hide AllGuarded, Run;
    if s.Finish? {
      EveryLoadBegan(steps, s.caller);
      forall j: nat | LoadBegan(steps, s.caller, j, g.answer.since)
        ensures g.Old() <==> ForgottenAfter(steps, g.read, j)
      {
        ForgottenSinceExactly(steps, s.caller, j, g.answer.since, g.read);
      }
    }
  }

  /** The same of a whole run: every answer it ever handed out was handed out at some step, and is old exactly
      when that step ended an overtaken load. */
  lemma {:induction false} EveryAnswerGiven(steps: seq<Step>, g: Given)
    requires AllGuarded(Started(), steps) && g in Run(Started(), steps).given
    ensures exists n: nat :: n < |steps| && HandedOut(Run(Started(), steps[..n]), steps[n]) == Some(g)
              && (g.Old() <==> EndsAnOvertakenLoad(steps[..n], steps[n], g))
    decreases |steps|
  {
    var n := |steps| - 1;
    var head := steps[..n];
    var before := Run(Started(), head);
    GuardedPrefix(steps);
    GivenBy(before, steps[n], g);
    hide Next;
    if HandedOut(before, steps[n]) == Some(g) {
      OldExactlyWhenOvertaken(head, steps[n]);
    } else {
      EveryAnswerGiven(head, g);
      var m: nat :| m < |head| && HandedOut(Run(Started(), head[..m]), head[m]) == Some(g)
                    && (g.Old() <==> EndsAnOvertakenLoad(head[..m], head[m], g));
      assert head[..m] == steps[..m] && head[m] == steps[m];
    }
  }

  lemma {:induction false} GivenBy(w: World, s: Step, g: Given)
    requires g in Next(w, s).given
    ensures g in w.given || HandedOut(w, s) == Some(g)
  {
    hide HandedOut;
  }

  lemma {:induction false} GuardedPrefix(steps: seq<Step>)
    requires steps != [] && AllGuarded(Started(), steps)
    ensures AllGuarded(Started(), steps[..|steps| - 1])
  {
    hide Guarded, Run;
    var head := steps[..|steps| - 1];
    forall i | 0 <= i < |head| ensures Guarded(Run(Started(), head[..i]), head[i]) {
      assert head[..i] == steps[..i] && head[i] == steps[i];
    }
  }

  /** It does happen, on every read: a `forget` that completes while a guarded `get` loads leaves nothing held,
      and the `get` answers its caller the view from before it. */
  lemma {:induction false} AGetAnswersAnOvertakenLoad(read: SharedRead, turns: seq<Turn>, at: int)
    ensures var steps := [LockFor(0, read), Snapshot(0), Forget(read), Finish(0, turns, at)];
            var w := Run(Started(), steps);
            && AllGuarded(Started(), steps) && read !in w.cache.held
            && w.given == [Given(read, Answer(turns, at, 1), Some(2))] && w.given[0].Old()
  {
    var a, b, c, d := LockFor(0, read), Snapshot(0), Forget(read), Finish(0, turns, at);
    var steps := [a, b, c, d];
    RunOfFour(a, b, c, d);
    var w1 := Next(Started(), a);
    assert w1.cache == Cache(map[], {read}, map[], 0) && w1.callers == map[0 := HasLock(read)];
    var w3 := OvertakenLoad(w1, read);
    var w4 := Next(w3, d);
    hide Run;
    forall i | 0 <= i < |steps| ensures Guarded(Run(Started(), steps[..i]), steps[i]) {
    }
  }

  lemma {:induction false} OvertakenLoad(w: World, read: SharedRead) returns (w3: World)
    requires w.cache == Cache(map[], {read}, map[], 0) && w.callers == map[0 := HasLock(read)]
    requires w.events == 1 && w.forgotten == map[] && w.given == []
    ensures w3 == Next(Next(w, Snapshot(0)), Forget(read))
    ensures w3.callers == map[0 := Loading(read, (0, 0), 1)] && w3.cache == Cache(map[], {read}, map[read := 1], 0)
    ensures w3.events == 3 && w3.forgotten == map[read := 2] && w3.given == []
  {
    var w2 := Next(w, Snapshot(0));
    assert w2.callers == map[0 := Loading(read, (0, 0), 1)] && w2.cache == w.cache;
    w3 := Next(w2, Forget(read));
    assert w3.cache.held == map[];
  }

  lemma {:induction false} RunOfFour(a: Step, b: Step, c: Step, d: Step)
    ensures var steps := [a, b, c, d];
            && Run(Started(), steps[..0]) == Started() && Run(Started(), steps[..1]) == Next(Started(), a)
            && Run(Started(), steps[..2]) == Next(Next(Started(), a), b)
            && Run(Started(), steps[..3]) == Next(Next(Next(Started(), a), b), c)
            && Run(Started(), steps) == Next(Next(Next(Next(Started(), a), b), c), d)
  {
    hide Next;
    var steps := [a, b, c, d];
    assert steps[..1] == [a] && steps[..2] == [a, b] && steps[..3] == [a, b, c] && steps[..0] == [];
    assert Run(Started(), [a]) == Next(Started(), a) by { assert [a][..0] == []; }
    RunOfTwo(Started(), a, b);
    assert [a, b, c][..2] == [a, b];
  }

  // ---------------------------------------------------------------- the guard is exactly what is needed

  /** A snapshot is safe, whatever guarded steps follow it, if and only if its read has its lock. Without
      it, one `forget` of the read during the load goes uncounted and the stale answer is kept. */
  lemma {:induction false} SnapshotIsSafeExactlyWhenLocked(w: World, caller: nat)
    requires Inv(w) && Enabled(w, Snapshot(caller))
    ensures w.callers[caller].read in w.cache.locks
            <==> forall rest {:trigger Run(Next(w, Snapshot(caller)), rest)} ::
                   AllGuarded(Next(w, Snapshot(caller)), rest) ==> Coherent(Run(Next(w, Snapshot(caller)), rest))
  {
    var read := w.callers[caller].read;
    var w1 := Next(w, Snapshot(caller));
    if read in w.cache.locks {
      StepKeepsInv(w, Snapshot(caller));
      forall rest | AllGuarded(w1, rest) ensures Coherent(Run(w1, rest)) {
        RunKeepsInv(w1, rest);
      }
    } else {
      var rest := UncountedForget(w, caller);
      assert AllGuarded(w1, rest) && !Coherent(Run(w1, rest));
    }
  }

  lemma {:induction false} UncountedForget(w: World, caller: nat) returns (rest: seq<Step>)
    requires Enabled(w, Snapshot(caller)) && w.callers[caller].read !in w.cache.locks
    ensures AllGuarded(Next(w, Snapshot(caller)), rest)
    ensures !Coherent(Run(Next(w, Snapshot(caller)), rest))
    ensures forall s :: s in rest ==> !s.LockFor?
  {
    var read := w.callers[caller].read;
    var w1 := Next(w, Snapshot(caller));
    var forget, finish := Forget(read), Finish(caller, [], 0);
    rest := [forget, finish];
    assert rest[..1] == [forget];
    RunOfTwo(w1, forget, finish);
    var w3 := Run(w1, rest);
    assert read in w3.cache.held && read in w3.forgotten;
  }

  // ---------------------------------------------------------------- runs over few reads are guarded

  ghost predicate ReadsAmong(steps: seq<Step>, known: set<SharedRead>) {
    forall s :: s in steps && s.LockFor? ==> s.read in known
  }

  ghost predicate NeverStartedOver(w: World, known: set<SharedRead>) {
    && w.cache.locks <= known
    && (forall c :: c in w.callers ==> w.callers[c].read in w.cache.locks)
  }

  lemma {:induction false} FewReadsKeepTheirLocks(steps: seq<Step>, known: set<SharedRead>)
    requires ReadsAmong(steps, known) && |known| <= SHARED_READ_TABLES
    ensures NeverStartedOver(Run(Started(), steps), known)
    decreases |steps|
  {
    if steps != [] {
      var n := |steps| - 1;
      FewReadsKeepTheirLocks(steps[..n], known);
      assert steps[n] in steps;
      StepKeepsTheLocks(Run(Started(), steps[..n]), steps[n], known);
    }
  }

  lemma {:induction false} StepKeepsTheLocks(w: World, s: Step, known: set<SharedRead>)
    requires NeverStartedOver(w, known) && |known| <= SHARED_READ_TABLES
    requires s.LockFor? ==> s.read in known
    ensures NeverStartedOver(Next(w, s), known)
  {
    if s.LockFor? && s.read !in w.cache.locks {
      SubsetIsNoLarger(w.cache.locks + {s.read}, known);
    }
  }

  /** Any run over at most 1024 reads is guarded, and so coherent, however it interleaves. */
  lemma {:induction false} FewReadsAreCoherent(steps: seq<Step>, known: set<SharedRead>)
    requires ReadsAmong(steps, known) && |known| <= 1024
    ensures AllGuarded(Started(), steps) && Coherent(Run(Started(), steps))
  {
    forall i | 0 <= i < |steps| ensures Guarded(Run(Started(), steps[..i]), steps[i]) {
      FewReadsKeepTheirLocks(steps[..i], known);
    }
    RunKeepsInv(Started(), steps);
  }

  // ---------------------------------------------------------------- one read more is too many

  function Nth(n: nat): SharedRead {
    SharedRead("root", seq(n, _ => 'x'), [], None)
  }

  lemma {:induction false} NthIsInjective(m: nat, n: nat)
    requires Nth(m) == Nth(n)
    ensures m == n
  {
    assert |Nth(m).tableUuid| == |Nth(n).tableUuid|;
  }

  /** Callers 0, 1, ... each past `_lock_for`, on as many different reads. */
  function Lockers(n: nat): seq<Step> {
    seq(n, i requires 0 <= i < n => LockFor(i, Nth(i)))
  }

  function FirstReads(n: nat): set<SharedRead> {
    if n == 0 then {} else FirstReads(n - 1) + {Nth(n - 1)}
  }

  lemma {:induction false} NthAmongFirst(i: nat, n: nat)
    ensures Nth(i) in FirstReads(n) <==> i < n
  {
    if n > 0 {
      hide Nth;
      NthAmongFirst(i, n - 1);
      if Nth(i) == Nth(n - 1) {
        NthIsInjective(i, n - 1);
      }
    }
  }

  lemma {:induction false} FirstReadsCount(n: nat)
    ensures |FirstReads(n)| == n
  {
    if n > 0 {
      hide Nth;
      FirstReadsCount(n - 1);
      NthAmongFirst(n - 1, n - 1);
    }
  }

  /** The first `n` callers each have the lock of their own read, and there are no other locks or callers. */
  ghost predicate Filled(w: World, n: nat) {
    && w.cache.locks == FirstReads(n) && w.cache.starts == 0
    && (forall c :: c in w.callers <==> 0 <= c < n)
    && (forall c :: 0 <= c < n ==> w.callers[c] == HasLock(Nth(c)))
  }

  lemma {:induction false} OneMoreLock(w: World, n: nat)
    requires Filled(w, n) && n < SHARED_READ_TABLES
    ensures Filled(Next(w, LockFor(n, Nth(n))), n + 1)
  {
    hide Nth;
    FirstReadsCount(n);
    var w' := Next(w, LockFor(n, Nth(n)));
    assert w'.cache == w.cache.(locks := w.cache.locks + {Nth(n)}) && w'.callers == w.callers[n := HasLock(Nth(n))];
  }

  lemma {:induction false} LockersFill(n: nat)
    requires n <= SHARED_READ_TABLES
    ensures Filled(Run(Started(), Lockers(n)), n)
  {
    if n > 0 {
      hide Filled, Next, Nth;
      LockersFill(n - 1);
      assert Lockers(n)[..n - 1] == Lockers(n - 1);
      OneMoreLock(Run(Started(), Lockers(n - 1)), n - 1);
    }
  }

  /** With every lock taken, one read more leaves the first caller without its lock. */
  lemma {:induction false} OneMoreStartsOver(w: World)
    requires Filled(w, SHARED_READ_TABLES)
    ensures var n := SHARED_READ_TABLES;
            var w1 := Next(w, LockFor(n, Nth(n)));
            Enabled(w1, Snapshot(0)) && w1.callers[0].read !in w1.cache.locks
  {
    var n := SHARED_READ_TABLES;
    NthAmongFirst(n, n);
    NthAmongFirst(0, n);
    FirstReadsCount(n);
    hide Nth;
    var w1 := Next(w, LockFor(n, Nth(n)));
    assert w1.cache.locks == {Nth(n)};
    assert w1.callers[0] == w.callers[0] == HasLock(Nth(0));
  }

  lemma {:induction false} LockersAreAmongFirst(n: nat, m: nat)
    requires n <= m
    ensures ReadsAmong(Lockers(n), FirstReads(m))
  {
    hide Nth;
    forall s | s in Lockers(n) ensures s.LockFor? && s.read in FirstReads(m) {
      var i :| 0 <= i < n && Lockers(n)[i] == s;
      NthAmongFirst(i, m);
    }
  }

  /** One read past the limit is enough, from the empty cache: 1024 callers take locks, one more starts them
      over, the first then snapshots, and a `forget` during its load leaves its stale answer held. */
  lemma {:induction false} OneReadMoreLosesCoherence()
    ensures exists steps, known ::
              |known| == 1025 && ReadsAmong(steps, known) && !Coherent(Run(Started(), steps))
  {
    hide Next, Coherent, Nth, Filled, Enabled;
    var n := SHARED_READ_TABLES;
    LockersFill(n);
    var w := Run(Started(), Lockers(n));
    var over := LockFor(n, Nth(n));
    OneMoreStartsOver(w);
    var rest := UncountedForget(Next(w, over), 0);
    var steps := Lockers(n) + [over, Snapshot(0)] + rest;
    RunOfBoth(Started(), Lockers(n) + [over, Snapshot(0)], rest);
    RunOfBoth(Started(), Lockers(n), [over, Snapshot(0)]);
    RunOfTwo(w, over, Snapshot(0));
    hide Run;
    LockersAreAmongFirst(n, n + 1);
    NthAmongFirst(n, n + 1);
    FirstReadsCount(n + 1);
    assert ReadsAmong(steps, FirstReads(n + 1));
  }

  lemma {:induction false} RunOfTwo(w: World, a: Step, b: Step)
    ensures Run(w, [a, b]) == Next(Next(w, a), b)
  {
    assert [a, b][..1] == [a] && [a][..0] == [];
    assert Run(w, [a]) == Next(Run(w, []), a);
  }

  lemma {:induction false} RunOfBoth(w: World, first: seq<Step>, second: seq<Step>)
    ensures Run(w, first + second) == Run(Run(w, first), second)
    decreases |second|
  {
    var all := first + second;
    if second == [] {
      assert all == first;
    } else {
      assert all[..|all| - 1] == first + second[..|second| - 1];
      RunOfBoth(w, first, second[..|second| - 1]);
    }
  }
}
