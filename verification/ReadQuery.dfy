/**
 One held read of the console (`frontend/console/src/lib/reads.svelte.ts`, class `Query`): it can be started
 again while earlier starts are still out, answers land in any order, and only the latest start may show.

 A run of the machine is any interleaving of refreshes, touches and settlements, each start settling at most
 once, whenever it likes or never, on a clock that may move either way.
 */
module ReadQuery {
  import opened Outcomes

  datatype Answer<+T, +E> = Value(value: T) | Failure(reason: E)

  /** The object's own fields; `promise` is the start whose promise it hands out. */
  datatype Shown<+T, +E> =
    Shown(current: Option<T>, error: Option<E>, loading: bool, generation: nat, settledAt: int, promise: nat)

  datatype Write<+T> = Write(generation: nat, value: T)

  /** `inFlight` are the starts not yet settled; `writes` every assignment to `current` and the start it
      answered; `starts` when each start was made. */
  datatype World<+T, +E> =
    World(shown: Shown<T, E>, inFlight: set<nat>, clock: int, writes: seq<Write<T>>, starts: seq<int>)

  datatype Step<+T, +E> =
    | Clock(to: int)
    | Refresh
    | Touch
    | Settle(generation: nat, answer: Answer<T, E>)

  const FRESH_MS := 1000

  // ---------------------------------------------------------------- the machine

  function Begun<T, E>(w: World<T, E>): World<T, E> {
    var g := w.shown.generation + 1;
    w.(shown := w.shown.(generation := g, loading := true, promise := g),
       inFlight := w.inFlight + {g}, starts := w.starts + [w.clock])
  }

  predicate Stale<T, E>(w: World<T, E>) {
    !w.shown.loading && w.clock - w.shown.settledAt >= FRESH_MS
  }

  function Landed<T, E>(shown: Shown<T, E>, answer: Answer<T, E>, now: int): Shown<T, E> {
    match answer
    case Value(v) => shown.(current := Some(v), error := None, loading := false, settledAt := now)
    case Failure(e) => shown.(error := Some(e), loading := false, settledAt := now)
  }

  function Next<T, E>(w: World<T, E>, s: Step<T, E>): World<T, E> {
    match s
    case Clock(to) => w.(clock := to)
    case Refresh => Begun(w)
    case Touch => if Stale(w) then Begun(w) else w
    case Settle(g, answer) =>
      if g !in w.inFlight then w
      else if g != w.shown.generation then w.(inFlight := w.inFlight - {g})
      else w.(shown := Landed(w.shown, answer, w.clock), inFlight := w.inFlight - {g},
              writes := if answer.Value? then w.writes + [Write(g, answer.value)] else w.writes)
  }

  function Run<T, E>(w: World<T, E>, steps: seq<Step<T, E>>): World<T, E>
    decreases |steps|
  {
    if steps == [] then w else Next(Run(w, steps[..|steps| - 1]), steps[|steps| - 1])
  }

  /** A new read starts at once. */
  function New<T, E>(now: int): World<T, E> {
    Begun(World(Shown(None, None, false, 0, 0, 0), {}, now, [], []))
  }

  lemma {:induction false} RunOfBoth<T, E>(w: World<T, E>, first: seq<Step<T, E>>, second: seq<Step<T, E>>)
    ensures Run(w, first + second) == Run(Run(w, first), second)
    decreases |second|
  {
    var all := first + second;
    if second == [] {
      assert all == first;
    } else {
      assert all[..|all| - 1] == first + second[..|second| - 1];
      RunOfBoth(w, first, second[..|second| - 1]);
    }
  }

  // ---------------------------------------------------------------- what every run keeps

  ghost predicate WritesIncrease<T>(writes: seq<Write<T>>) {
    forall i, j :: 0 <= i < j < |writes| ==> writes[i].generation < writes[j].generation
  }

  ghost predicate Inv<T(!new), E(!new)>(w: World<T, E>) {
    && (w.shown.loading <==> w.shown.generation in w.inFlight)
    && (forall g :: g in w.inFlight ==> 1 <= g <= w.shown.generation)
    && w.shown.promise == w.shown.generation == |w.starts|
    && WritesIncrease(w.writes)
    && (forall i :: 0 <= i < |w.writes| ==>
          w.writes[i].generation <= w.shown.generation && w.writes[i].generation !in w.inFlight)
    && (w.shown.current == if w.writes == [] then None else Some(w.writes[|w.writes| - 1].value))
  }

  lemma {:induction false} RunKeepsInv<T(!new), E(!new)>(w: World<T, E>, steps: seq<Step<T, E>>)
    requires Inv(w)
    ensures Inv(Run(w, steps))
    decreases |steps|
  {
    if steps != [] {
      RunKeepsInv(w, steps[..|steps| - 1]);
      StepKeepsInv(Run(w, steps[..|steps| - 1]), steps[|steps| - 1]);
    }
  }

  lemma {:induction false} StepKeepsInv<T(!new), E(!new)>(w: World<T, E>, s: Step<T, E>)
    requires Inv(w)
    ensures Inv(Next(w, s))
  {
    var w' := Next(w, s);
    assert |w'.writes| == |w.writes| || |w'.writes| == |w.writes| + 1;
    forall i | 0 <= i < |w.writes| ensures w'.writes[i] == w.writes[i] {
    }
  }

  /** In every run, the starts that ever wrote `current` strictly increase, `current` is the last of their
      values, and the promise handed out is always the latest start's. */
  lemma {:induction false} AnswersNeverGoBack<T(!new), E(!new)>(now: int, steps: seq<Step<T, E>>)
    ensures var w := Run(New(now), steps);
            && WritesIncrease(w.writes)
            && w.shown.current == (if w.writes == [] then None else Some(w.writes[|w.writes| - 1].value))
            && w.shown.promise == w.shown.generation == |w.starts|
  {
    RunKeepsInv(New(now), steps);
  }

  // ---------------------------------------------------------------- loading

  /** The k-th step is the answer of start `g`, already made by then. */
  ghost predicate Answers<T(!new), E(!new)>(w: World<T, E>, steps: seq<Step<T, E>>, k: nat, g: nat) {
    k < |steps| && steps[k].Settle? && steps[k].generation == g && g <= Run(w, steps[..k]).shown.generation
  }

  ghost predicate Unsettled<T(!new), E(!new)>(w: World<T, E>, steps: seq<Step<T, E>>, g: nat) {
    1 <= g <= Run(w, steps).shown.generation && forall k :: !Answers(w, steps, k, g)
  }

  lemma {:induction false} AnswersInPrefix<T(!new), E(!new)>(w: World<T, E>, steps: seq<Step<T, E>>, k: nat, g: nat)
    requires steps != [] && k != |steps| - 1
    ensures Answers(w, steps, k, g) <==> Answers(w, steps[..|steps| - 1], k, g)
  {
    if k < |steps| - 1 {
      assert steps[..|steps| - 1][..k] == steps[..k];
    }
  }

  lemma {:induction false} InFlightIsUnsettled<T(!new), E(!new)>(now: int, steps: seq<Step<T, E>>, g: nat)
    ensures g in Run(New<T, E>(now), steps).inFlight <==> Unsettled(New(now), steps, g)
    decreases |steps|
  {
    var start := New<T, E>(now);
    if steps != [] {
      var head := steps[..|steps| - 1];
      var before, s := Run(start, head), steps[|steps| - 1];
      InFlightIsUnsettled<T, E>(now, head, g);
      RunKeepsInv(start, head);
      forall k: nat | k != |steps| - 1 ensures Answers(start, steps, k, g) <==> Answers(start, head, k, g) {
        AnswersInPrefix(start, steps, k, g);
      }
      assert !Answers(start, head, |steps| - 1, g);
      assert Answers(start, steps, |steps| - 1, g) <==> s.Settle? && s.generation == g && g <= before.shown.generation;
      if g > before.shown.generation {
        NotYetStarted(start, head, g);
      }
    }
  }

  /** An answer comes after its start. */
  lemma {:induction false} NotYetStarted<T(!new), E(!new)>(w: World<T, E>, steps: seq<Step<T, E>>, g: nat)
    requires g > Run(w, steps).shown.generation
    ensures forall k :: !Answers(w, steps, k, g)
  {
    forall k: nat | k < |steps| ensures !Answers(w, steps, k, g) {
      assert steps == steps[..k] + steps[k..];
      RunOfBoth(w, steps[..k], steps[k..]);
      GenerationGrows(Run(w, steps[..k]), steps[k..]);
    }
  }

  lemma {:induction false} GenerationGrows<T(!new), E(!new)>(w: World<T, E>, steps: seq<Step<T, E>>)
    ensures w.shown.generation <= Run(w, steps).shown.generation
    decreases |steps|
  {
    if steps != [] {
      GenerationGrows(w, steps[..|steps| - 1]);
    }
  }

  /** In every run, `loading` holds exactly while the latest start has no answer. */
  lemma {:induction false} LoadingExactlyWhileTheLatestIsOut<T(!new), E(!new)>(now: int, steps: seq<Step<T, E>>)
    ensures var w := Run(New<T, E>(now), steps);
            w.shown.loading <==> Unsettled(New(now), steps, w.shown.generation)
  {
    RunKeepsInv(New<T, E>(now), steps);
    InFlightIsUnsettled<T, E>(now, steps, Run(New<T, E>(now), steps).shown.generation);
  }

  // ---------------------------------------------------------------- the latest wins

  /** As long as nothing newer is started and the latest start is not answered, or was answered already,
      nothing shows: superseded answers, touches and the clock change no field at all. */
  lemma {:induction false} NothingElseShows<T(!new), E(!new)>(w: World<T, E>, steps: seq<Step<T, E>>)
    requires Inv(w) && Run(w, steps).shown.generation == w.shown.generation
    requires w.shown.generation in w.inFlight ==>
      forall s :: s in steps && s.Settle? ==> s.generation != w.shown.generation
    ensures Run(w, steps).shown == w.shown
    ensures w.shown.generation in Run(w, steps).inFlight <==> w.shown.generation in w.inFlight
    decreases |steps|
  {
    if steps != [] {
      var head := steps[..|steps| - 1];
      assert steps == head + [steps[|steps| - 1]];
      GenerationGrows(w, head);
      NothingElseShows(w, head);
    }
  }

  /** Latest wins: from a start that is out, whatever older answers land before or after, in any order, the
      read ends showing that start's own answer: its value and no error, or its error beside the value shown
      before; settled when that answer landed. */
  lemma {:induction false} LatestWins<T(!new), E(!new)>(
      w: World<T, E>, before: seq<Step<T, E>>, answer: Answer<T, E>, after: seq<Step<T, E>>)
    requires Inv(w) && w.shown.loading
    requires forall s :: s in before && s.Settle? ==> s.generation != w.shown.generation
    requires Run(w, before + [Settle(w.shown.generation, answer)] + after).shown.generation == w.shown.generation
    ensures Run(w, before + [Settle(w.shown.generation, answer)] + after).shown
            == Landed(w.shown, answer, Run(w, before).clock)
    ensures var shown := Run(w, before + [Settle(w.shown.generation, answer)] + after).shown;
            && !shown.loading && shown.settledAt == Run(w, before).clock
            && (answer.Value? ==> shown.current == Some(answer.value) && shown.error == None)
            && (answer.Failure? ==> shown.current == w.shown.current && shown.error == Some(answer.reason))
  {
    var s := Settle(w.shown.generation, answer);
    var early := Run(w, before);
    RunOfBoth(w, before + [s], after);
    assert (before + [s])[..|before|] == before;
    var landed := Next(early, s);
    assert Run(w, before + [s]) == landed;
    GenerationGrows(w, before);
    GenerationGrows(landed, after);
    NothingElseShows(w, before);
    RunKeepsInv(w, before);
    StepKeepsInv(early, s);
    NothingElseShows(landed, after);
  }

  // ---------------------------------------------------------------- bursts

  predicate Forward<T, E>(w: World<T, E>, steps: seq<Step<T, E>>)
    decreases |steps|
  {
    steps == [] ||
      (Forward(w, steps[..|steps| - 1])
       && (steps[|steps| - 1].Clock? ==> steps[|steps| - 1].to >= Run(w, steps[..|steps| - 1]).clock))
  }

  ghost predicate Apart(starts: seq<int>) {
    forall i :: 0 <= i < |starts| - 1 ==> starts[i + 1] - starts[i] >= FRESH_MS
  }

  lemma {:induction false} TouchesKeepApart<T(!new), E(!new)>(now: int, steps: seq<Step<T, E>>)
    requires Forward(New(now), steps) && forall s :: s in steps ==> !s.Refresh?
    ensures var w := Run(New<T, E>(now), steps);
            && Apart(w.starts) && w.starts != [] && w.starts[|w.starts| - 1] <= w.clock
            && (!w.shown.loading ==> w.starts[|w.starts| - 1] <= w.shown.settledAt)
    decreases |steps|
  {
    if steps != [] {
      var head := steps[..|steps| - 1];
      assert steps == head + [steps[|steps| - 1]];
      assert !steps[|steps| - 1].Refresh?;
      TouchesKeepApart<T, E>(now, head);
    }
  }

  /** Calls of a read deduplicate: on a clock that never goes back, two starts made by calling it are at least
      FRESH_MS apart, however many callers touch it and however fast it answers. */
  lemma {:induction false} TouchesAreDeduplicated<T(!new), E(!new)>(now: int, steps: seq<Step<T, E>>, i: nat, j: nat)
    requires Forward(New(now), steps) && forall s :: s in steps ==> !s.Refresh?
    requires i < j < |Run(New<T, E>(now), steps).starts|
    ensures var starts := Run(New<T, E>(now), steps).starts; starts[j] - starts[i] >= (j - i) * 1000
    decreases j
  {
    TouchesKeepApart<T, E>(now, steps);
    if i < j - 1 {
      TouchesAreDeduplicated<T, E>(now, steps, i, j - 1);
    }
    assert Run(New<T, E>(now), steps).starts[j - 1 + 1] - Run(New<T, E>(now), steps).starts[j - 1] >= FRESH_MS;
  }

  // ---------------------------------------------------------------- the object itself

  class Query<T(!new), E(!new)> {
    var current: Option<T>
    var error: Option<E>
    var loading: bool
    var generation: nat
    var settledAt: int
    var promise: nat
    /** Everything that has happened, this object's calls included. */
    ghost var world: World<T, E>
    ghost var trace: seq<Step<T, E>>
    ghost const born: int

    ghost predicate Good()
      reads this
    {
      && world == Run(New(born), trace) && Inv(world)
      && world.shown == Shown(current, error, loading, generation, settledAt, promise)
    }

    ghost method Note(s: Step<T, E>)
      requires world == Run(New(born), trace) && Inv(world)
      modifies this`world, this`trace
      ensures world == Run(New(born), trace) && Inv(world)
      ensures world == Next(old(world), s) && trace == old(trace) + [s]
    {
      StepKeepsInv(world, s);
      assert (trace + [s])[..|trace|] == trace;
      world := Next(world, s);
      trace := trace + [s];
    }

    constructor (now: int)
      ensures Good() && world == New(now) && trace == [] && loading
    {
      current, error, settledAt := None, None, 0;
      generation, loading, promise := 1, true, 1;
      world, trace, born := New(now), [], now;
    }

    /** Read again, whatever is in flight; the promise is the new start's. */
    method Refresh()
      requires Good()
      modifies this
      ensures Good() && trace == old(trace) + [Step.Refresh]
      ensures loading && generation == promise == old(generation) + 1
      ensures current == old(current) && error == old(error) && settledAt == old(settledAt)
    {
      generation := generation + 1;
      loading := true;
      promise := generation;
      Note(Step.Refresh);
    }

    /** Read again exactly when nothing is in flight and the last settlement is FRESH_MS old. */
    method Touch(now: int)
      requires Good()
      modifies this
      ensures Good() && trace == old(trace) + [Clock(now), Step.Touch]
      ensures generation == old(generation) + 1 <==> !old(loading) && now >= old(settledAt) + 1000
      ensures generation != old(generation) + 1 ==> world.shown == old(world).shown
    {
      Note(Clock(now));
      if !loading && now - settledAt >= FRESH_MS {
        generation := generation + 1;
        loading := true;
        promise := generation;
      }
      Note(Step.Touch);
      assert old(trace) + [Clock(now)] + [Step.Touch] == old(trace) + [Clock(now), Step.Touch];
    }

    /** The callback of start `g`: only the latest start's answer shows, and a failure leaves `current`. */
    method Settled(g: nat, answer: Answer<T, E>, now: int)
      requires Good() && g in world.inFlight
      modifies this
      ensures Good() && trace == old(trace) + [Clock(now), Settle(g, answer)]
      ensures world.inFlight == old(world).inFlight - {g}
      ensures g != generation ==> world.shown == old(world).shown
      ensures generation == old(generation) && promise == old(promise)
      ensures g != generation ==>
        current == old(current) && error == old(error) && loading == old(loading) && settledAt == old(settledAt)
      ensures g == generation ==> !loading && settledAt == now
      ensures g == generation && answer.Value? ==> current == Some(answer.value) && error == None
      ensures g == generation && answer.Failure? ==> current == old(current) && error == Some(answer.reason)
      ensures world.writes
              == old(world).writes + if g == generation && answer.Value? then [Write(g, answer.value)] else []
    {
      Note(Clock(now));
      if g == generation {
        match answer {
          case Value(v) => current, error := Some(v), None;
          case Failure(e) => error := Some(e);
        }
        loading := false;
        settledAt := now;
      }
      Note(Settle(g, answer));
      assert old(trace) + [Clock(now)] + [Settle(g, answer)] == old(trace) + [Clock(now), Settle(g, answer)];
    }
  }
}
