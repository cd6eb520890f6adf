/**
 The lease a table's refs are committed under (`lakehouse_kit/commit_turns.py`): one record per
 table listing the turns held now, taken and released under the record's ETag and timed on the
 store's clock.

 Any number of processes act at once. A process reads, judges what it read, and writes under the
 ETag it read; between the two anything may happen. `World.seen` keeps every read ever made, and a
 write step may act on any of them, so the runs of the machine cover every interleaving, a writer
 that stalls arbitrarily long between its read and its write included.
 */
module CommitTurns {
  import opened Outcomes
  import opened EtagStore

  /** `ref` is None for main; `handedTo` names the stock writer a turn was handed to, if any. Times are the store's. */
  datatype Turn = Turn(token: string, ref: Option<string>, takenAt: int, expiresAt: int, handedTo: Option<string>)

  datatype StoreRead = StoreRead(stored: Option<Stored<seq<Turn>>>, at: int)

  /** `holders` are the turns granted by a take that landed and not ended by a release that landed:
      what the committing doors believe they hold. */
  datatype World = World(cell: Cell<seq<Turn>>, seen: set<StoreRead>, holders: set<Turn>)

  datatype Step =
    | Tick(elapsed: nat)
    | Read
    | Take(read: StoreRead, token: string, ref: Option<string>, hold: int, handedTo: Option<string>, etag: Etag)
    | Release(read: StoreRead, ended: string, etag: Etag)

  // ---------------------------------------------------------------- what a read is judged to hold

  function Live(turns: seq<Turn>, now: int): (kept: seq<Turn>)
    ensures forall t :: t in kept <==> t in turns && t.expiresAt > now
  {
    if turns == [] then []
    else (if turns[0].expiresAt > now then [turns[0]] else []) + Live(turns[1..], now)
  }

  function Without(turns: seq<Turn>, token: string): (kept: seq<Turn>)
    ensures forall t :: t in kept <==> t in turns && t.token != token
  {
    if turns == [] then []
    else (if turns[0].token != token then [turns[0]] else []) + Without(turns[1..], token)
  }

  function KeptBy(read: StoreRead): seq<Turn> {
    if read.stored.None? then [] else Live(read.stored.value.body, read.at)
  }

  predicate Busy(turns: seq<Turn>, ref: Option<string>) {
    exists t :: t in turns && t.ref == ref
  }

  predicate Names(turns: seq<Turn>, token: string) {
    exists t :: t in turns && t.token == token
  }

  function Mine(s: Step): Turn
    requires s.Take?
  {
    Turn(s.token, s.ref, s.read.at, s.read.at + s.hold, s.handedTo)
  }

  /** The list a write step puts in the record. */
  function Written(s: Step): seq<Turn>
    requires s.Take? || s.Release?
  {
    if s.Take? then KeptBy(s.read) + [Mine(s)] else Without(KeptBy(s.read), s.ended)
  }

  // ---------------------------------------------------------------- the machine

  /** The write's own judgement of its read: a take writes only over a ref nobody holds, a release only
      a turn its read still keeps. */
  predicate Judged(s: Step)
    requires s.Take? || s.Release?
  {
    if s.Take? then !Busy(KeptBy(s.read), s.ref) else s.read.stored.Some? && Names(KeptBy(s.read), s.ended)
  }

  predicate Lands(w: World, s: Step)
    requires s.Take? || s.Release?
  {
    s.read in w.seen && Judged(s) && WriteLands(w.cell, s.read.stored, Written(s), s.etag)
  }

  /** A write whose precondition the store refuses changes nothing. */
  function Next(w: World, s: Step): World {
    match s
    case Tick(elapsed) => w.(cell := Advance(w.cell, elapsed))
    case Read => w.(seen := w.seen + {StoreRead(w.cell.stored, w.cell.clock)})
    case Take(_, _, _, _, _, etag) =>
      if Lands(w, s) then w.(cell := Put(w.cell, Written(s), etag), holders := w.holders + {Mine(s)}) else w
    case Release(_, ended, etag) =>
      if Lands(w, s)
      then w.(cell := Put(w.cell, Written(s), etag), holders := set h | h in w.holders && h.token != ended)
      else w
  }

  /** Time passes in ticks only, and a record is learnt by reading it only: as it then stands, at the clock of then. */
  lemma {:induction false} TimeAndReads(w: World, s: Step)
    ensures Next(w, s).cell.clock == w.cell.clock + (if s.Tick? then s.elapsed else 0)
    ensures s.Tick? || s.Read? ==>
              Next(w, s).cell.stored == w.cell.stored && Next(w, s).holders == w.holders
    ensures Next(w, s).seen == w.seen + (if s.Read? then {StoreRead(w.cell.stored, w.cell.clock)} else {})
  {
  }

  function Run(w: World, steps: seq<Step>): World
    decreases |steps|
  {
    if steps == [] then w else Next(Run(w, steps[..|steps| - 1]), steps[|steps| - 1])
  }

  function Started(clock: int): World {
    World(Cell(None, clock, map[]), {}, {})
  }

  // ---------------------------------------------------------------- what every run keeps

  ghost predicate OnePerRef(turns: seq<Turn>) {
    forall i, j :: 0 <= i < j < |turns| ==> turns[i].ref != turns[j].ref
  }

  /** Every read is of a content the store did name, made no later than now; and a record once read is there to
      stay, since takes and releases only rewrite it. */
  ghost predicate ReadsAreOld(w: World) {
    forall r :: r in w.seen ==>
      r.at <= w.cell.clock && StillNamed(w.cell, r.stored) && (r.stored.Some? ==> w.cell.stored.Some?)
  }

  ghost predicate Recorded(w: World, h: Turn) {
    w.cell.stored.Some? && h in w.cell.stored.value.body
  }

  /** Granted, unreleased and unexpired. */
  predicate HoldsNow(w: World, h: Turn) {
    h in w.holders && h.expiresAt > w.cell.clock
  }

  ghost predicate Inv(w: World) {
    && Valid(w.cell)
    && ReadsAreOld(w)
    && (forall e :: e in w.cell.named ==> OnePerRef(w.cell.named[e]))
    && (forall h :: HoldsNow(w, h) ==> Recorded(w, h))
  }

  lemma {:induction false} LiveKeepsOnePerRef(turns: seq<Turn>, now: int)
    requires OnePerRef(turns)
    ensures OnePerRef(Live(turns, now))
  {
    if turns != [] {
      LiveKeepsOnePerRef(turns[1..], now);
      assert forall t :: t in Live(turns[1..], now) ==> t.ref != turns[0].ref by {
        forall t | t in Live(turns[1..], now) ensures t.ref != turns[0].ref {
          var k :| 0 <= k < |turns[1..]| && turns[1..][k] == t;
          assert turns[k + 1] == t;
        }
      }
    }
  }

  lemma {:induction false} WithoutKeepsOnePerRef(turns: seq<Turn>, token: string)
    requires OnePerRef(turns)
    ensures OnePerRef(Without(turns, token))
  {
    if turns != [] {
      WithoutKeepsOnePerRef(turns[1..], token);
      assert forall t :: t in Without(turns[1..], token) ==> t.ref != turns[0].ref by {
        forall t | t in Without(turns[1..], token) ensures t.ref != turns[0].ref {
          var k :| 0 <= k < |turns[1..]| && turns[1..][k] == t;
          assert turns[k + 1] == t;
        }
      }
    }
  }

  lemma {:induction false} AddingKeepsOnePerRef(turns: seq<Turn>, t: Turn)
    requires OnePerRef(turns) && !Busy(turns, t.ref)
    ensures OnePerRef(turns + [t])
  {
    assert forall i :: 0 <= i < |turns| ==> turns[i] in turns;
  }

  /** A read's body is, under the invariant, the body any write conditioned on it replaces. */
  lemma {:induction false} ReplacesWhatItRead(w: World, s: Step)
    requires Inv(w) && (s.Take? || s.Release?) && Lands(w, s)
    ensures s.read.stored.None? <==> w.cell.stored.None?
    ensures s.read.stored.Some? ==> w.cell.stored.value.body == s.read.stored.value.body
  {
    WriteActsOnWhatWasRead(w.cell, s.read.stored, Written(s), s.etag);
  }

  lemma {:induction false} WrittenIsOnePerRef(w: World, s: Step)
    requires Inv(w) && (s.Take? || s.Release?) && Lands(w, s)
    ensures OnePerRef(Written(s))
  {
    if s.read.stored.Some? {
      LiveKeepsOnePerRef(s.read.stored.value.body, s.read.at);
    }
    assert OnePerRef(KeptBy(s.read));
    hide Inv, KeptBy;
    if s.Release? {
      WithoutKeepsOnePerRef(KeptBy(s.read), s.ended);
    } else {
      AddingKeepsOnePerRef(KeptBy(s.read), Mine(s));
    }
  }

  lemma {:induction false} StepKeepsInv(w: World, s: Step)
    requires Inv(w)
    ensures Inv(Next(w, s))
  {
    var w' := Next(w, s);
    if (s.Take? || s.Release?) && Lands(w, s) {
      ReplacesWhatItRead(w, s);
      WrittenIsOnePerRef(w, s);
    }
    forall h | HoldsNow(w', h) ensures Recorded(w', h) {
      if h in w.holders {
        assert HoldsNow(w, h);
      }
    }
  }

  lemma {:induction false} RunKeepsInv(w: World, steps: seq<Step>)
    requires Inv(w)
    ensures Inv(Run(w, steps))
    decreases |steps|
  {
    if steps != [] {
      RunKeepsInv(w, steps[..|steps| - 1]);
      StepKeepsInv(Run(w, steps[..|steps| - 1]), steps[|steps| - 1]);
    }
  }

  // ---------------------------------------------------------------- the theorems

  /** No replace ever finds its record gone, so a take or release that loses leaves the key as it was on an s3
      root and on a local one alike. */
  lemma {:induction false} NoReplaceMeetsNothing(clock: int, steps: seq<Step>, s: Step)
    requires (s.Take? || s.Release?) && s.read in Run(Started(clock), steps).seen && s.read.stored.Some?
    ensures Run(Started(clock), steps).cell.stored.Some?
  {
    RunKeepsInv(Started(clock), steps);
  }

  /** In every interleaving: the record lists at most one turn per ref, and two turns that are both
      granted, unreleased and unexpired on one ref are the same turn, so no two tokens ever hold it. */
  lemma {:induction false} MutualExclusion(clock: int, steps: seq<Step>, a: Turn, b: Turn)
    ensures var w := Run(Started(clock), steps);
            && (w.cell.stored.Some? ==> OnePerRef(w.cell.stored.value.body))
            && (a.ref == b.ref && HoldsNow(w, a) && HoldsNow(w, b) ==> a == b)
  {
    RunKeepsInv(Started(clock), steps);
    var w := Run(Started(clock), steps);
    if a.ref == b.ref && HoldsNow(w, a) && HoldsNow(w, b) {
      var body := w.cell.stored.value.body;
      assert Recorded(w, a) && Recorded(w, b);
      assert OnePerRef(body);
    }
  }

  /** A live turn leaves the record in exactly one way: a landed release of its own token. */
  lemma {:induction false} LiveTurnLeavesOnlyByItsRelease(clock: int, steps: seq<Step>, s: Step, t: Turn)
    requires Recorded(Run(Started(clock), steps), t)
    requires t.expiresAt > Next(Run(Started(clock), steps), s).cell.clock
    ensures var w := Run(Started(clock), steps);
            !Recorded(Next(w, s), t) <==> s.Release? && Lands(w, s) && s.ended == t.token
  {
    RunKeepsInv(Started(clock), steps);
    var w := Run(Started(clock), steps);
    if (s.Take? || s.Release?) && Lands(w, s) {
      ReplacesWhatItRead(w, s);
      assert t in KeptBy(s.read);
    }
  }

  /** What `held` promises its block: from the take that granted it until it lapses or is released,
      whatever everyone else does, the turn stays in the record and no other turn on its ref is live. */
  lemma {:induction false} HeldUntilReleased(w: World, h: Turn, steps: seq<Step>)
    requires Inv(w) && h in w.holders
    requires forall s :: s in steps && s.Release? ==> s.ended != h.token
    requires h.expiresAt > Run(w, steps).cell.clock
    ensures var w' := Run(w, steps);
            && Recorded(w', h)
            && (forall t :: Recorded(w', t) && t.ref == h.ref ==> t == h)
  {
    HolderStays(w, h, steps);
    RunKeepsInv(w, steps);
    assert HoldsNow(Run(w, steps), h);
  }

  lemma {:induction false} HolderStays(w: World, h: Turn, steps: seq<Step>)
    requires h in w.holders
    requires forall s :: s in steps && s.Release? ==> s.ended != h.token
    ensures h in Run(w, steps).holders
    decreases |steps|
  {
    if steps != [] {
      HolderStays(w, h, steps[..|steps| - 1]);
      assert steps[|steps| - 1] in steps;
    }
  }

  // ---------------------------------------------------------------- the code's own loops

  const ATTEMPTS := 8

  /** What one round of a take meets from outside: whether its deadline has passed before and after it
      waits, whether the wait is refused a seat, and what the other writers do while it waits and
      between its read and its write. */
  datatype Round = Round(late: bool, refused: bool, waiting: seq<Step>, between: seq<Step>, lateNow: bool)

  datatype Taken = Held | AnotherHolds | NoSeat | EveryRoundLost

  datatype Ended = Gone | Released | NotReleased

  ghost predicate Lists(w: World, token: string, ref: Option<string>) {
    w.cell.stored.Some? && exists t :: t in w.cell.stored.value.body && t.token == token && t.ref == ref
  }

  function ReadNow(w: World): StoreRead {
    StoreRead(w.cell.stored, w.cell.clock)
  }

  /** The read keeps a turn of `token` on `ref`. */
  predicate Holding(read: StoreRead, token: string, ref: Option<string>) {
    exists t :: t in KeptBy(read) && t.ref == ref && t.token == token
  }

  /** The record lists `t` on `ref`, and the store's clock has not reached its end. */
  ghost predicate LiveOn(w: World, ref: Option<string>, t: Turn) {
    w.cell.stored.Some? && t in w.cell.stored.value.body && t.ref == ref && w.cell.clock < t.expiresAt
  }

  /** Somebody's turn on `ref` is live. */
  ghost predicate RefIsTaken(w: World, ref: Option<string>) {
    exists t :: LiveOn(w, ref, t)
  }

  /** Some live turn on `ref` is `token`'s, whoever it was handed to. */
  ghost predicate HeldBy(w: World, ref: Option<string>, token: string) {
    exists t :: LiveOn(w, ref, t) && t.token == token
  }

  /** There is a live turn on `ref`, and none of `token`'s. */
  ghost predicate HeldByAnother(w: World, ref: Option<string>, token: string) {
    RefIsTaken(w, ref) && forall t :: LiveOn(w, ref, t) ==> t.token != token
  }

  /** The tests a take makes on what it read say just that. */
  lemma {:induction false} TestsAreOfLiveTurns(w: World, ref: Option<string>, token: string)
    ensures Holding(ReadNow(w), token, ref) <==> HeldBy(w, ref, token)
    ensures Busy(KeptBy(ReadNow(w)), ref) && !Holding(ReadNow(w), token, ref) <==> HeldByAnother(w, ref, token)
    ensures Busy(KeptBy(ReadNow(w)), ref) <==> RefIsTaken(w, ref)
    ensures RefIsTaken(w, ref) <==> HeldBy(w, ref, token) || HeldByAnother(w, ref, token)
    ensures !(HeldBy(w, ref, token) && HeldByAnother(w, ref, token))
  {
    var kept := KeptBy(ReadNow(w));
    assert forall t :: LiveOn(w, ref, t) <==> t in kept && t.ref == ref;
  }

  /** The record lists `t`, on whatever ref, and the store's clock has not reached its end. */
  ghost predicate IsLive(w: World, t: Turn) {
    w.cell.stored.Some? && t in w.cell.stored.value.body && w.cell.clock < t.expiresAt
  }

  /** The lists a take and a release leave, turn by turn: the live ones and the new one, and the live ones but the
      token's. */
  lemma {:induction false} ListsAreOfLiveTurns(
      w: World, token: string, ref: Option<string>, hold: int, handedTo: Option<string>, t: Turn)
    ensures t in KeptBy(ReadNow(w)) <==> IsLive(w, t)
    ensures t in Joined(ReadNow(w), token, ref, hold, handedTo)
            <==> IsLive(w, t) || t == Turn(token, ref, w.cell.clock, w.cell.clock + hold, handedTo)
    ensures t in Without(KeptBy(ReadNow(w)), token) <==> IsLive(w, t) && t.token != token
    ensures Names(KeptBy(ReadNow(w)), token) <==> exists x :: IsLive(w, x) && x.token == token
  {
    assert forall x :: x in KeptBy(ReadNow(w)) <==> IsLive(w, x);
  }

  lemma {:induction false} OnlyTheRecordCounts(w: World, v: World, ref: Option<string>, token: string)
    requires w.cell == v.cell
    ensures HeldBy(w, ref, token) <==> HeldBy(v, ref, token)
    ensures HeldByAnother(w, ref, token) <==> HeldByAnother(v, ref, token)
    ensures KeptBy(ReadNow(w)) == KeptBy(ReadNow(v)) && ReadNow(w) == ReadNow(v)
    ensures RefIsTaken(w, ref) <==> RefIsTaken(v, ref)
  {
    hide KeptBy;
    assert forall t :: LiveOn(w, ref, t) <==> LiveOn(v, ref, t);
  }

  /** What a take puts in the record: the turns still live, and its own behind them. */
  function Joined(read: StoreRead, token: string, ref: Option<string>, hold: int, handedTo: Option<string>): seq<Turn> {
    KeptBy(read) + [Turn(token, ref, read.at, read.at + hold, handedTo)]
  }

  predicate BodyIs(w: World, body: seq<Turn>) {
    w.cell.stored.Some? && w.cell.stored.value.body == body
  }

  /** Somebody's write landed at step `k`. */
  ghost predicate WriteLanded(w: World, steps: seq<Step>, k: nat) {
    k < |steps| && (steps[k].Take? || steps[k].Release?) && Lands(Run(w, steps[..k]), steps[k])
  }

  /** Another turn than `token`'s was live on `ref` after `k` steps. */
  ghost predicate AnotherHeld(w: World, steps: seq<Step>, k: nat, ref: Option<string>, token: string) {
    k <= |steps| && HeldByAnother(Run(w, steps[..k]), ref, token)
  }

  /** Between steps `i` and `j` somebody's write landed. */
  ghost predicate Outwritten(w: World, steps: seq<Step>, i: nat, j: nat) {
    exists k: nat :: i <= k < j && WriteLanded(w, steps, k)
  }

  /** Between steps `i` and `j` another held the ref, or somebody's write landed. */
  ghost predicate Contested(w: World, steps: seq<Step>, i: nat, j: nat, ref: Option<string>, token: string) {
    (exists k: nat :: i <= k <= j && AnotherHeld(w, steps, k, ref, token)) || Outwritten(w, steps, i, j)
  }

  /** `at` marks off rounds one after the other within the steps from `since` on. */
  ghost predicate Marks(at: seq<nat>, since: nat, steps: seq<Step>) {
    && at != [] && since <= at[0] && at[|at| - 1] <= |steps|
    && forall i, j :: 0 <= i < j < |at| ==> at[i] <= at[j]
  }

  ghost predicate EachContested(w: World, steps: seq<Step>, at: seq<nat>, ref: Option<string>, token: string) {
    forall i :: 0 <= i < |at| - 1 ==> Contested(w, steps, at[i], at[i + 1], ref, token)
  }

  ghost predicate EachOutwritten(w: World, steps: seq<Step>, at: seq<nat>) {
    forall i :: 0 <= i < |at| - 1 ==> Outwritten(w, steps, at[i], at[i + 1])
  }

  /** What happened stays so as more happens. */
  lemma {:induction false} OutwrittenStays(w: World, steps: seq<Step>, longer: seq<Step>, i: nat, j: nat)
    requires steps <= longer && j <= |steps| && Outwritten(w, steps, i, j)
    ensures Outwritten(w, longer, i, j)
  {
    var k: nat :| i <= k < j && WriteLanded(w, steps, k);
    assert steps[..k] == longer[..k];
    assert WriteLanded(w, longer, k);
  }

  lemma {:induction false} ContestedStays(
      w: World, steps: seq<Step>, longer: seq<Step>, i: nat, j: nat, ref: Option<string>, token: string)
    requires steps <= longer && j <= |steps| && Contested(w, steps, i, j, ref, token)
    ensures Contested(w, longer, i, j, ref, token)
  {
    hide WriteLanded, HeldByAnother;
    if Outwritten(w, steps, i, j) {
      OutwrittenStays(w, steps, longer, i, j);
    } else {
      var k: nat :| i <= k <= j && AnotherHeld(w, steps, k, ref, token);
      assert steps[..k] == longer[..k];
      assert AnotherHeld(w, longer, k, ref, token);
    }
  }

  /** A record that is not what it was has been written in between. */
  lemma {:induction false} ChangesAreWrites(w: World, steps: seq<Step>, i: nat)
    requires i <= |steps| && Run(w, steps[..i]).cell.stored != Run(w, steps).cell.stored
    ensures Outwritten(w, steps, i, |steps|)
    decreases |steps|
  {
    hide Lands;
    assert steps[..|steps|] == steps;
    var n := |steps| - 1;
    var head := steps[..n];
    assert head[..i] == steps[..i];
    if (steps[n].Take? || steps[n].Release?) && Lands(Run(w, head), steps[n]) {
      assert WriteLanded(w, steps, n);
    } else {
      ChangesAreWrites(w, head, i);
      OutwrittenStays(w, head, steps, i, n);
      var k: nat :| i <= k < n && WriteLanded(w, steps, k);
    }
  }

  /** Nobody else acts, and every wait finds a seat. */
  predicate Alone(rounds: seq<Round>) {
    forall r :: r in rounds ==> r.waiting == [] && r.between == [] && !r.refused
  }

  /** Nobody acts between the call and its first read: its deadline has passed already, as a hand's has, or the wait
      finds the ref free at once. */
  predicate StartsAtOnce(rounds: seq<Round>) {
    rounds != [] && (rounds[0].late || (rounds[0].waiting == [] && !rounds[0].refused))
  }

  /** `trace` is everything that has happened since `start`, this process's steps and everyone else's. */
  class TableTurns {
    var world: World
    ghost const start: World
    ghost var trace: seq<Step>

    ghost predicate Good()
      reads this
    {
      Inv(start) && Inv(world) && world == Run(start, trace)
    }

    /** Some moment since the trace was `since` long, the record listed `token`'s turn on `ref`. */
    ghost predicate ListedSince(since: nat, token: string, ref: Option<string>)
      reads this
    {
      exists k :: since <= k <= |trace| && Lists(Run(start, trace[..k]), token, ref)
    }

    constructor (clock: int)
      ensures Good() && world == Started(clock) && trace == []
    {
      world := Started(clock);
      start := Started(clock);
      trace := [];
    }

    method Do(s: Step)
      requires Good()
      modifies this
      ensures Good() && world == Next(old(world), s) && trace == old(trace) + [s]
      ensures old(world).seen <= world.seen
    {
      StepKeepsInv(world, s);
      RunOfOneMore(start, trace, s);
      SeenGrows(world, s);
      hide Inv, Next, Run;
      world := Next(world, s);
      trace := trace + [s];
    }

    /** Everyone else's steps. */
    method Interfere(steps: seq<Step>)
      requires Good()
      modifies this
      ensures Good() && trace == old(trace) + steps && old(world).seen <= world.seen
      ensures steps == [] ==> world == old(world)
    {
      var i := 0;
      while i < |steps|
        invariant 0 <= i <= |steps|
        invariant Good() && trace == old(trace) + steps[..i] && old(world).seen <= world.seen
        invariant i == 0 ==> world == old(world)
      {
        hide *;
        Do(steps[i]);
        i := i + 1;
      }
    }

    method ReadRecord() returns (read: StoreRead)
      requires Good()
      modifies this
      ensures Good() && trace == old(trace) + [Read]
      ensures read in world.seen && read == ReadNow(old(world)) == ReadNow(world)
      ensures world == old(world).(seen := old(world).seen + {read})
    {
      read := ReadNow(world);
      Do(Read);
    }

    /** The conditional write of `_take`, under whatever ETag the store gives it. */
    method WriteTake(read: StoreRead, token: string, ref: Option<string>, hold: int, handedTo: Option<string>)
      returns (landed: bool)
      requires Good() && read in world.seen && !Busy(KeptBy(read), ref)
      modifies this
      ensures Good() && old(trace) < trace
      ensures landed ==> Lists(world, token, ref) && BodyIs(world, Joined(read, token, ref, hold, handedTo))
      ensures |trace| == |old(trace)| + 1
      ensures old(world).cell.stored == read.stored ==> landed
      ensures !landed ==> world == old(world)
    {
      hide Inv, KeptBy, Run;
      var body := Joined(read, token, ref, hold, handedTo);
      SomeNameIsLeft(world.cell, body);
      var etag: Etag :| MayName(world.cell, body, etag);
      var s := Take(read, token, ref, hold, handedTo, etag);
      landed := Lands(world, s);
      Do(s);
      assert body[|body| - 1] == Mine(s);
    }

    /** One round of `_take` once it has waited: read, judge, write; None when the round is to be run again. */
    method TakeRound(ref: Option<string>, token: string, hold: int, handedTo: Option<string>, r: Round)
      returns (outcome: Option<Taken>)
      requires Good()
      modifies this
      ensures Good() && old(trace) < trace
      ensures outcome in {None, Some(Held), Some(AnotherHolds)}
      ensures outcome == Some(Held) ==> ListedSince(|old(trace)|, token, ref)
      ensures outcome == Some(AnotherHolds) ==>
        r.lateNow && HeldByAnother(world, ref, token)
      ensures HeldBy(old(world), ref, token) ==> outcome == Some(Held) && world.cell == old(world).cell
      ensures r.between == [] && !RefIsTaken(old(world), ref) ==>
        outcome == Some(Held) && BodyIs(world, Joined(ReadNow(old(world)), token, ref, hold, handedTo))
      ensures RefIsTaken(old(world), ref) ==>
        world.cell == old(world).cell && (outcome == Some(Held) <==> HeldBy(old(world), ref, token))
      ensures outcome.None? ==> Contested(start, trace, |old(trace)|, |trace|, ref, token)
    {
      hide Inv, Next, Run, Lands, KeptBy, Joined, WriteLanded, Holding, Busy, HeldBy, HeldByAnother, LiveOn, RefIsTaken;
      TestsAreOfLiveTurns(world, ref, token);
      assert trace[..|trace|] == trace;
      var read := ReadRecord();
      TestsAreOfLiveTurns(world, ref, token);
      if Holding(read, token, ref) {
        KeptAreListed(world, token, ref);
        assert trace[..|trace|] == trace;
        return Some(Held);
      }
      if Busy(KeptBy(read), ref) {
        assert AnotherHeld(start, trace, |old(trace)|, ref, token) by { assert trace[..|old(trace)|] == old(trace); }
        return if r.lateNow then Some(AnotherHolds) else None;
      }
      Interfere(r.between);
      ghost var before := trace;
      ghost var stored := world.cell.stored;
      var landed := WriteTake(read, token, ref, hold, handedTo);
      assert trace[..|trace|] == trace;
      if !landed {
        assert Outwritten(start, before, |old(trace)|, |before|) by {
          assert before[..|old(trace)|] == old(trace);
          ChangesAreWrites(start, before, |old(trace)|);
        }
        OutwrittenStays(start, before, trace, |old(trace)|, |before|);
        OutwrittenLonger(start, trace, |old(trace)|, |before|, |old(trace)|, |trace|);
        return None;
      }
      return Some(Held);
    }

    /** `_take`: at most eight rounds of wait, read, judge, write. However the others interleave, what it
        did is a run of the machine, so every theorem above covers it; it answers Held only when the
        record listed its turn at some moment of the call; it reports another holder only past its
        deadline and when its last read found one, and no seat only when a wait was refused one; it gives up
        only after eight rounds in each of which another held the ref or somebody's write landed, `at` marking
        them off. Left alone, it holds the turn exactly when no other token does: a turn it
        holds already, whoever it was handed to, is kept as it is, and where nobody holds one
        its turn is then written behind those still live. */
    method TakeTurn(ref: Option<string>, token: string, hold: int, handedTo: Option<string>, rounds: seq<Round>)
      returns (outcome: Taken, ghost at: seq<nat>)
      requires Good() && |rounds| == 8
      modifies this
      ensures Good() && old(trace) <= trace
      ensures outcome == Held ==> ListedSince(|old(trace)|, token, ref)
      ensures outcome == AnotherHolds ==> exists r :: r in rounds && r.lateNow
      ensures outcome == AnotherHolds ==> HeldByAnother(world, ref, token)
      ensures (rounds[0].late || (rounds[0].waiting == [] && !rounds[0].refused)) && HeldBy(old(world), ref, token) ==>
        outcome == Held && world.cell == old(world).cell
      ensures outcome == NoSeat ==> exists r :: r in rounds && !r.late && r.refused
      ensures outcome == EveryRoundLost ==>
        |at| == 8 + 1 && Marks(at, |old(trace)|, trace) && EachContested(start, trace, at, ref, token)
      ensures Alone(rounds) ==>
        var read := ReadNow(old(world));
        && (outcome == Held <==> !HeldByAnother(old(world), ref, token))
        && (if RefIsTaken(old(world), ref) then world.cell == old(world).cell
            else BodyIs(world, Joined(read, token, ref, hold, handedTo)))
    {
      hide Inv, Next, Run, KeptBy, Joined, Lists, Contested, AnotherHeld, HeldBy, HeldByAnother, LiveOn, RefIsTaken;
      TestsAreOfLiveTurns(world, ref, token);
      at := [|trace|];
      var i := 0;
      while i < ATTEMPTS
        invariant 0 <= i <= ATTEMPTS
        invariant Good() && old(trace) <= trace
        invariant Alone(rounds) ==> world.cell == old(world).cell
        invariant |at| == i + 1 && Marks(at, |old(trace)|, trace) && EachContested(start, trace, at, ref, token)
        invariant Alone(rounds) && i > 0 ==> HeldByAnother(world, ref, token)
        invariant StartsAtOnce(rounds) && HeldBy(old(world), ref, token) ==> i == 0
        invariant i == 0 ==> world == old(world)
      {
        var r := rounds[i];
        assert r in rounds;
        ghost var before := trace;
        if !r.late {
          if r.refused {
            return NoSeat, at;
          }
          Interfere(r.waiting);
        }
        ghost var waited := trace;
        TestsAreOfLiveTurns(world, ref, token);
        if world.cell == old(world).cell {
          OnlyTheRecordCounts(world, old(world), ref, token);
        }
        var done := TakeRound(ref, token, hold, handedTo, r);
        if done.Some? {
          return done.value, at;
        }
        if world.cell == old(world).cell {
          OnlyTheRecordCounts(world, old(world), ref, token);
        }
        ContestedLonger(start, trace, |waited|, at[i], |trace|, ref, token);
        OneMoreContested(start, before, trace, at, ref, token);
        at := at + [|trace|];
        i := i + 1;
      }
      if world.cell == old(world).cell {
        OnlyTheRecordCounts(world, old(world), ref, token);
      }
      return EveryRoundLost, at;
    }

    /** One round of `release`; None when another writer changed the record first. */
    method ReleaseRound(token: string, between: seq<Step>) returns (outcome: Option<Ended>)
      requires Good()
      modifies this
      ensures Good() && old(trace) < trace
      ensures outcome in {None, Some(Released), Some(Gone)}
      ensures outcome == Some(Released) ==>
        && BodyIs(world, Without(KeptBy(ReadNow(old(world))), token))
        && forall h :: h in world.holders ==> h.token != token
      ensures outcome == Some(Gone) ==> !Names(KeptBy(ReadNow(old(world))), token)
      ensures !Names(KeptBy(ReadNow(old(world))), token) ==> outcome == Some(Gone) && world.cell == old(world).cell
      ensures between == [] ==> outcome.Some?
      ensures outcome.None? ==> Outwritten(start, trace, |old(trace)|, |trace|)
    {
      hide Inv, Run, KeptBy, WriteLanded;
      var read := ReadRecord();
      if read.stored.None? || !Names(KeptBy(read), token) {
        NothingKeptOfNothing(read, token);
        return Some(Gone);
      }
      Interfere(between);
      SomeNameIsLeft(world.cell, Without(KeptBy(read), token));
      var etag: Etag :| MayName(world.cell, Without(KeptBy(read), token), etag);
      var landed := Lands(world, Release(read, token, etag));
      ghost var before := trace;
      if !landed {
        assert before[..|old(trace)|] == old(trace);
        ChangesAreWrites(start, before, |old(trace)|);
      }
      Do(Release(read, token, etag));
      if !landed {
        OutwrittenStays(start, before, trace, |old(trace)|, |before|);
        OutwrittenLonger(start, trace, |old(trace)|, |before|, |old(trace)|, |trace|);
        return None;
      }
      return Some(Released);
    }

    /** `release`: at most eight rounds of read and rewrite, a run of the machine again. When it answers
        Released the record it left behind no longer lists the token and nobody holds it; when it answers
        Gone its last read kept no live turn of it; it gives up only after eight rounds in each of which somebody's
        write landed, `at` marking them off. Left alone, it takes exactly the token's turns, and the
        lapsed ones, out of the record. */
    method ReleaseTurn(token: string, between: seq<seq<Step>>) returns (outcome: Ended, ghost at: seq<nat>)
      requires Good() && |between| == 8
      modifies this
      ensures Good() && old(trace) <= trace
      ensures outcome == Released ==>
        world.cell.stored.Some? && forall t :: t in world.cell.stored.value.body ==> t.token != token
      ensures outcome == Released ==> forall h :: h in world.holders ==> h.token != token
      ensures outcome == Gone ==> forall t :: IsLive(world, t) ==> t.token != token
      ensures outcome == NotReleased ==>
        |at| == 8 + 1 && Marks(at, |old(trace)|, trace) && EachOutwritten(start, trace, at)
      ensures (forall k :: 0 <= k < 8 ==> between[k] == []) ==>
        if exists t :: IsLive(old(world), t) && t.token == token
        then outcome == Released && forall t ::
               world.cell.stored.Some?
               && (t in world.cell.stored.value.body <==> IsLive(old(world), t) && t.token != token)
        else outcome == Gone && world.cell == old(world).cell
    {
      hide Inv, Next, Run, KeptBy, Outwritten, Names;
      forall t { ListsAreOfLiveTurns(world, token, None, 0, None, t); }
      at := [|trace|];
      var i := 0;
      while i < ATTEMPTS
        invariant 0 <= i <= ATTEMPTS
        invariant Good() && old(trace) <= trace
        invariant |at| == i + 1 && at[i] == |trace| && Marks(at, |old(trace)|, trace)
                  && EachOutwritten(start, trace, at)
        invariant (forall k :: 0 <= k < 8 ==> between[k] == []) ==> i == 0 && world.cell == old(world).cell
      {
        ghost var before := trace;
        var done := ReleaseRound(token, between[i]);
        if done.Some? {
          forall t { ListsAreOfLiveTurns(world, token, None, 0, None, t); }
          return done.value, at;
        }
        OneMoreOutwritten(start, before, trace, at);
        at := at + [|trace|];
        i := i + 1;
      }
      return NotReleased, at;
    }
  }

  lemma {:induction false} OneMoreContested(
      w: World, before: seq<Step>, steps: seq<Step>, at: seq<nat>, ref: Option<string>, token: string)
    requires before <= steps && Marks(at, 0, before) && EachContested(w, before, at, ref, token)
    requires Contested(w, steps, at[|at| - 1], |steps|, ref, token)
    ensures EachContested(w, steps, at + [|steps|], ref, token)
  {
    hide Contested;
    var more := at + [|steps|];
    forall i | 0 <= i < |more| - 1 ensures Contested(w, steps, more[i], more[i + 1], ref, token) {
      if i < |at| - 1 {
        ContestedStays(w, before, steps, at[i], at[i + 1], ref, token);
      }
    }
  }

  lemma {:induction false} OneMoreOutwritten(w: World, before: seq<Step>, steps: seq<Step>, at: seq<nat>)
    requires before <= steps && Marks(at, 0, before) && EachOutwritten(w, before, at)
    requires Outwritten(w, steps, at[|at| - 1], |steps|)
    ensures EachOutwritten(w, steps, at + [|steps|])
  {
    hide Outwritten;
    var more := at + [|steps|];
    forall i | 0 <= i < |more| - 1 ensures Outwritten(w, steps, more[i], more[i + 1]) {
      if i < |at| - 1 {
        OutwrittenStays(w, before, steps, at[i], at[i + 1]);
      }
    }
  }

  lemma {:induction false} OutwrittenLonger(w: World, steps: seq<Step>, i: nat, j: nat, i': nat, j': nat)
    requires i' <= i && j <= j' && Outwritten(w, steps, i, j)
    ensures Outwritten(w, steps, i', j')
  {
  }

  lemma {:induction false} ContestedLonger(
      w: World, steps: seq<Step>, i: nat, i': nat, j: nat, ref: Option<string>, token: string)
    requires i' <= i && Contested(w, steps, i, j, ref, token)
    ensures Contested(w, steps, i', j, ref, token)
  {
    hide WriteLanded, AnotherHeld;
  }

  lemma {:induction false} RunOfOneMore(w: World, steps: seq<Step>, s: Step)
    ensures Run(w, steps + [s]) == Next(Run(w, steps), s)
  {
    assert (steps + [s])[..|steps|] == steps;
  }

  lemma {:induction false} SeenGrows(w: World, s: Step)
    ensures w.seen <= Next(w, s).seen
  {
    hide Lands;
  }

  lemma {:induction false} KeptAreListed(w: World, token: string, ref: Option<string>)
    requires Holding(ReadNow(w), token, ref)
    ensures Lists(w, token, ref)
  {
  }

  lemma {:induction false} NothingKeptOfNothing(read: StoreRead, token: string)
    requires read.stored.None? || !Names(KeptBy(read), token)
    ensures !Names(KeptBy(read), token)
  {
  }
}
