# Lakehouse kernel, modelled and proved

A Dafny model of the coordination kernel in `packages/lakehouse-kit` and of three algorithms of the frontend, with
proofs of what they promise. `dafny verify dfyconfig.toml` checks the whole project.

The kernel keeps its state as JSON records on an object store. Every record is arbitrated by create-if-absent and by
replace-under-ETag (sections 13.1.1 and 13.1.2 of RFC 9110), and from those records it decides who may commit, delete
or rewrite. The proofs are about that: whole runs of any number of concurrent callers, and verdicts traced back to the
manifests they were computed from.

| file | models |
|---|---|
| `EtagStore.dfy` | one key of the control root: body, ETag, the store's clock |
| `CommitTurns.dfy` | the commit lease: takes, hands and releases as a step machine, and the loops that run it |
| `SharedReads.dfy` | the per-process read cache and its clearing counters |
| `TurnWaiting.dfy` | polling, backoff, the deadline and the twenty thread seats |
| `Locations.dfy`, `LocationLaws.dfy` | spellings, percent-decoding (section 2.1 of RFC 3986), containment; what each rule means character by character |
| `BaseJudging.dfy` | the standing of a declared base |
| `BaseRefs.dfy`, `BaseVerdicts.dfy` | classifying an estate's base references; the delete and rewrite verdicts |
| `RewriteGaps.dfy` | estates on which the rewrite verdict overlooks a root |
| `BaseClaims.dfy`, `ClaimedBases.dfy` | concurrent claims and releases of a base record; what a claim protects |
| `DerivedTables.dfy` | the breadth-first walk over lineage edges |
| `ManifestFlags.dfy`, `CompactionGate.dfy` | the protobuf flag scanner; the compaction decision |
| `CommitAuthors.dfy` | write-once author records |
| `BranchLayout.dfy` | the branch ref-file codec and the deletion order |
| `LayerDepths.dfy`, `FlowLayout.dfy`, `Collisions.dfy` | layering, placement and box separation |
| `ReadQuery.dfy` | the console's latest-wins read |
| `Outcomes.dfy`, `SetSizes.dfy` | the wrappers and the counting fact the others share |

How concurrency is modelled: each protocol is a pure step function over a state that also remembers every read ever
made, and a write step may act on any of them, so a run of the machine is any interleaving of any number of callers,
stalled ones included. The class methods are the source's own retry loops; everyone else's steps come in between, and
each method is proved to be a run of its machine, so the theorems about runs are theorems about it. Clauses that say
"left alone" state what a call does when nobody else acts.

Where the code and what is said of it differ, the model follows the code:

- The comment on waiting speaks of about 130 polls; a default wait makes at most 124, and 124 are reached.
- The read cache's promise that no view from before a forget is held needs the read to have its lock when the
  snapshot is taken. That guard is exact (`SnapshotIsSafeExactlyWhenLocked`), runs over at most 1024 reads satisfy it,
  and one over 1025 does not.
- What a `get` answers is another matter: it hands its caller its own load whatever was forgotten meanwhile. In a
  guarded run an answer is from before the last completed forget exactly when it is a load that a forget overtook
  (`OldExactlyWhenOvertaken`), and that does happen (`AGetAnswersAnOvertakenLoad`).
- On a local root a replace that finds its key deleted leaves an empty file, which then neither reads nor yields to a
  create. A base record is unreadable exactly while such a file stands (`UnreadableExactlyWhen`).
- A rewrite is judged by the first overlapping root alone. `EveryPermit` is the exact condition of a permit, and
  `UnaskedExactlyWhen` says when other overlapping roots go unasked. Two kinds do: a pinned root beneath a pinned
  location (`APinBeneathIsNotAsked`), and, where the location lies in a branch beneath the topmost root above it, every
  other root, an unconditional one at the location itself included (`AnUnconditionalRootIsOverlooked`,
  `OverlookedExactlyWhen`).
- `depths` runs no round when no id is given, so it falls short on exactly such inputs with a proper edge. On every other
  input, cyclic ones included, each node that has a longest chain gets its length.
- A pair separated by `resolveCollisions` ends touching only where its extents do not sum below zero, which a
  non-negative threshold guarantees (`NegativeExtentsMissEachOther` is an input where it does not).
- A negative `max_depth` walks without a limit.

## Model

| member | source | states |
|---|---|---|
| `EtagStore.WriteActsOnWhatWasRead` | packages/lakehouse-kit/src/lakehouse_kit/records.py:318-339 | A conditional write that lands replaces exactly what its reader judged, content and ETag (or creates where it found nothing), whatever was written, deleted and rewritten in between; assumes only that one ETag never names two bodies, so a content hash is safe |
| `EtagStore.SomeNameIsLeft` | packages/lakehouse-kit/src/lakehouse_kit/records.py:318-339 | Over every history of a key there is an ETag the store may still give a new body, so the write steps below are never blocked by the model itself |
| `CommitTurns.MutualExclusion` | packages/lakehouse-kit/src/lakehouse_kit/commit_turns.py:381-449 | In every interleaving of reads, takes, hands and releases by any number of processes, with writers stalled arbitrarily long between read and write, the record lists at most one turn per ref, and two granted, unreleased, unexpired turns on one ref are the same turn |
| `CommitTurns.LiveTurnLeavesOnlyByItsRelease` | packages/lakehouse-kit/src/lakehouse_kit/commit_turns.py:381-449 | In every reachable state a live turn is gone after the next step if and only if that step is a landed release of its own token |
| `CommitTurns.HeldUntilReleased` | packages/lakehouse-kit/src/lakehouse_kit/commit_turns.py:451-464 | From its grant until it lapses or its own token is released, a turn stays in the record and is the only turn recorded on its ref, whatever everyone else does |
| `CommitTurns.HolderStays` | packages/lakehouse-kit/src/lakehouse_kit/commit_turns.py:431-449 | Only a release naming its token ends a grant |
| `CommitTurns.NoReplaceMeetsNothing` | packages/lakehouse-kit/src/lakehouse_kit/records.py:345-364 | In every run of takes, hands and releases no replace finds its record gone, so a refused one changes nothing on a local root either |
| `CommitTurns.StepKeepsInv` | packages/lakehouse-kit/src/lakehouse_kit/commit_turns.py:381-449 | Each step keeps: every body ever named is one turn per ref, every read is of a named body and not of the future, a record once read stays there, every unexpired grant is recorded |
| `CommitTurns.RunKeepsInv` | packages/lakehouse-kit/src/lakehouse_kit/commit_turns.py:381-449 | So does every run |
| `CommitTurns.ReplacesWhatItRead` | packages/lakehouse-kit/src/lakehouse_kit/commit_turns.py:393-406 | A take or release that lands replaces the very list it judged |
| `CommitTurns.WrittenIsOnePerRef` | packages/lakehouse-kit/src/lakehouse_kit/commit_turns.py:393-406 | What a landing take or release writes lists at most one turn per ref |
| `CommitTurns.TimeAndReads` | packages/lakehouse-kit/src/lakehouse_kit/commit_turns.py:386-392 | Time passes in ticks only, and a record is learnt only by reading it, as it stands at the clock of then |
| `CommitTurns.LiveKeepsOnePerRef` | packages/lakehouse-kit/src/lakehouse_kit/commit_turns.py:153-157 | Dropping lapsed turns keeps at most one turn per ref |
| `CommitTurns.TableTurns.WriteTake` | packages/lakehouse-kit/src/lakehouse_kit/commit_turns.py:396-406 | The create-or-replace of one round: lands whenever the record still is what was read, then holds the live turns and the new one behind them; otherwise changes nothing |
| `CommitTurns.TestsAreOfLiveTurns` | packages/lakehouse-kit/src/lakehouse_kit/commit_turns.py:385-392 | What a take tests on its read: a turn on the ref that is listed and whose end the store's clock has not reached |
| `CommitTurns.ListsAreOfLiveTurns` | packages/lakehouse-kit/src/lakehouse_kit/commit_turns.py:398-401 | What a take writes, turn by turn: the live turns and its own, from now to the hold; and a release: the live turns but the token's |
| `CommitTurns.TableTurns.TakeRound` | packages/lakehouse-kit/src/lakehouse_kit/commit_turns.py:386-407 | One round: a live turn of this token on the ref, whoever it was handed to, is held already and the record untouched; another holder is reported only past the deadline and when every live turn on the ref has another token; a lost round met another holder or a landed write of somebody; a free ref is written |
| `CommitTurns.TableTurns.TakeTurn` | packages/lakehouse-kit/src/lakehouse_kit/commit_turns.py:381-408 | However others interleave the call is a run of the machine; Held only if the record listed its turn at a moment of the call; a call that starts at once keeps a live turn of its token as it is, whoever it was handed to; another holder only past the deadline and when every live turn on the ref has another token; given up only after eight rounds in each of which another held the ref or somebody's write landed; left alone it is Held if and only if no other token holds the ref |
| `CommitTurns.TableTurns.ReleaseRound` | packages/lakehouse-kit/src/lakehouse_kit/commit_turns.py:435-445 | One round: Released exactly when the token was kept and the write landed, leaving the kept turns without it; Gone exactly when no kept turn names it; lost only where somebody's write landed in between |
| `CommitTurns.TableTurns.ReleaseTurn` | packages/lakehouse-kit/src/lakehouse_kit/commit_turns.py:431-449 | After Released the record no longer lists the token and nobody holds it; after Gone no live turn of it is left; given up only after eight rounds in each of which somebody's write landed; left alone it is released if and only if a live turn of it was listed, and leaves exactly the other live turns |
| `SharedReads.NoViewFromBeforeAForget` | packages/lakehouse-kit/src/lakehouse_kit/commit_turns.py:205-265 | In every interleaving of gets, peeks and forgets whose snapshots are taken while the read has its lock, any held answer a peek gives was loaded by a load begun after the last completed forget of that read, even by a load in flight when the forget completed |
| `SharedReads.OldExactlyWhenOvertaken` | packages/lakehouse-kit/src/lakehouse_kit/commit_turns.py:216-256 | What any step of a guarded run hands a caller is from before the last completed forget of its read if and only if it is a get's own load and a forget of that read completed between the load's snapshot and its finish |
| `SharedReads.HandedOutExactly` | packages/lakehouse-kit/src/lakehouse_kit/commit_turns.py:216-256 | A load that ends hands its caller what it loaded, kept or not; a peek what is held and under 100 ms old; nothing else hands out anything |
| `SharedReads.EveryAnswerGiven` | packages/lakehouse-kit/src/lakehouse_kit/commit_turns.py:216-256 | The same of every answer a whole guarded run ever handed out |
| `SharedReads.AGetAnswersAnOvertakenLoad` | packages/lakehouse-kit/src/lakehouse_kit/commit_turns.py:232-236 | It happens on every read: a forget completing during a guarded load leaves nothing held, and the get answers its caller the view from before it |
| `SharedReads.ForgottenSinceExactly` | packages/lakehouse-kit/src/lakehouse_kit/commit_turns.py:238-248 | The numbers the machine keeps say exactly whether a step after a load's snapshot forgot the read |
| `SharedReads.SnapshotIsSafeExactlyWhenLocked` | packages/lakehouse-kit/src/lakehouse_kit/commit_turns.py:227-244 | A snapshot is safe whatever guarded steps follow if and only if its read has its lock at that moment |
| `SharedReads.UncountedForget` | packages/lakehouse-kit/src/lakehouse_kit/commit_turns.py:238-244 | Without the lock, two further steps always leave a stale answer held: a forget that is not counted, then the load finishing |
| `SharedReads.FewReadsKeepTheirLocks` | packages/lakehouse-kit/src/lakehouse_kit/commit_turns.py:258-265 | Over at most 1024 reads the locks are never started over |
| `SharedReads.FewReadsAreCoherent` | packages/lakehouse-kit/src/lakehouse_kit/commit_turns.py:205-265 | So every run over at most 1024 reads is coherent, however it interleaves |
| `SharedReads.OneReadMoreLosesCoherence` | packages/lakehouse-kit/src/lakehouse_kit/commit_turns.py:258-265 | The limit is real: some run over exactly 1025 reads, from the empty cache, ends with a stale answer held |
| `SharedReads.StepKeepsInv` | packages/lakehouse-kit/src/lakehouse_kit/commit_turns.py:205-265 | Every guarded step keeps coherence and the soundness of the loads in flight |
| `SharedReads.RunKeepsInv` | packages/lakehouse-kit/src/lakehouse_kit/commit_turns.py:205-265 | Every guarded run does |
| `SharedReads.StepsAreTheSections` | packages/lakehouse-kit/src/lakehouse_kit/commit_turns.py:205-265 | Each step of the machine does to the cache what its guarded section does, and moves its own caller only |
| `SharedReads.Reads.Peek` | packages/lakehouse-kit/src/lakehouse_kit/commit_turns.py:250-256 | Answers the held turns when fresher than 100 ms, else nothing |
| `SharedReads.Reads.LockFor` | packages/lakehouse-kit/src/lakehouse_kit/commit_turns.py:258-265 | Refines the section the machine interleaves: at 1024 locks a new read clears everything and counts a start-over |
| `SharedReads.Reads.Stand` | packages/lakehouse-kit/src/lakehouse_kit/commit_turns.py:246-248 | Refines the snapshot: the start-overs and the clearings of one read |
| `SharedReads.Reads.Keep` | packages/lakehouse-kit/src/lakehouse_kit/commit_turns.py:232-236 | Refines the end of a load: kept only if no clearing moved the snapshot, and the loaded turns handed to the caller either way |
| `SharedReads.Reads.Forget` | packages/lakehouse-kit/src/lakehouse_kit/commit_turns.py:238-244 | Refines the clearing: the view goes either way, and the count moves only where the read has its lock |
| `TurnWaiting.APollDecidesTheTake` | packages/lakehouse-kit/src/lakehouse_kit/commit_turns.py:160-163 | Over one record a waiter is held back exactly when its take would write nothing; when let through and uninterrupted it is granted, as the only live turn of its ref |
| `TurnWaiting.HoldsExactly` | packages/lakehouse-kit/src/lakehouse_kit/commit_turns.py:160-163 | A poll answers that a live turn on the ref under another token is there, counting handed turns only when asked to |
| `TurnWaiting.PeersRaceHandedTurns` | packages/lakehouse-kit/src/lakehouse_kit/commit_turns.py:304-312 | A stock writer's peers wait for a door's turn and never for a handed one |
| `TurnWaiting.PauseIsCapped` | packages/lakehouse-kit/src/lakehouse_kit/commit_turns.py:107-111 | From the fifth attempt on the pause before jitter is the cap |
| `TurnWaiting.ElapsedInFull` | packages/lakehouse-kit/src/lakehouse_kit/commit_turns.py:107-111 | Closed form of the least time n pauses take |
| `TurnWaiting.PollsAreApart` | packages/lakehouse-kit/src/lakehouse_kit/commit_turns.py:324-349 | Polls are at least the summed pauses apart until the deadline |
| `TurnWaiting.SleepExactly` | packages/lakehouse-kit/src/lakehouse_kit/commit_turns.py:344-346 | A sleep is the pause and its jitter, or what is left to the deadline, whichever is less; pauses start at 20 ms, double, and stop at 250 ms |
| `TurnWaiting.Wait` | packages/lakehouse-kit/src/lakehouse_kit/commit_turns.py:324-349 | The outcome and the number of polls are exactly what the polls, the clock and the seats dictate; every poll but the last went on; a wait with no deadline of its own makes at most 124 polls, over every jitter and every clock whose sleeps last in full; a seat is taken at most once, exactly when it sleeps, and given back on every way out; it always ends |
| `TurnWaiting.ADefaultWaitOf124Polls` | packages/lakehouse-kit/src/lakehouse_kit/commit_turns.py:75-89 | 124 is reached: a default wait on a ref held throughout polls 124 times and is then outlasted |
| `TurnWaiting.FewPollsFit` | packages/lakehouse-kit/src/lakehouse_kit/commit_turns.py:75-89 | Pauses that fit into the hold leave room for at most 124 polls |
| `TurnWaiting.StepKeepsSeats` | packages/lakehouse-kit/src/lakehouse_kit/commit_turns.py:334-349 | Free seats and seated threads always sum to twenty, over each step of any thread |
| `TurnWaiting.SeatsAreConserved` | packages/lakehouse-kit/src/lakehouse_kit/commit_turns.py:75-89 | Over every interleaving of any number of waits at most twenty threads sleep, no seat is lost or released twice, and all are free when every wait has ended |
| `TurnWaiting.TurnedAwayExactly` | packages/lakehouse-kit/src/lakehouse_kit/commit_turns.py:334-349 | In every reachable state a waiter that asks to sleep is turned away if and only if it has no seat and twenty threads have one; nobody else is moved |
| `TurnWaiting.ASeatIsGivenUpAtTheEnd` | packages/lakehouse-kit/src/lakehouse_kit/commit_turns.py:334-349 | A sleeper keeps its seat as it wakes and gives it up when its wait ends |
| `TurnWaiting.TwentySleep` | packages/lakehouse-kit/src/lakehouse_kit/commit_turns.py:75-89 | Twenty is reached and is the end: of any number of arrivals the first twenty sleep and the rest are turned away |
| `Locations.JoinOfSplit` | packages/lakehouse-kit/src/lakehouse_kit/base_refs.py:320-351 | Joining what a path splits into gives the path back |
| `Locations.SplitOfJoin` | packages/lakehouse-kit/src/lakehouse_kit/base_refs.py:338-351 | Joining separator-free segments is injective: splitting undoes it |
| `Locations.DecodedSegments` | packages/lakehouse-kit/src/lakehouse_kit/base_refs.py:320-335 | The loop stops at the first segment that names nothing; otherwise each segment is its spelling percent-decoded once, none skipped or reordered |
| `Locations.LocationIsPlain` | packages/lakehouse-kit/src/lakehouse_kit/base_refs.py:308-335 | The decoded segments of a location are non-empty and hold no separator, encoded ones included |
| `Locations.DecodedPathIsInjective` | packages/lakehouse-kit/src/lakehouse_kit/base_refs.py:338-351 | Two location spellings decode to one path if and only if they have the same decoded segments |
| `Locations.NormaliseIsIdempotent` | packages/lakehouse-kit/src/lakehouse_kit/base_refs.py:262-276 | On location spellings normalise is idempotent and changes neither segments nor decoded path |
| `Locations.DecodedPathIsNormal` | packages/lakehouse-kit/src/lakehouse_kit/base_refs.py:338-351 | A decoded path is in normal form and splits into exactly its segments |
| `Locations.StrictPrefixIsUnder` | packages/lakehouse-kit/src/lakehouse_kit/base_refs.py:189-191 | The string test "root/ is a prefix" is strict segment-prefix, both ways |
| `Locations.OverlapIsContainment` | packages/lakehouse-kit/src/lakehouse_kit/base_refs.py:189-191 | On locations the string overlap test holds if and only if one contains the other, segment by decoded segment |
| `Locations.WithinIsAPartialOrder` | packages/lakehouse-kit/src/lakehouse_kit/base_refs.py:376-386 | Containment is reflexive exactly on locations, transitive, and antisymmetric up to the decoded path |
| `Locations.DotSegmentsNameNothing` | packages/lakehouse-kit/src/lakehouse_kit/base_refs.py:308-335 | A spelling with a segment that decodes to empty, "." or ".." names no location and lies within nothing |
| `LocationLaws.StoreOfAScheme` | packages/lakehouse-kit/src/lakehouse_kit/base_refs.py:389-400 | The store of a spelling with a scheme is the scheme, letter by letter, with A to Z made small; the scheme ends at the first :// |
| `LocationLaws.StoreOfABarePath` | packages/lakehouse-kit/src/lakehouse_kit/base_refs.py:389-400 | A spelling with no :// is of the file system |
| `LocationLaws.OneStoreExactlyWhen` | packages/lakehouse-kit/src/lakehouse_kit/base_refs.py:389-400 | Two spellings with schemes are of one store if and only if the schemes agree up to case, and one is of a bare path's store if and only if its scheme says file up to case |
| `LocationLaws.NormaliseExactly` | packages/lakehouse-kit/src/lakehouse_kit/base_refs.py:262-276 | Normalising takes away the scheme, if there is one, and the slashes at both ends of the rest, and nothing else |
| `LocationLaws.AnEscapeDecodes` | packages/lakehouse-kit/src/lakehouse_kit/base_refs.py:308-317 | A percent sign and two hex digits of either case decode to the octet of their value |
| `LocationLaws.OtherOctetsStay` | packages/lakehouse-kit/src/lakehouse_kit/base_refs.py:308-317 | Any other octet stands for itself, a percent sign without two hex digits included |
| `LocationLaws.TextExactly` | packages/lakehouse-kit/src/lakehouse_kit/base_refs.py:308-317 | Octets are text if and only if they are the UTF-8 encodings of some characters, none a surrogate, one after the other |
| `LocationLaws.SegmentExactly` | packages/lakehouse-kit/src/lakehouse_kit/base_refs.py:320-335 | A spelled segment names something if and only if, decoded once, it is text, not empty, "." or "..", free of question marks and control characters, and none of its escapes stands for a separator of either kind |
| `LocationLaws.WithinByPath` | packages/lakehouse-kit/src/lakehouse_kit/base_refs.py:376-386 | One place lies in another if and only if both are places and the decoded path is the same or goes on from it with a slash |
| `LocationLaws.AtMostExactly` | packages/lakehouse-kit/src/lakehouse_kit/base_refs.py:173-175 | The order of sorted paths: all of the other's beginning, or the smaller octet where they first differ |
| `Locations.Sorted` | packages/lakehouse-kit/src/lakehouse_kit/base_refs.py:173-175 | Exactly the members of the set, in code-point order |
| `BaseJudging.FirstMatch` | packages/lakehouse-kit/src/lakehouse_kit/base_registry.py:414-418 | The entry found is the first of the record's that matches path, store and kind; none found means none matches |
| `BaseJudging.StandingExactly` | packages/lakehouse-kit/src/lakehouse_kit/base_registry.py:397-435 | Each standing if and only if: own where the table's store is the base's and the table contains it; configured where a configured base of the same store contains it and it is no dataset root; recorded when an entry of the record has its normalised path, store and kind, and then it carries the first such; unrecorded otherwise, always when the spelling names no location |
| `BaseJudging.AnotherSchemeIsNeverOwn` | packages/lakehouse-kit/src/lakehouse_kit/base_registry.py:397-411 | The same path under a scheme that is not the table's, up to case, is never the table's own, and neither is a bare path a table on a bucket declares |
| `BaseJudging.NeedExactly` | packages/lakehouse-kit/src/lakehouse_kit/base_registry.py:438-462 | The record is needed if and only if some base names a location that is neither the table's own nor configured |
| `BaseJudging.JudgeBases` | packages/lakehouse-kit/src/lakehouse_kit/base_registry.py:438-462 | Equals judging each base on its own; the record is loaded at most once, exactly when some base needs it, and a loader error is the answer exactly then |
| `BaseJudging.WithoutNeedAnyRecordDoes` | packages/lakehouse-kit/src/lakehouse_kit/base_registry.py:438-462 | When no base needs the record, the judgements are the same under every record |
| `BaseRefs.RootsAreTheDiscovered` | packages/lakehouse-kit/src/lakehouse_kit/base_refs.py:482-519 | The roots an owner is picked from are exactly the discovered locations, keyed by decoded path |
| `BaseRefs.ShorterContainsLonger` | packages/lakehouse-kit/src/lakehouse_kit/base_refs.py:514-519 | Of two locations containing a third, the one with the no longer path contains the other; equal length means equal path |
| `BaseRefs.FirstByLengthIsUnique` | packages/lakehouse-kit/src/lakehouse_kit/base_refs.py:514-519 | The pick by length has no ties |
| `BaseRefs.OwnerIsOutermost` | packages/lakehouse-kit/src/lakehouse_kit/base_refs.py:514-519 | The owner is a discovered location that contains the referrer and every other discovered root containing it |
| `BaseRefs.OwnerOfTheUncontained` | packages/lakehouse-kit/src/lakehouse_kit/base_refs.py:514-519 | A dataset no discovered root contains is its own owner |
| `BaseRefs.ClassifyOne` | packages/lakehouse-kit/src/lakehouse_kit/base_refs.py:520-543 | One dataset: its foreign bases judged and entered; the owning root's record is asked for exactly when a base needs it and it is not remembered, and the turn fails exactly when that record cannot be read |
| `BaseRefs.ClassifyBaseRefs` | packages/lakehouse-kit/src/lakehouse_kit/base_refs.py:482-545 | The collected refs are those of every judged foreign edge in order; the records asked for are exactly those of owning roots some dataset needs, none twice; it fails if and only if one of them cannot be read, with that error |
| `BaseRefs.EnterAll` | packages/lakehouse-kit/src/lakehouse_kit/base_refs.py:520-543 | Entering a dataset's judgements one by one collects exactly its edges |
| `BaseRefs.EdgesAreTheForeignBases` | packages/lakehouse-kit/src/lakehouse_kit/base_refs.py:482-545 | An edge is collected if and only if a discovered dataset declares that foreign base, and it carries that base's judgement under the owning root |
| `BaseRefs.CollectedReflects` | packages/lakehouse-kit/src/lakehouse_kit/base_refs.py:520-545 | A root is protected, pinned by a tag, or held by a referrer, and a finding is reported with its relation, if and only if an edge says so |
| `BaseRefs.EnteringReflects` | packages/lakehouse-kit/src/lakehouse_kit/base_refs.py:526-543 | Each entry keeps that correspondence |
| `BaseRefs.JudgedExactly` | packages/lakehouse-kit/src/lakehouse_kit/base_refs.py:520-543 | The judgement of a declared base in terms of places, stores, configuration and record: what sanctions it, the entry it stands by, the tag it pins |
| `BaseRefs.ProtectedExactly` | packages/lakehouse-kit/src/lakehouse_kit/base_refs.py:526-543 | A root is held unconditionally if and only if some dataset reads through it, sanctioned, without pinning a tag |
| `BaseRefs.PinnedExactly` | packages/lakehouse-kit/src/lakehouse_kit/base_refs.py:526-543 | A root is pinned by a tag if and only if some dataset reads through it by the entry of a derivation that names that tag |
| `BaseRefs.ReferrerExactly` | packages/lakehouse-kit/src/lakehouse_kit/base_refs.py:541-543 | A dataset is a referrer of a root if and only if it reads through it |
| `BaseRefs.FindingExactly` | packages/lakehouse-kit/src/lakehouse_kit/base_refs.py:532-536 | A finding is reported if and only if a base of another's is not sanctioned, and says ancestor exactly when the owning root lies in it |
| `BaseVerdicts.FirstOverlapping` | packages/lakehouse-kit/src/lakehouse_kit/base_refs.py:133-151 | The first overlapping root in order, or none overlaps |
| `BaseVerdicts.FirstBroken` | packages/lakehouse-kit/src/lakehouse_kit/base_refs.py:153-171 | A root that overlaps and would leave a referrer behind, or no overlapping root would |
| `BaseVerdicts.RootsAreTheSanctionedBases` | packages/lakehouse-kit/src/lakehouse_kit/base_refs.py:173-175 | The roots asked are exactly the bases of sanctioned edges, and exactly those with a referrer |
| `BaseVerdicts.DeletionBreaksNobody` | packages/lakehouse-kit/src/lakehouse_kit/base_refs.py:153-171 | A delete is answered None if and only if every sanctioned edge overlapping it is declared by a dataset deleted with it |
| `BaseVerdicts.DeletionIsSafe` | packages/lakehouse-kit/src/lakehouse_kit/base_refs.py:153-171 | End to end from manifests, records and configuration: the classification answers None to a delete if and only if every discovered dataset reading through a sanctioned base of another's at, above or beneath the location has the deleted path, or that of what is deleted along with it, as its own decoded path or its beginning |
| `BaseVerdicts.ProtectsFromDeletionExactly` | packages/lakehouse-kit/src/lakehouse_kit/base_refs.py:153-171 | Over any refs at all: None if and only if every root that overlaps the location has known referrers and all of them lie in what is deleted; unknown referrers refuse |
| `BaseVerdicts.AReaderLeftBehindRefuses` | packages/lakehouse-kit/src/lakehouse_kit/base_refs.py:153-171 | One dataset that reads through what is deleted and lies outside all of it is enough for a refusal |
| `BaseVerdicts.GoesTooExactly` | packages/lakehouse-kit/src/lakehouse_kit/base_refs.py:168-170 | The test that a referrer goes too is that its decoded path is, or goes on with a slash from, a deleted one |
| `BaseVerdicts.DeletionIsSafeByContainment` | packages/lakehouse-kit/src/lakehouse_kit/base_refs.py:153-171 | The same in terms of places: None if and only if every dataset reading through a base that contains the location, or lies in it, itself lies in what is deleted |
| `BaseVerdicts.ContainmentIsExact` | packages/lakehouse-kit/src/lakehouse_kit/base_refs.py:199-230 | Over overlapping pairs the four relations are exhaustive and exclusive; branch means a segment past the root's, the last excluded, is "tree" |
| `BaseVerdicts.BranchSegmentExactly` | packages/lakehouse-kit/src/lakehouse_kit/base_refs.py:225-230 | The string test for a branch container finds exactly a whole segment "tree" that is not the last |
| `BaseVerdicts.BranchOfAPlace` | packages/lakehouse-kit/src/lakehouse_kit/base_refs.py:225-230 | Of a location strictly beneath a root, the relation is branch if and only if a decoded segment past the root's, the last excluded, is "tree" |
| `BaseVerdicts.PinnedLocationComesFirst` | packages/lakehouse-kit/src/lakehouse_kit/base_refs.py:133-151 | Among overlapping pinned roots the first asked is the location or one above it, and is the location only if none is above |
| `BaseVerdicts.ProtectedComesFirst` | packages/lakehouse-kit/src/lakehouse_kit/base_refs.py:173-175 | Any overlapping unconditional root is asked before every pinned one |
| `BaseVerdicts.RewriteIsPermittedExactlyWhen` | packages/lakehouse-kit/src/lakehouse_kit/base_refs.py:242-259 | The exact condition of a permit that does not use the branch exemption: no unconditional root overlaps and either no pinned root does or the location is itself the outermost pinned root and carries every tag pinning it |
| `BaseVerdicts.ExemptExactlyWhen` | packages/lakehouse-kit/src/lakehouse_kit/base_refs.py:199-230 | The branch exemption is used if and only if a segment "tree" stands between the topmost unconditional root strictly above the location and its last segment, or no unconditional root overlaps and one stands so beneath the topmost pinned root |
| `BaseVerdicts.EveryPermit` | packages/lakehouse-kit/src/lakehouse_kit/base_refs.py:242-259 | Every rewrite: permitted if and only if exempt in that sense, or no unconditional root overlaps and either no pinned root does or the location is the outermost pinned root and carries every tag pinning it |
| `BaseVerdicts.RefusalNamesTheRelation` | packages/lakehouse-kit/src/lakehouse_kit/base_refs.py:242-259 | A refusal says how the location lies to the root asked, and is never the branch relation |
| `BaseVerdicts.TheAskedRoot` | packages/lakehouse-kit/src/lakehouse_kit/base_refs.py:133-151 | The one root asked is the first in text order among the overlapping unconditional roots, or among the pinned ones where no unconditional one overlaps |
| `BaseVerdicts.TheFirstIsOutermost` | packages/lakehouse-kit/src/lakehouse_kit/base_refs.py:133-151 | Wherever a root lies strictly above the location, the root asked is the topmost of those above |
| `BaseVerdicts.UnaskedExactlyWhen` | packages/lakehouse-kit/src/lakehouse_kit/base_refs.py:133-151 | For every permitted rewrite some overlapping root goes unasked if and only if: in a branch beneath the topmost root above it, any other root overlaps; elsewhere, the location is pinned and a pinned root lies strictly beneath it |
| `BaseVerdicts.UnaskedUnderTheExemption` | packages/lakehouse-kit/src/lakehouse_kit/base_refs.py:150-151 | Under the exemption every overlapping root goes unasked but the topmost above of the kind asked |
| `BaseVerdicts.OverlookedExactlyWhen` | packages/lakehouse-kit/src/lakehouse_kit/base_refs.py:242-259 | A permitted rewrite overlooks an unconditional root if and only if it lies in a branch beneath the topmost unconditional root above it and another unconditional root overlaps it |
| `BaseVerdicts.RewriteIsSafe` | packages/lakehouse-kit/src/lakehouse_kit/base_refs.py:242-259 | End to end, for every permitted rewrite: the location is exempt as a branch, or every dataset reading through a base that overlaps it pins a tag, at or beneath it, and at it a tag the location carries |
| `RewriteGaps.APinBeneathIsNotAsked` | packages/lakehouse-kit/src/lakehouse_kit/base_refs.py:150-151 | For every location there is an estate whose classification pins it and a dataset beneath it, and permits its rewrite though the tag pinning the one beneath is missing |
| `RewriteGaps.AnUnconditionalRootIsOverlooked` | packages/lakehouse-kit/src/lakehouse_kit/base_refs.py:242-259 | For every table and any tags there is an estate whose classification protects a branch of it unconditionally, because a dataset elsewhere reads through it, and permits that branch's rewrite all the same |
| `BaseVerdicts.ASanctionedBaseIsALocation` | packages/lakehouse-kit/src/lakehouse_kit/base_refs.py:520-545 | Every sanctioned edge of a classification names a location |
| `BaseVerdicts.CollectedRootsAreNormal` | packages/lakehouse-kit/src/lakehouse_kit/base_refs.py:520-545 | So every collected root is in the normal form the rewrite verdict compares in |
| `BaseClaims.ReadsUnderEverySpelling` | packages/lakehouse-kit/src/lakehouse_kit/base_registry.py:192-233 | Under every digest, colliding ones included: a record written under one spelling is keyed alike under every spelling that decodes to the same path, and passes its self-check under exactly those |
| `BaseClaims.KeyIs` | packages/lakehouse-kit/src/lakehouse_kit/base_registry.py:192-194 | The key written out: _bases/table-, a digest of table: and the decoded path, .json |
| `BaseClaims.FirstOfEach` | packages/lakehouse-kit/src/lakehouse_kit/base_registry.py:211-218 | Exactly the first entry of each identity, in order |
| `BaseClaims.SameBaseExactly` | packages/lakehouse-kit/src/lakehouse_kit/base_registry.py:118-125 | Two entries are the same base if and only if place, store, kind and role agree |
| `BaseClaims.AddingStaysDistinct` | packages/lakehouse-kit/src/lakehouse_kit/base_registry.py:273-285 | Adding what is missing keeps identities distinct and leaves every wanted one present |
| `BaseClaims.RemovingUndoesAdding` | packages/lakehouse-kit/src/lakehouse_kit/base_registry.py:288-310 | Removing what was added leaves exactly the entries there before |
| `BaseClaims.StepKeepsInv` | packages/lakehouse-kit/src/lakehouse_kit/base_registry.py:236-310 | Each step of any claim or release keeps every record ever written well formed and distinct |
| `BaseClaims.RunKeepsInv` | packages/lakehouse-kit/src/lakehouse_kit/base_registry.py:236-310 | So does every interleaving |
| `BaseClaims.EntriesStayDistinct` | packages/lakehouse-kit/src/lakehouse_kit/base_registry.py:236-310 | In every interleaving of claims and releases, on a bucket or a local root, the entry identities of a record that reads are pairwise distinct |
| `BaseClaims.UnreadableExactlyWhen` | packages/lakehouse-kit/src/lakehouse_kit/records.py:341-364 | In every interleaving the stored body does not read if and only if a replace was refused on an absent key of a local root and nothing deleted the empty file since; on a bucket it always reads |
| `BaseClaims.LittersExactly` | packages/lakehouse-kit/src/lakehouse_kit/records.py:351-356 | An empty file is left exactly when, on a local root, an add or removal that judged a readable record of its path writes now that nothing is stored |
| `BaseClaims.AnAddAfterADeleteLitters` | packages/lakehouse-kit/src/lakehouse_kit/records.py:351-356 | It happens: an add after another claim's release deleted the record leaves what no claim can read, replace or create over |
| `BaseClaims.GarbledStaysExactly` | packages/lakehouse-kit/src/lakehouse_kit/records.py:341-364 | One step leaves an empty file there exactly when it litters now, or one was there and is not deleted |
| `BaseClaims.ReleaseUndoesClaim` | packages/lakehouse-kit/src/lakehouse_kit/base_registry.py:288-310 | Undoing what a claim reports restores the record, or its absence, from before the claim took effect |
| `BaseClaims.Registry.Replace` | packages/lakehouse-kit/src/lakehouse_kit/records.py:318-365 | The ETag-guarded write lands exactly when the ETag read is still current, and then replaces the content read; refused, it changes nothing, except that it leaves an empty file on a local root whose record is gone |
| `BaseClaims.Registry.AddRound` | packages/lakehouse-kit/src/lakehouse_kit/records.py:289-300 | One round adds exactly what is lacking, or finds the record gone or unreadable, or lost because what is stored changed since the read |
| `BaseClaims.Registry.AddMissing` | packages/lakehouse-kit/src/lakehouse_kit/base_registry.py:273-285 | What it reports added is exactly what the write that landed added; unreadable only if the record is; given up only after five rounds in each of which what is stored changed; left alone it lands at once |
| `BaseClaims.Registry.ClaimExisting` | packages/lakehouse-kit/src/lakehouse_kit/base_registry.py:259-269 | Once the create has lost: a claim that takes effect at one moment and reports it exactly, an error that says what is stored, or a record that is gone |
| `BaseClaims.Registry.ClaimRound` | packages/lakehouse-kit/src/lakehouse_kit/base_registry.py:252-269 | One round takes effect at one moment, which it reports exactly, or fails on what is stored; it is run again only when the record was there and is gone |
| `BaseClaims.Registry.ClaimBases` | packages/lakehouse-kit/src/lakehouse_kit/base_registry.py:236-270 | A claim that returns took effect at one moment of the call, had every wanted identity present then, and reports exactly what it created or added; refused as no location if and only if the spelling names none; unreadable only if the stored record is; given up only after three or more rounds in each of which what is stored changed; left alone it fails, changing nothing, only on a record it cannot read |
| `BaseClaims.Registry.CreateRecord` | packages/lakehouse-kit/src/lakehouse_kit/records.py:91-135 | Creates exactly where nothing is stored |
| `BaseClaims.Registry.ReleaseClaim` | packages/lakehouse-kit/src/lakehouse_kit/base_registry.py:288-310 | When it succeeds nothing of what the claim changed is left; unreadable only if the record is; given up only after five rounds in each of which what is stored changed; left alone, leaves exactly the record without what the claim added, or none if it created it |
| `BaseClaims.Registry.RemoveRound` | packages/lakehouse-kit/src/lakehouse_kit/base_registry.py:303-310 | One round removes exactly the added entries, or finds the record gone or unreadable, or lost because what is stored changed since the read |
| `BaseClaims.Registry.ClaimThenRelease` | packages/lakehouse-kit/src/lakehouse_kit/base_registry.py:236-310 | An uninterrupted claim then release restores the stored record or its absence, on every location, entry list and prior content |
| `ClaimedBases.AClaimProtects` | packages/lakehouse-kit/src/lakehouse_kit/base_registry.py:236-270 | A claim that took effect protects: through every later run of claims and releases that spares the entry, a delete that overlaps the claimed base and leaves the dataset declaring it behind is refused |
| `ClaimedBases.EntryStays` | packages/lakehouse-kit/src/lakehouse_kit/base_registry.py:273-310 | An entry stays in the record through every run that neither deletes the record nor takes that entry back |
| `DerivedTables.ReachIsByChains` | packages/lakehouse-kit/src/lakehouse_kit/derived_tables.py:62-78 | Within n hops means at the end of a chain of at most n edges from a source |
| `DerivedTables.ReachSettles` | packages/lakehouse-kit/src/lakehouse_kit/derived_tables.py:62-78 | A hop that reaches nothing new is the last one that could |
| `DerivedTables.NotingKeepsNewest` | packages/lakehouse-kit/src/lakehouse_kit/derived_tables.py:89-99 | Noting one edge keeps, for each key, the name of an edge none is newer than |
| `DerivedTables.OutputsOf` | packages/lakehouse-kit/src/lakehouse_kit/derived_tables.py:89-99 | Exactly the keys written from the inputs, with the newest names over all edges considered so far |
| `DerivedTables.Hop` | packages/lakehouse-kit/src/lakehouse_kit/derived_tables.py:62-78 | One hop finds exactly the keys first reached by it |
| `DerivedTables.OneHopFurther` | packages/lakehouse-kit/src/lakehouse_kit/derived_tables.py:62-78 | Looking only at the frontier misses nothing: one hop from it is one hop from everything reached |
| `DerivedTables.WalkedOneHopFurther` | packages/lakehouse-kit/src/lakehouse_kit/derived_tables.py:62-78 | Entering a hop's finds keeps every depth the shortest hop count |
| `DerivedTables.Walk` | packages/lakehouse-kit/src/lakehouse_kit/derived_tables.py:62-78 | For every edge set, cyclic or not: exactly the non-source keys within the limit, each at its shortest hop count; complete if and only if no reachable key is missing; each name that of a newest edge into the key from a source or reached key, or the key itself where that edge names nothing; always ends, and a negative limit is no limit |
| `DerivedTables.Walked` | packages/lakehouse-kit/src/lakehouse_kit/derived_tables.py:102-103 | Every reached key has a name, taken from its newest edge |
| `DerivedTables.StoppedAt` | packages/lakehouse-kit/src/lakehouse_kit/derived_tables.py:62-78 | A walk stopped at its limit or with an empty frontier has found exactly the keys within the limit |
| `DerivedTables.CompleteExactly` | packages/lakehouse-kit/src/lakehouse_kit/derived_tables.py:62-78 | The next hop finds nothing if and only if nothing reachable is missing |
| `LayerDepths.ChainsAreShort` | frontend/packages/flow/src/layout.ts:63-77 | Without cycles no upstream chain has more edges than there are sources |
| `LayerDepths.BoundedChainsAreShort` | frontend/packages/flow/src/layout.ts:63-77 | On any graph the chains of a node that has a longest one have no more edges than there are sources |
| `LayerDepths.RoundAndRound` | frontend/packages/flow/src/layout.ts:63-77 | A chain that meets a node twice extends to any length |
| `LayerDepths.RelaxingIsWitnessed` | frontend/packages/flow/src/layout.ts:68-73 | After each relaxation, in place and in any order, every depth is the length of some upstream chain |
| `LayerDepths.RelaxingCovers` | frontend/packages/flow/src/layout.ts:68-73 | A relaxed edge accounts for every chain one edge longer that starts with it |
| `LayerDepths.SettledCovers` | frontend/packages/flow/src/layout.ts:74-75 | Where no edge raises a depth, every chain is accounted for |
| `LayerDepths.Round` | frontend/packages/flow/src/layout.ts:66-74 | One round accounts for chains one edge longer; a round that changes nothing means settled |
| `LayerDepths.ComputeDepths` | frontend/packages/flow/src/layout.ts:63-77 | On every input, cyclic ones included, at most as many rounds as nodes and each depth some upstream chain's length; with an id given, or no proper edge, every node that has a longest chain gets its length, cycles elsewhere or not, so every node does on an acyclic input |
| `LayerDepths.EndsCapped` | frontend/packages/flow/src/layout.ts:65-75 | On an acyclic input the round cap cuts nothing off |
| `LayerDepths.EndsCappedForTheBounded` | frontend/packages/flow/src/layout.ts:65-75 | On any graph the round cap cuts no node short that has a longest chain |
| `LayerDepths.EdgesIncreaseDepth` | frontend/packages/flow/src/layout.ts:59-62 | Longest-chain depths strictly increase along every edge |
| `LayerDepths.UpstreamIsBoundedToo` | frontend/packages/flow/src/layout.ts:59-62 | What a node with a longest chain derives from has a longest chain too, and a shorter one |
| `LayerDepths.NoIdsMeansNoDepths` | frontend/packages/flow/src/layout.ts:63-65 | With no ids and some edge the depths fall short, on every such input |
| `FlowLayout.Degrees` | frontend/packages/flow/src/layout.ts:91-96 | A node has a positive degree exactly when a non-loop edge touches it |
| `FlowLayout.Partition` | frontend/packages/flow/src/layout.ts:98-101 | Exactly the connected ids and exactly the isolated ones, each in the order given |
| `FlowLayout.LayerNodes` | frontend/packages/flow/src/layout.ts:103-108 | Layer d holds exactly the connected nodes of depth d, in the order given |
| `FlowLayout.SortIsStable` | frontend/packages/flow/src/layout.ts:139-141 | The sort keeps the order of nodes with equal keys |
| `FlowLayout.NeighboursExactly` | frontend/packages/flow/src/layout.ts:110-117 | Upstream neighbours are the targets of a node's own edges and downstream ones the sources of edges into it, as often as there are such edges, self-loops aside |
| `FlowLayout.KeyExactly` | frontend/packages/flow/src/layout.ts:122-128 | The sort key times the number of ranked neighbours is the sum of their ranks; with none it is the node's own rank |
| `FlowLayout.RankedExactly` | frontend/packages/flow/src/layout.ts:124-127 | The ranks summed are those of the neighbours that have one, one by one |
| `FlowLayout.OrderLayer` | frontend/packages/flow/src/layout.ts:136-142 | An ordering step is the stable sort of its layer by barycentre |
| `FlowLayout.OrderLayers` | frontend/packages/flow/src/layout.ts:130-144 | The result is the four sweeps in turn, each layer sorted by the ranks the ones before it left; together they permute each layer and move no node to another |
| `FlowLayout.SweepLayers` | frontend/packages/flow/src/layout.ts:133-143 | One sweep visits every layer once, left to right or right to left, re-ranking as it goes |
| `FlowLayout.SweepsPermute` | frontend/packages/flow/src/layout.ts:130-144 | Any number of sweeps permutes each layer |
| `FlowLayout.RankLayer` | frontend/packages/flow/src/layout.ts:119-120 | Ranks are the positions in the layer, and no other rank changes |
| `FlowLayout.CeilSqrt` | frontend/packages/flow/src/layout.ts:160-160 | The least integer whose square is at least n |
| `FlowLayout.LayerSeatsApart` | frontend/packages/flow/src/layout.ts:148-153 | Two seats in centred layers are 240 apart in x or 110 in y |
| `FlowLayout.LayersAreCentred` | frontend/packages/flow/src/layout.ts:148-153 | Seats 240 across and 110 down, each layer ending as far above the tallest's foot as it starts below its top |
| `FlowLayout.GridIsRowByRow` | frontend/packages/flow/src/layout.ts:160-167 | Isolated nodes row by row, 240 across and 110 down, the first row two rows below the tallest layer |
| `FlowLayout.GridSeatsApart` | frontend/packages/flow/src/layout.ts:160-167 | So are two seats of the isolated grid |
| `FlowLayout.GridIsBelowTheLayers` | frontend/packages/flow/src/layout.ts:160-167 | And every grid seat from every layer seat |
| `FlowLayout.SeatedIsApart` | frontend/packages/flow/src/layout.ts:148-167 | Two different nodes seated by layers or grid are apart, whichever seats they have |
| `FlowLayout.PlaceLayers` | frontend/packages/flow/src/layout.ts:148-153 | Every node of a layer gets a seat of its own layer, and nobody else one |
| `FlowLayout.PlaceGrid` | frontend/packages/flow/src/layout.ts:160-167 | Every isolated node gets a grid seat, and no placed node moves |
| `FlowLayout.Layout` | frontend/packages/flow/src/layout.ts:85-170 | For every id list, edge list and depth function: each connected node at its seat in the swept layers, each isolated one at its seat in the grid; so exactly the given ids are placed, any two at least 240 apart in x or 110 in y, and a connected node stands in the column of its depth |
| `FlowLayout.LayoutIsDeterministic` | frontend/packages/flow/src/layout.ts:79-84 | Two layouts of the same distinct ids, edges and depths are the same |
| `FlowLayout.LaidOutIsApart` | frontend/packages/flow/src/layout.ts:148-167 | Any layout seated so keeps its nodes apart and in their columns |
| `FlowLayout.PlaceLineage` | frontend/packages/flow/src/layout.ts:63-170 | Depths and layout together: on any graph an edge between given ids whose source has a longest chain runs at least one column to the right, so every edge does on acyclic input |
| `Collisions.SeparationIsExact` | frontend/packages/flow/src/resolve-collisions.ts:89-104 | An adjustment conserves the pair's sums and sizes, leaves the other axis alone, puts the box with the later centre exactly at the other's far edge, and so ends with zero penetration on the chosen axis if and only if the extents there do not sum below zero, which a threshold of 0 or more guarantees |
| `Collisions.DepthIsOfEdges` | frontend/packages/flow/src/resolve-collisions.ts:83-87 | Penetration is the lesser of the two reaches past the other's near edge, on either axis |
| `Collisions.CollideExactly` | frontend/packages/flow/src/resolve-collisions.ts:83-89 | A pair collides if and only if on both axes each reaches past the other's near edge by more than the threshold |
| `Collisions.BoxExactly` | frontend/packages/flow/src/resolve-collisions.ts:50-61 | A box runs from the node's position less the margin to its position plus its size, rendered, else declared, else 200 by 64, plus the margin |
| `Collisions.NegativeExtentsMissEachOther` | frontend/packages/flow/src/resolve-collisions.ts:83-98 | The exception at an input: two cards of default width under a margin of -100.5 collide at a threshold of -5 and are left further out of touch than before |
| `Collisions.SeparatingKeepsSums` | frontend/packages/flow/src/resolve-collisions.ts:89-104 | Adjusting any pair conserves the sums of x and of y over all boxes |
| `Collisions.Pair` | frontend/packages/flow/src/resolve-collisions.ts:78-105 | In place, exactly the one-pair step: a pair overlapping beyond the threshold on both axes is separated, and no other box changes |
| `Collisions.Pass` | frontend/packages/flow/src/resolve-collisions.ts:74-108 | In place, exactly the pairs in order, each meeting what those before it left; it reports a move if and only if some pair overlapped before it |
| `Collisions.PassesKeep` | frontend/packages/flow/src/resolve-collisions.ts:74-108 | Any number of passes conserves the sums of x and of y, every size, and every box not moved |
| `Collisions.ClearPassesStay` | frontend/packages/flow/src/resolve-collisions.ts:74-108 | Clear boxes are a fixed point: no pair is hit and no further pass changes anything |
| `Collisions.MovedExactly` | frontend/packages/flow/src/resolve-collisions.ts:90-91 | A box ends moved if and only if some pass adjusted it with some partner |
| `Collisions.FirstCollisionIsHit` | frontend/packages/flow/src/resolve-collisions.ts:77-89 | The first pair that collides before a pass is hit by it |
| `Collisions.SomethingMovesExactlyWhen` | frontend/packages/flow/src/resolve-collisions.ts:74-108 | Some node is adjusted if and only if a pass is made and the boxes were not clear to begin with |
| `Collisions.TwoBoxesSettleInOnePass` | frontend/packages/flow/src/resolve-collisions.ts:68-109 | Two boxes are clear after one pass, at every threshold from 0 up |
| `Collisions.SumsOfBoxes` | frontend/packages/flow/src/resolve-collisions.ts:50-61 | Boxes sum to what their nodes do, less one margin each |
| `Collisions.ResolveCollisions` | frontend/packages/flow/src/resolve-collisions.ts:68-114 | The result is the nodes after the passes it made; it settles if and only if one of the maxIterations + 1 passes it may make finds no pair overlapping, stopping after the first that does, and then for every two nodes of the result, on some axis neither reaches past the other's near edge by more than the threshold; moved are exactly the nodes some pass adjusted; the sums of x and y are conserved and nothing but positions of moved nodes changes |
| `Collisions.ResolvingKeeps` | frontend/packages/flow/src/resolve-collisions.ts:111-113 | After any number of passes the nodes handed back keep the sums, keep all but positions, differ only where adjusted, and are clear exactly when the boxes are |
| `ManifestFlags.DecodeUndoesEncode` | conftest.py:276-282 | Decoding undoes encoding for every natural number, wherever it stands and whatever follows |
| `ManifestFlags.VarintAt` | packages/lakehouse-kit/src/lakehouse_kit/features.py:329-339 | Every read of a varint moves on, and never past the bytes |
| `ManifestFlags.Varint` | packages/lakehouse-kit/src/lakehouse_kit/features.py:329-339 | The shifting loop computes the little-endian base-128 value, cut short where the bytes end |
| `ManifestFlags.ManifestFeatureFlags` | packages/lakehouse-kit/src/lakehouse_kit/features.py:216-246 | The index loop ends on any bytes at all and equals the recursive scan |
| `ManifestFlags.ScanOfOne` | packages/lakehouse-kit/src/lakehouse_kit/features.py:224-245 | Scanning one well-formed field of any of the four wire types ends where the next begins |
| `ManifestFlags.ScanOfAll` | packages/lakehouse-kit/src/lakehouse_kit/features.py:224-245 | Scanning any well-formed prefix leaves the last varints of fields 9 and 10 |
| `ManifestFlags.ScanReadsTheFlags` | packages/lakehouse-kit/src/lakehouse_kit/features.py:216-246 | For every well-formed message the scan answers the last varints of fields 9 and 10, 0 where absent, whatever stands between |
| `ManifestFlags.LastOfExactly` | packages/lakehouse-kit/src/lakehouse_kit/features.py:231-236 | The last varint of a field number is the value of the last field that gives it one, and what was there before without one |
| `ManifestFlags.ScanStopsAtWhatItCannotSkip` | packages/lakehouse-kit/src/lakehouse_kit/features.py:216-246 | At any other wire type the scan answers what it has, whatever follows |
| `ManifestFlags.MaskBits` | packages/lakehouse-kit/src/lakehouse_kit/features.py:352-374 | The masks are bitwise or, and, and-not, on every bit |
| `ManifestFlags.BitExactly` | packages/lakehouse-kit/src/lakehouse_kit/features.py:352-374 | Adding the k-th power of two to a smaller number sets the k-th bit and no other |
| `ManifestFlags.EmptyMask` | packages/lakehouse-kit/src/lakehouse_kit/features.py:352-374 | A mask is 0 if and only if no bit of it is set |
| `CompactionGate.GatesRefuseWhatTheyDoNotKnow` | packages/lakehouse-kit/src/lakehouse_kit/features.py:352-404 | Each flags-only gate admits if and only if no bit it does not know is set in the fields it reads |
| `CompactionGate.GatherCompactionBases` | packages/lakehouse-kit/src/lakehouse_kit/features.py:552-612 | Nothing raises; every declared base gets its evidence in order, and what could not be read is recorded unknown |
| `CompactionGate.FirstObjection` | packages/lakehouse-kit/src/lakehouse_kit/features.py:714-726 | No objection if and only if every base is neither declared nor probed a root |
| `CompactionGate.CompactionGateExactly` | packages/lakehouse-kit/src/lakehouse_kit/features.py:651-696 | Admits if and only if no other unknown bit is set and the base-paths bit only with evidence that holds |
| `CompactionGate.FilesInsideIsTheirPaths` | packages/lakehouse-kit/src/lakehouse_kit/features.py:615-634 | Every data file stays inside the table if and only if the paths they resolve through could be read and all do |
| `CompactionGate.OutsideEvidence` | packages/lakehouse-kit/src/lakehouse_kit/compaction_gate.py:63-73 | The evidence about outside bases holds exactly when the manifest's outside bases are no roots |
| `CompactionGate.RefsAreOfTheDeclared` | packages/lakehouse-kit/src/lakehouse_kit/features.py:274-302 | The bases probed are the declared ones that have a path |
| `CompactionGate.WithAnOwnBase` | packages/lakehouse-kit/src/lakehouse_kit/compaction_gate.py:36-55 | With a base inside the table, the gate's two ways to a permit are exactly: files stay inside and outside bases are no roots |
| `CompactionGate.WithNoOwnBase` | packages/lakehouse-kit/src/lakehouse_kit/compaction_gate.py:36-55 | With none, the evidence holds exactly when the list was read, is not empty, no file leaves the table and no base is a root |
| `CompactionGate.CompactionIsPermittedExactlyWhen` | packages/lakehouse-kit/src/lakehouse_kit/compaction_gate.py:36-73 | Permitted if and only if no bit above the fifth is set and, where the fifth is: the table has a location, the base list was read and a base has a path, every data file was read and names only declared bases on the table's store and inside it, and every declared base with a path is there too or neither declared nor probed a root |
| `CompactionGate.GcAdmitsWhatCompactionAdmits` | packages/lakehouse-kit/src/lakehouse_kit/features.py:729-739 | Whatever compaction admits, the root-scoped gate admits |
| `CommitAuthors.KeyIsInjective` | packages/lakehouse-kit/src/lakehouse_kit/commit_records.py:82-85 | Two commits share a key if and only if they are the same table, transaction and version, for any table string and any integer version |
| `CommitAuthors.CanonicalExactly` | packages/lakehouse-kit/src/lakehouse_kit/commit_records.py:73-79 | A transaction uuid is canonical if and only if it is some 128-bit number as a uuid prints |
| `CommitAuthors.KeyIs` | packages/lakehouse-kit/src/lakehouse_kit/commit_records.py:82-85 | The key written out, the version in decimal |
| `CommitAuthors.DecimalExactly` | packages/lakehouse-kit/src/lakehouse_kit/commit_records.py:82-85 | The decimal text has the number's value and no leading zero |
| `CommitAuthors.OneAuthorPerCommit` | packages/lakehouse-kit/src/lakehouse_kit/commit_records.py:93-120 | Over every interleaving of calls on one commit with no forget of it: at most one creates, only where none was kept, and the record is then its request to the letter; calls that return agree on author and ref; an ended call returned if and only if the record at the end names its author and ref |
| `CommitAuthors.SomeCallCreates` | packages/lakehouse-kit/src/lakehouse_kit/commit_records.py:93-120 | And where none was kept, one call does create it |
| `CommitAuthors.WrittenOnce` | packages/lakehouse-kit/src/lakehouse_kit/commit_records.py:99-100 | A kept record, manifest included, never changes until its own commit is forgotten |
| `CommitAuthors.ForgettingForgetsOneCommit` | packages/lakehouse-kit/src/lakehouse_kit/commit_records.py:163-173 | A forget deletes the record of exactly the commit it names |
| `CommitAuthors.StepKeepsAgreed` | packages/lakehouse-kit/src/lakehouse_kit/commit_records.py:93-120 | Each request of any call keeps the agreement between where the calls stand and the record |
| `CommitAuthors.RunKeepsAgreed` | packages/lakehouse-kit/src/lakehouse_kit/commit_records.py:93-120 | So does every interleaving |
| `CommitAuthors.SignsOnlyWhatWasRecorded` | packages/lakehouse-kit/src/lakehouse_kit/commit_records.py:146-160 | In every run from an empty store an answer is to the letter the request of a call that created it for this table, transaction, version and ref; and there is one exactly when the kept record names the ref |
| `CommitAuthors.RecordedUntilForgotten` | packages/lakehouse-kit/src/lakehouse_kit/commit_records.py:146-160 | A created record answers for its own ref and no other until its commit is forgotten, whatever everyone else does |
| `CommitAuthors.Authors.RecordAuthor` | packages/lakehouse-kit/src/lakehouse_kit/commit_records.py:93-120 | The answer is where its call ended in the machine; an invalid uuid is refused exactly when not canonical; left alone it creates exactly where nothing is kept, is a retry exactly on the same author and ref, and otherwise changes nothing |
| `CommitAuthors.Authors.ForgetAuthor` | packages/lakehouse-kit/src/lakehouse_kit/commit_records.py:163-173 | Afterwards nothing is recorded of the commit, and what is recorded of every other is the same |
| `BranchLayout.BranchNameOfItsFile` | packages/lakehouse-kit/src/lakehouse_kit/branch_layout.py:78-93 | Reading back a name's file gives the name if and only if it is non-empty text; the file is a single directory entry however deep the branch is |
| `BranchLayout.TextNamesAreReadBack` | packages/lakehouse-kit/src/lakehouse_kit/branch_layout.py:78-93 | Every non-empty name that is text is read back from its file |
| `BranchLayout.RefFileNameIsInjective` | packages/lakehouse-kit/src/lakehouse_kit/branch_layout.py:78-86 | No two names share a file |
| `BranchLayout.UnquotedUndoesQuoted` | packages/lakehouse-kit/src/lakehouse_kit/branch_layout.py:78-93 | Percent-decoding undoes percent-encoding on every octet string |
| `BranchLayout.QuotesOneByOne` | packages/lakehouse-kit/src/lakehouse_kit/branch_layout.py:78-86 | Letters, digits and -._~ stand for themselves, every other octet is a percent sign and two capital hex digits |
| `BranchLayout.FormedIsEncoded` | packages/lakehouse-kit/src/lakehouse_kit/branch_layout.py:89-93 | What is taken as one character is the encoding of one |
| `BranchLayout.BrokenIsLongest` | packages/lakehouse-kit/src/lakehouse_kit/branch_layout.py:89-93 | One replacement mark stands for as much as could have begun a character and no more |
| `BranchLayout.RepairedIsText` | packages/lakehouse-kit/src/lakehouse_kit/branch_layout.py:89-93 | Decoding with replacement always gives text, and leaves exactly the text alone |
| `BranchLayout.MarkIsEncoded` | packages/lakehouse-kit/src/lakehouse_kit/branch_layout.py:89-93 | Broken octets are replaced by U+FFFD |
| `BranchLayout.InsideComesFirst` | packages/lakehouse-kit/src/lakehouse_kit/branch_layout.py:53-59 | Exactly the given branches beneath the name, as often as given, sorted deepest first, and never a branch before one inside it |
| `BranchLayout.ChosenAreInside` | packages/lakehouse-kit/src/lakehouse_kit/branch_layout.py:53-59 | A branch is listed if and only if it was given and lies beneath the name |
| `BranchLayout.InsideHasMoreSlashes` | packages/lakehouse-kit/src/lakehouse_kit/branch_layout.py:53-59 | A branch inside another has more separators, so the sort key orders them |
| `ReadQuery.LoadingExactlyWhileTheLatestIsOut` | frontend/console/src/lib/reads.svelte.ts:84-110 | In every interleaving loading holds if and only if the latest start has had no answer since it was made |
| `ReadQuery.NothingElseShows` | frontend/console/src/lib/reads.svelte.ts:88-106 | While no newer start is made, superseded answers, touches and the clock change none of the fields |
| `ReadQuery.LatestWins` | frontend/console/src/lib/reads.svelte.ts:74-106 | From a start that is out, whatever older answers land before or after, the read ends showing that start's own answer, a failure leaving the value shown before, settled when it landed |
| `ReadQuery.AnswersNeverGoBack` | frontend/console/src/lib/reads.svelte.ts:67-122 | In every interleaving the starts that write current strictly increase, current is the last of their values, and the promise handed out is the latest start's |
| `ReadQuery.InFlightIsUnsettled` | frontend/console/src/lib/reads.svelte.ts:84-110 | A start is in flight if and only if it was made and not answered since |
| `ReadQuery.RunKeepsInv` | frontend/console/src/lib/reads.svelte.ts:67-122 | Every run keeps the ties between loading, the generation, the starts in flight and the writes |
| `ReadQuery.TouchesAreDeduplicated` | frontend/console/src/lib/reads.svelte.ts:118-122 | On a clock that never goes back, starts made by touching are at least 1000 ms apart, however many callers touch and however fast answers come |
| `ReadQuery.Query.Refresh` | frontend/console/src/lib/reads.svelte.ts:112-116 | Always starts; shows nothing new yet |
| `ReadQuery.Query.Touch` | frontend/console/src/lib/reads.svelte.ts:118-122 | Starts exactly when nothing is in flight and the last settlement is 1000 ms old; otherwise changes no field |
| `ReadQuery.Query.Settled` | frontend/console/src/lib/reads.svelte.ts:88-106 | The callback refines the machine's settlement: a superseded answer changes no field |

## Left out

- JSON encoding and the validators of records: a stored body is a record or something that does not read as one.
- I/O, log lines, metrics and the wording of refusals: refusals are enumerations, and a store error of a reader or probe is a value it answers.
- Store failures inside the take, release, claim and author calls, which end the call by raising: no clause speaks of them beyond the steps made before.
- Text as code points: names and spellings are UTF-8 octets, so lower-casing a scheme is ASCII only.
- `uuid.UUID` parsing of other spellings: `CommitAuthors.Canonical` is exactly the printed form (`CanonicalExactly`).
- Floating-point rounding: layout and separation are over exact reals and integers, and waits over whole microseconds.
- The mutex a cache lock really is: the machine lets callers of one read load at once, which only adds interleavings.
- SharedReads.Reads.Peek: the clock is a parameter.
- `wait_in_loop`, `poll` and `keeps`: the decision of `wait` and of the record read again, with asyncio plumbing.
- BaseRefs.ClassifyBaseRefs: the reader answers by decoded path and the discovered datasets are a list; `protected_roots` and `sibling_base_refs`, which feed it, are I/O loops.
- BaseVerdicts.RewriteIsSafe: promises nothing about the roots a rewrite permitted by the branch exemption overlaps, because the code does not (`RewriteGaps.AnUnconditionalRootIsOverlooked`), and of a pin beneath the location only that it is a pin.
- Data-directory claims, tag-move records and the reconciler's marks: the same store protocol with easier invariants.
- Data-file version mixing, flags parsed from error texts, `_named`: formatting over the modelled masks.
- ManifestFlags.Varint: seven-bit groups are added where the source ors them, which is the same number because they do not overlap.
- FlowLayout.OrderLayers: that the sweeps reduce crossings is a heuristic the source does not promise and is not stated.
- FlowLayout.LayoutIsDeterministic: for distinct ids; where an id is given twice the last of its seats wins, which is not stated.
- The deletion of a turn record when its table ends (`end_object_records` in `object_records.py`): the lease is modelled over takes, hands and releases.
- A store that answers no date, or whose clock runs back: the lease assumes a clock that does not.
- BaseClaims.Registry.Replace: on a local root opening, comparing and writing are one step, so a delete between the open and the write is not modelled.
- Reserved segments, enclosing branches and `branch_named_by`: one-line string tests.
- ReadQuery.Query.Settled: the promise's own resolution and Svelte's reactivity are not modelled; a start settles at most once.
- The catalog's doors, maintenance and services around the kernel, and the rest of the frontend.
