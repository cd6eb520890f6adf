/**
 The catalog's record of the bases a table may declare (`claim_bases`, `_add_missing`, `release_claim` of
 `lakehouse_kit/base_registry.py`, over `mutate_json` of `lakehouse_kit/records.py`): concurrent claims and
 releases of one record, decided by a create that loses to any stored record
 and a replace that loses to any other write.

 As in `CommitTurns`, `World.seen` keeps every read ever made and a write may act on any of them, so the
 runs of the machine cover every interleaving.
 */
module BaseClaims {
  import opened Outcomes
  import opened Locations
  import opened BaseJudging
  import opened EtagStore

  /** The part of an entry two claims are compared by. */
  datatype Identity = Identity(path: string, store: string, isDatasetRoot: bool, role: BaseRole)

  function IdentityOf(e: RecordedBase): Identity {
    Identity(e.path, e.store, e.isDatasetRoot, e.role)
  }

  /** Two entries are the same base exactly when place, store, kind and role all agree; name, origin, source and tag do
      not count. */
  lemma {:induction false} SameBaseExactly(a: RecordedBase, b: RecordedBase)
    ensures IdentityOf(a) == IdentityOf(b)
            <==> a.path == b.path && a.store == b.store && a.isDatasetRoot == b.isDatasetRoot && a.role == b.role
  {
  }

  function Identities(entries: seq<RecordedBase>): set<Identity> {
    set e | e in entries :: IdentityOf(e)
  }

  predicate Distinct(entries: seq<RecordedBase>) {
    forall i, j :: 0 <= i < j < |entries| ==> IdentityOf(entries[i]) != IdentityOf(entries[j])
  }

  /** A stored body either reads as a record or does not. */
  datatype Body = Garbled | Written(record: BaseRecord)

  /** A record as the writers' validators build it. */
  predicate WellFormed(r: BaseRecord) {
    Distinct(r.entries) && NamesALocation(r.location) && Normalise(r.location) == r.location
  }

  // ---------------------------------------------------------------- keys and the self-check

  /** Where a record lives: its prefix, its kind, and a digest of kind and name. Nothing is assumed of the digest. */
  function RecordKey(digest: string -> string, prefix: string, kind: string, name: string): string {
    prefix + "/" + kind + "-" + digest(kind + ":" + name) + ".json"
  }

  function KeyFor(digest: string -> string, location: string): string {
    RecordKey(digest, "_bases", "table", DecodedPath(location))
  }

  /** The key, written out. */
  lemma {:induction false} KeyIs(digest: string -> string, location: string)
    ensures KeyFor(digest, location) == "_bases/table-" + digest("table:" + DecodedPath(location)) + ".json"
  {
    assert "_bases" + "/" + "table" + "-" == "_bases/table-" && "table" + ":" == "table:";
    assert ("table" + ":") + DecodedPath(location) == "table:" + DecodedPath(location);
  }

  /** A body read as the record of `location`: None where it does not read, or is another path's. */
  function Parsed(body: Body, location: string): Option<BaseRecord> {
    if body.Written? && DecodedPath(body.record.location) == DecodedPath(location) then Some(body.record) else None
  }

  /** Under every digest: a record written under one spelling is looked up under every spelling that decodes to
      the same path, and reads there; and on a key two paths share it still reads under exactly the spellings of
      its own, so a digest that collides mixes no two tables. */
  lemma {:induction false} ReadsUnderEverySpelling(
      digest: string -> string, written: string, read: string, entries: seq<RecordedBase>)
    requires NamesALocation(written)
    ensures var record := BaseRecord(Normalise(written), entries);
            && NamesALocation(record.location) && Normalise(record.location) == record.location
            && KeyFor(digest, record.location) == KeyFor(digest, written)
            && (DecodedPath(written) == DecodedPath(read) ==> KeyFor(digest, written) == KeyFor(digest, read))
            && (Parsed(Written(record), read) == Some(record) <==> DecodedPath(written) == DecodedPath(read))
            && (Parsed(Written(record), read).None? <==> DecodedPath(written) != DecodedPath(read))
  {
    hide DecodedPath, Segments;
    NormaliseIsIdempotent(written);
  }

  // ---------------------------------------------------------------- the lists a write puts there

  /** The entries of `wanted` that `held` lacks. */
  function Missing(wanted: seq<RecordedBase>, held: set<Identity>): (missing: seq<RecordedBase>)
    ensures forall e :: e in missing <==> e in wanted && IdentityOf(e) !in held
  {
    if wanted == [] then []
    else (if IdentityOf(wanted[0]) !in held then [wanted[0]] else []) + Missing(wanted[1..], held)
  }

  function Removed(entries: seq<RecordedBase>, removed: set<Identity>): seq<RecordedBase> {
    Missing(entries, removed)
  }

  lemma {:induction false} MissingIsDistinct(wanted: seq<RecordedBase>, held: set<Identity>)
    requires Distinct(wanted)
    ensures Distinct(Missing(wanted, held))
  {
    if wanted != [] {
      MissingIsDistinct(wanted[1..], held);
      forall e | e in Missing(wanted[1..], held) ensures IdentityOf(e) != IdentityOf(wanted[0]) {
        var k :| 0 <= k < |wanted[1..]| && wanted[1..][k] == e;
        assert wanted[k + 1] == e;
      }
    }
  }

  lemma {:induction false} AddingStaysDistinct(entries: seq<RecordedBase>, wanted: seq<RecordedBase>)
    requires Distinct(entries) && Distinct(wanted)
    ensures Distinct(entries + Missing(wanted, Identities(entries)))
    ensures Identities(wanted) <= Identities(entries + Missing(wanted, Identities(entries)))
  {
    var more := Missing(wanted, Identities(entries));
    MissingIsDistinct(wanted, Identities(entries));
    forall i, j | 0 <= i < |entries| && 0 <= j < |more| ensures IdentityOf(entries[i]) != IdentityOf(more[j]) {
      assert entries[i] in entries && more[j] in more;
    }
    forall e | e in wanted ensures IdentityOf(e) in Identities(entries + more) {
      if IdentityOf(e) in Identities(entries) {
        var held :| held in entries && IdentityOf(held) == IdentityOf(e);
        assert held in entries + more;
      } else {
        assert e in more && e in entries + more;
      }
    }
  }

  lemma {:induction false} NothingMissing(entries: seq<RecordedBase>, held: set<Identity>)
    requires forall e :: e in entries ==> IdentityOf(e) !in held
    ensures Missing(entries, held) == entries
  {
    if entries != [] {
      NothingMissing(entries[1..], held);
    }
  }

  lemma {:induction false} MissingOfBoth(a: seq<RecordedBase>, b: seq<RecordedBase>, held: set<Identity>)
    ensures Missing(a + b, held) == Missing(a, held) + Missing(b, held)
  {
    if a == [] {
      assert a + b == b;
    } else {
      assert (a + b)[1..] == a[1..] + b;
      MissingOfBoth(a[1..], b, held);
    }
  }

  /** Removing what a claim added leaves exactly what was there. */
  lemma {:induction false} RemovingUndoesAdding(entries: seq<RecordedBase>, added: seq<RecordedBase>)
    requires forall e :: e in added ==> IdentityOf(e) !in Identities(entries)
    ensures Removed(entries + added, Identities(added)) == entries
  {
    forall e | e in entries ensures IdentityOf(e) !in Identities(added) {
      assert IdentityOf(e) in Identities(entries);
    }
    NothingMissing(entries, Identities(added));
    MissingOfBoth(entries, added, Identities(added));
    AllHeld(added, Identities(added));
  }

  lemma {:induction false} AllHeld(entries: seq<RecordedBase>, held: set<Identity>)
    requires forall e :: e in entries ==> IdentityOf(e) in held
    ensures Missing(entries, held) == []
  {
    if entries != [] {
      AllHeld(entries[1..], held);
    }
  }

  // ---------------------------------------------------------------- the machine

  /** `local` is whether the control root is a directory rather than a bucket. */
  datatype World = World(cell: Cell<Body>, seen: set<Option<Stored<Body>>>, local: bool)

  datatype Step =
    | Look
    | Create(wanted: BaseRecord, etag: Etag)
    | Add(read: Stored<Body>, wanted: BaseRecord, etag: Etag)
    | Remove(read: Stored<Body>, location: string, removed: set<Identity>, etag: Etag)
    | Drop

  /** What an ETag-guarded write puts in place of the record it read. */
  function Update(s: Step): Option<Body>
    requires s.Add? || s.Remove?
  {
    var record := Parsed(s.read.body, if s.Add? then s.wanted.location else s.location);
    if record.None? then None
    else if s.Add? then
      Some(Written(record.value.(entries := record.value.entries
                                 + Missing(s.wanted.entries, Identities(record.value.entries)))))
    else Some(Written(record.value.(entries := Removed(record.value.entries, s.removed))))
  }

  predicate Lands(w: World, s: Step) {
    match s
    case Create(wanted, etag) => WellFormed(wanted) && CreateLands(w.cell, Written(wanted), etag)
    case Add(read, wanted, etag) =>
      && WellFormed(wanted) && Some(read) in w.seen && Update(s).Some?
      && ReplaceLands(w.cell, Update(s).value, read.etag, etag)
    case Remove(read, _, _, etag) =>
      Some(read) in w.seen && Update(s).Some? && ReplaceLands(w.cell, Update(s).value, read.etag, etag)
    case _ => true
  }

  /** On a local root a replace opens its target for appending before it compares: where the record was deleted
      since the read, the replace is refused and an empty file stays behind, which reads as no record. */
  predicate Litters(w: World, s: Step) {
    && w.local && (s.Add? || s.Remove?) && (s.Add? ==> WellFormed(s.wanted))
    && Some(s.read) in w.seen && Update(s).Some?
    && w.cell.stored.None? && MayName(w.cell, Garbled, s.etag)
  }

  function Next(w: World, s: Step): World {
    if Litters(w, s) then w.(cell := Put(w.cell, Garbled, s.etag))
    else if !Lands(w, s) then w
    else
      match s
      case Look => w.(seen := w.seen + {w.cell.stored})
      case Create(wanted, etag) => w.(cell := Put(w.cell, Written(wanted), etag))
      case Drop => w.(cell := Delete(w.cell))
      case _ => w.(cell := Put(w.cell, Update(s).value, s.etag))
  }

  function Run(w: World, steps: seq<Step>): World
    decreases |steps|
  {
    if steps == [] then w else Next(Run(w, steps[..|steps| - 1]), steps[|steps| - 1])
  }

  ghost predicate Inv(w: World) {
    && Valid(w.cell)
    && (forall e :: e in w.cell.named && w.cell.named[e].Written? ==> WellFormed(w.cell.named[e].record))
    && (forall r :: r in w.seen ==> StillNamed(w.cell, r))
  }

  lemma {:induction false} StepKeepsInv(w: World, s: Step)
    requires Inv(w)
    ensures Inv(Next(w, s))
  {
    hide DecodedPath, NamesALocation, Normalise;
    if Lands(w, s) && (s.Add? || s.Remove?) {
      assert Some(s.read) in w.seen;
      var entries := s.read.body.record.entries;
      if s.Add? {
        AddingStaysDistinct(entries, s.wanted.entries);
      } else {
        MissingIsDistinct(entries, s.removed);
      }
    }
  }

  lemma {:induction false} RunKeepsInv(w: World, steps: seq<Step>)
    requires Inv(w)
    ensures Inv(Run(w, steps))
    decreases |steps|
  {
    if steps != [] {
      RunKeepsInv(w, steps[..|steps| - 1]);
      StepKeepsInv(Run(w, steps[..|steps| - 1]), steps[|steps| - 1]);
    }
  }

  function Started(local: bool): World {
    World(Cell(None, 0, map[]), {}, local)
  }

  /** In every interleaving of claims and releases, on either kind of root, the entries of a record that reads are
      pairwise distinct bases. */
  lemma {:induction false} EntriesStayDistinct(local: bool, steps: seq<Step>)
    ensures var w := Run(Started(local), steps);
            w.cell.stored.Some? && w.cell.stored.value.body.Written?
            ==> Distinct(w.cell.stored.value.body.record.entries)
  {
    RunKeepsInv(Started(local), steps);
  }

  /** On a local root, an add or a removal judged a record it read, and writes now that nothing is stored. */
  ghost predicate RefusedOnNothing(w: World, s: Step) {
    && w.local && w.cell.stored.None? && (s.Add? || s.Remove?) && Some(s.read) in w.seen
    && (s.Add? ==> Distinct(s.wanted.entries) && NamesALocation(s.wanted.location)
                   && Normalise(s.wanted.location) == s.wanted.location)
    && s.read.body.Written?
    && DecodedPath(s.read.body.record.location) == DecodedPath(if s.Add? then s.wanted.location else s.location)
    && (s.etag in w.cell.named ==> w.cell.named[s.etag] == Garbled)
  }

  lemma {:induction false} LittersExactly(w: World, s: Step)
    ensures Litters(w, s) <==> RefusedOnNothing(w, s)
  {
    hide DecodedPath, Normalise, NamesALocation, Distinct;
  }

  /** Step `k` left an empty file behind, and nothing has been deleted since. */
  ghost predicate LitterStands(w: World, steps: seq<Step>, k: nat) {
    && k < |steps| && RefusedOnNothing(Run(w, steps[..k]), steps[k])
    && forall m :: k < m < |steps| ==> !steps[m].Drop?
  }

  ghost predicate Littered(w: World, steps: seq<Step>) {
    exists k: nat :: LitterStands(w, steps, k)
  }

  lemma {:induction false} LitteredOneMore(w: World, steps: seq<Step>)
    requires steps != []
    ensures var n := |steps| - 1;
            Littered(w, steps)
            <==> Litters(Run(w, steps[..n]), steps[n]) || (Littered(w, steps[..n]) && !steps[n].Drop?)
  {
    hide Litters, Run, RefusedOnNothing;
    var n := |steps| - 1;
    var head := steps[..n];
    LittersExactly(Run(w, head), steps[n]);
    forall k: nat | k < n ensures LitterStands(w, steps, k) <==> LitterStands(w, head, k) && !steps[n].Drop? {
      assert head[..k] == steps[..k];
    }
    assert LitterStands(w, steps, n) <==> Litters(Run(w, head), steps[n]);
    if Littered(w, head) && !steps[n].Drop? {
      var k: nat :| LitterStands(w, head, k);
      assert LitterStands(w, steps, k);
    }
  }

  /** In every interleaving, what is stored reads exactly unless a replace was refused on an absent key of a local
      root and nothing deleted the empty file since. On a bucket it always reads. */
  lemma {:induction false} UnreadableExactlyWhen(local: bool, steps: seq<Step>)
    ensures BodyIn(Run(Started(local), steps)) == Some(Garbled) <==> Littered(Started(local), steps)
    ensures !local ==> !Littered(Started(local), steps)
    decreases |steps|
  {
    var start := Started(local);
    if steps != [] {
      var n := |steps| - 1;
      var before, s := Run(start, steps[..n]), steps[n];
      UnreadableExactlyWhen(local, steps[..n]);
      RunKeepsInv(start, steps[..n]);
      GarbledStaysExactly(before, s);
      LitteredOneMore(start, steps);
      LocalStays(start, steps[..n]);
      hide Next, Inv, Littered;
    }
  }

  lemma {:induction false} LocalStays(w: World, steps: seq<Step>)
    ensures Run(w, steps).local == w.local
    decreases |steps|
  {
    hide Lands, Litters;
    if steps != [] {
      LocalStays(w, steps[..|steps| - 1]);
    }
  }

  /** One step: an empty file is there afterwards exactly when it is left now, or was there and is not deleted. */
  lemma {:induction false} GarbledStaysExactly(w: World, s: Step)
    requires Inv(w)
    ensures BodyIn(Next(w, s)) == Some(Garbled) <==> Litters(w, s) || (BodyIn(w) == Some(Garbled) && !s.Drop?)
  {
    hide WellFormed;
    if (s.Add? || s.Remove?) && Lands(w, s) {
      WriteActsOnWhatWasRead(w.cell, Some(s.read), Update(s).value, s.etag);
    }
  }

  /** It does happen: a claim reads the record another one made, that one's release deletes it, and the first
      claim's add then leaves what no claim can read, replace or create over. */
  lemma {:induction false} AnAddAfterADeleteLitters(first: BaseRecord, second: BaseRecord, later: BaseRecord)
    requires WellFormed(first) && WellFormed(second) && WellFormed(later)
    requires DecodedPath(first.location) == DecodedPath(second.location)
    ensures var steps := [Create(first, 0), Look, Drop, Add(Stored(Written(first), 0), second, 1)];
            var w := Run(Started(true), steps);
            && LitterStands(Started(true), steps, 3) && BodyIn(w) == Some(Garbled)
            && forall etag :: Next(w, Create(later, etag)) == w
  {
    hide WellFormed, DecodedPath;
    var a, b, c, d := Create(first, 0), Look, Drop, Add(Stored(Written(first), 0), second, 1);
    var steps := [a, b, c, d];
    var start := Started(true);
    assert steps[..3] == [a, b, c] && [a, b, c][..2] == [a, b] && [a, b][..1] == [a] && [a][..0] == [];
    var w1 := Next(start, a);
    assert w1.cell.stored == Some(Stored(Written(first), 0)) && w1.cell.named == map[0 := Written(first)];
    var w2 := Next(w1, b);
    assert Some(Stored(Written(first), 0)) in w2.seen;
    var w3 := Next(w2, c);
    assert Litters(w3, d);
    LittersExactly(w3, d);
    assert Run(start, [a]) == w1;
    assert Run(start, [a, b]) == w2;
    assert Run(start, steps[..3]) == w3;
    assert Run(start, steps) == Next(w3, d);
  }

  // ---------------------------------------------------------------- what a claim reports

  /** What one claim changed, which is exactly what its release undoes. */
  datatype Claim = Claim(location: string, created: bool, added: seq<RecordedBase>)

  datatype ClaimError = NotALocation | Unreadable | KeptChanging

  predicate Reads(w: World) {
    w.cell.stored.Some? && w.cell.stored.value.body.Written?
  }

  function RecordIn(w: World): BaseRecord
    requires Reads(w)
  {
    w.cell.stored.value.body.record
  }

  /** The claim's report is exact about the one moment, from `before` to `after`, it took effect: a record
      that was absent and is now the one wanted, or one that gained precisely the wanted entries it lacked. */
  ghost predicate TookEffect(before: World, after: World, wanted: BaseRecord, claim: Claim) {
    && Reads(after) && claim.location == wanted.location
    && Identities(wanted.entries) <= Identities(RecordIn(after).entries)
    && if claim.created then
         before.cell.stored.None? && RecordIn(after) == wanted && claim.added == wanted.entries
       else
         && Reads(before) && DecodedPath(RecordIn(before).location) == DecodedPath(wanted.location)
         && RecordIn(after) == RecordIn(before).(entries := RecordIn(before).entries + claim.added)
         && claim.added == Missing(wanted.entries, Identities(RecordIn(before).entries))
  }

  /** Something is stored, and it is no record of `location`. */
  predicate Unparsed(w: World, location: string) {
    BodyIn(w).Some? && Parsed(BodyIn(w).value, location).None?
  }

  /** Nothing of what the claim changed is left. */
  ghost predicate TakenBack(w: World, claim: Claim) {
    || BodyIn(w).None?
    || (!claim.created && claim.added == [])
    || (!claim.created && Reads(w) && Identities(RecordIn(w).entries) !! Identities(claim.added))
  }

  /** What a release leaves when nobody interferes. */
  function Undone(body: Option<Body>, claim: Claim): Option<Body> {
    if claim.created then None
    else if claim.added == [] || body.None? || Parsed(body.value, claim.location).None? then body
    else Some(Written(body.value.record.(entries := Removed(body.value.record.entries, Identities(claim.added)))))
  }

  function BodyIn(w: World): Option<Body> {
    if w.cell.stored.None? then None else Some(w.cell.stored.value.body)
  }

  lemma {:induction false} ReleaseUndoesClaim(before: World, after: World, wanted: BaseRecord, claim: Claim)
    requires TookEffect(before, after, wanted, claim)
    ensures Undone(BodyIn(after), claim) == BodyIn(before)
  {
    hide DecodedPath;
    if !claim.created {
      RemovingUndoesAdding(RecordIn(before).entries, claim.added);
      assert claim.added == [] ==> RecordIn(after).entries == RecordIn(before).entries;
    }
  }

  // ---------------------------------------------------------------- the code's own loops

  lemma {:induction false} IdentitiesOfMore(entries: seq<RecordedBase>, e: RecordedBase)
    ensures Identities(entries + [e]) == Identities(entries) + {IdentityOf(e)}
  {
    assert e in entries + [e];
    assert forall x :: x in entries ==> x in entries + [e];
  }

  const CLAIM_ATTEMPTS := 3
  const MUTATE_ATTEMPTS := 5

  /** No entry before the k-th is the same base. */
  ghost predicate FirstOfIts(entries: seq<RecordedBase>, k: nat)
    requires k < |entries|
  {
    forall i :: 0 <= i < k ==> IdentityOf(entries[i]) != IdentityOf(entries[k])
  }

  /** `_distinct`: the first entry of each identity, in order; `at` is where each stood. */
  method FirstOfEach(entries: seq<RecordedBase>) returns (kept: seq<RecordedBase>, ghost at: seq<nat>)
    ensures Distinct(kept) && Identities(kept) == Identities(entries)
    ensures |at| == |kept| && forall i, j :: 0 <= i < j < |at| ==> at[i] < at[j]
    ensures forall i :: 0 <= i < |kept| ==> at[i] < |entries| && entries[at[i]] == kept[i] && FirstOfIts(entries, at[i])
  {
    hide Identities, Distinct, FirstOfIts, IdentityOf;
    kept, at := [], [];
    NothingIsDistinct();
    var i := 0;
    while i < |entries|
      invariant 0 <= i <= |entries|
      invariant Distinct(kept) && Identities(kept) == Identities(entries[..i])
      invariant |at| == |kept| && forall m, n :: 0 <= m < n < |at| ==> at[m] < at[n]
      invariant forall n :: 0 <= n < |kept| ==> at[n] < i && entries[at[n]] == kept[n] && FirstOfIts(entries, at[n])
    {
      var e := entries[i];
      assert entries[..i + 1] == entries[..i] + [e];
      IdentitiesOfMore(entries[..i], e);
      IdentitiesOfMore(kept, e);
      if IdentityOf(e) !in Identities(kept) {
        NewIsFirst(entries, i);
        OneMoreIsDistinct(kept, e);
        kept, at := kept + [e], at + [i];
      }
      i := i + 1;
    }
    assert entries[..i] == entries;
  }

  lemma {:induction false} NothingIsDistinct()
    ensures Distinct([]) && Identities([]) == {}
  {
  }

  lemma {:induction false} NewIsFirst(entries: seq<RecordedBase>, k: nat)
    requires k < |entries| && IdentityOf(entries[k]) !in Identities(entries[..k])
    ensures FirstOfIts(entries, k)
  {
    forall i | 0 <= i < k ensures IdentityOf(entries[i]) != IdentityOf(entries[k]) {
      assert entries[i] in entries[..k];
    }
  }

  lemma {:induction false} OneMoreIsDistinct(entries: seq<RecordedBase>, e: RecordedBase)
    requires Distinct(entries) && IdentityOf(e) !in Identities(entries)
    ensures Distinct(entries + [e])
  {
    assert forall k :: 0 <= k < |entries| ==> entries[k] in entries && IdentityOf(entries[k]) in Identities(entries);
  }

  /** The body a replace would leave: its own where a record stands, an empty file's where none does. */
  function Left(w: World, body: Body): Body {
    if w.cell.stored.None? then Garbled else body
  }

  // ---------------------------------------------------------------- rounds lost to others

  /** Some step from `i` up to `j` changed what is stored. */
  ghost predicate Changed(w: World, steps: seq<Step>, i: nat, j: nat) {
    exists k: nat :: i <= k < j && ChangedAt(w, steps, k)
  }

  ghost predicate ChangedAt(w: World, steps: seq<Step>, k: nat) {
    k < |steps| && Run(w, steps[..k]).cell.stored != Run(w, steps[..k + 1]).cell.stored
  }

  /** `at` marks off rounds, one after the other from `since` on, and what is stored changed in each. */
  ghost predicate LostRounds(w: World, steps: seq<Step>, since: nat, at: seq<nat>) {
    && at != [] && since <= at[0] && at[|at| - 1] <= |steps|
    && (forall i, j :: 0 <= i < j < |at| ==> at[i] <= at[j])
    && forall i :: 0 <= i < |at| - 1 ==> Changed(w, steps, at[i], at[i + 1])
  }

  lemma {:induction false} OneMark(w: World, steps: seq<Step>)
    ensures LostRounds(w, steps, |steps|, [|steps|])
  {
  }

  lemma {:induction false} LostSinceEarlier(w: World, steps: seq<Step>, since: nat, earlier: nat, at: seq<nat>)
    requires earlier <= since && LostRounds(w, steps, since, at)
    ensures LostRounds(w, steps, earlier, at)
  {
  }

  lemma {:induction false} ChangedStays(w: World, steps: seq<Step>, longer: seq<Step>, i: nat, j: nat)
    requires steps <= longer && j <= |steps| && Changed(w, steps, i, j)
    ensures Changed(w, longer, i, j)
  {
    hide Run;
    var k: nat :| i <= k < j && ChangedAt(w, steps, k);
    assert steps[..k] == longer[..k] && steps[..k + 1] == longer[..k + 1];
    assert ChangedAt(w, longer, k);
  }

  /** Two moments at which different things are stored have a change between them. */
  lemma {:induction false} SomethingChanged(w: World, steps: seq<Step>, i: nat)
    requires i <= |steps| && Run(w, steps[..i]).cell.stored != Run(w, steps).cell.stored
    ensures Changed(w, steps, i, |steps|)
    decreases |steps|
  {
    hide Run;
    assert steps[..|steps|] == steps;
    var n := |steps| - 1;
    var head := steps[..n];
    assert head[..i] == steps[..i] && steps[..n + 1] == steps;
    if Run(w, head).cell.stored == Run(w, steps).cell.stored {
      SomethingChanged(w, head, i);
      ChangedStays(w, head, steps, i, n);
      var k: nat :| i <= k < n && ChangedAt(w, steps, k);
    } else {
      assert ChangedAt(w, steps, n);
    }
  }

  /** One more lost round: between `round` and `until` what is stored changed. */
  lemma {:induction false} OneMoreLost(
      w: World, round: seq<Step>, until: seq<Step>, steps: seq<Step>, since: nat, at: seq<nat>)
    requires round <= until <= steps && LostRounds(w, round, since, at) && at[|at| - 1] == |round|
    requires Run(w, round).cell.stored != Run(w, until).cell.stored
    ensures LostRounds(w, steps, since, at + [|steps|])
  {
    hide Run;
    assert until[..|round|] == round;
    SomethingChanged(w, until, |round|);
    ChangedStays(w, until, steps, |round|, |until|);
    assert Changed(w, steps, |round|, |steps|) by {
      var k: nat :| |round| <= k < |until| && ChangedAt(w, steps, k);
    }
    var more := at + [|steps|];
    forall i | 0 <= i < |more| - 1 ensures Changed(w, steps, more[i], more[i + 1]) {
      if i < |at| - 1 {
        ChangedStays(w, round, steps, at[i], at[i + 1]);
      }
    }
  }

  datatype Addition = Added(added: seq<RecordedBase>) | Absent | NotReadable | Changing

  /** `others` is what the other writers do: the next of its elements at each moment this process leaves the
      store alone. `trace` is everything that has happened since `start`. */
  class Registry {
    var world: World
    ghost const start: World
    ghost var trace: seq<Step>
    var others: seq<seq<Step>>

    ghost predicate Good()
      reads this
    {
      Inv(start) && Inv(world) && world == Run(start, trace)
    }

    ghost function At(k: nat): World
      requires k <= |trace|
      reads this
    {
      Run(start, trace[..k])
    }

    constructor (stored: World, others: seq<seq<Step>>)
      requires Inv(stored)
      ensures Good() && world == stored && trace == [] && this.others == others
    {
      world, start := stored, stored;
      trace := [];
      this.others := others;
    }

    method Do(s: Step)
      requires Good()
      modifies this
      ensures Good() && world == Next(old(world), s) && trace == old(trace) + [s] && others == old(others)
    {
      StepKeepsInv(world, s);
      RunOfOneMore(start, trace, s);
      hide Inv, Next, Run;
      world := Next(world, s);
      trace := trace + [s];
    }

    /** The other writers' turn; nothing at all once `others` is spent. */
    method Interfere()
      requires Good()
      modifies this
      ensures Good() && old(trace) <= trace && old(world).seen <= world.seen
      ensures old(others) == [] ==> world == old(world) && trace == old(trace) && others == []
    {
      if others != [] {
        var steps := others[0];
        others := others[1..];
        var i := 0;
        while i < |steps|
          invariant 0 <= i <= |steps|
          invariant Good() && old(trace) <= trace && old(world).seen <= world.seen
        {
          hide Lands;
          SeenGrows(world, steps[i]);
          Do(steps[i]);
          i := i + 1;
        }
      }
    }

    method LookUp() returns (found: Option<Stored<Body>>)
      requires Good()
      modifies this
      ensures Good() && world == old(world).(seen := old(world).seen + {found}) && trace == old(trace) + [Look]
      ensures found == old(world).cell.stored && others == old(others)
    {
      found := world.cell.stored;
      Do(Look);
    }

    /** The ETag-guarded write of one round; whether it landed. One that did not changed nothing, but for the empty
        file it leaves on a local root whose record is gone. */
    method Replace(s: Step) returns (landed: bool)
      requires Good() && (s.Add? || s.Remove?) && Some(s.read) in world.seen && Update(s).Some?
      requires s.Add? ==> WellFormed(s.wanted)
      requires MayName(world.cell, Left(world, Update(s).value), s.etag)
      modifies this
      ensures Good() && trace == old(trace) + [s] && others == old(others)
      ensures landed <==> old(world).cell.stored.Some? && old(world).cell.stored.value.etag == s.read.etag
      ensures landed ==> BodyIn(old(world)) == Some(s.read.body) && BodyIn(world) == Update(s)
      ensures !landed ==>
        if old(world).local && old(world).cell.stored.None?
        then Litters(old(world), s) && BodyIn(world) == Some(Garbled)
        else world == old(world)
    {
      hide Parsed, WellFormed, Update;
      landed := world.cell.stored.Some? && world.cell.stored.value.etag == s.read.etag;
      Do(s);
    }

    /** One round of `_add_missing`; None when what was read had changed by the time of the write. */
    method AddRound(wanted: BaseRecord) returns (outcome: Option<Addition>)
      requires Good() && WellFormed(wanted)
      modifies this
      ensures Good() && old(trace) < trace && outcome != Some(Changing)
      ensures outcome.Some? && outcome.value.Added? ==>
        TookEffect(At(|trace| - 1), world, wanted, Claim(wanted.location, false, outcome.value.added))
      ensures outcome.Some? && !outcome.value.Added? ==> world.cell == old(world).cell
      ensures outcome == Some(Absent) ==> world.cell.stored.None?
      ensures outcome == Some(NotReadable) ==> Unparsed(world, wanted.location)
      ensures outcome.None? ==> At(|trace| - 1).cell.stored != old(world).cell.stored
      ensures old(others) == [] ==>
        && others == [] && outcome.Some?
        && (outcome.value.Added? ==> BodyIn(At(|trace| - 1)) == BodyIn(old(world)))
        && (Reads(old(world)) && Parsed(Written(RecordIn(old(world))), wanted.location).Some? ==> outcome.value.Added?)
    {
      hide WellFormed, DecodedPath, Run, Inv, Litters, TookEffect;
      var found := LookUp();
      if found.None? {
        return Some(Absent);
      }
      var record := Parsed(found.value.body, wanted.location);
      if record.None? {
        return Some(NotReadable);
      }
      Interfere();
      var added := Missing(wanted.entries, Identities(record.value.entries));
      var body := Written(record.value.(entries := record.value.entries + added));
      SomeNameIsLeft(world.cell, Left(world, body));
      var etag: Etag :| MayName(world.cell, Left(world, body), etag);
      ghost var before := world;
      assert trace[..|trace|] == trace;
      var landed := Replace(Add(found.value, wanted, etag));
      if landed {
        AddedTookEffect(before, world, wanted, added);
        return Some(Added(added));
      }
      return None;
    }

    /** `_add_missing`: up to five rounds of read, add what is lacking, write under the ETag read. What it
        reports is what the write that landed added, whatever the earlier rounds had computed; it gives up only
        after five rounds in each of which the stored record changed, `at` marking them off. */
    method AddMissing(wanted: BaseRecord) returns (outcome: Addition, ghost at: seq<nat>)
      requires Good() && WellFormed(wanted)
      modifies this
      ensures Good() && old(trace) <= trace
      ensures outcome.Added? ==>
        |old(trace)| < |trace|
        && TookEffect(At(|trace| - 1), world, wanted, Claim(wanted.location, false, outcome.added))
      ensures old(others) == [] ==> others == [] && (outcome.Added? ==> BodyIn(At(|trace| - 1)) == BodyIn(old(world)))
      ensures old(others) == [] && Reads(old(world)) && Parsed(Written(RecordIn(old(world))), wanted.location).Some?
              ==> outcome.Added?
      ensures old(others) == [] && !outcome.Added? ==> world.cell == old(world).cell
      ensures outcome == Absent ==> world.cell.stored.None?
      ensures outcome == NotReadable ==> Unparsed(world, wanted.location)
      ensures outcome == Changing ==> |at| == 5 + 1 && LostRounds(start, trace, |old(trace)|, at)
    {
      hide WellFormed, DecodedPath, LostRounds, Changed, Run, Inv, TookEffect, Parsed;
      OneMark(start, trace);
      at := [|trace|];
      var i := 0;
      while i < MUTATE_ATTEMPTS
        invariant 0 <= i <= MUTATE_ATTEMPTS
        invariant Good() && old(trace) <= trace
        invariant |at| == i + 1 && at[i] == |trace| && LostRounds(start, trace, |old(trace)|, at)
        invariant old(others) == [] ==> others == [] && i == 0 && world == old(world)
      {
        ghost var round := trace;
        var done := AddRound(wanted);
        if done.Some? {
          return done.value, at;
        }
        OneMoreLost(start, round, trace[..|trace| - 1], trace, |old(trace)|, at);
        at := at + [|trace|];
        i := i + 1;
      }
      return Changing, at;
    }

    /** The rest of a round of `claim_bases` once its create has lost: find every entry there, or add the ones
        missing; None when the record is gone again. */
    method ClaimExisting(location: string, record: BaseRecord)
      returns (claim: Option<Result<Claim, ClaimError>>, ghost was: nat, ghost at: seq<nat>)
      requires Good() && WellFormed(record) && DecodedPath(record.location) == DecodedPath(location)
      modifies this
      ensures Good() && old(trace) <= trace
      ensures claim.Some? ==> claim.value != Err(NotALocation)
      ensures claim.None? ==> world.cell.stored.None?
      ensures claim == Some(Err(Unreadable)) ==> Unparsed(world, location)
      ensures claim == Some(Err(KeptChanging)) ==>
              |at| == 5 + 1 && LostRounds(start, trace, |old(trace)|, at)
      ensures claim.Some? && claim.value.Ok? ==>
        && |old(trace)| <= was <= |trace| <= was + 1
        && TookEffect(At(was), world, record, claim.value.value)
      ensures old(others) == [] ==> others == [] && (claim.None? ==> old(world).cell.stored.None?)
      ensures old(others) == [] && claim.Some? ==>
        && (claim.value.Ok? ==> BodyIn(At(was)) == BodyIn(old(world)))
        && (claim.value.Err? ==> BodyIn(world) == BodyIn(old(world)) && Unparsed(world, location))
    {
      hide DecodedPath, WellFormed, TookEffect, Run, Inv, LostRounds, Next, Litters, Distinct;
      assert trace[..|trace|] == trace;
      was, at := |trace|, [];
      ghost var before := world;
      var found := LookUp();
      assert trace[..was] == old(trace);
      if found.None? {
        return None, was, at;
      }
      var current := Parsed(found.value.body, location);
      if current.None? {
        return Some(Err(Unreadable)), was, at;
      }
      if forall e :: e in record.entries ==> IdentityOf(e) in Identities(current.value.entries) {
        AllHeld(record.entries, Identities(current.value.entries));
        AddedTookEffect(before, world, record, []);
        return Some(Ok(Claim(record.location, false, []))), was, at;
      }
      Interfere();
      ghost var since := |trace|;
      var addition;
      addition, at := AddMissing(record);
      match addition {
        case Added(added) =>
          was := |trace| - 1;
          return Some(Ok(Claim(record.location, false, added))), was, at;
        case Absent =>
          return None, was, at;
        case NotReadable =>
          return Some(Err(Unreadable)), was, at;
        case Changing =>
          LostSinceEarlier(start, trace, since, |old(trace)|, at);
          return Some(Err(KeptChanging)), was, at;
      }
    }

    /** One round of `claim_bases`: create, or claim what is there; None when the record came and went and the round
        is to be run again. */
    method ClaimRound(location: string, record: BaseRecord)
      returns (claim: Option<Result<Claim, ClaimError>>, ghost was: nat, ghost at: seq<nat>)
      requires Good() && WellFormed(record) && DecodedPath(record.location) == DecodedPath(location)
      modifies this
      ensures Good() && old(trace) <= trace
      ensures claim.Some? ==> claim.value != Err(NotALocation)
      ensures claim.None? ==> old(world).cell.stored.Some? && world.cell.stored.None?
      ensures claim == Some(Err(Unreadable)) ==> Unparsed(world, location)
      ensures claim == Some(Err(KeptChanging)) ==>
              |at| == 5 + 1 && LostRounds(start, trace, |old(trace)|, at)
      ensures claim.Some? && claim.value.Ok? ==>
        && |old(trace)| <= was <= |trace| <= was + 1
        && TookEffect(At(was), world, record, claim.value.value)
      ensures old(others) == [] ==>
        && others == [] && claim.Some?
        && (claim.value.Ok? ==> BodyIn(At(was)) == BodyIn(old(world)))
        && (claim.value.Err? ==> BodyIn(world) == BodyIn(old(world)) && Unparsed(world, location))
    {
      hide DecodedPath, WellFormed, TookEffect, Run, Inv, LostRounds, Next, Litters, Unparsed;
      assert trace[..|trace|] == trace;
      was, at := |trace|, [];
      ghost var before := world;
      var created := CreateRecord(record);
      if created {
        assert trace[..was] == old(trace);
        CreatedTookEffect(before, world, record);
        return Some(Ok(Claim(record.location, true, record.entries))), was, at;
      }
      Interfere();
      ghost var since := |trace|;
      claim, was, at := ClaimExisting(location, record);
      if claim == Some(Err(KeptChanging)) {
        LostSinceEarlier(start, trace, since, |old(trace)|, at);
      }
    }

    /** `claim_bases`: at most three rounds. A claim that returns took effect at one moment of the call, was
        then whole, and reports exactly what it changed there; left alone, it acts on the record as it stood,
        and fails, changing nothing, exactly on a spelling that names no location or a record it cannot read. It
        gives up on a record that keeps changing only after at least three rounds in each of which it did, `at`
        marking them off. */
    method ClaimBases(location: string, entries: seq<RecordedBase>)
      returns (claim: Result<Claim, ClaimError>, ghost wanted: BaseRecord, ghost was: nat, ghost at: seq<nat>)
      requires Good()
      modifies this
      ensures Good() && old(trace) <= trace
      ensures claim == Err(NotALocation) <==> !NamesALocation(location)
      ensures claim == Err(Unreadable) ==> Unparsed(world, location)
      ensures claim == Err(KeptChanging) ==> |at| in {3 + 1, 5 + 1} && LostRounds(start, trace, |old(trace)|, at)
      ensures NamesALocation(location) ==>
              wanted.location == Normalise(location) && Identities(wanted.entries) == Identities(entries)
      ensures claim.Ok? ==>
        && |old(trace)| <= was <= |trace| <= was + 1
        && TookEffect(At(was), world, wanted, claim.value)
      ensures old(others) == [] ==>
        && others == []
        && (claim.Ok? ==> BodyIn(At(was)) == BodyIn(old(world)))
        && (claim.Err? ==> BodyIn(world) == BodyIn(old(world)))
        && (claim.Err? && NamesALocation(location) ==> Unparsed(world, location))
    {
      was, at := |trace|, [|trace|];
      OneMark(start, trace);
      wanted := BaseRecord(location, []);
      if !NamesALocation(location) {
        return Err(NotALocation), wanted, was, at;
      }
      NormaliseIsIdempotent(location);
      var distinct, stood := FirstOfEach(entries);
      var record := BaseRecord(Normalise(location), distinct);
      assert WellFormed(record);
      hide NamesALocation, DecodedPath, Normalise, WellFormed, Unparsed, TookEffect, LostRounds, Changed, Run, Inv;
      wanted := record;
      var i := 0;
      while i < CLAIM_ATTEMPTS
        invariant 0 <= i <= CLAIM_ATTEMPTS
        invariant Good() && old(trace) <= trace
        invariant |at| == i + 1 && at[i] == |trace| && LostRounds(start, trace, |old(trace)|, at)
        invariant old(others) == [] ==> i == 0 && others == [] && world == old(world)
      {
        ghost var round := trace;
        var done: Option<Result<Claim, ClaimError>>;
        ghost var lost;
        done, was, lost := ClaimRound(location, record);
        if done.Some? {
          if done == Some(Err(KeptChanging)) {
            LostSinceEarlier(start, trace, |round|, |old(trace)|, lost);
            at := lost;
          }
          return done.value, wanted, was, at;
        }
        OneMoreLost(start, round, trace, trace, |old(trace)|, at);
        at := at + [|trace|];
        i := i + 1;
      }
      return Err(KeptChanging), wanted, was, at;
    }

    method CreateRecord(record: BaseRecord) returns (created: bool)
      requires Good() && WellFormed(record)
      modifies this
      ensures Good() && old(trace) < trace && |trace| == |old(trace)| + 1 && others == old(others)
      ensures created <==> old(world).cell.stored.None?
      ensures created ==> Reads(world) && RecordIn(world) == record
      ensures !created ==> world == old(world)
    {
      hide WellFormed;
      SomeNameIsLeft(world.cell, Written(record));
      var etag: Etag :| MayName(world.cell, Written(record), etag);
      created := world.cell.stored.None?;
      Do(Create(record, etag));
    }

    /** One round of the removal in `release_claim`; None when what was read had changed by the time of the write. */
    method RemoveRound(claim: Claim) returns (outcome: Option<Option<ClaimError>>)
      requires Good() && !claim.created && claim.added != []
      modifies this
      ensures Good() && old(trace) < trace
      ensures outcome.Some? ==> outcome.value in {None, Some(Unreadable)}
      ensures outcome.None? ==> At(|trace| - 1).cell.stored != old(world).cell.stored
      ensures outcome == Some(Some(Unreadable)) ==> world.cell == old(world).cell && Unparsed(world, claim.location)
      ensures outcome == Some(None) ==> TakenBack(world, claim)
      ensures old(others) == [] ==> others == [] && outcome.Some? && BodyIn(world) == Undone(BodyIn(old(world)), claim)
    {
      hide DecodedPath, Run, Inv, Litters;
      var found := LookUp();
      if found.None? {
        return Some(None);
      }
      if Parsed(found.value.body, claim.location).None? {
        return Some(Some(Unreadable));
      }
      Interfere();
      var removed := Identities(claim.added);
      var body := Written(found.value.body.record.(entries := Removed(found.value.body.record.entries, removed)));
      SomeNameIsLeft(world.cell, Left(world, body));
      var etag: Etag :| MayName(world.cell, Left(world, body), etag);
      assert trace[..|trace|] == trace;
      var landed := Replace(Remove(found.value, claim.location, removed, etag));
      NoneOfTheRemoved(found.value.body.record.entries, removed);
      hide Removed;
      return if landed then Some(None) else None;
    }

    /** `release_claim`: delete the record the claim created, or take back the entries it added. Left alone, it
        leaves exactly what `Undone` says, and fails only on a record it cannot read. It gives up only after five
        rounds in each of which the stored record changed. */
    method ReleaseClaim(claim: Claim) returns (failed: Option<ClaimError>, ghost at: seq<nat>)
      requires Good()
      modifies this
      ensures Good() && old(trace) <= trace
      ensures old(others) == [] ==> others == [] && BodyIn(world) == Undone(BodyIn(old(world)), claim)
      ensures old(others) == [] && failed.Some? ==>
              BodyIn(world).Some? && Parsed(BodyIn(world).value, claim.location).None?
      ensures failed.None? ==> TakenBack(world, claim)
      ensures failed == Some(Unreadable) ==> Unparsed(world, claim.location)
      ensures failed == Some(KeptChanging) ==> |at| == 5 + 1 && LostRounds(start, trace, |old(trace)|, at)
    {
      hide DecodedPath, LostRounds, Changed, Run, Inv;
      OneMark(start, trace);
      if claim.created {
        Do(Drop);
        return None, [];
      }
      if claim.added == [] {
        return None, [];
      }
      at := [|trace|];
      var i := 0;
      while i < MUTATE_ATTEMPTS
        invariant 0 <= i <= MUTATE_ATTEMPTS
        invariant Good() && old(trace) <= trace
        invariant |at| == i + 1 && at[i] == |trace| && LostRounds(start, trace, |old(trace)|, at)
        invariant old(others) == [] ==> others == [] && i == 0 && world == old(world)
      {
        ghost var round := trace;
        var done := RemoveRound(claim);
        if done.Some? {
          return done.value, at;
        }
        OneMoreLost(start, round, trace[..|trace| - 1], trace, |old(trace)|, at);
        at := at + [|trace|];
        i := i + 1;
      }
      return Some(KeptChanging), at;
    }

    /** An uninterrupted claim then release restores the record, or its absence. */
    method ClaimThenRelease(location: string, entries: seq<RecordedBase>)
      requires Good() && others == []
      modifies this
      ensures Good() && BodyIn(world) == BodyIn(old(world))
    {
      hide DecodedPath, NamesALocation, Normalise;
      var claim, wanted, was, at := ClaimBases(location, entries);
      if claim.Ok? {
        ReleaseUndoesClaim(At(was), world, wanted, claim.value);
        var failed, lost := ReleaseClaim(claim.value);
      }
    }
  }

  lemma {:induction false} NoneOfTheRemoved(entries: seq<RecordedBase>, removed: set<Identity>)
    ensures Identities(Removed(entries, removed)) !! removed
  {
  }

  lemma {:induction false} RunOfOneMore(w: World, steps: seq<Step>, s: Step)
    ensures Run(w, steps + [s]) == Next(Run(w, steps), s)
  {
    assert (steps + [s])[..|steps|] == steps;
  }

  lemma {:induction false} SeenGrows(w: World, s: Step)
    ensures w.seen <= Next(w, s).seen
  {
    hide Lands;
  }

  lemma {:induction false} CreatedTookEffect(before: World, after: World, wanted: BaseRecord)
    requires before.cell.stored.None? && Reads(after) && RecordIn(after) == wanted
    ensures TookEffect(before, after, wanted, Claim(wanted.location, true, wanted.entries))
  {
  }

  lemma {:induction false} AddedTookEffect(before: World, after: World, wanted: BaseRecord, added: seq<RecordedBase>)
    requires Inv(before) && WellFormed(wanted) && Reads(before) && Reads(after)
    requires Parsed(before.cell.stored.value.body, wanted.location).Some?
    requires added == Missing(wanted.entries, Identities(RecordIn(before).entries))
    requires RecordIn(after) == RecordIn(before).(entries := RecordIn(before).entries + added)
    ensures TookEffect(before, after, wanted, Claim(wanted.location, false, added))
  {
    hide DecodedPath, Normalise, NamesALocation;
    AddingStaysDistinct(RecordIn(before).entries, wanted.entries);
  }
}
