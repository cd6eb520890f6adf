/**
 What a claim of a base buys the table that made it (`claim_bases` in `lakehouse_kit/base_registry.py`, joined to
 `protects_from_deletion` in `lakehouse_kit/base_refs.py`): while the entry stays in the record, nobody deletes the
 base from under the dataset that declares it.
 */
module ClaimedBases {
  import opened Outcomes
  import opened EtagStore
  import opened Locations
  import opened LocationLaws
  import opened BaseJudging
  import opened BaseRefs
  import opened BaseVerdicts
  import opened BaseClaims

  /** The stored record reads and holds an entry of this identity. */
  ghost predicate Holds(w: World, id: Identity) {
    Reads(w) && id in Identities(RecordIn(w).entries)
  }

  /** The step neither deletes the record nor takes this entry out of it. */
  predicate Spares(s: Step, id: Identity) {
    !s.Drop? && (s.Remove? ==> id !in s.removed)
  }

  lemma {:induction false} StepKeepsTheEntry(w: World, s: Step, id: Identity)
    requires Inv(w) && Holds(w, id) && Spares(s, id)
    ensures Holds(Next(w, s), id)
  {
    hide WellFormed, DecodedPath;
    if (s.Add? || s.Remove?) && Lands(w, s) {
      WriteActsOnWhatWasRead(w.cell, Some(s.read), Update(s).value, s.etag);
      var entry :| entry in RecordIn(w).entries && IdentityOf(entry) == id;
      assert entry in Update(s).value.record.entries;
    }
  }

  /** Whatever claims and releases others make, an entry stays until one of them takes it back. */
  lemma {:induction false} EntryStays(w: World, steps: seq<Step>, id: Identity)
    requires Inv(w) && Holds(w, id) && forall s :: s in steps ==> Spares(s, id)
    ensures Holds(Run(w, steps), id)
    decreases |steps|
  {
    hide Inv, Holds, Spares, Next;
    if steps != [] {
      var n := |steps| - 1;
      assert steps[n] in steps && forall s :: s in steps[..n] ==> s in steps;
      EntryStays(w, steps[..n], id);
      RunKeepsInv(w, steps[..n]);
      StepKeepsTheEntry(Run(w, steps[..n]), steps[n], id);
    }
  }

  /** A record with an entry of a base's identity records that base. */
  lemma {:induction false} AHeldEntryRecords(ref: BasePathRef, w: World, e: RecordedBase)
    requires Holds(w, IdentityOf(e))
    requires e.path == Normalise(ref.path) && e.store == StoreOf(ref.path) && e.isDatasetRoot == ref.isDatasetRoot
    ensures IsRecorded(ref, Some(RecordIn(w)))
  {
    hide Normalise, StoreOf;
    var held :| held in RecordIn(w).entries && IdentityOf(held) == IdentityOf(e);
  }

  /** A claim that took effect protects: through every later run of claims and releases that spares the entry, with
      the record read for the owning root of a dataset that declares the base, a delete where the base is, of a place
      the dataset does not lie in, is refused. */
  lemma {:induction false} AClaimProtects<E>(
      before: World, after: World, wanted: BaseRecord, claim: Claim, steps: seq<Step>, e: RecordedBase,
      estate: seq<Dataset>, configured: seq<string>, recordAt: Reader<E>, i: nat, ref: BasePathRef,
      location: string, alongWith: Option<string>)
    requires Inv(after) && TookEffect(before, after, wanted, claim) && e in wanted.entries
    requires forall s :: s in steps ==> Spares(s, IdentityOf(e))
    requires DeclaresForeign(estate, i, ref) && NamesALocation(ref.path)
    requires e.path == Normalise(ref.path) && e.store == StoreOf(ref.path) && e.isDatasetRoot == ref.isDatasetRoot
    requires OwnerOf(estate, estate[i].uri).0 == DecodedPath(wanted.location)
    requires Reads(Run(after, steps)) ==>
             recordAt(DecodedPath(wanted.location)) == Ok(Some(RecordIn(Run(after, steps))))
    requires || DecodedPath(ref.path) == DecodedPath(location)
             || DecodedPath(ref.path) + "/" <= DecodedPath(location)
             || DecodedPath(location) + "/" <= DecodedPath(ref.path)
    requires !LiesIn(estate[i].uri, location) && (alongWith.Some? ==> !LiesIn(estate[i].uri, alongWith.value))
    ensures ProtectsFromDeletion(Collected(EdgesOf(estate, |estate|, configured, recordAt)), location, alongWith).Some?
  {
    assert IdentityOf(e) in Identities(wanted.entries);
    assert Holds(after, IdentityOf(e));
    hide NamesALocation, DecodedPath, Normalise, StoreOf, OwnerOf, LiesIn, Collected, EdgesOf, ProtectsFromDeletion;
    hide TookEffect, Inv, Run, IsRecorded;
    EntryStays(after, steps, IdentityOf(e));
    AHeldEntryRecords(ref, Run(after, steps), e);
    AReaderLeftBehindRefuses(estate, configured, recordAt, location, alongWith, i, ref);
  }
}
