/**
 What the catalog recorded about a table's bases, and the one predicate that decides a declared base's
 standing (`lakehouse_kit/base_registry.py`, with `BasePathRef` of `lakehouse_kit/features.py`).
 */
module BaseJudging {
  import opened Outcomes
  import opened Locations
  import opened LocationLaws

  datatype BaseRole = ExternalBlob | Data | DerivedFrom

  datatype BaseOrigin = FromCreate | FromRegister | FromSilver

  /** `path` and `sourceTable` are normalised spellings of locations. */
  datatype RecordedBase = RecordedBase(
    path: string, store: string, role: BaseRole, isDatasetRoot: bool, name: Option<string>, origin: BaseOrigin,
    sourceTable: Option<string>, tag: Option<string>)

  datatype BaseRecord = BaseRecord(location: string, entries: seq<RecordedBase>)

  /** One base a manifest declares. */
  datatype BasePathRef = BasePathRef(path: string, isDatasetRoot: bool)

  datatype Standing = Own | Configured | Recorded | Unrecorded

  datatype Judgement = Judgement(ref: BasePathRef, standing: Standing, entry: Option<RecordedBase>)

  predicate InConfigured(configured: seq<string>, path: string) {
    exists base :: base in configured && WithinStore(base, path)
  }

  /** The rules that need no record, tried in order; None leaves the base to the record. */
  function StandingWithoutARead(tableRoot: string, ref: BasePathRef, configured: seq<string>): Option<Standing> {
    if !NamesALocation(ref.path) then Some(Unrecorded)
    else if WithinStore(tableRoot, ref.path) then Some(Own)
    else if !ref.isDatasetRoot && InConfigured(configured, ref.path) then Some(Configured)
    else None
  }

  predicate IsOwn(tableRoot: string, path: string) {
    StandingWithoutARead(tableRoot, BasePathRef(path, false), []) == Some(Own)
  }

  predicate Matches(entry: RecordedBase, ref: BasePathRef) {
    entry.path == Normalise(ref.path) && entry.store == StoreOf(ref.path) && entry.isDatasetRoot == ref.isDatasetRoot
  }

  function FirstMatch(ref: BasePathRef, entries: seq<RecordedBase>): (entry: Option<RecordedBase>)
    ensures entry.Some? ==> entry.value in entries && Matches(entry.value, ref)
    ensures entry.None? ==> forall e :: e in entries ==> !Matches(e, ref)
    ensures entry.Some? ==> exists k :: FirstToMatch(entries, ref, k) && entries[k] == entry.value
  {
    if entries == [] then None
    else if Matches(entries[0], ref) then
      assert FirstToMatch(entries, ref, 0);
      Some(entries[0])
    else
      var rest := FirstMatch(ref, entries[1..]);
      assert rest.Some? ==> exists k :: FirstToMatch(entries, ref, k) && entries[k] == rest.value by {
        if rest.Some? {
          var k :| FirstToMatch(entries[1..], ref, k) && entries[1..][k] == rest.value;
          assert FirstToMatch(entries, ref, k + 1);
        }
      }
      rest
  }

  ghost predicate FirstToMatch(entries: seq<RecordedBase>, ref: BasePathRef, k: int) {
    0 <= k < |entries| && Matches(entries[k], ref) && forall j :: 0 <= j < k ==> !Matches(entries[j], ref)
  }

  function JudgeBase(
      tableRoot: string, ref: BasePathRef, configured: seq<string>, record: Option<BaseRecord>)
      : (judgement: Judgement)
    ensures judgement.ref == ref
  {
    var known := StandingWithoutARead(tableRoot, ref, configured);
    if known.Some? then Judgement(ref, known.value, None)
    else
      var entry := if record.None? then None else FirstMatch(ref, record.value.entries);
      Judgement(ref, if entry.Some? then Recorded else Unrecorded, entry)
  }

  /** Some entry of the record is of the place the base spells, on the store it spells, and of the base's kind. */
  ghost predicate IsRecorded(ref: BasePathRef, record: Option<BaseRecord>) {
    record.Some? && exists e ::
      && e in record.value.entries && e.isDatasetRoot == ref.isDatasetRoot
      && e.path == Normalise(ref.path) && e.store == StoreOf(ref.path)
  }

  /** Some configured base is on the base's store and contains it, and the base is no dataset root. */
  ghost predicate IsConfigured(ref: BasePathRef, configured: seq<string>) {
    !ref.isDatasetRoot && exists c :: c in configured && StoreOf(c) == StoreOf(ref.path) && Within(c, ref.path)
  }

  /** The four standings, each exactly: inside the table on its store; failing that, in a configured base and
      no dataset root; failing both, recorded by the catalog; and unrecorded for everything else, a spelling
      that names no location always among it. */
  lemma {:induction false} StandingExactly(
      tableRoot: string, ref: BasePathRef, configured: seq<string>, record: Option<BaseRecord>)
    ensures var judgement := JudgeBase(tableRoot, ref, configured, record);
            var own := StoreOf(tableRoot) == StoreOf(ref.path) && Within(tableRoot, ref.path);
            var blob := IsConfigured(ref, configured);
            && (judgement.standing == Own <==> own)
            && (judgement.standing == Configured <==> !own && blob)
            && (judgement.standing == Recorded
                <==> !own && !blob && NamesALocation(ref.path) && IsRecorded(ref, record))
            && (judgement.standing == Recorded <==> judgement.entry.Some?)
            && (judgement.entry.Some? ==>
                exists k ::
                  FirstToMatch(record.value.entries, ref, k) && record.value.entries[k] == judgement.entry.value)
            && (!NamesALocation(ref.path) ==> judgement.standing == Unrecorded)
    ensures IsOwn(tableRoot, ref.path) <==> StoreOf(tableRoot) == StoreOf(ref.path) && Within(tableRoot, ref.path)
    ensures forall e :: Matches(e, ref)
              <==> e.path == Normalise(ref.path) && e.store == StoreOf(ref.path) && e.isDatasetRoot == ref.isDatasetRoot
  {
    hide Segments;
    assert IsConfigured(ref, configured) <==> !ref.isDatasetRoot && InConfigured(configured, ref.path);
    if record.Some? {
      var entry := FirstMatch(ref, record.value.entries);
    }
  }

  /** The same path under another scheme is another place: a base spelled with a scheme that is not the table's, up to
      case, is never the table's own, whatever its path, and neither is a bare path a table on a bucket declares. */
  lemma {:induction false} AnotherSchemeIsNeverOwn(
      mine: string, table: string, other: string, path: string, bare: string, isRoot: bool, configured: seq<string>,
      record: Option<BaseRecord>)
    requires NoSchemeBefore(mine + "://" + table, |mine|) && NoSchemeBefore(other + "://" + path, |other|)
    requires NoSchemeBefore(bare, |bare|)
    ensures !SameUpToCase(mine, other) ==>
              JudgeBase(mine + "://"
                        + table, BasePathRef(other + "://" + path, isRoot), configured, record).standing != Own
    ensures !SameUpToCase(mine, "file") ==>
              JudgeBase(mine + "://" + table, BasePathRef(bare, isRoot), configured, record).standing != Own
  {
    OneStoreExactlyWhen(mine, other, table, path, bare);
    StandingExactly(mine + "://" + table, BasePathRef(other + "://" + path, isRoot), configured, record);
    StandingExactly(mine + "://" + table, BasePathRef(bare, isRoot), configured, record);
    hide JudgeBase, StoreOf, Within;
  }

  /** Whether some base of `refs` is one only the record can answer for. */
  predicate NeedsTheRecord(tableRoot: string, refs: seq<BasePathRef>, configured: seq<string>) {
    refs != []
    && (NeedsTheRecord(tableRoot, refs[..|refs| - 1], configured)
        || StandingWithoutARead(tableRoot, refs[|refs| - 1], configured).None?)
  }

  /** The record is needed exactly when some base names a location that is neither the table's own nor configured. */
  lemma {:induction false} NeedExactly(tableRoot: string, refs: seq<BasePathRef>, configured: seq<string>)
    ensures NeedsTheRecord(tableRoot, refs, configured)
            <==> exists ref ::
                   && ref in refs && NamesALocation(ref.path) && !IsConfigured(ref, configured)
                   && !(StoreOf(tableRoot) == StoreOf(ref.path) && Within(tableRoot, ref.path))
    decreases |refs|
  {
    hide NamesALocation, StoreOf, Within;
    if refs != [] {
      var n := |refs| - 1;
      var last := refs[n];
      NeedExactly(tableRoot, refs[..n], configured);
      assert refs == refs[..n] + [last];
      assert IsConfigured(last, configured) <==> !last.isDatasetRoot && InConfigured(configured, last.path);
    }
  }

  function JudgeAll(
      tableRoot: string, refs: seq<BasePathRef>, configured: seq<string>, record: Option<BaseRecord>)
      : seq<Judgement>
  {
    seq(|refs|, i requires 0 <= i < |refs| => JudgeBase(tableRoot, refs[i], configured, record))
  }

  lemma {:induction false} WithoutNeedAnyRecordDoes(tableRoot: string, refs: seq<BasePathRef>, configured: seq<string>,
                                                   record: Option<BaseRecord>, other: Option<BaseRecord>)
    requires !NeedsTheRecord(tableRoot, refs, configured)
    ensures JudgeAll(tableRoot, refs, configured, record) == JudgeAll(tableRoot, refs, configured, other)
    decreases |refs|
  {
    if refs != [] {
      var n := |refs| - 1;
      WithoutNeedAnyRecordDoes(tableRoot, refs[..n], configured, record, other);
      JudgeAllOfMore(tableRoot, refs, configured, record);
      JudgeAllOfMore(tableRoot, refs, configured, other);
    }
  }

  lemma {:induction false} JudgeAllOfMore(
      tableRoot: string, refs: seq<BasePathRef>, configured: seq<string>, record: Option<BaseRecord>)
    requires refs != []
    ensures var n := |refs| - 1;
            JudgeAll(tableRoot, refs, configured, record)
            == JudgeAll(tableRoot, refs[..n], configured, record) + [JudgeBase(tableRoot, refs[n], configured, record)]
  {
  }

  /** `judge_bases`: `JudgeBase` over every declared base, with the record loaded at most once and only
      when some base needs it. `load` is what the loader answers, an error when it raises. */
  method JudgeBases<E>(tableRoot: string, refs: seq<BasePathRef>, configured: seq<string>,
                       load: Result<Option<BaseRecord>, E>)
    returns (judged: Result<seq<Judgement>, E>, loads: nat)
    ensures loads == if NeedsTheRecord(tableRoot, refs, configured) then 1 else 0
    ensures loads == 1
            <==> exists ref ::
                   && ref in refs && NamesALocation(ref.path) && !IsConfigured(ref, configured)
                   && !(StoreOf(tableRoot) == StoreOf(ref.path) && Within(tableRoot, ref.path))
    ensures judged.Err? <==> loads == 1 && load.Err?
    ensures judged.Err? ==> judged.error == load.error
    ensures judged.Ok? ==> judged.value == JudgeAll(tableRoot, refs, configured, if load.Ok? then load.value else None)
  {
    hide NamesALocation, StoreOf, Within, StandingWithoutARead;
    NeedExactly(tableRoot, refs, configured);
    var judgements: seq<Judgement> := [];
    var record: Option<BaseRecord> := None;
    loads := 0;
    var i := 0;
    while i < |refs|
      invariant 0 <= i <= |refs|
      invariant loads == if NeedsTheRecord(tableRoot, refs[..i], configured) then 1 else 0
      invariant if loads == 1 then load.Ok? && record == load.value else record.None?
      invariant judgements == JudgeAll(tableRoot, refs[..i], configured, record)
    {
      var more := refs[..i + 1];
      assert more[..i] == refs[..i] && more[i] == refs[i];
      var known := StandingWithoutARead(tableRoot, refs[i], configured);
      if known.Some? {
        judgements := judgements + [Judgement(refs[i], known.value, None)];
      } else {
        if loads == 0 {
          loads := 1;
          if load.Err? {
            NeedStays(tableRoot, refs, i + 1, configured);
            return Err(load.error), loads;
          }
          WithoutNeedAnyRecordDoes(tableRoot, refs[..i], configured, record, load.value);
          record := load.value;
        }
        judgements := judgements + [JudgeBase(tableRoot, refs[i], configured, record)];
      }
      JudgeAllOfMore(tableRoot, more, configured, record);
      i := i + 1;
    }
    assert refs[..i] == refs;
    if loads == 0 && load.Ok? {
      WithoutNeedAnyRecordDoes(tableRoot, refs, configured, record, load.value);
    }
    return Ok(judgements), loads;
  }

  lemma {:induction false} NeedStays(tableRoot: string, refs: seq<BasePathRef>, n: nat, configured: seq<string>)
    requires n <= |refs| && NeedsTheRecord(tableRoot, refs[..n], configured)
    ensures NeedsTheRecord(tableRoot, refs, configured)
    decreases |refs|
  {
    if n == |refs| {
      assert refs[..n] == refs;
    } else {
      assert refs[..|refs| - 1][..n] == refs[..n];
      NeedStays(tableRoot, refs[..|refs| - 1], n, configured);
    }
  }
}
