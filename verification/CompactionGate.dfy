/**
 The compaction decision (`lakehouse_kit/compaction_gate.py`, and the gathering of evidence
 and the flag gates of `lakehouse_kit/features.py`): a decision over three readings of every base, in which
 whatever could not be read refuses.
 */
module CompactionGate {
  import opened Outcomes
  import opened Locations
  import opened LocationLaws
  import opened BaseJudging
  import opened ManifestFlags

  /** Deletion files, stable row ids, the deprecated v2 format, table config. */
  const SUPPORTED := 15
  const FLAG_BASE_PATHS := 16
  const SUPPORTED_FOR_GC := 31
  const BASE_PATHS_BIT := 4

  // ---------------------------------------------------------------- the flag gates

  function UnknownTo(mask: nat, reader: nat, writer: nat): nat {
    Clearing(BitOr(reader, writer), mask)
  }

  /** The gate a write takes, as the bits it refuses over. */
  function UnsupportedFlags(reader: nat, writer: nat): Option<nat> {
    if UnknownTo(SUPPORTED, reader, writer) == 0 then None else Some(UnknownTo(SUPPORTED, reader, writer))
  }

  /** The gate a read-only pass takes: the reader's field alone. */
  function UnsupportedReadFlags(reader: nat): Option<nat> {
    if Clearing(reader, SUPPORTED) == 0 then None else Some(Clearing(reader, SUPPORTED))
  }

  /** The gate of the root-scoped operations. */
  function UnsupportedGcFlags(reader: nat, writer: nat): Option<nat> {
    if UnknownTo(SUPPORTED_FOR_GC, reader, writer) == 0 then None else Some(UnknownTo(SUPPORTED_FOR_GC, reader, writer))
  }

  predicate Sets(reader: nat, writer: nat, k: nat) {
    Bit(reader, k) || Bit(writer, k)
  }

  /** No bit above `from` is set in either field. */
  ghost predicate NoneFrom(reader: nat, writer: nat, from: nat) {
    forall k: nat :: k >= from ==> !Sets(reader, writer, k)
  }

  lemma {:induction false} BitsOfLowMask(mask: nat, width: nat, k: nat)
    requires (mask, width) in {(15, 4), (31, 5)}
    ensures Bit(mask, k) <==> k < width
  {
    assert Bit(15, 3) && Bit(15, 2) && Bit(15, 1) && Bit(15, 0);
    if k >= width {
      HighBits(mask, width, k);
    } else {
      assert Bit(31, 4) && Bit(31, 3) && Bit(31, 2) && Bit(31, 1) && Bit(31, 0);
    }
  }

  lemma {:induction false} HighBits(n: nat, width: nat, k: nat)
    requires k >= width && n < Power(width)
    ensures !Bit(n, k)
    decreases k
  {
    if k > 0 {
      if width > 0 {
        HighBits(n / 2, width - 1, k - 1);
      } else {
        HighBits(n / 2, 0, k - 1);
      }
    }
  }

  function Power(k: nat): nat {
    if k == 0 then 1 else 2 * Power(k - 1)
  }

  lemma {:induction false} UnknownBits(mask: nat, width: nat, reader: nat, writer: nat, k: nat)
    requires (mask, width) in {(15, 4), (31, 5)}
    ensures Bit(UnknownTo(mask, reader, writer), k) <==> Sets(reader, writer, k) && k >= width
  {
    MaskBits(reader, writer, k);
    MaskBits(BitOr(reader, writer), mask, k);
    BitsOfLowMask(mask, width, k);
  }

  lemma {:induction false} EmptyExactlyWhen(n: nat, reader: nat, writer: nat, width: nat)
    requires forall k: nat :: Bit(n, k) <==> Sets(reader, writer, k) && k >= width
    ensures n == 0 <==> NoneFrom(reader, writer, width)
  {
    if n > 0 {
      var k := ABitIsSet(n);
      assert Sets(reader, writer, k);
    } else {
      forall k: nat | k >= width ensures !Sets(reader, writer, k) {
        NoBitsInZero(k);
        assert !Bit(n, k);
      }
    }
  }

  lemma {:induction false} UnknownIsEmpty(mask: nat, width: nat, reader: nat, writer: nat)
    requires (mask, width) in {(15, 4), (31, 5)}
    ensures UnknownTo(mask, reader, writer) == 0 <==> NoneFrom(reader, writer, width)
  {
    hide UnknownTo;
    var unknown := UnknownTo(mask, reader, writer);
    forall k: nat ensures Bit(unknown, k) <==> Sets(reader, writer, k) && k >= width {
      UnknownBits(mask, width, reader, writer, k);
    }
    EmptyExactlyWhen(unknown, reader, writer, width);
  }

  /** The three flags-only gates refuse exactly over the bits they do not know. */
  lemma {:induction false} GatesRefuseWhatTheyDoNotKnow(reader: nat, writer: nat)
    ensures UnsupportedFlags(reader, writer).None? <==> NoneFrom(reader, writer, 4)
    ensures UnsupportedGcFlags(reader, writer).None? <==> NoneFrom(reader, writer, 5)
    ensures UnsupportedReadFlags(reader).None? <==> NoneFrom(reader, 0, 4)
  {
    hide UnknownTo, Bit, NoneFrom;
    UnknownIsEmpty(15, 4, reader, writer);
    UnknownIsEmpty(31, 5, reader, writer);
    UnknownIsEmpty(15, 4, reader, 0);
    OrWithNothing(reader);
    assert UnknownTo(15, reader, 0) == Clearing(reader, 15) by { UnknownOfOne(reader); }
  }

  lemma {:induction false} UnknownOfOne(reader: nat)
    ensures UnknownTo(15, reader, 0) == Clearing(reader, 15)
  {
    OrWithNothing(reader);
  }

  lemma {:induction false} OrWithNothing(n: nat)
    ensures BitOr(n, 0) == n
  {
    if n > 0 {
      OrWithNothing(n / 2);
    }
  }

  // ---------------------------------------------------------------- evidence

  /** What the store answered about a base: whether a dataset is rooted there, or why it could not say. */
  datatype Probe = Root(isRoot: bool) | Denied | Failed

  datatype BaseEvidence = BaseEvidence(path: string, declaresRoot: bool, probed: Option<bool>, denied: bool)

  /** `through` is whether some data file resolves through a base, None when that reading failed. */
  datatype CompactionBases = CompactionBases(bases: seq<BaseEvidence>, through: Option<bool>)

  datatype Why =
    | NothingGathered | FragmentsUnread | DataLivesThere | NoBaseDeclared
    | DeclaredRoot | ProbeDenied | ProbeFailed | ProbedRoot

  datatype Refusal = Refusal(unknown: nat, why: Option<Why>)

  /** An open dataset, as far as the gate reads it: its flags, its bases by id (None when the handle has no
      accessor for them, an error when reading them raises), and the base id of every data file. */
  datatype Handle = Handle(
    reader: nat, writer: nat, bases: Option<Result<map<nat, BasePathRef>, ()>>, order: seq<nat>,
    files: Result<seq<Option<nat>>, ()>)

  /** `order` lists the declared ids in the order the library answers them. */
  predicate Readable(ds: Handle) {
    ds.bases.Some? && ds.bases.value.Ok?
  }

  ghost predicate OrderIsOf(ds: Handle) {
    Readable(ds) ==> forall id :: id in ds.order <==> id in ds.bases.value.value
  }

  function RefsOf(declared: map<nat, BasePathRef>, order: seq<nat>): (refs: seq<BasePathRef>)
    ensures forall r :: r in refs <==> exists id :: id in order && id in declared && declared[id] == r && r.path != ""
  {
    if order == [] then []
    else
      var rest := RefsOf(declared, order[1..]);
      assert order == [order[0]] + order[1..];
      if order[0] in declared && declared[order[0]].path != "" then [declared[order[0]]] + rest else rest
  }

  /** `manifest_base_path_refs`: None when it raises. */
  function BasePathRefs(ds: Handle): Option<seq<BasePathRef>> {
    if ds.bases.None? then Some([])
    else if ds.bases.value.Err? then None
    else Some(RefsOf(ds.bases.value.value, ds.order))
  }

  function EvidenceOf(ref: BasePathRef, probe: string -> Probe): BaseEvidence {
    var answer := probe(ref.path);
    BaseEvidence(ref.path, ref.isDatasetRoot, if answer.Root? then Some(answer.isRoot) else None, answer.Denied?)
  }

  function EvidenceOfAll(refs: seq<BasePathRef>, probe: string -> Probe): seq<BaseEvidence> {
    seq(|refs|, i requires 0 <= i < |refs| => EvidenceOf(refs[i], probe))
  }

  predicate SomeBase(files: seq<Option<nat>>) {
    exists f :: f in files && f.Some?
  }

  function Gathered(ds: Handle, probe: string -> Probe): CompactionBases {
    var refs := BasePathRefs(ds);
    CompactionBases(EvidenceOfAll(if refs.Some? then refs.value else [], probe),
                    if ds.files.Ok? then Some(SomeBase(ds.files.value)) else None)
  }

  lemma {:induction false} EvidenceOfOneMore(refs: seq<BasePathRef>, i: nat, probe: string -> Probe)
    requires i < |refs|
    ensures EvidenceOfAll(refs[..i + 1], probe) == EvidenceOfAll(refs[..i], probe) + [EvidenceOf(refs[i], probe)]
  {
  }

  /** `gather_compaction_bases` as it runs: nothing raises, and what could not be read is recorded unknown. */
  method GatherCompactionBases(ds: Handle, probe: string -> Probe) returns (gathered: CompactionBases)
    ensures gathered == Gathered(ds, probe)
  {
    hide BasePathRefs, EvidenceOfAll, SomeBase;
    EvidenceIsOfTheRefs([], probe);
    var read := BasePathRefs(ds);
    var refs := if read.Some? then read.value else [];
    var bases: seq<BaseEvidence> := [];
    var i := 0;
    while i < |refs|
      invariant 0 <= i <= |refs|
      invariant bases == EvidenceOfAll(refs[..i], probe)
    {
      var denied := false;
      var probed: Option<bool> := None;
      match probe(refs[i].path) {
        case Root(isRoot) => probed := Some(isRoot);
        case Denied => denied := true;
        case Failed =>
      }
      bases := bases + [BaseEvidence(refs[i].path, refs[i].isDatasetRoot, probed, denied)];
      EvidenceOfOneMore(refs, i, probe);
      i := i + 1;
    }
    assert refs[..i] == refs;
    var through: Option<bool> := None;
    if ds.files.Ok? {
      through := Some(SomeBase(ds.files.value));
    }
    gathered := CompactionBases(bases, through);
  }

  /** `data_file_base_paths`: where the data files' bases are. None stands for its exceptions: unreadable
      fragments, an unreadable base list, an undeclared id. */
  function DataFileBasePaths(ds: Handle): Option<set<string>> {
    if ds.files.Err? then None
    else
      var through := set f | f in ds.files.value && f.Some? :: f.value;
      if through == {} then Some({})
      else if !Readable(ds) then None
      else if exists id :: id in through && id !in ds.bases.value.value then None
      else Some(set id | id in through :: ds.bases.value.value[id].path)
  }

  // ---------------------------------------------------------------- the decision

  function FirstObjection(bases: seq<BaseEvidence>): (why: Option<Why>)
    ensures why.None? <==> forall b :: b in bases ==> !b.declaresRoot && b.probed == Some(false)
  {
    if bases == [] then None
    else
      var b := bases[0];
      if b.declaresRoot then Some(DeclaredRoot)
      else if b.probed.None? then Some(if b.denied then ProbeDenied else ProbeFailed)
      else if b.probed.value then Some(ProbedRoot)
      else FirstObjection(bases[1..])
  }

  function BasePathsRefusal(bases: Option<CompactionBases>): Option<Why> {
    if bases.None? then Some(NothingGathered)
    else if bases.value.through.None? then Some(FragmentsUnread)
    else if bases.value.through.value then Some(DataLivesThere)
    else if bases.value.bases == [] then Some(NoBaseDeclared)
    else FirstObjection(bases.value.bases)
  }

  /** `describe_compaction_unsupported_flags`. */
  function UnsupportedForCompaction(reader: nat, writer: nat, bases: Option<CompactionBases>): Option<Refusal> {
    var unknown := UnknownTo(SUPPORTED, reader, writer);
    var why := if BitAnd(unknown, FLAG_BASE_PATHS) != 0 then BasePathsRefusal(bases) else None;
    var left := if BitAnd(unknown, FLAG_BASE_PATHS) != 0 && why.None? then Clearing(unknown, FLAG_BASE_PATHS)
                else unknown;
    if left == 0 then None else Some(Refusal(left, why))
  }

  function Outside(bases: seq<BaseEvidence>, table: string): (outside: seq<BaseEvidence>)
    ensures forall b :: b in outside <==> b in bases && !IsOwn(table, b.path)
  {
    if bases == [] then []
    else (if IsOwn(table, bases[0].path) then [] else [bases[0]]) + Outside(bases[1..], table)
  }

  /** `_outside_the_table`: what is left of the evidence once the table's own bases are dropped. */
  function OutsideTheTable(ds: Handle, gathered: CompactionBases, table: string): CompactionBases {
    var paths := DataFileBasePaths(ds);
    CompactionBases(Outside(gathered.bases, table),
                    if paths.None? then None else Some(exists p :: p in paths.value && !IsOwn(table, p)))
  }

  /** A base inside the table is not probed. */
  function ProbeOutside(table: string, probe: string -> Probe): string -> Probe {
    (path: string) => if IsOwn(table, path) then Root(true) else probe(path)
  }

  /** `compaction_refusal`. */
  function CompactionRefusal(ds: Handle, table: string, probe: string -> Probe): Option<Refusal> {
    if table == "" || BitAnd(BitOr(ds.reader, ds.writer), FLAG_BASE_PATHS) == 0 then
      UnsupportedForCompaction(ds.reader, ds.writer, None)
    else
      var gathered := Gathered(ds, ProbeOutside(table, probe));
      if !exists b :: b in gathered.bases && IsOwn(table, b.path) then
        UnsupportedForCompaction(ds.reader, ds.writer, Some(gathered))
      else
        var foreign := OutsideTheTable(ds, gathered, table);
        if foreign.bases == [] && foreign.through == Some(false) then
          UnsupportedForCompaction(Clearing(ds.reader, FLAG_BASE_PATHS), Clearing(ds.writer, FLAG_BASE_PATHS), None)
        else UnsupportedForCompaction(ds.reader, ds.writer, Some(foreign))
  }

  // ---------------------------------------------------------------- what a permit means

  lemma {:induction false} BitsOfBasePaths(k: nat)
    ensures Bit(16, k) <==> k == BASE_PATHS_BIT
  {
    if k >= 5 {
      HighBits(16, 5, k);
    } else {
      assert Bit(16, 4) && !Bit(16, 3) && !Bit(16, 2) && !Bit(16, 1) && !Bit(16, 0);
    }
  }

  lemma {:induction false} TestsBasePaths(n: nat)
    ensures BitAnd(n, FLAG_BASE_PATHS) != 0 <==> Bit(n, BASE_PATHS_BIT)
  {
    hide BitAnd;
    EmptyMask(BitAnd(n, 16));
    forall k: nat ensures Bit(BitAnd(n, 16), k) <==> Bit(n, k) && k == BASE_PATHS_BIT {
      MaskBits(n, 16, k);
      BitsOfBasePaths(k);
    }
  }

  /** The flag gate for compaction: no other unknown bit, and the base-paths bit only with evidence that holds. */
  lemma {:induction false} CompactionGateExactly(reader: nat, writer: nat, bases: Option<CompactionBases>)
    ensures UnsupportedForCompaction(reader, writer, bases).None?
            <==> NoneFrom(reader, writer, 5) && (Sets(reader, writer, BASE_PATHS_BIT) ==> BasePathsRefusal(bases).None?)
  {
    hide BitAnd, BitOr, Clearing, BasePathsRefusal;
    var unknown := UnknownTo(SUPPORTED, reader, writer);
    TestsBasePaths(unknown);
    UnknownBits(15, 4, reader, writer, BASE_PATHS_BIT);
    UnknownIsEmpty(15, 4, reader, writer);
    var left := Clearing(unknown, FLAG_BASE_PATHS);
    forall k: nat ensures Bit(left, k) <==> Sets(reader, writer, k) && k >= 5 {
      MaskBits(unknown, 16, k);
      BitsOfBasePaths(k);
      UnknownBits(15, 4, reader, writer, k);
    }
    EmptyExactlyWhen(left, reader, writer, 5);
    assert NoneFrom(reader, writer, 5) && !Sets(reader, writer, 4) ==> NoneFrom(reader, writer, 4);
    assert NoneFrom(reader, writer, 4) ==> !Sets(reader, writer, 4);
  }

  lemma {:induction false} ClearedOfBasePaths(reader: nat, writer: nat)
    ensures var r, w := Clearing(reader, FLAG_BASE_PATHS), Clearing(writer, FLAG_BASE_PATHS);
            (NoneFrom(r, w, 5) <==> NoneFrom(reader, writer, 5)) && !Sets(r, w, BASE_PATHS_BIT)
  {
    hide Bit, Clearing;
    var r, w := Clearing(reader, FLAG_BASE_PATHS), Clearing(writer, FLAG_BASE_PATHS);
    forall k: nat ensures Sets(r, w, k) <==> Sets(reader, writer, k) && k != BASE_PATHS_BIT {
      MaskBits(reader, 16, k);
      MaskBits(writer, 16, k);
      BitsOfBasePaths(k);
    }
  }

  /** Every data file was read, and each that names a base names a declared one inside the table. */
  ghost predicate FilesStayInside(ds: Handle, table: string) {
    && ds.files.Ok?
    && forall f :: f in ds.files.value && f.Some? ==>
         Readable(ds) && f.value in ds.bases.value.value && IsOwn(table, ds.bases.value.value[f.value].path)
  }

  /** Every base outside the table is declared no dataset root, and the store said it is none. */
  ghost predicate OutsideBasesAreNoRoots(refs: seq<BasePathRef>, table: string, probe: string -> Probe) {
    forall r :: r in refs ==> IsOwn(table, r.path) || (!r.isDatasetRoot && probe(r.path) == Root(false))
  }

  lemma {:induction false} FilesInsideIsTheirPaths(ds: Handle, table: string)
    ensures FilesStayInside(ds, table)
            <==> DataFileBasePaths(ds).Some? && forall p :: p in DataFileBasePaths(ds).value ==> IsOwn(table, p)
  {
    hide IsOwn;
    if ds.files.Ok? {
      var through := set f | f in ds.files.value && f.Some? :: f.value;
      forall f | f in ds.files.value && f.Some? ensures f.value in through {
      }
      if DataFileBasePaths(ds).Some? && through != {} {
        var declared := ds.bases.value.value;
        forall f | f in ds.files.value && f.Some? ensures declared[f.value].path in DataFileBasePaths(ds).value {
          assert f.value in through;
        }
      }
    }
  }

  lemma {:induction false} PermittedByTheRefs(ds: Handle, table: string, probe: string -> Probe)
    requires OrderIsOf(ds)
    ensures CompactionRefusal(ds, table, probe).None?
            <==> && NoneFrom(ds.reader, ds.writer, 5)
                 && (Sets(ds.reader, ds.writer, BASE_PATHS_BIT) ==>
                       && table != "" && Readable(ds)
                       && BasePathRefs(ds).value != []
                       && FilesStayInside(ds, table)
                       && OutsideBasesAreNoRoots(BasePathRefs(ds).value, table, probe))
  {
    hide IsOwn, NoneFrom, Bit, BitAnd, BitOr, Clearing, UnsupportedForCompaction, FilesStayInside;
    hide OutsideBasesAreNoRoots, DataFileBasePaths;
    TestsBasePaths(BitOr(ds.reader, ds.writer));
    MaskBits(ds.reader, ds.writer, BASE_PATHS_BIT);
    CompactionGateExactly(ds.reader, ds.writer, None);
    if table != "" && Sets(ds.reader, ds.writer, BASE_PATHS_BIT) {
      var gathered := Gathered(ds, ProbeOutside(table, probe));
      if exists b :: b in gathered.bases && IsOwn(table, b.path) {
        var foreign := OutsideTheTable(ds, gathered, table);
        CompactionGateExactly(ds.reader, ds.writer, Some(foreign));
        ClearedOfBasePaths(ds.reader, ds.writer);
        CompactionGateExactly(Clearing(ds.reader, FLAG_BASE_PATHS), Clearing(ds.writer, FLAG_BASE_PATHS), None);
        WithAnOwnBase(ds, table, probe);
      } else {
        CompactionGateExactly(ds.reader, ds.writer, Some(gathered));
        WithNoOwnBase(ds, table, probe);
      }
    }
  }

  /** `path` is on the table's store and lies in the table. */
  ghost predicate InTheTable(table: string, path: string) {
    StoreOf(table) == StoreOf(path) && LiesIn(path, table)
  }

  lemma {:induction false} OwnIsInTheTable(table: string, path: string)
    ensures IsOwn(table, path) <==> InTheTable(table, path)
  {
    StandingExactly(table, BasePathRef(path, false), [], None);
    WithinByPath(table, path);
    hide StoreOf, Within, LiesIn, IsOwn;
  }

  /** The gate permits compaction if and only if neither flags field sets a bit above the fifth and, where one sets the
      fifth: the table has a location; the manifest's base list was read and some base of it has a path; every data
      file was read, and each that names a base names a declared one in the table; and every declared base with a
      path is in the table, or is neither declared a dataset root nor probed one. So an unreadable list, unreadable
      fragments and a failed or denied probe each refuse. */
  lemma {:induction false} CompactionIsPermittedExactlyWhen(ds: Handle, table: string, probe: string -> Probe)
    requires OrderIsOf(ds)
    ensures CompactionRefusal(ds, table, probe).None?
            <==> && NoneFrom(ds.reader, ds.writer, 5)
                 && (Sets(ds.reader, ds.writer, 4) ==>
                       && table != "" && ds.bases.Some? && ds.bases.value.Ok?
                       && var declared := ds.bases.value.value;
                          && (exists id :: id in declared && declared[id].path != "")
                          && ds.files.Ok?
                          && (forall f :: f in ds.files.value && f.Some? ==>
                                f.value in declared && InTheTable(table, declared[f.value].path))
                          && (forall id :: id in declared && declared[id].path != "" ==>
                                || InTheTable(table, declared[id].path)
                                || (!declared[id].isDatasetRoot && probe(declared[id].path) == Root(false))))
  {
    PermittedByTheRefs(ds, table, probe);
    hide IsOwn, InTheTable, CompactionRefusal, NoneFrom, Sets;
    forall path ensures IsOwn(table, path) <==> InTheTable(table, path) {
      OwnIsInTheTable(table, path);
    }
    if Readable(ds) {
      RefsAreOfTheDeclared(ds);
    }
  }

  /** The refs are the declared bases that have a path. */
  lemma {:induction false} RefsAreOfTheDeclared(ds: Handle)
    requires OrderIsOf(ds) && Readable(ds)
    ensures var declared := ds.bases.value.value;
            && (forall r ::
                  r in BasePathRefs(ds).value <==> exists id :: id in declared && declared[id] == r && r.path != "")
            && (BasePathRefs(ds).value != [] <==> exists id :: id in declared && declared[id].path != "")
  {
    var declared, refs := ds.bases.value.value, BasePathRefs(ds).value;
    if id :| id in declared && declared[id].path != "" {
      assert declared[id] in refs;
    }
    if refs != [] {
      assert refs[0] in refs;
    }
  }

  lemma {:induction false} EvidenceIsOfTheRefs(refs: seq<BasePathRef>, probe: string -> Probe)
    ensures |EvidenceOfAll(refs, probe)| == |refs|
    ensures forall r :: r in refs ==> EvidenceOf(r, probe) in EvidenceOfAll(refs, probe)
    ensures forall b :: b in EvidenceOfAll(refs, probe) ==> exists r :: r in refs && b == EvidenceOf(r, probe)
  {
    var all := EvidenceOfAll(refs, probe);
    forall r | r in refs ensures EvidenceOf(r, probe) in all {
      var i :| 0 <= i < |refs| && refs[i] == r;
      assert all[i] in all;
    }
    forall b | b in all ensures exists r :: r in refs && b == EvidenceOf(r, probe) {
      var i :| 0 <= i < |all| && all[i] == b;
      assert refs[i] in refs;
    }
  }

  /** The outside bases of the evidence are sound exactly when those of the manifest are. */
  lemma {:induction false} OutsideEvidence(refs: seq<BasePathRef>, table: string, probe: string -> Probe)
    ensures var outside := Outside(EvidenceOfAll(refs, ProbeOutside(table, probe)), table);
            (forall b :: b in outside ==> !b.declaresRoot && b.probed == Some(false))
            <==> OutsideBasesAreNoRoots(refs, table, probe)
  {
    hide IsOwn;
    var p := ProbeOutside(table, probe);
    var all := EvidenceOfAll(refs, p);
    var outside := Outside(all, table);
    EvidenceIsOfTheRefs(refs, p);
    if forall b :: b in outside ==> !b.declaresRoot && b.probed == Some(false) {
      forall r | r in refs && !IsOwn(table, r.path) ensures !r.isDatasetRoot && probe(r.path) == Root(false) {
        assert EvidenceOf(r, p) in outside;
      }
    }
    if OutsideBasesAreNoRoots(refs, table, probe) {
      forall b | b in outside ensures !b.declaresRoot && b.probed == Some(false) {
        var r :| r in refs && b == EvidenceOf(r, p);
      }
    }
  }

  lemma {:induction false} WithAnOwnBase(ds: Handle, table: string, probe: string -> Probe)
    requires OrderIsOf(ds)
    requires exists b :: b in Gathered(ds, ProbeOutside(table, probe)).bases && IsOwn(table, b.path)
    ensures Readable(ds) && BasePathRefs(ds).value != []
    ensures var foreign := OutsideTheTable(ds, Gathered(ds, ProbeOutside(table, probe)), table);
            && (foreign.through == Some(false) <==> FilesStayInside(ds, table))
            && (BasePathsRefusal(Some(foreign)).None? || (foreign.bases == [] && foreign.through == Some(false))
                <==> FilesStayInside(ds, table) && OutsideBasesAreNoRoots(BasePathRefs(ds).value, table, probe))
  {
    hide IsOwn, FilesStayInside, OutsideBasesAreNoRoots, DataFileBasePaths, EvidenceOfAll, ProbeOutside, Outside;
    hide RefsOf, FirstObjection;
    EvidenceIsOfTheRefs([], ProbeOutside(table, probe));
    if Readable(ds) {
      EvidenceIsOfTheRefs(BasePathRefs(ds).value, ProbeOutside(table, probe));
    }
    FilesInsideIsTheirPaths(ds, table);
    OutsideEvidence(BasePathRefs(ds).value, table, probe);
  }

  lemma {:induction false} WithNoOwnBase(ds: Handle, table: string, probe: string -> Probe)
    requires OrderIsOf(ds)
    requires !exists b :: b in Gathered(ds, ProbeOutside(table, probe)).bases && IsOwn(table, b.path)
    ensures BasePathsRefusal(Some(Gathered(ds, ProbeOutside(table, probe)))).None?
            <==> && Readable(ds) && BasePathRefs(ds).value != [] && FilesStayInside(ds, table)
                 && OutsideBasesAreNoRoots(BasePathRefs(ds).value, table, probe)
  {
    hide IsOwn, OutsideBasesAreNoRoots;
    var p := ProbeOutside(table, probe);
    var gathered := Gathered(ds, p);
    if Readable(ds) {
      var refs := BasePathRefs(ds).value;
      EvidenceIsOfTheRefs(refs, p);
      OutsideEvidence(refs, table, probe);
      assert forall b :: b in gathered.bases <==> b in Outside(gathered.bases, table);
      NoFileIsInside(ds, table, p);
    }
  }

  /** With no declared base inside the table, a file stays inside only by naming no base. */
  lemma {:induction false} NoFileIsInside(ds: Handle, table: string, p: string -> Probe)
    requires OrderIsOf(ds) && Readable(ds)
    requires !exists b :: b in EvidenceOfAll(BasePathRefs(ds).value, p) && IsOwn(table, b.path)
    ensures FilesStayInside(ds, table) <==> ds.files.Ok? && !SomeBase(ds.files.value)
  {
    EmptyPathIsNotOwn(table);
    hide IsOwn;
    var declared := ds.bases.value.value;
    EvidenceIsOfTheRefs(BasePathRefs(ds).value, p);
    forall id | id in declared ensures !IsOwn(table, declared[id].path) {
      if declared[id].path != "" {
        assert id in ds.order;
        assert declared[id] in BasePathRefs(ds).value;
        assert EvidenceOf(declared[id], p) in EvidenceOfAll(BasePathRefs(ds).value, p);
      }
    }
  }

  lemma {:induction false} EmptyPathIsNotOwn(table: string)
    ensures !IsOwn(table, "")
  {
  }

  /** Whatever the compaction gate admits, the gate of the root-scoped operations admits. */
  lemma {:induction false} GcAdmitsWhatCompactionAdmits(ds: Handle, table: string, probe: string -> Probe)
    requires OrderIsOf(ds) && CompactionRefusal(ds, table, probe).None?
    ensures UnsupportedGcFlags(ds.reader, ds.writer).None?
  {
    hide CompactionRefusal, NoneFrom, UnsupportedGcFlags, FilesStayInside, OutsideBasesAreNoRoots, IsOwn;
    PermittedByTheRefs(ds, table, probe);
    GatesRefuseWhatTheyDoNotKnow(ds.reader, ds.writer);
  }
}
