/**
 Where the rewrite verdict falls short of the estate it was computed from (`rewrite_refusal` in
 `lakehouse_kit/base_refs.py`): it asks one overlapping root and no other. For every location there is an estate in
 which a pin beneath it goes unasked, and one in which an unconditional root at it does. `BaseVerdicts` says exactly
 when.
 */
module RewriteGaps {
  import opened Outcomes
  import opened Locations
  import opened BaseJudging
  import opened BaseRefs
  import opened BaseVerdicts

  // ---------------------------------------------------------------- a classification with a pin beneath a pin

  function DerivedBase(path: string, tag: string): RecordedBase {
    RecordedBase(path, StoreOf(path), DerivedFrom, true, None, FromSilver, None, Some(tag))
  }

  /** A place outside `path` and outside everything beneath it. */
  function Referrer(path: string): string {
    "y/y/y/" + path
  }

  /** One dataset, away from `path`, derived from `path` at tag v1 and from the dataset beneath it at tag v2. */
  function DerivedEstate(path: string): seq<Dataset> {
    [Dataset(Referrer(path), [BasePathRef(path, true), BasePathRef(path + "/x", true)])]
  }

  function DerivedRecord(path: string): BaseRecord {
    BaseRecord(Referrer(path), [DerivedBase(path, "v1"), DerivedBase(path + "/x", "v2")])
  }

  function DerivedReader(path: string): Reader<()> {
    (key: string) => if key == DecodedPath(Referrer(path)) then Ok(Some(DerivedRecord(path))) else Ok(None)
  }

  /** The three places are locations, none the other, and the dataset contains neither base. */
  lemma {:induction false} ThreePlaces(path: string)
    requires NamesALocation(path) && Normalise(path) == path
    ensures NamesALocation(path + "/x") && Normalise(path + "/x") == path + "/x"
    ensures NamesALocation(Referrer(path)) && Normalise(Referrer(path)) == Referrer(path)
    ensures DecodedPath(path + "/x") == DecodedPath(path) + "/x"
    ensures !Within(Referrer(path), path) && !Within(Referrer(path), path + "/x")
            && Within(Referrer(path), Referrer(path))
    ensures DecodedPath(path) != DecodedPath(Referrer(path)) && DecodedPath(path + "/x") != DecodedPath(Referrer(path))
  {
    var segs := Segments(path).value;
    SegmentsBeneath(path);
    SegmentsOfTheReferrer(path);
    DecodedPathIsInjective(path, Referrer(path));
    DecodedPathIsInjective(path + "/x", Referrer(path));
    LocationIsPlain(path);
    JoinOfBoth(segs, ["x"]);
    hide Segments, Normalise, Join;
    assert |["y", "y", "y"] + segs| > |segs + ["x"]|;
    assert Join(["x"]) == "x" by { JoinOfOne("x"); }
  }

  lemma {:induction false} JoinOfOne(s: string)
    ensures Join([s]) == s
  {
  }

  lemma {:induction false} SegmentsBeneath(path: string)
    requires NamesALocation(path) && Normalise(path) == path
    ensures Normalise(path + "/x") == path + "/x" && Segments(path + "/x") == Some(Segments(path).value + ["x"])
  {
    hide Segments, Normalise;
    AWordIsALocation("x");
    SegmentsOfJoined(path, "x");
    assert path + "/" + "x" == path + "/x";
  }

  lemma {:induction false} SegmentsBehind(path: string)
    requires NamesALocation(path) && Normalise(path) == path
    ensures Normalise("y/" + path) == "y/" + path && Segments("y/" + path) == Some(["y"] + Segments(path).value)
  {
    hide Segments, Normalise;
    AWordIsALocation("y");
    SegmentsOfJoined("y", path);
    assert "y" + "/" + path == "y/" + path;
  }

  lemma {:induction false} SegmentsOfTheReferrer(path: string)
    requires NamesALocation(path) && Normalise(path) == path
    ensures Normalise(Referrer(path)) == Referrer(path)
            && Segments(Referrer(path)) == Some(["y", "y", "y"] + Segments(path).value)
  {
    hide Segments, Normalise;
    SegmentsBehind(path);
    SegmentsBehind("y/" + path);
    SegmentsBehind("y/" + ("y/" + path));
    assert "y/" + ("y/" + ("y/" + path)) == Referrer(path);
    assert ["y"] + (["y"] + (["y"] + Segments(path).value)) == ["y", "y", "y"] + Segments(path).value;
  }

  lemma {:induction false} DerivedOwner(path: string)
    requires NamesALocation(path) && Normalise(path) == path
    ensures OwnerOf(DerivedEstate(path), Referrer(path)) == (DecodedPath(Referrer(path)), Referrer(path))
  {
    ThreePlaces(path);
    hide Within, DecodedPath, NamesALocation, Normalise, OwnerOf;
    OwnerIsOutermost(DerivedEstate(path), Referrer(path), Referrer(path));
  }

  lemma {:induction false} DerivedJudgement(path: string, base: string, tag: string)
    requires NamesALocation(path) && Normalise(path) == path
    requires (base, tag) in {(path, "v1"), (path + "/x", "v2")}
    ensures JudgeBase(Referrer(path), BasePathRef(base, true), [], Some(DerivedRecord(path)))
            == Judgement(BasePathRef(base, true), Recorded, Some(DerivedBase(base, tag)))
    ensures IsForeign(Referrer(path), BasePathRef(base, true))
  {
    ThreePlaces(path);
    hide Within, DecodedPath, NamesALocation, Normalise, StoreOf;
    var entries := DerivedRecord(path).entries;
    assert Matches(DerivedBase(base, tag), BasePathRef(base, true));
    assert path != path + "/x";
    assert entries[1..] == [DerivedBase(path + "/x", "v2")];
    assert StandingWithoutARead(Referrer(path), BasePathRef(base, true), []).None?;
    assert FirstMatch(BasePathRef(base, true), entries) == Some(DerivedBase(base, tag));
  }

  function DerivedEdge(path: string, base: string, tag: string): Edge {
    Edge(Referrer(path), Referrer(path), Judgement(BasePathRef(base, true), Recorded, Some(DerivedBase(base, tag))))
  }

  lemma {:induction false} DerivedEdges(path: string)
    requires NamesALocation(path) && Normalise(path) == path
    ensures EdgesOf(DerivedEstate(path), 1, [], DerivedReader(path))
            == [DerivedEdge(path, path, "v1"), DerivedEdge(path, path + "/x", "v2")]
  {
    var uri, beneath := Referrer(path), path + "/x";
    DerivedOwner(path);
    DerivedJudgement(path, path, "v1");
    DerivedJudgement(path, beneath, "v2");
    hide Within, DecodedPath, NamesALocation, Normalise, OwnerOf, JudgeBase, IsForeign, StoreOf, Referrer;
    hide DerivedRecord, DerivedBase;
    var bases := [BasePathRef(path, true), BasePathRef(beneath, true)];
    assert bases[1..] == [BasePathRef(beneath, true)] && bases[1..][1..] == [];
    assert ForeignOf(uri, bases[1..]) == bases[1..];
    assert ForeignOf(uri, bases) == bases;
    EdgesOfOneMore(DerivedEstate(path), 0, [], DerivedReader(path));
    assert EdgesOf(DerivedEstate(path), 0, [], DerivedReader(path)) == [];
  }

  /** What the classification of that estate collects. */
  lemma {:induction false} DerivedRefs(path: string)
    requires NamesALocation(path) && Normalise(path) == path
    ensures var refs := Collected(EdgesOf(DerivedEstate(path), 1, [], DerivedReader(path)));
            && refs.protected == {}
            && refs.pinned == map[DecodedPath(path) := {"v1"}, DecodedPath(path) + "/x" := {"v2"}]
  {
    ThreePlaces(path);
    DerivedEdges(path);
    var one, two := DerivedEdge(path, path, "v1"), DerivedEdge(path, path + "/x", "v2");
    assert [one, two][..1] == [one] && [one][..0] == [];
    var first := Entered(NOTHING, one);
    PinEntered(NOTHING, path, path, "v1");
    PinEntered(first, path, path + "/x", "v2");
    hide Entered, DecodedPath, NamesALocation, Normalise, EdgesOf, DerivedEdge;
    assert first.pinned == map[DecodedPath(path) := {"v1"}] by { assert {} + {"v1"} == {"v1"}; }
    assert Collected([one]) == first && Collected([one, two]) == Entered(first, two);
    assert {} + {"v2"} == {"v2"};
  }

  lemma {:induction false} PinEntered(refs: Refs, path: string, base: string, tag: string)
    requires tag != ""
    ensures var more := Entered(refs, DerivedEdge(path, base, tag));
            var held := if DecodedPath(base) in refs.pinned then refs.pinned[DecodedPath(base)] else {};
            more.protected == refs.protected && more.pinned == refs.pinned[DecodedPath(base) := held + {tag}]
  {
    hide DecodedPath, FindingOf, StoreOf;
    assert DerivedEdge(path, base, tag).Pins();
  }

  lemma {:induction false} TwoRootsAreNormal(refs: Refs, a: string, b: string)
    requires refs.protected == {} && refs.pinned.Keys == {a, b} && Normalise(a) == a && Normalise(b) == b
    ensures RootsAreNormal(refs)
  {
    hide Normalise;
  }

  /** Over any refs that pin a location at v1 and a root beneath it at v2, and nothing else. */
  lemma {:induction false} PinAbovePin(refs: Refs, location: string, beneath: string)
    requires refs.protected == {} && refs.pinned == map[DecodedPath(location) := {"v1"}, beneath := {"v2"}]
    requires beneath == DecodedPath(location) + "/x" && RootsAreNormal(refs)
    ensures RewriteRefusal(refs, location, {"v1"}).None? && !UsesTheBranchExemption(refs, location)
    ensures GoesUnasked(refs, location, beneath) && !(refs.pinned[beneath] <= {"v1"})
  {
    var target := DecodedPath(location);
    hide DecodedPath, Normalise, RewriteRefusal, UsesTheBranchExemption, IsProtected;
    assert "v2" in refs.pinned[beneath];
    assert target + "/" <= beneath && target != beneath;
    assert Overlaps(target, beneath);
    assert PinnedInFull(refs, target, {"v1"}) by {
      assert !(target + "/" <= target) && !(beneath + "/" <= target);
    }
    assert NoProtectedOverlap(refs, target);
    hide PinnedInFull, Overlaps, NoProtectedOverlap, NoPinnedOverlap;
    RewriteIsPermittedExactlyWhen(refs, location, {"v1"});
    OutermostIsAsked(refs, location, {"v1"});
  }

  /** Where every location can be: an estate whose classification pins it, and a dataset beneath it, permits its
      rewrite on the tag that pins it alone, though the tag that pins the one beneath is missing. */
  lemma {:induction false} APinBeneathIsNotAsked(location: string)
    requires NamesALocation(location)
    ensures var path := Normalise(location);
            var refs := Collected(EdgesOf(DerivedEstate(path), |DerivedEstate(path)|, [], DerivedReader(path)));
            var beneath := DecodedPath(location) + "/x";
            && RewriteRefusal(refs, location, {"v1"}).None? && !UsesTheBranchExemption(refs, location)
            && beneath in refs.pinned && GoesUnasked(refs, location, beneath) && !(refs.pinned[beneath] <= {"v1"})
  {
    var path := Normalise(location);
    NormaliseIsIdempotent(location);
    assert |DerivedEstate(path)| == 1;
    hide DerivedEstate, DecodedPath, Normalise, Segments, Collected, EdgesOf, RewriteRefusal, UsesTheBranchExemption;
    hide GoesUnasked, DerivedReader;
    assert NamesALocation(path);
    hide NamesALocation;
    DerivedRefs(path);
    ThreePlaces(path);
    DecodedPathIsNormal(location);
    DecodedPathIsNormal(path + "/x");
    hide RootsAreNormal, Within;
    var refs := Collected(EdgesOf(DerivedEstate(path), 1, [], DerivedReader(path)));
    var target := DecodedPath(location);
    TwoRootsAreNormal(refs, target, target + "/x");
    PinAbovePin(refs, location, target + "/x");
  }

  // ---------------------------------------------------------------- a classification that overlooks a root

  function BranchOf(path: string): string {
    path + "/tree/b"
  }

  /** A table, a branch of it, which reads through the table, and a dataset elsewhere that reads through the branch. */
  function BranchedEstate(path: string): seq<Dataset> {
    [Dataset(path, []),
     Dataset(BranchOf(path), [BasePathRef(path, true)]),
     Dataset(Referrer(path), [BasePathRef(BranchOf(path), true)])]
  }

  /** What the dataset elsewhere had recorded: the branch, and no tag. */
  function BranchRecord(path: string): BaseRecord {
    BaseRecord(Referrer(path),
      [RecordedBase(BranchOf(path), StoreOf(BranchOf(path)), Data, true, None, FromCreate, None, None)])
  }

  function BranchedReader(path: string): Reader<()> {
    (key: string) => if key == DecodedPath(Referrer(path)) then Ok(Some(BranchRecord(path))) else Ok(None)
  }

  lemma {:induction false} SegmentsOfTree()
    ensures NamesALocation("tree/b") && Normalise("tree/b") == "tree/b" && Segments("tree/b") == Some(["tree", "b"])
    ensures Join(["tree", "b"]) == "tree/b"
  {
    hide Segments, Normalise;
    AWordIsALocation("tree");
    AWordIsALocation("b");
    SegmentsOfJoined("tree", "b");
    assert "tree" + "/" + "b" == "tree/b" && ["tree"] + ["b"] == ["tree", "b"];
    DecodedPathIsNormal("tree/b");
  }

  lemma {:induction false} SegmentsOfTheBranch(path: string)
    requires NamesALocation(path) && Normalise(path) == path
    ensures Normalise(BranchOf(path)) == BranchOf(path)
    ensures Segments(BranchOf(path)) == Some(Segments(path).value + ["tree", "b"])
  {
    hide Segments, Normalise, Join;
    SegmentsOfTree();
    SegmentsOfJoined(path, "tree/b");
    assert path + "/" + "tree/b" == BranchOf(path);
  }

  lemma {:induction false} TheBranchDecodes(path: string)
    requires NamesALocation(path) && Normalise(path) == path
    ensures DecodedPath(BranchOf(path)) == DecodedPath(path) + "/tree/b"
    ensures StoreOf(BranchOf(path)) == StoreOf(path)
  {
    hide Segments, Normalise, Join, StoreOf;
    SegmentsOfTree();
    SegmentsOfTheBranch(path);
    LocationIsPlain(path);
    LocationIsPlain(BranchOf(path));
    NormalisedStays(path);
    NormalisedStays(BranchOf(path));
    JoinOfBoth(Segments(path).value, ["tree", "b"]);
    assert "/" + "tree/b" == "/tree/b";
  }

  /** The branch is beneath the table, neither contains the place elsewhere, nor does that contain them. */
  lemma {:induction false} PlacesOfTheBranch(path: string)
    requires NamesALocation(path) && Normalise(path) == path
    ensures NamesALocation(BranchOf(path)) && NamesALocation(Referrer(path))
    ensures Within(path, path) && Within(path, BranchOf(path)) && Within(BranchOf(path), BranchOf(path))
    ensures Within(Referrer(path), Referrer(path))
    ensures !Within(BranchOf(path), path) && !Within(Referrer(path), path) && !Within(Referrer(path), BranchOf(path))
    ensures DecodedPath(path) != DecodedPath(BranchOf(path))
            && DecodedPath(BranchOf(path)) != DecodedPath(Referrer(path))
  {
    SegmentsOfTheBranch(path);
    SegmentsOfTheReferrer(path);
    DecodedPathIsInjective(path, BranchOf(path));
    DecodedPathIsInjective(BranchOf(path), Referrer(path));
    hide Segments;
    var segs := Segments(path).value;
    assert |segs| < |segs + ["tree", "b"]| < |["y", "y", "y"] + segs|;
  }

  lemma {:induction false} TheBranchReadsTheTable(path: string)
    requires NamesALocation(path) && Normalise(path) == path
    ensures var e := Judged(BranchedEstate(path), [], BranchedReader(path), BranchOf(path), BasePathRef(path, true));
            e.Sanctioned() && !e.Pins() && IsForeign(BranchOf(path), BasePathRef(path, true))
  {
    PlacesOfTheBranch(path);
    hide NamesALocation, DecodedPath, Within, OwnerOf, Normalise, StoreOf, Referrer, BranchOf, BranchedReader;
    OwnerIsOutermost(BranchedEstate(path), BranchOf(path), path);
    assert OwnerOf(BranchedEstate(path), BranchOf(path)).1 == path;
    StandingExactly(path, BasePathRef(path, true), [], RecordOf(BranchedReader(path)(DecodedPath(path))));
  }

  lemma {:induction false} TheReferrerReadsTheBranch(path: string)
    requires NamesALocation(path) && Normalise(path) == path
    ensures var ref := BasePathRef(BranchOf(path), true);
            var e := Judged(BranchedEstate(path), [], BranchedReader(path), Referrer(path), ref);
            e.Sanctioned() && !e.Pins() && IsForeign(Referrer(path), ref)
  {
    PlacesOfTheBranch(path);
    SegmentsOfTheBranch(path);
    TheBranchDecodes(path);
    hide NamesALocation, DecodedPath, Within, OwnerOf, Normalise, StoreOf, Referrer, BranchOf;
    var estate, ref := BranchedEstate(path), BasePathRef(BranchOf(path), true);
    OwnerIsOutermost(estate, Referrer(path), Referrer(path));
    var owner := OwnerOf(estate, Referrer(path));
    assert owner.1 in {path, BranchOf(path), Referrer(path)};
    var record := RecordOf(BranchedReader(path)(owner.0));
    StandingExactly(owner.1, ref, [], record);
    if owner.1 == Referrer(path) {
      assert Matches(BranchRecord(path).entries[0], ref);
      assert IsRecorded(ref, record);
    } else {
      assert WithinStore(owner.1, BranchOf(path));
    }
  }

  lemma {:induction false} BothAreProtected(path: string)
    requires NamesALocation(path) && Normalise(path) == path
    ensures var edges := EdgesOf(BranchedEstate(path), 3, [], BranchedReader(path));
            ProtectedBy(edges, DecodedPath(path)) && ProtectedBy(edges, DecodedPath(BranchOf(path)))
  {
    TheBranchReadsTheTable(path);
    TheReferrerReadsTheBranch(path);
    hide NamesALocation, DecodedPath, Normalise, IsForeign, Judged, EdgesOf, BranchOf, Referrer, BranchedReader;
    var estate, reader := BranchedEstate(path), BranchedReader(path);
    var table, branch := BasePathRef(path, true), BasePathRef(BranchOf(path), true);
    assert estate[1].uri == BranchOf(path) && table in estate[1].bases;
    assert estate[2].uri == Referrer(path) && branch in estate[2].bases;
    JudgedIsOf(estate, [], reader, BranchOf(path), table);
    JudgedIsOf(estate, [], reader, Referrer(path), branch);
    EdgesAreTheForeignBases(estate, 3, [], reader, Judged(estate, [], reader, BranchOf(path), table));
    EdgesAreTheForeignBases(estate, 3, [], reader, Judged(estate, [], reader, Referrer(path), branch));
  }

  lemma {:induction false} OnlyTheseAreProtected(path: string, root: string)
    requires ProtectedBy(EdgesOf(BranchedEstate(path), 3, [], BranchedReader(path)), root)
    ensures root in {DecodedPath(path), DecodedPath(BranchOf(path))}
  {
    hide DecodedPath, IsForeign, Judged, EdgesOf, BranchOf, Referrer, BranchedReader;
    var estate, reader := BranchedEstate(path), BranchedReader(path);
    var e :| e in EdgesOf(estate, 3, [], reader) && e.Sanctioned() && !e.Pins() && e.Base() == root;
    EdgesAreTheForeignBases(estate, 3, [], reader, e);
    var i, ref :| 0 <= i < 3 && ref in estate[i].bases && IsForeign(estate[i].uri, ref)
                  && e == Judged(estate, [], reader, estate[i].uri, ref);
    JudgedIsOf(estate, [], reader, estate[i].uri, ref);
    assert ref.path in {path, BranchOf(path)};
  }

  lemma {:induction false} ProtectedAre(edges: seq<Edge>, a: string, b: string)
    requires ProtectedBy(edges, a) && ProtectedBy(edges, b) && forall r :: ProtectedBy(edges, r) ==> r == a || r == b
    ensures Collected(edges).protected == {a, b}
  {
    hide Collected, ProtectedBy, PinnedBy, HeldBy, FoundBy;
    CollectedReflects(edges);
  }

  /** What its classification protects: the table and the branch, and nothing else. */
  lemma {:induction false} BranchedRefs(path: string)
    requires NamesALocation(path) && Normalise(path) == path
    ensures Collected(EdgesOf(BranchedEstate(path), 3, [], BranchedReader(path))).protected
            == {DecodedPath(path), DecodedPath(BranchOf(path))}
  {
    assert |BranchedEstate(path)| == 3;
    hide *;
    BothAreProtected(path);
    var edges := EdgesOf(BranchedEstate(path), 3, [], BranchedReader(path));
    forall r | ProtectedBy(edges, r) ensures r == DecodedPath(path) || r == DecodedPath(BranchOf(path)) {
      OnlyTheseAreProtected(path, r);
    }
    ProtectedAre(edges, DecodedPath(path), DecodedPath(BranchOf(path)));
  }

  lemma {:induction false} JudgedIsOf<E>(
      estate: seq<Dataset>, configured: seq<string>, recordAt: Reader<E>, uri: string, ref: BasePathRef)
    ensures Judged(estate, configured, recordAt, uri, ref).judgement.ref == ref
  {
    hide OwnerOf;
  }

  /** For every table there is an estate whose classification protects a branch of it unconditionally, a dataset
      elsewhere reading through that branch, and permits the branch's rewrite all the same, on any tags or none: the
      table, which the branch itself reads through, is the root asked. */
  lemma {:induction false} AnUnconditionalRootIsOverlooked(table: string, tags: set<string>)
    requires NamesALocation(table)
    ensures var path := Normalise(table);
            var refs := Collected(EdgesOf(BranchedEstate(path), |BranchedEstate(path)|, [], BranchedReader(path)));
            && DecodedPath(BranchOf(path)) in refs.protected
            && RewriteRefusal(refs, BranchOf(path), tags).None? && UsesTheBranchExemption(refs, BranchOf(path))
            && GoesUnasked(refs, BranchOf(path), DecodedPath(BranchOf(path)))
  {
    var path := Normalise(table);
    NormaliseIsIdempotent(table);
    assert |BranchedEstate(path)| == 3;
    hide BranchedEstate, DecodedPath, Normalise, Segments, Collected, EdgesOf, RewriteRefusal, UsesTheBranchExemption;
    hide GoesUnasked, BranchedReader, BranchOf;
    assert NamesALocation(path);
    hide NamesALocation;
    BranchedRefs(path);
    TheBranchDecodes(path);
    ClassifiedRootsAreNormal(BranchedEstate(path), [], BranchedReader(path));
    hide RootsAreNormal, StoreOf;
    BranchOfARoot(Collected(EdgesOf(BranchedEstate(path), 3, [], BranchedReader(path))), BranchOf(path),
                  DecodedPath(path), tags);
  }

  /** Over any refs that protect exactly a root and, in a branch of it, the location. */
  lemma {:induction false} BranchOfARoot(refs: Refs, location: string, root: string, tags: set<string>)
    requires RootsAreNormal(refs) && refs.protected == {root, DecodedPath(location)}
    requires DecodedPath(location) == root + "/tree/b"
    ensures RewriteRefusal(refs, location, tags).None? && UsesTheBranchExemption(refs, location)
    ensures GoesUnasked(refs, location, DecodedPath(location))
  {
    var target := DecodedPath(location);
    hide DecodedPath, Normalise, RewriteRefusal, UsesTheBranchExemption, RootsAreNormal, IsProtected;
    assert root + "/" <= target && target[|root|..] == "/tree/b";
    assert Outermost(refs.protected, target, root);
    assert HasBranchSegment("/tree/b") by { assert "/tree/b"[..6] == "/tree/"; }
    BranchBySegments(target, root);
    assert InABranch(refs.protected, target);
    ExemptExactlyWhen(refs, location);
    EveryPermit(refs, location, tags);
    UnaskedUnderTheExemption(refs, location, target);
    assert Overlaps(target, root) && Overlaps(target, target);
  }
}
